/** Retries, backoff, recovery and pacing of the feed client. Durations are whole nanoseconds. */
module FeedRetry {
  import opened Integers
  import opened Wrappers
  import opened Powers

  /** The longest representable duration: 2^64 - 1 seconds and 999999999 nanoseconds. */
  const DURATION_MAX: nat := U64_MAX * 1_000_000_000 + 999_999_999

  function SaturatingDouble(d: nat): nat { Min(2 * d, DURATION_MAX) }

  function DurationSum(a: nat, b: nat): nat { Min(a + b, DURATION_MAX) }

  /** The k-th of a series of waits that starts as given and then doubles up to a maximum. */
  function Backoff(initial: nat, max: nat, k: nat): nat {
    if k == 0 then initial else Min(SaturatingDouble(Backoff(initial, max, k - 1)), max)
  }

  /** The first wait is not capped; every later one is the capped power of two. */
  function Wait(initial: nat, max: nat, k: nat): nat {
    if k == 0 then initial else Min(initial * Pow2(k), max)
  }

  predicate AreWaits(initial: nat, max: nat, sleeps: seq<nat>) {
    forall k: nat :: k < |sleeps| ==> sleeps[k] == Wait(initial, max, k)
  }

  lemma {:induction false} BackoffClosedForm(initial: nat, max: nat, k: nat)
    requires max <= 0xFFFF_FFFF_FFFF_FFFF * 1_000_000_000 + 999_999_999
    ensures Backoff(initial, max, k) == Wait(initial, max, k)
  {
    if k == 1 {
      assert Pow2(1) == 2 * Pow2(0) == 2;
      assert Backoff(initial, max, 1) == Min(SaturatingDouble(Backoff(initial, max, 0)), max);
    } else if k > 1 {
      BackoffClosedForm(initial, max, k - 1);
      assert initial * Pow2(k) == 2 * (initial * Pow2(k - 1)) by { assert Pow2(k) == 2 * Pow2(k - 1); }
    }
  }

  lemma NextWait(initial: nat, max: nat, sleeps: seq<nat>, delay: nat)
    requires max <= DURATION_MAX && AreWaits(initial, max, sleeps) && delay == Backoff(initial, max, |sleeps|)
    ensures AreWaits(initial, max, sleeps + [delay])
    ensures Min(SaturatingDouble(delay), max) == Backoff(initial, max, |sleeps| + 1)
  {
    BackoffClosedForm(initial, max, |sleeps|);
  }

  // ----- one page fetch

  datatype Config = Config(maxRetries: nat, initialRetryDelay: nat, maxRetryDelay: nat)

  /** What comes of one request; `page` is there when a successful answer could be parsed. */
  datatype Attempt = Answered(status: nat, page: Option<int>) | Timeout | Transport

  datatype FetchError = RetryExhausted(attempts: nat, lastStatus: nat) | TimedOut | TransportFailed
    | NonSuccessStatus(status: nat) | BadPage

  /** What the k-th request of the n-th fetch gives: the requests may come out any way at all. */
  type Attempts = (nat, nat) -> Attempt

  predicate IsSuccess(status: nat) {
    200 <= status < 300
  }

  predicate ShouldRetryStatus(status: nat) {
    status in {429, 500, 502, 503, 504}
  }

  predicate IsRetried(attempt: Attempt) {
    attempt.Timeout? || (attempt.Answered? && ShouldRetryStatus(attempt.status))
  }

  /** The outcome of the last of `sends` requests. */
  function Verdict(last: Attempt, sends: nat): Result<int, FetchError> {
    match last
    case Timeout => Err(TimedOut)
    case Transport => Err(TransportFailed)
    case Answered(status, page) =>
      if ShouldRetryStatus(status) then Err(RetryExhausted(sends, status))
      else if !IsSuccess(status) then Err(NonSuccessStatus(status))
      else match page
        case Some(p) => Ok(p)
        case None => Err(BadPage)
  }

  /** How many requests one fetch makes: up to the first that is not to be retried, or all. */
  ghost predicate IsSendCount(config: Config, attempts: Attempts, fetch: nat, sends: nat) {
    && 1 <= sends <= config.maxRetries + 1
    && (forall k: nat :: k < sends - 1 ==> IsRetried(attempts(fetch, k)))
    && (IsRetried(attempts(fetch, sends - 1)) ==> sends == config.maxRetries + 1)
  }

  /** What one fetch comes to: the verdict on its last request. */
  ghost predicate IsFetch(config: Config, attempts: Attempts, fetch: nat, sends: nat, r: Result<int, FetchError>) {
    IsSendCount(config, attempts, fetch, sends) && r == Verdict(attempts(fetch, sends - 1), sends)
  }

  ghost predicate IsFetchOf(config: Config, attempts: Attempts, fetch: nat, r: Result<int, FetchError>) {
    exists sends: nat :: IsFetch(config, attempts, fetch, sends, r)
  }

  method FetchPageWithRetries(config: Config, attempts: Attempts, fetch: nat)
    returns (r: Result<int, FetchError>, sends: nat, sleeps: seq<nat>)
    requires config.maxRetryDelay <= DURATION_MAX
    ensures IsFetch(config, attempts, fetch, sends, r)
    ensures |sleeps| == sends - 1 && AreWaits(config.initialRetryDelay, config.maxRetryDelay, sleeps)
  {
    var attempt := 1;
    var delay := config.initialRetryDelay;
    sleeps := [];
    while true
      invariant 1 <= attempt <= config.maxRetries + 1
      invariant forall k: nat :: k < attempt - 1 ==> IsRetried(attempts(fetch, k))
      invariant |sleeps| == attempt - 1
      invariant delay == Backoff(config.initialRetryDelay, config.maxRetryDelay, |sleeps|)
      invariant AreWaits(config.initialRetryDelay, config.maxRetryDelay, sleeps)
      decreases config.maxRetries + 1 - attempt
    {
      var outcome := attempts(fetch, attempt - 1);
      if !IsRetried(outcome) || attempt > config.maxRetries {
        return Verdict(outcome, attempt), attempt, sleeps;
      }
      NextWait(config.initialRetryDelay, config.maxRetryDelay, sleeps, delay);
      sleeps := sleeps + [delay];
      delay := Min(SaturatingDouble(delay), config.maxRetryDelay);
      attempt := attempt + 1;
    }
  }

  /** The count is determined by the outcomes. */
  lemma SendCountIsUnique(config: Config, attempts: Attempts, fetch: nat, a: nat, b: nat)
    requires IsSendCount(config, attempts, fetch, a) && IsSendCount(config, attempts, fetch, b)
    ensures a == b
  {
    var last: nat := Min(a, b) - 1;
    assert (a != b ==> IsRetried(attempts(fetch, last))) && last + 1 == Min(a, b);
  }

  /** So a fetch is determined by the outcomes of its requests. */
  lemma FetchIsDetermined(
    config: Config, attempts: Attempts, fetch: nat, r: Result<int, FetchError>, s: Result<int, FetchError>)
    requires IsFetchOf(config, attempts, fetch, r) && IsFetchOf(config, attempts, fetch, s)
    ensures r == s
  {
    var a: nat :| IsFetch(config, attempts, fetch, a, r);
    var b: nat :| IsFetch(config, attempts, fetch, b, s);
    SendCountIsUnique(config, attempts, fetch, a, b);
  }

  /** What a fetch comes to after k timeouts and refusals to be asked again, by the outcome of the
      next request: it ends there, unless that is one more of those and there are retries left. */
  lemma FetchComesTo(
    config: Config, attempts: Attempts, fetch: nat, sends: nat, r: Result<int, FetchError>, k: nat)
    requires IsFetch(config, attempts, fetch, sends, r) && k <= config.maxRetries
    requires forall j: nat :: j < k ==>
      var a := attempts(fetch, j);
      a.Timeout? || (a.Answered? && a.status in {429, 500, 502, 503, 504})
    ensures var a := attempts(fetch, k);
      && (a.Answered? && 200 <= a.status <= 299 && a.page.Some? ==> sends == k + 1 && r == Ok(a.page.value))
      && (a.Answered? && 200 <= a.status <= 299 && a.page.None? ==> sends == k + 1 && r == Err(BadPage))
      && (a.Answered? && (a.status < 200 || a.status > 299) && a.status !in {429, 500, 502, 503, 504} ==>
            sends == k + 1 && r == Err(NonSuccessStatus(a.status)))
      && (a.Transport? ==> sends == k + 1 && r == Err(TransportFailed))
      && (a.Answered? && a.status in {429, 500, 502, 503, 504} && k == config.maxRetries ==>
            sends == k + 1 && r == Err(RetryExhausted(k + 1, a.status)))
      && (a.Timeout? && k == config.maxRetries ==> sends == k + 1 && r == Err(TimedOut))
  {
    assert forall j: nat :: j < k ==> IsRetried(attempts(fetch, j));
    if !IsRetried(attempts(fetch, k)) || k == config.maxRetries {
      assert IsSendCount(config, attempts, fetch, k + 1);
      SendCountIsUnique(config, attempts, fetch, sends, k + 1);
    }
  }

  // ----- recovery from transient errors

  const RECOVERY_MAX_ATTEMPTS: nat := 8
  const RECOVERY_MAX_DELAY: nat := 30_000_000_000
  const MILLISECOND: nat := 1_000_000

  predicate IsTransient(error: FetchError) {
    error.TimedOut? || error.TransportFailed?
  }

  /** A fetch that ends in a transient error. */
  ghost predicate FailsTransiently(config: Config, attempts: Attempts, fetch: nat) {
    exists e :: IsFetchOf(config, attempts, fetch, Err(e)) && IsTransient(e)
  }

  /** The first fetches all failed transiently. */
  ghost predicate AllFailed(config: Config, attempts: Attempts, fetches: nat) {
    forall n: nat :: n < fetches ==> FailsTransiently(config, attempts, n)
  }

  /** How a recovery ends: every fetch but the last failed transiently, and the last did not or was
      the last allowed. */
  ghost predicate IsRecovery(
    config: Config, attempts: Attempts, fetches: nat, r: Result<int, FetchError>)
  {
    && 1 <= fetches <= RECOVERY_MAX_ATTEMPTS
    && AllFailed(config, attempts, fetches - 1)
    && IsFetchOf(config, attempts, fetches - 1, r)
    && (r.Err? && IsTransient(r.error) ==> fetches == RECOVERY_MAX_ATTEMPTS)
  }

  function Sum(counts: seq<nat>): nat {
    if counts == [] then 0 else Sum(counts[..|counts| - 1]) + counts[|counts| - 1]
  }

  /** The requests of each fetch so far. */
  ghost predicate AreCounts(config: Config, attempts: Attempts, counts: seq<nat>) {
    forall n: nat :: n < |counts| ==> IsSendCount(config, attempts, n, counts[n])
  }

  lemma {:induction false} SumIsBounded(config: Config, attempts: Attempts, counts: seq<nat>)
    requires AreCounts(config, attempts, counts)
    ensures |counts| <= Sum(counts) <= |counts| * (config.maxRetries + 1)
  {
    if counts != [] {
      var front, last := counts[..|counts| - 1], |counts| - 1;
      assert forall n: nat :: n < |front| ==> front[n] == counts[n];
      SumIsBounded(config, attempts, front);
      assert IsSendCount(config, attempts, last, counts[last]);
      assert |counts| * (config.maxRetries + 1) == |front| * (config.maxRetries + 1) + (config.maxRetries + 1);
    }
  }

  lemma SendsAreBounded(config: Config, attempts: Attempts, counts: seq<nat>)
    requires AreCounts(config, attempts, counts) && |counts| <= RECOVERY_MAX_ATTEMPTS
    ensures |counts| <= Sum(counts) <= RECOVERY_MAX_ATTEMPTS * (config.maxRetries + 1)
  {
    SumIsBounded(config, attempts, counts);
    MoreFetchesMoreSends(|counts|, config.maxRetries + 1);
  }

  lemma MoreFetchesMoreSends(fetches: nat, perFetch: nat)
    requires fetches <= RECOVERY_MAX_ATTEMPTS
    ensures fetches * perFetch <= RECOVERY_MAX_ATTEMPTS * perFetch
  {}

  lemma OneMoreCount(config: Config, attempts: Attempts, counts: seq<nat>, sent: nat)
    requires AreCounts(config, attempts, counts) && IsSendCount(config, attempts, |counts|, sent)
    ensures AreCounts(config, attempts, counts + [sent]) && Sum(counts + [sent]) == Sum(counts) + sent
  {
    assert (counts + [sent])[..|counts|] == counts;
  }

  lemma FailedTransiently(config: Config, attempts: Attempts, fetch: nat, r: Result<int, FetchError>)
    requires IsFetchOf(config, attempts, fetch, r) && r.Err? && IsTransient(r.error)
    ensures FailsTransiently(config, attempts, fetch)
  {}

  lemma OneMoreFailure(config: Config, attempts: Attempts, fetches: nat)
    requires AllFailed(config, attempts, fetches) && FailsTransiently(config, attempts, fetches)
    ensures AllFailed(config, attempts, fetches + 1)
  {}

  /** So many fetches have failed transiently, with these requests and waits. */
  ghost predicate Recovering(
    config: Config, attempts: Attempts, first: nat, counts: seq<nat>, sends: nat, sleeps: seq<nat>, delay: nat)
  {
    && |counts| == |sleeps| < RECOVERY_MAX_ATTEMPTS && sends == Sum(counts)
    && AreCounts(config, attempts, counts) && AllFailed(config, attempts, |counts|)
    && AreWaits(first, RECOVERY_MAX_DELAY, sleeps) && delay == Backoff(first, RECOVERY_MAX_DELAY, |sleeps|)
  }

  lemma NextFetch(
    config: Config, attempts: Attempts, first: nat, counts: seq<nat>, sends: nat, sleeps: seq<nat>, delay: nat,
    r: Result<int, FetchError>, sent: nat)
    requires Recovering(config, attempts, first, counts, sends, sleeps, delay)
    requires IsFetchOf(config, attempts, |counts|, r) && IsSendCount(config, attempts, |counts|, sent)
    ensures AreCounts(config, attempts, counts + [sent]) && Sum(counts + [sent]) == sends + sent
    ensures |counts| + 1 <= sends + sent <= RECOVERY_MAX_ATTEMPTS * (config.maxRetries + 1)
    ensures if r.Ok? || !IsTransient(r.error) || |counts| + 1 == RECOVERY_MAX_ATTEMPTS
      then IsRecovery(config, attempts, |counts| + 1, r)
      else Recovering(config, attempts, first, counts + [sent], sends + sent, sleeps + [delay],
             Min(SaturatingDouble(delay), RECOVERY_MAX_DELAY))
  {
    OneMoreCount(config, attempts, counts, sent);
    SendsAreBounded(config, attempts, counts + [sent]);
    if r.Err? && IsTransient(r.error) {
      FailedTransiently(config, attempts, |counts|, r);
      OneMoreFailure(config, attempts, |counts|);
      NextWait(first, RECOVERY_MAX_DELAY, sleeps, delay);
    }
  }

  /** `counts` says how many each fetch made. */
  method FetchWithTransientRecovery(config: Config, attempts: Attempts, initialDelay: nat)
    returns (r: Result<int, FetchError>, fetches: nat, sends: nat, sleeps: seq<nat>, ghost counts: seq<nat>)
    requires config.maxRetryDelay <= DURATION_MAX
    ensures IsRecovery(config, attempts, fetches, r)
    ensures AreCounts(config, attempts, counts) && |counts| == fetches && sends == Sum(counts)
    ensures fetches <= 8 && fetches <= sends <= 8 * (config.maxRetries + 1)
    ensures |sleeps| == fetches - 1 && AreWaits(Max(initialDelay, 1_000_000), 30_000_000_000, sleeps)
  {
    var first: nat := Max(initialDelay, MILLISECOND);
    var delay: nat := first;
    fetches, sends, sleeps, counts := 0, 0, [], [];
    while true
      invariant Recovering(config, attempts, first, counts, sends, sleeps, delay) && |counts| == fetches
      decreases RECOVERY_MAX_ATTEMPTS - fetches
    {
      var page, sent, _ := FetchPageWithRetries(config, attempts, fetches);
      NextFetch(config, attempts, first, counts, sends, sleeps, delay, page, sent);
      fetches, sends, counts := fetches + 1, sends + sent, counts + [sent];
      if page.Ok? || !IsTransient(page.error) || fetches >= RECOVERY_MAX_ATTEMPTS {
        return page, fetches, sends, sleeps, counts;
      }
      sleeps := sleeps + [delay];
      delay := Min(SaturatingDouble(delay), RECOVERY_MAX_DELAY);
    }
  }

  /** The outcomes of the requests determine how often is fetched and what comes of it. */
  lemma RecoveryIsDetermined(
    config: Config, attempts: Attempts, a: nat, b: nat, r: Result<int, FetchError>, s: Result<int, FetchError>)
    requires IsRecovery(config, attempts, a, r) && IsRecovery(config, attempts, b, s)
    ensures a == b && r == s
  {
    if a < b {
      OnlyTheLastMayStop(config, attempts, a, b, r, s);
    } else if b < a {
      OnlyTheLastMayStop(config, attempts, b, a, s, r);
    } else {
      FetchIsDetermined(config, attempts, a - 1, r, s);
    }
  }

  /** What a recovery comes to after n fetches that timed out or failed in transport, by what the next
      one comes to: with that, if it is neither, or if it is the eighth. */
  lemma RecoveryComesTo(
    config: Config, attempts: Attempts, fetches: nat, r: Result<int, FetchError>, n: nat, s: Result<int, FetchError>)
    requires IsRecovery(config, attempts, fetches, r) && n < 8 && IsFetchOf(config, attempts, n, s)
    requires forall j: nat :: j < n ==>
      IsFetchOf(config, attempts, j, Err(TimedOut)) || IsFetchOf(config, attempts, j, Err(TransportFailed))
    ensures s.Ok? || s.error.RetryExhausted? || s.error.NonSuccessStatus? || s.error.BadPage? || n == 7 ==>
      fetches == n + 1 && r == s
    ensures s in {Err(TimedOut), Err(TransportFailed)} && n < 7 ==> fetches > n + 1
  {
    assert AllFailed(config, attempts, n) by {
      forall j: nat | j < n ensures FailsTransiently(config, attempts, j) {
        if IsFetchOf(config, attempts, j, Err(TimedOut)) {
          FailedTransiently(config, attempts, j, Err(TimedOut));
        } else {
          FailedTransiently(config, attempts, j, Err(TransportFailed));
        }
      }
    }
    if s.Err? && IsTransient(s.error) && n < 7 {
      FailedTransiently(config, attempts, n, s);
      if fetches <= n + 1 {
        var last: nat := fetches - 1;
        assert FailsTransiently(config, attempts, last);
        var e :| IsFetchOf(config, attempts, last, Err(e)) && IsTransient(e);
        FetchIsDetermined(config, attempts, last, r, Err(e));
      }
    } else {
      RecoveryIsDetermined(config, attempts, n + 1, fetches, s, r);
    }
  }

  lemma OnlyTheLastMayStop(
    config: Config, attempts: Attempts, a: nat, b: nat, r: Result<int, FetchError>, s: Result<int, FetchError>)
    requires IsRecovery(config, attempts, a, r) && IsRecovery(config, attempts, b, s)
    ensures a >= b
  {
    if a < b {
      var last: nat := a - 1;
      assert FailsTransiently(config, attempts, last);
      var e :| IsFetchOf(config, attempts, last, Err(e)) && IsTransient(e);
      FetchIsDetermined(config, attempts, last, r, Err(e));
      assert false;
    }
  }

  // ----- pacing, shared by all requests

  const TOO_MANY_REQUESTS: nat := 429

  function Observed(config: Config, pacing: nat, status: nat): nat {
    if status == TOO_MANY_REQUESTS then
      Min(Max(DurationSum(pacing, config.initialRetryDelay), config.initialRetryDelay), config.maxRetryDelay)
    else if IsSuccess(status) then pacing / 2
    else pacing
  }

  class Limiter {
    const config: Config
    var pacingDelay: nat

    constructor (config: Config)
      ensures this.config == config && pacingDelay == 0
    {
      this.config := config;
      pacingDelay := 0;
    }

    method RecordObservation(status: nat)
      modifies this
      ensures pacingDelay == Observed(config, old(pacingDelay), status)
      ensures 200 <= status <= 299 ==> pacingDelay == old(pacingDelay) / 2
      ensures status != 429 && !(200 <= status <= 299) ==> pacingDelay == old(pacingDelay)
    {
      if status == TOO_MANY_REQUESTS {
        pacingDelay := DurationSum(pacingDelay, config.initialRetryDelay);
        pacingDelay := Min(Max(pacingDelay, config.initialRetryDelay), config.maxRetryDelay);
      } else if IsSuccess(status) && pacingDelay != 0 {
        pacingDelay := pacingDelay / 2;
      }
    }
  }

  /** The pacing delay after the responses of all requests, in the order they were recorded. */
  function Pacing(config: Config, pacing: nat, statuses: seq<nat>): nat {
    if statuses == [] then pacing
    else Observed(config, Pacing(config, pacing, statuses[..|statuses| - 1]), statuses[|statuses| - 1])
  }

  /** However the requests interleave, no pause is longer than the maximal retry delay. */
  lemma {:induction false} PacingIsBounded(config: Config, statuses: seq<nat>)
    ensures Pacing(config, 0, statuses) <= config.maxRetryDelay
  {
    if statuses != [] {
      PacingIsBounded(config, statuses[..|statuses| - 1]);
    }
  }

  lemma OneMoreRefusal(config: Config, sum: nat)
    requires config.maxRetryDelay <= DURATION_MAX
    ensures Observed(config, Min(sum, config.maxRetryDelay), TOO_MANY_REQUESTS)
      == Min(sum + config.initialRetryDelay, config.maxRetryDelay)
  {}

  /** n pauses of the same length. */
  function Total(n: nat, pause: nat): (total: nat)
    ensures total == n * pause
  {
    if n == 0 then 0 else Total(n - 1, pause) + pause
  }

  lemma {:induction false} RefusalsAddUp(config: Config, pacing: nat, statuses: seq<nat>)
    requires config.maxRetryDelay <= DURATION_MAX && pacing <= config.maxRetryDelay
    requires forall i :: 0 <= i < |statuses| ==> statuses[i] == 429
    ensures Pacing(config, pacing, statuses)
      == Min(pacing + Total(|statuses|, config.initialRetryDelay), config.maxRetryDelay)
  {
    if statuses != [] {
      var front := statuses[..|statuses| - 1];
      RefusalsAddUp(config, pacing, front);
      OneMoreRefusal(config, pacing + Total(|front|, config.initialRetryDelay));
    }
  }

  lemma HalvedAgain(p: nat, d: nat)
    requires d > 0
    ensures p / d / 2 == p / (2 * d)
  {
    var q, r := p / d, p % d;
    var h := q / 2;
    assert p == q * d + r;
    assert q == 2 * h || q == 2 * h + 1;
    assert q * d == 2 * h * d || q * d == 2 * h * d + d;
    assert p - h * (2 * d) == (q - 2 * h) * d + r;
    assert 0 <= p - h * (2 * d) < 2 * d;
    DivisionIs(p, 2 * d, h);
  }

  lemma DivisionIs(p: nat, d: nat, q: nat)
    requires d > 0 && 0 <= p - q * d < d
    ensures p / d == q
  {
    var e := p / d - q;
    assert (p / d) * d == q * d + e * d;
    assert e * d < d && e * d > 0 - d;
  }

  lemma QuotientIsZeroIff(p: nat, d: nat)
    requires d > 0
    ensures p / d == 0 <==> d > p
  {
    if p < d {
      DivisionIs(p, d, 0);
    }
  }

  lemma {:induction false} SuccessHalves(config: Config, pacing: nat, statuses: seq<nat>)
    requires forall s :: s in statuses ==> 200 <= s <= 299
    ensures Pacing(config, pacing, statuses) == pacing / Pow2(|statuses|)
  {
    if statuses != [] {
      var front := statuses[..|statuses| - 1];
      assert statuses[|statuses| - 1] in statuses;
      assert forall s :: s in front ==> s in statuses;
      SuccessHalves(config, pacing, front);
      HalvedAgain(pacing, Pow2(|front|));
    }
  }

  /** k successes in a row end the pacing if and only if 2^k exceeds the delay. */
  lemma PacingEndsIff(config: Config, pacing: nat, statuses: seq<nat>)
    requires forall s :: s in statuses ==> 200 <= s <= 299
    ensures Pacing(config, pacing, statuses) == 0 <==> Pow2(|statuses|) > pacing
  {
    SuccessHalves(config, pacing, statuses);
    QuotientIsZeroIff(pacing, Pow2(|statuses|));
  }
}
