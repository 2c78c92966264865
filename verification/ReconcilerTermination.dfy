/** From which indexes the category loop ends, for tokens of any sign. */
module ReconcilerTermination {
  import opened Integers
  import opened Wrappers
  import opened ReconcilerModel
  import opened ReconcilerTheorems
  import opened ReconcilerOutcomes
  import opened ReconcilerRun
  import FiniteSets

  /** What a rebuild at b keeps of the index is as many documents as the projection has there. */
  ghost predicate RightCount(db: Snapshot, index: Index, b: int) {
    |Prefix(index, b) - Reapplied(db, b)| == |PrefixIds(Projection(db), b)|
  }

  /** A rebuild ends with equal totals if and only if what it kept had the right count. */
  lemma TotalsAgreeIffRightCount(db: Snapshot, index: Index, b: int)
    requires |db| < I64_MAX
    ensures TotalsAgree(db, Rebuilt(db, index, b)) <==> RightCount(db, index, b)
  {
    var p, after := Projection(db), Rebuilt(db, index, b);
    RebuiltParts(db, index, b);
    SplitCount(after, b);
    SplitCount(p, b);
    AgreementIsExact(db, after, b);
  }

  /** Rebuilding at a boundary does not change what a lower one will keep. */
  lemma RightCountStays(db: Snapshot, index: Index, b: int, c: int)
    requires |db| < I64_MAX && c <= b
    ensures RightCount(db, Rebuilt(db, index, b), c) <==> RightCount(db, index, c)
  {
    RebuiltTwice(db, index, b, c);
    TotalsAgreeIffRightCount(db, index, c);
    TotalsAgreeIffRightCount(db, Rebuilt(db, index, b), c);
  }

  // ----- passes that verified nothing

  ghost predicate IsVerified(db: Snapshot, index: Index)
    requires IndexInI64(index)
  {
    CountsAgree(db, index, Boundary(db, index))
  }

  /** A pass that verified nothing rebuilds at the default 0. */
  lemma UnverifiedPass(db: Snapshot, index: Index)
    requires Fits(db, index) && !IsVerified(db, index)
    ensures Boundary(db, index) == 0 && Pass(db, index) == Rebuilt(db, index, 0)
    ensures TotalsAgree(db, Pass(db, index)) <==> RightCount(db, index, 0)
  {
    BoundaryIsVerified(db, index);
    PassIsRebuilt(db, index);
    TotalsAgreeIffRightCount(db, index, 0);
  }

  /** A verified pass that is not the last one removes a stale document. */
  lemma VerifiedPass(db: Snapshot, index: Index)
    requires Fits(db, index)
    ensures Fits(db, Pass(db, index)) && |Stale(db, Pass(db, index))| <= |Stale(db, index)|
    ensures IsVerified(db, index) && !TotalsAgree(db, Pass(db, index)) ==>
      |Stale(db, Pass(db, index))| < |Stale(db, index)|
  {
    PassFits(db, index);
    PassIsRebuilt(db, index);
    StaleShrinks(db, index, Boundary(db, index));
    FiniteSets.SubsetCardinality(Stale(db, Pass(db, index)), Stale(db, index));
  }

  /** Nothing left to rebuild at 0: no document at or below 0 has a row to re-apply, and above 0 the
      index is the projection. */
  ghost predicate IsSettled(db: Snapshot, index: Index) {
    && (forall u :: u in index && index[u].latestSkiptoken <= 0 ==> u !in Reapplied(db, 0))
    && Suffix(index, 0) == Suffix(Projection(db), 0)
  }

  lemma SettledIsRebuilt(db: Snapshot, index: Index)
    requires IsSettled(db, index)
    ensures Rebuilt(db, index, 0) == index
  {
    RebuiltParts(db, index, 0);
    SubtractDisjoint(Prefix(index, 0), Reapplied(db, 0));
    SplitMap(Rebuilt(db, index, 0), index, 0);
  }

  lemma RebuiltAtZeroIsSettled(db: Snapshot, index: Index)
    ensures IsSettled(db, Rebuilt(db, index, 0))
  {
    var after := Rebuilt(db, index, 0);
    RebuiltParts(db, index, 0);
    forall u | u in after && after[u].latestSkiptoken <= 0 ensures u !in Reapplied(db, 0) {
      assert u in Prefix(after, 0);
    }
  }

  lemma NegativeKeepsSettled(db: Snapshot, index: Index, b: int)
    requires b < 0
    ensures IsSettled(db, Rebuilt(db, index, b))
  {
    var after := Rebuilt(db, index, b);
    RebuiltParts(db, index, b);
    assert Suffix(after, 0) == Suffix(Suffix(after, b), 0);
    assert Suffix(Projection(db), 0) == Suffix(Suffix(Projection(db), b), 0);
    forall u | u in after && after[u].latestSkiptoken <= 0 ensures u !in Reapplied(db, 0) {
      LookupRebuilt(db, index, b, u);
    }
  }

  /** Where nothing from 0 on agrees, a verified boundary is negative. */
  lemma SettledVerifiesBelowZero(db: Snapshot, index: Index)
    requires Fits(db, index) && IsSettled(db, index) && !TotalsAgree(db, index) && IsVerified(db, index)
    ensures Boundary(db, index) < 0
  {
    SettledIsRebuilt(db, index);
    if Boundary(db, index) >= 0 {
      DisagreementAbove(db, index, 0, Boundary(db, index));
    }
  }

  // ----- the fate of every index

  lemma EndsStep(db: Snapshot, index: Index, after: Index, n: nat)
    requires IndexInI64(index) && after == Pass(db, index)
    ensures CompletesWithin(db, index, n + 1) <==> TotalsAgree(db, after) || CompletesWithin(db, after, n)
  {}

  /** What is left to do: stale documents, and settling. */
  function Left(db: Snapshot, index: Index, settled: bool): nat {
    |Stale(db, index)| + (if settled then 0 else 1)
  }

  /** A pass that is not the last one: verified, it removes a stale document; otherwise it settles,
      and where that is done already it changes nothing. */
  lemma OneStep(db: Snapshot, index: Index, after: Index, settled: bool) returns (now: bool)
    requires Fits(db, index) && (settled ==> IsSettled(db, index) && !TotalsAgree(db, index))
    requires after == Pass(db, index) && !TotalsAgree(db, after)
    ensures Fits(db, after) && (now ==> IsSettled(db, after))
    ensures Left(db, after, now) < Left(db, index, settled) || (after == index && now == settled)
  {
    VerifiedPass(db, index);
    now := settled;
    if !IsVerified(db, index) {
      UnverifiedPass(db, index);
      RebuiltAtZeroIsSettled(db, index);
      if settled { SettledIsRebuilt(db, index); }
      now := true;
    } else if settled {
      SettledVerifiesBelowZero(db, index);
      PassIsRebuilt(db, index);
      NegativeKeepsSettled(db, index, Boundary(db, index));
    }
  }

  /** An index that is completed at all is completed soon. */
  lemma {:induction false} EndsSoon(db: Snapshot, index: Index, settled: bool, n: nat, m: nat)
    requires Fits(db, index) && (settled ==> IsSettled(db, index) && !TotalsAgree(db, index))
    requires CompletesWithin(db, index, n) && Left(db, index, settled) <= m
    ensures CompletesWithin(db, index, m + 1)
    decreases n
  {
    var after := Pass(db, index);
    EndsStep(db, index, after, n - 1);
    EndsStep(db, index, after, m);
    if !TotalsAgree(db, after) {
      var now := OneStep(db, index, after, settled);
      EndsSoon(db, after, now, n - 1, if after == index then m else m - 1);
    }
  }

  /** For any tokens: if the loop has not ended after two passes more than it has stale documents,
      it never will. */
  lemma EndsIff(db: Snapshot, index: Index)
    requires Fits(db, index)
    ensures Ends(db, index) <==> CompletesWithin(db, index, |Stale(db, index)| + 2)
  {
    if n: nat :| CompletesWithin(db, index, n) {
      EndsSoon(db, index, false, n, |Stale(db, index)| + 1);
    }
  }

  /** It can only end if at some boundary the kept documents have the right count. */
  lemma {:induction false} EndsOnlyWithRightCount(db: Snapshot, index: Index, n: nat) returns (b: int)
    requires Fits(db, index) && NonNegative(db, index) && CompletesWithin(db, index, n)
    ensures b >= 0 && RightCount(db, index, b)
    decreases n
  {
    b := Boundary(db, index);
    NonNegativePass(db, index);
    PassIsRebuilt(db, index);
    TotalsAgreeIffRightCount(db, index, b);
    if !TotalsAgree(db, Pass(db, index)) {
      PassFits(db, index);
      var c := EndsOnlyWithRightCount(db, Pass(db, index), n - 1);
      if c <= b {
        RightCountStays(db, index, b, c);
        b := c;
      } else {
        AboveIsRightAlike(db, index, b, c);
      }
    }
  }

  /** Above its boundary a rebuild with wrong totals has the wrong count everywhere. */
  lemma AboveIsRightAlike(db: Snapshot, index: Index, b: int, c: int)
    requires |db| < I64_MAX && b < c && RightCount(db, Rebuilt(db, index, b), c)
    ensures TotalsAgree(db, Rebuilt(db, index, b))
  {
    var after := Rebuilt(db, index, b);
    forall u ensures Lookup(Rebuilt(db, after, c), u) == Lookup(after, u) {
      LookupRebuilt(db, index, b, u);
      LookupRebuilt(db, after, c, u);
    }
    SameLookups(Rebuilt(db, after, c), after);
    TotalsAgreeIffRightCount(db, after, c);
  }

  // ----- tokens from 0 on

  ghost predicate NonNegative(db: Snapshot, index: Index) {
    && (forall u :: u in db && db[u].Live() ==> db[u].latestSkiptoken >= 0)
    && (forall u :: u in index ==> index[u].latestSkiptoken >= 0)
  }

  lemma NonNegativePass(db: Snapshot, index: Index)
    requires Fits(db, index) && NonNegative(db, index)
    ensures Boundary(db, index) >= 0 && NonNegative(db, Pass(db, index))
  {
    var highest := Highest(index);
    var h := if highest.Some? then highest.value else 0;
    assert h >= 0;
    if !CountsAgree(db, index, h) {
      SearchResult(db, index, 0, h, 0);
    }
    PassIsRebuilt(db, index);
    forall u | u in Pass(db, index) ensures Pass(db, index)[u].latestSkiptoken >= 0 {
      RebuiltDoc(db, index, Boundary(db, index), u);
    }
  }

  /** A run of verified passes that ends with equal totals. */
  ghost predicate IsVerifiedRun(db: Snapshot, index: Index, run: seq<Index>, bounds: seq<int>) {
    && |run| > 1 && run[0] == index && ArePasses(db, run) && AreBounds(db, run, bounds)
    && TotalsAgree(db, run[|run| - 1]) && forall k: nat :: k + 1 < |run| ==> IsVerifiedAt(db, run, bounds, k)
  }

  ghost predicate IsVerifiedAt(db: Snapshot, run: seq<Index>, bounds: seq<int>, k: nat)
    requires k < |run| && k < |bounds|
  {
    CountsAgree(db, run[k], bounds[k])
  }

  lemma {:induction false} PassesEnd(db: Snapshot, run: seq<Index>, k: nat)
    requires ArePasses(db, run) && k + 1 < |run| && TotalsAgree(db, run[|run| - 1])
    ensures CompletesWithin(db, run[k], |run| - 1 - k)
    decreases |run| - k
  {
    assert IsPass(db, run, k);
    if k + 2 < |run| { PassesEnd(db, run, k + 1); }
    EndsStep(db, run[k], run[k + 1], |run| - 2 - k);
  }

  /** Any number of passes. */
  lemma PassesFrom(db: Snapshot, index: Index, n: nat) returns (run: seq<Index>)
    requires Fits(db, index)
    ensures |run| == n + 1 && run[0] == index && ArePasses(db, run)
  {
    run := [index];
    while |run| <= n
      invariant 0 < |run| <= n + 1 && run[0] == index && ArePasses(db, run) && Fits(db, run[|run| - 1])
    {
      run := OnePassAfter(db, run);
    }
  }

  lemma OnePassAfter(db: Snapshot, run: seq<Index>) returns (more: seq<Index>)
    requires |run| > 0 && ArePasses(db, run) && Fits(db, run[|run| - 1])
    ensures |more| == |run| + 1 && more[0] == run[0] && ArePasses(db, more) && Fits(db, more[|run|])
  {
    var last := run[|run| - 1];
    PassFits(db, last);
    more := run + [Pass(db, last)];
    forall k: nat | k + 1 < |more| ensures IsPass(db, more, k) {
      if k + 1 < |run| { assert IsPass(db, run, k); }
    }
  }

  /** One of the passes of a loop that ends is the last. */
  lemma {:induction false} LastPass(db: Snapshot, run: seq<Index>, k: nat) returns (last: nat)
    requires ArePasses(db, run) && k < |run| && CompletesWithin(db, run[k], |run| - 1 - k)
    ensures k < last < |run| && TotalsAgree(db, run[last])
    decreases |run| - k
  {
    last := k + 1;
    assert IsPass(db, run, k);
    EndsStep(db, run[k], run[k + 1], |run| - 2 - k);
    if !TotalsAgree(db, run[k + 1]) {
      last := LastPass(db, run, k + 1);
    }
  }

  lemma FirstPasses(db: Snapshot, passes: seq<Index>, n: nat)
    requires ArePasses(db, passes) && n <= |passes|
    ensures ArePasses(db, passes[..n])
  {
    forall k: nat | k + 1 < n ensures IsPass(db, passes[..n], k) { assert IsPass(db, passes, k); }
  }

  /** The passes of a loop that ends. */
  lemma RunOf(db: Snapshot, index: Index, n: nat) returns (run: seq<Index>, last: Index)
    requires Fits(db, index) && CompletesWithin(db, index, n)
    ensures |run| > 1 && run[0] == index && ArePasses(db, run) && last == run[|run| - 1] && TotalsAgree(db, last)
  {
    var passes := PassesFrom(db, index, n);
    var k := LastPass(db, passes, 0);
    FirstPasses(db, passes, k + 1);
    run, last := passes[..k + 1], passes[k];
  }

  /** With the right count at 0 the loop ends: a pass that verifies nothing is the last one. */
  lemma {:induction false} RightCountEnds(db: Snapshot, index: Index, n: nat)
    requires Fits(db, index) && NonNegative(db, index) && RightCount(db, index, 0) && |Stale(db, index)| <= n
    ensures CompletesWithin(db, index, n + 1)
    decreases n
  {
    var after := Pass(db, index);
    VerifiedPass(db, index);
    if !TotalsAgree(db, after) {
      if !IsVerified(db, index) { UnverifiedPass(db, index); }
      NonNegativePass(db, index);
      PassIsRebuilt(db, index);
      RightCountStays(db, index, Boundary(db, index), 0);
      RightCountEnds(db, after, n - 1);
    }
    CompletesStep(db, index, after, n);
  }

  /** In range, without negative tokens, and with the wrong count at 0. */
  ghost predicate IsWrong(db: Snapshot, index: Index) {
    Fits(db, index) && NonNegative(db, index) && !RightCount(db, index, 0)
  }

  ghost function Wrong(db: Snapshot): iset<Index> {
    iset index: Index | IsWrong(db, index)
  }

  ghost function Stuck(db: Snapshot): iset<Index> {
    iset index: Index | IsStuck(db, index)
  }

  /** Rebuilt at 0 with unequal totals. */
  ghost predicate IsStuck(db: Snapshot, index: Index) {
    Fits(db, index) && NonNegative(db, index) && IsSettled(db, index) && !TotalsAgree(db, index)
  }

  /** A verified pass leaves the wrong count wrong; one that verifies nothing gets stuck. */
  lemma WrongStep(db: Snapshot, index: Index, after: Index, b: int)
    requires IsWrong(db, index) && after == Pass(db, index) && b == Boundary(db, index)
    ensures if CountsAgree(db, index, b) then IsWrong(db, after) else IsStuck(db, after)
  {
    NonNegativePass(db, index);
    PassFits(db, index);
    PassIsRebuilt(db, index);
    if CountsAgree(db, index, b) {
      RightCountStays(db, index, b, 0);
    } else {
      UnverifiedPass(db, index);
      RebuiltAtZeroIsSettled(db, index);
    }
  }

  /** From where it got stuck the loop changes nothing any more, so it stays stuck. */
  lemma StuckStep(db: Snapshot, index: Index, after: Index)
    requires IsStuck(db, index) && after == Pass(db, index)
    ensures IsStuck(db, after)
  {
    NonNegativePass(db, index);
    if IsVerified(db, index) { SettledVerifiesBelowZero(db, index); }
    UnverifiedPass(db, index);
    SettledIsRebuilt(db, index);
  }

  /** What every pass keeps, every run keeps. */
  ghost predicate ClosedUnderPasses(db: Snapshot, kept: iset<Index>) {
    forall index :: index in kept ==> IndexInI64(index) && Pass(db, index) in kept
  }

  lemma {:induction false} RunsKeep(db: Snapshot, kept: iset<Index>, run: seq<Index>, k: nat, n: nat)
    requires ClosedUnderPasses(db, kept) && ArePasses(db, run) && k <= n < |run| && run[k] in kept
    ensures run[n] in kept
    decreases n
  {
    if k < n {
      RunsKeep(db, kept, run, k, n - 1);
      assert IsPass(db, run, n - 1);
    }
  }

  /** A verified pass stays in the first set, any other leads to the second. */
  ghost predicate LeavesUnverified(db: Snapshot, from: iset<Index>, to: iset<Index>) {
    forall index :: index in from ==>
      IndexInI64(index) && Pass(db, index) in (if IsVerified(db, index) then from else to)
  }

  lemma LeavesAt(
    db: Snapshot, from: iset<Index>, to: iset<Index>, run: seq<Index>, bounds: seq<int>, k: nat)
    requires LeavesUnverified(db, from, to) && ArePasses(db, run) && AreBounds(db, run, bounds)
    requires k + 1 < |run| && run[k] in from
    ensures run[k + 1] in (if IsVerifiedAt(db, run, bounds, k) then from else to)
  {
    assert IsPass(db, run, k) && IsBound(db, run, bounds, k);
  }

  /** A run that does not end in the second set has verified with every pass. */
  lemma {:induction false} NeverLeft(
    db: Snapshot, from: iset<Index>, to: iset<Index>, run: seq<Index>, bounds: seq<int>, k: nat)
    requires LeavesUnverified(db, from, to) && ClosedUnderPasses(db, to)
    requires ArePasses(db, run) && AreBounds(db, run, bounds) && k + 1 < |run|
    requires run[0] in from && run[|run| - 1] !in to
    ensures IsVerifiedAt(db, run, bounds, k) && run[k + 1] in from
    decreases k
  {
    if k > 0 { NeverLeft(db, from, to, run, bounds, k - 1); }
    LeavesAt(db, from, to, run, bounds, k);
    if run[k + 1] in to {
      RunsKeep(db, to, run, k + 1, |run| - 1);
    }
  }

  lemma StuckIsClosed(db: Snapshot)
    ensures ClosedUnderPasses(db, Stuck(db))
  {
    forall index | index in Stuck(db) ensures IndexInI64(index) && Pass(db, index) in Stuck(db) {
      StuckStep(db, index, Pass(db, index));
    }
  }

  lemma WrongLeavesUnverified(db: Snapshot)
    ensures LeavesUnverified(db, Wrong(db), Stuck(db))
  {
    forall index | index in Wrong(db)
      ensures IndexInI64(index) && Pass(db, index) in (if IsVerified(db, index) then Wrong(db) else Stuck(db))
    {
      WrongStep(db, index, Pass(db, index), Boundary(db, index));
    }
  }

  ghost predicate Ends(db: Snapshot, index: Index) {
    exists n: nat :: CompletesWithin(db, index, n)
  }

  /** Verified passes alone make the totals equal. */
  ghost predicate EndsVerified(db: Snapshot, index: Index) {
    exists run, bounds :: IsVerifiedRun(db, index, run, bounds)
  }

  lemma {:induction false} RunFits(db: Snapshot, run: seq<Index>, k: nat)
    requires ArePasses(db, run) && k < |run| && Fits(db, run[0])
    ensures Fits(db, run[k])
  {
    if k > 0 {
      RunFits(db, run, k - 1);
      assert IsPass(db, run, k - 1);
      PassFits(db, run[k - 1]);
    }
  }

  lemma BoundsOf(db: Snapshot, run: seq<Index>) returns (bounds: seq<int>)
    requires ArePasses(db, run) && |run| > 0 && Fits(db, run[0])
    ensures AreBounds(db, run, bounds)
  {
    forall k: nat | k < |run| ensures IndexInI64(run[k]) { RunFits(db, run, k); }
    bounds := BoundsExist(db, run);
  }

  lemma WrongCountEndsIff(db: Snapshot, index: Index)
    requires Fits(db, index) && NonNegative(db, index) && !RightCount(db, index, 0)
    ensures Ends(db, index) ==> EndsVerified(db, index)
  {
    if n: nat :| CompletesWithin(db, index, n) {
      var run, last := RunOf(db, index, n);
      EndingRunVerifies(db, run, last);
    }
  }

  /** With the wrong count at 0, a loop that ends has verified with every pass: the first that
      verifies nothing is the first of endless ones. */
  lemma EndingRunVerifies(db: Snapshot, run: seq<Index>, last: Index)
    requires |run| > 1 && ArePasses(db, run) && IsWrong(db, run[0]) && last == run[|run| - 1] && TotalsAgree(db, last)
    ensures EndsVerified(db, run[0])
  {
    var bounds := BoundsOf(db, run);
    WrongLeavesUnverified(db);
    StuckIsClosed(db);
    assert run[0] in Wrong(db) && last !in Stuck(db);
    forall k: nat | k + 1 < |run| ensures IsVerifiedAt(db, run, bounds, k) {
      NeverLeft(db, Wrong(db), Stuck(db), run, bounds, k);
    }
    assert IsVerifiedRun(db, run[0], run, bounds);
  }

  lemma VerifiedEnds(db: Snapshot, index: Index)
    requires EndsVerified(db, index)
    ensures Ends(db, index)
  {
    var run, bounds :| IsVerifiedRun(db, index, run, bounds);
    PassesEnd(db, run, 0);
  }

  /**
   With no negative token, the loop ends exactly if the documents a rebuild at 0 keeps have the
   right count, or verified passes alone make the totals equal.
   */
  lemma NonNegativeEndsIff(db: Snapshot, index: Index)
    requires Fits(db, index) && NonNegative(db, index)
    ensures Ends(db, index) <==> RightCount(db, index, 0) || EndsVerified(db, index)
    ensures RightCount(db, index, 0) ==> CompletesWithin(db, index, |Stale(db, index)| + 1)
  {
    if RightCount(db, index, 0) {
      RightCountEnds(db, index, |Stale(db, index)|);
    } else {
      WrongCountEndsIff(db, index);
    }
    if EndsVerified(db, index) { VerifiedEnds(db, index); }
  }

  /** For positive tokens the count at 0 is right; for an empty index if no live row is at or below 0. */
  lemma RightCountSpecialCases(db: Snapshot, index: Index)
    ensures PositiveTokens(db, index) ==> RightCount(db, index, 0)
    ensures index == map[] ==>
      (RightCount(db, index, 0) <==> forall u :: u in db && db[u].Live() ==> db[u].latestSkiptoken > 0)
  {
    if PositiveTokens(db, index) {
      assert Prefix(index, 0) == map[] && PrefixIds(Projection(db), 0) == {};
      assert Prefix(index, 0) - Reapplied(db, 0) == map[];
    }
    if index == map[] {
      assert Prefix(index, 0) - Reapplied(db, 0) == map[];
      SuffixIsAllIff(db);
    }
  }

  // ----- below 0 the count alone does not decide

  /** A live row at -5, and a row deleted at -3 whose document is still indexed at -5. */
  const BELOW_ZERO: Snapshot := map[1 := Row(-5, false, Some([])), 2 := Row(-3, true, None)]
  const ONE_BELOW_ZERO: Index := map[2 := Doc(-5, [])]

  lemma BelowZeroProjects()
    ensures Projection(BELOW_ZERO) == map[1 := Doc(-5, [])]
    ensures PrefixIds(Projection(BELOW_ZERO), 0) == {1} && PrefixIds(Projection(BELOW_ZERO), -5) == {1}
  {}

  lemma BelowZeroReapplies()
    ensures Reapplied(BELOW_ZERO, 0) == {} && Reapplied(BELOW_ZERO, -5) == {2}
    ensures Prefix(ONE_BELOW_ZERO, 0) == ONE_BELOW_ZERO && Prefix(ONE_BELOW_ZERO, -5) == ONE_BELOW_ZERO
    ensures PrefixIds(ONE_BELOW_ZERO, -5) == {2} && RightCount(BELOW_ZERO, ONE_BELOW_ZERO, 0)
  {
    BelowZeroProjects();
    assert Prefix(ONE_BELOW_ZERO, 0) - Reapplied(BELOW_ZERO, 0) == ONE_BELOW_ZERO;
    assert |ONE_BELOW_ZERO| == 1;
  }

  lemma BelowZeroEmpties()
    ensures Pass(BELOW_ZERO, ONE_BELOW_ZERO) == map[] && !TotalsAgree(BELOW_ZERO, map[])
  {
    BelowZeroProjects();
    BelowZeroReapplies();
    HighestIsUnique(ONE_BELOW_ZERO, Highest(ONE_BELOW_ZERO), Some(-5));
    AgreementIsExact(BELOW_ZERO, ONE_BELOW_ZERO, -5);
    PassIsRebuilt(BELOW_ZERO, ONE_BELOW_ZERO);
    assert Rebuilt(BELOW_ZERO, ONE_BELOW_ZERO, -5) == map[];
    AgreementIsExact(BELOW_ZERO, map[], 0);
  }

  /** The count at 0 is right, and yet the loop never ends: a negative boundary is verified first,
      and the pass from it drops the document it counted. */
  lemma NegativeBoundaryNeverEnds(n: nat)
    ensures RightCount(BELOW_ZERO, ONE_BELOW_ZERO, 0) && !CompletesWithin(BELOW_ZERO, ONE_BELOW_ZERO, n)
  {
    BelowZeroReapplies();
    if n > 0 {
      BelowZeroEmpties();
      EndsStep(BELOW_ZERO, ONE_BELOW_ZERO, map[], n - 1);
      if n > 1 {
        assert 1 in BELOW_ZERO && BELOW_ZERO[1].Live();
        EmptyIndexCompletesIff(BELOW_ZERO, n - 1);
      }
    }
  }
}
