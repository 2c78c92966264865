/** A whole run of the category loop: all its passes together are one rebuild of the first index. */
module ReconcilerRun {
  import opened Integers
  import opened Wrappers
  import opened DocumentIds
  import opened ReconcilerModel
  import opened ReconcilerTheorems
  import opened ReconcilerOutcomes
  import FiniteSets

  /** An index a pass can start from: in range, with positive tokens, and no ids but those given. */
  ghost predicate IsSound(db: Snapshot, index: Index, ids: set<Uuid>) {
    Fits(db, index) && PositiveTokens(db, index) && index.Keys <= ids
  }

  /** A run as the indexes before, between and after its passes. */
  ghost predicate IsRun(db: Snapshot, run: seq<Index>, ids: set<Uuid>) {
    |run| > 0 && IsSound(db, run[0], ids) && db.Keys <= ids && ArePasses(db, run)
  }

  ghost predicate ArePasses(db: Snapshot, run: seq<Index>) {
    forall k: nat :: k + 1 < |run| ==> IsPass(db, run, k)
  }

  ghost predicate IsPass(db: Snapshot, run: seq<Index>, k: nat)
    requires k + 1 < |run|
  {
    IndexInI64(run[k]) && run[k + 1] == Pass(db, run[k])
  }

  /** No pass but possibly the last ended with equal totals. */
  ghost predicate GoesOn(db: Snapshot, run: seq<Index>) {
    forall k: nat :: 0 < k < |run| - 1 ==> !TotalsAgree(db, run[k])
  }

  /** A whole run: it ends with the first pass after which the totals agree. */
  ghost predicate IsWholeRun(db: Snapshot, run: seq<Index>, ids: set<Uuid>) {
    IsRun(db, run, ids) && |run| > 1 && GoesOn(db, run) && TotalsAgree(db, run[|run| - 1])
  }

  // ----- the passes of a run

  lemma PassKeepsSound(db: Snapshot, index: Index, ids: set<Uuid>)
    requires IsSound(db, index, ids) && db.Keys <= ids
    ensures IndexInI64(index) && IsSound(db, Pass(db, index), ids)
  {
    PassFits(db, index);
    PassShrinksStale(db, index);
    PassIsRebuilt(db, index);
    RebuiltKeys(db, index, Boundary(db, index));
  }

  lemma PassRemovesStale(db: Snapshot, index: Index, ids: set<Uuid>)
    requires IsSound(db, index, ids)
    ensures |Stale(db, Pass(db, index))| <= |Stale(db, index)|
    ensures !TotalsAgree(db, Pass(db, index)) ==> |Stale(db, Pass(db, index))| < |Stale(db, index)|
  {
    PassShrinksStale(db, index);
    FiniteSets.SubsetCardinality(Stale(db, Pass(db, index)), Stale(db, index));
    if !TotalsAgree(db, Pass(db, index)) {
      StrictSubset(Stale(db, Pass(db, index)), Stale(db, index));
    }
  }

  lemma RebuiltKeys(db: Snapshot, index: Index, b: int)
    ensures Rebuilt(db, index, b).Keys <= index.Keys + db.Keys
  {
    forall u | u in Rebuilt(db, index, b) ensures u in index.Keys + db.Keys {
      RebuiltDoc(db, index, b, u);
    }
  }

  lemma SoundStep(db: Snapshot, run: seq<Index>, ids: set<Uuid>, k: nat)
    requires ArePasses(db, run) && k + 1 < |run| && IsSound(db, run[k], ids) && db.Keys <= ids
    ensures IsSound(db, run[k + 1], ids)
  {
    assert IsPass(db, run, k);
    PassKeepsSound(db, run[k], ids);
  }

  lemma {:induction false} RunStaysSound(db: Snapshot, run: seq<Index>, ids: set<Uuid>, k: nat)
    requires IsRun(db, run, ids) && k < |run|
    ensures IsSound(db, run[k], ids)
  {
    if k > 0 {
      RunStaysSound(db, run, ids, k - 1);
      SoundStep(db, run, ids, k - 1);
    }
  }

  /** The number of documents to repair. */
  ghost function StaleCount(db: Snapshot, run: seq<Index>, k: nat): nat
    requires k < |run|
  {
    |Stale(db, run[k])|
  }

  lemma StaleStep(db: Snapshot, run: seq<Index>, ids: set<Uuid>, k: nat)
    requires IsRun(db, run, ids) && k + 1 < |run|
    ensures StaleCount(db, run, k + 1) <= StaleCount(db, run, k)
    ensures !TotalsAgree(db, run[k + 1]) ==> StaleCount(db, run, k + 1) < StaleCount(db, run, k)
  {
    RunStaysSound(db, run, ids, k);
    assert IsPass(db, run, k);
    PassRemovesStale(db, run[k], ids);
  }

  lemma {:induction false} RunShrinksStale(db: Snapshot, run: seq<Index>, ids: set<Uuid>, k: nat)
    requires IsRun(db, run, ids) && GoesOn(db, run) && k < |run|
    ensures StaleCount(db, run, k) <= StaleCount(db, run, 0)
    ensures k < |run| - 1 ==> k + StaleCount(db, run, k) <= StaleCount(db, run, 0)
  {
    if k > 0 {
      RunShrinksStale(db, run, ids, k - 1);
      StaleStep(db, run, ids, k - 1);
    }
  }

  lemma LookupRebuilt(db: Snapshot, index: Index, b: int, u: Uuid)
    ensures Lookup(Rebuilt(db, index, b), u)
      == if u in Projection(db) && Projection(db)[u].latestSkiptoken > b then Some(Projection(db)[u])
         else if u in index && index[u].latestSkiptoken <= b && u !in Reapplied(db, b) then Some(index[u])
         else None
  {}

  /** Rebuilding again from a lower boundary undoes the first rebuild. */
  lemma RebuiltTwice(db: Snapshot, index: Index, b: int, c: int)
    requires c <= b
    ensures Rebuilt(db, Rebuilt(db, index, b), c) == Rebuilt(db, index, c)
  {
    var once := Rebuilt(db, index, b);
    forall u ensures Lookup(Rebuilt(db, once, c), u) == Lookup(Rebuilt(db, index, c), u) {
      LookupRebuilt(db, index, b, u);
      LookupRebuilt(db, once, c, u);
      LookupRebuilt(db, index, c, u);
    }
    SameLookups(Rebuilt(db, once, c), Rebuilt(db, index, c));
  }

  /** The boundary the k-th pass starts its windows from. */
  ghost predicate IsBound(db: Snapshot, run: seq<Index>, bounds: seq<int>, k: nat)
    requires k < |run| && k < |bounds|
  {
    IndexInI64(run[k]) && bounds[k] == Boundary(db, run[k])
  }

  ghost predicate AreBounds(db: Snapshot, run: seq<Index>, bounds: seq<int>) {
    |bounds| == |run| && forall k: nat :: k < |run| ==> IsBound(db, run, bounds, k)
  }

  lemma BoundsExist(db: Snapshot, run: seq<Index>) returns (bounds: seq<int>)
    requires forall k: nat :: k < |run| ==> IndexInI64(run[k])
    ensures AreBounds(db, run, bounds)
  {
    bounds := [];
    while |bounds| < |run|
      invariant |bounds| <= |run|
      invariant forall k: nat :: k < |bounds| ==> IsBound(db, run, bounds, k)
    {
      ghost var before := bounds;
      bounds := bounds + [Boundary(db, run[|bounds|])];
      forall k: nat | k < |bounds| ensures IsBound(db, run, bounds, k) {
        if k < |before| { assert IsBound(db, run, before, k); }
      }
    }
  }

  lemma PassRebuilds(db: Snapshot, run: seq<Index>, bounds: seq<int>, k: nat)
    requires ArePasses(db, run) && AreBounds(db, run, bounds) && k + 1 < |run|
    ensures run[k + 1] == Rebuilt(db, run[k], bounds[k])
  {
    assert IsPass(db, run, k) && IsBound(db, run, bounds, k);
    PassIsRebuilt(db, run[k]);
  }

  lemma BoundsDescend(db: Snapshot, run: seq<Index>, bounds: seq<int>, ids: set<Uuid>, k: nat)
    requires ArePasses(db, run) && AreBounds(db, run, bounds) && k + 1 < |run|
    requires IsSound(db, run[k], ids) && !TotalsAgree(db, run[k + 1])
    ensures 0 <= bounds[k + 1] < bounds[k]
  {
    assert IsPass(db, run, k) && IsBound(db, run, bounds, k) && IsBound(db, run, bounds, k + 1);
    BoundaryDescends(db, run[k], run[k + 1], ids);
  }

  lemma BoundaryDescends(db: Snapshot, index: Index, after: Index, ids: set<Uuid>)
    requires IsSound(db, index, ids) && after == Pass(db, index) && !TotalsAgree(db, after)
    ensures IndexInI64(after) && 0 <= Boundary(db, after) < Boundary(db, index)
  {
    RetryDescends(db, index);
  }

  /** The first k passes of a run together are one rebuild of the index it started from, at the
      boundary the last of them verified; those boundaries strictly descend. */
  lemma {:induction false} RunIsOneRebuild(db: Snapshot, run: seq<Index>, bounds: seq<int>, ids: set<Uuid>, k: nat)
    requires IsRun(db, run, ids) && AreBounds(db, run, bounds) && GoesOn(db, run) && 0 < k < |run|
    ensures run[k] == Rebuilt(db, run[0], bounds[k - 1])
    ensures k > 1 ==> 0 <= bounds[k - 1] < bounds[k - 2]
  {
    PassRebuilds(db, run, bounds, k - 1);
    if k > 1 {
      RunIsOneRebuild(db, run, bounds, ids, k - 1);
      RunStaysSound(db, run, ids, k - 2);
      BoundsDescend(db, run, bounds, ids, k - 2);
      RebuiltTwice(db, run[0], bounds[k - 2], bounds[k - 1]);
    }
  }

  // ----- what a run achieves

  /** What a rebuild keeps of the index it starts from is right. */
  ghost predicate KeptPrefixIsRight(db: Snapshot, index: Index, b: int) {
    Prefix(index, b) - Reapplied(db, b) == Prefix(Projection(db), b)
  }

  lemma RebuiltIsExactIff(db: Snapshot, index: Index, b: int)
    ensures Rebuilt(db, index, b) == Projection(db) <==> KeptPrefixIsRight(db, index, b)
    ensures Suffix(Rebuilt(db, index, b), b) == Suffix(Projection(db), b)
  {
    RebuiltParts(db, index, b);
    if KeptPrefixIsRight(db, index, b) {
      SplitMap(Rebuilt(db, index, b), Projection(db), b);
    }
  }

  /** A run ends with the projection if and only if the documents of the index it started from that
      lie at or below its last boundary, without those it re-applied, are the projection's. */
  lemma RunIsExactIff(db: Snapshot, run: seq<Index>, bounds: seq<int>, ids: set<Uuid>)
    requires IsWholeRun(db, run, ids) && AreBounds(db, run, bounds)
    ensures var b := bounds[|run| - 2];
      && run[|run| - 1] == Rebuilt(db, run[0], b)
      && (run[|run| - 1] == Projection(db) <==> KeptPrefixIsRight(db, run[0], b))
  {
    RunIsOneRebuild(db, run, bounds, ids, |run| - 1);
    RebuiltIsExactIff(db, run[0], bounds[|run| - 2]);
  }

  // ----- there is one run

  lemma {:induction false} CompleteRun(db: Snapshot, start: seq<Index>, ids: set<Uuid>) returns (run: seq<Index>)
    requires IsRun(db, start, ids) && GoesOnAll(db, start)
    ensures IsWholeRun(db, run, ids) && run[0] == start[0] && |run| - 1 <= |Stale(db, start[0])| + 1
    decreases |Stale(db, start[0])| + 1 - |start|
  {
    run := OneMorePass(db, start, ids);
    RunShrinksStale(db, run, ids, |start| - 1);
    if !TotalsAgree(db, run[|start|]) {
      run := CompleteRun(db, run, ids);
    }
  }

  /** No pass so far ended with equal totals. */
  ghost predicate GoesOnAll(db: Snapshot, run: seq<Index>) {
    forall k: nat :: 0 < k < |run| ==> !TotalsAgree(db, run[k])
  }

  lemma OneMorePass(db: Snapshot, start: seq<Index>, ids: set<Uuid>) returns (run: seq<Index>)
    requires IsRun(db, start, ids) && GoesOnAll(db, start)
    ensures IsRun(db, run, ids) && GoesOn(db, run) && |run| == |start| + 1 && run[..|start|] == start
    ensures !TotalsAgree(db, run[|start|]) ==> GoesOnAll(db, run)
    ensures run[0] == start[0] && |Stale(db, start[0])| + 1 >= |start|
  {
    RunStaysSound(db, start, ids, |start| - 1);
    run := start + [Pass(db, start[|start| - 1])];
    Appended(db, start, run, ids);
    RunShrinksStale(db, run, ids, |start| - 1);
  }

  lemma Appended(db: Snapshot, start: seq<Index>, run: seq<Index>, ids: set<Uuid>)
    requires IsRun(db, start, ids) && IndexInI64(start[|start| - 1]) && run == start + [Pass(db, start[|start| - 1])]
    requires GoesOnAll(db, start)
    ensures IsRun(db, run, ids) && GoesOn(db, run) && (!TotalsAgree(db, run[|start|]) ==> GoesOnAll(db, run))
  {
    forall k: nat | k + 1 < |run| ensures IsPass(db, run, k) {
      if k + 1 < |start| { assert IsPass(db, start, k); }
    }
    forall k: nat | 0 < k < |start| ensures !TotalsAgree(db, run[k]) {
      assert run[k] == start[k];
    }
  }

  lemma {:induction false} RunsAgreeAt(db: Snapshot, a: seq<Index>, b: seq<Index>, n: nat)
    requires ArePasses(db, a) && ArePasses(db, b) && n < |a| && n < |b| && a[0] == b[0]
    ensures a[n] == b[n]
  {
    if n > 0 {
      RunsAgreeAt(db, a, b, n - 1);
      SamePass(db, a, b, n - 1);
    }
  }

  lemma SamePass(db: Snapshot, a: seq<Index>, b: seq<Index>, n: nat)
    requires ArePasses(db, a) && ArePasses(db, b) && n + 1 < |a| && n + 1 < |b| && a[n] == b[n]
    ensures a[n + 1] == b[n + 1]
  {
    assert IsPass(db, a, n) && IsPass(db, b, n);
  }

  /** The first index determines the run. */
  lemma RunIsDetermined(db: Snapshot, a: seq<Index>, b: seq<Index>, ids: set<Uuid>)
    requires IsWholeRun(db, a, ids) && IsWholeRun(db, b, ids) && a[0] == b[0]
    ensures a == b
  {
    var n := (if |a| < |b| then |a| else |b|) - 1;
    forall k: nat | k <= n ensures a[k] == b[k] {
      RunsAgreeAt(db, a, b, k);
    }
  }

  lemma BoundsAreDetermined(db: Snapshot, run: seq<Index>, a: seq<int>, b: seq<int>)
    requires AreBounds(db, run, a) && AreBounds(db, run, b)
    ensures a == b
  {
    forall k: nat | k < |run| ensures a[k] == b[k] {
      assert IsBound(db, run, a, k) && IsBound(db, run, b, k);
    }
  }

  /** From every index there is exactly one whole run, of at most its stale documents and one passes,
      with its boundaries; it rebuilds the index once, and is exact as far as what it kept was right. */
  lemma OneWholeRun(db: Snapshot, index: Index, ids: set<Uuid>) returns (run: seq<Index>, bounds: seq<int>)
    requires IsSound(db, index, ids) && db.Keys <= ids
    ensures IsWholeRun(db, run, ids) && run[0] == index && |run| - 1 <= |Stale(db, index)| + 1
    ensures AreBounds(db, run, bounds)
    ensures forall other :: IsWholeRun(db, other, ids) && other[0] == index ==> other == run
    ensures forall other :: AreBounds(db, run, other) ==> other == bounds
    ensures var b, last := bounds[|run| - 2], run[|run| - 1];
      last == Rebuilt(db, index, b) && (last == Projection(db) <==> KeptPrefixIsRight(db, index, b))
  {
    run := CompleteRun(db, [index], ids);
    forall k: nat | k < |run| ensures IndexInI64(run[k]) { RunStaysSound(db, run, ids, k); }
    bounds := BoundsExist(db, run);
    RunIsExactIff(db, run, bounds, ids);
    forall other | AreBounds(db, run, other) ensures other == bounds {
      BoundsAreDetermined(db, run, other, bounds);
    }
    forall other | IsWholeRun(db, other, ids) && other[0] == index ensures other == run {
      RunIsDetermined(db, other, run, ids);
    }
  }

  // ----- what a run reports

  /** Rows, upserts and deletes sent; the program's counters saturate. */
  datatype ScratchStats = ScratchStats(rowCount: nat, upsertCount: nat, deleteCount: nat) {
    function Plus(other: ScratchStats): ScratchStats {
      ScratchStats(rowCount + other.rowCount, upsertCount + other.upsertCount, deleteCount + other.deleteCount)
    }

    /** The program's addition. */
    function Add(other: ScratchStats): ScratchStats {
      Plus(other).Clamped()
    }

    function Clamped(): ScratchStats {
      ScratchStats(Min(rowCount, I64_MAX), Min(upsertCount, U64_MAX), Min(deleteCount, U64_MAX))
    }
  }

  const NO_STATS := ScratchStats(0, 0, 0)

  /** Adding up with saturation is adding up exactly, then saturating. */
  lemma ClampedSum(a: ScratchStats, b: ScratchStats)
    ensures a.Clamped().Add(b) == a.Plus(b).Clamped()
  {}

  /** Live rows above a boundary. */
  function LiveAbove(db: Snapshot, b: int): set<Uuid> {
    set u | u in db && db[u].latestSkiptoken > b && db[u].Live()
  }

  /** The operations of one pass from boundary b: the extras it drops and the rows it re-applies. */
  ghost function PassStats(db: Snapshot, index: Index, b: int): ScratchStats {
    StatsOf(ExtrasDropped(db, index, b), |LiveAbove(db, b)|, |Reapplied(db, b)|)
  }

  ghost function ExtrasDropped(db: Snapshot, index: Index, b: int): nat {
    if NeedsRepair(db, index) then |ExtraIds(db, index, b)| else 0
  }

  function StatsOf(extras: nat, upserts: nat, rows: nat): ScratchStats {
    ScratchStats(extras + rows, upserts, extras + (if rows >= upserts then rows - upserts else 0))
  }

  /** The operations of the first n passes of a run. */
  ghost function TotalStats(db: Snapshot, run: seq<Index>, bounds: seq<int>, n: nat): ScratchStats
    requires n <= |run| && n <= |bounds|
  {
    if n == 0 then NO_STATS
    else TotalStats(db, run, bounds, n - 1).Plus(PassStats(db, run[n - 1], bounds[n - 1]))
  }

  /** Deleted rows above a boundary. */
  function DeletedAbove(db: Snapshot, b: int): set<Uuid> {
    set u | u in db && db[u].latestSkiptoken > b && db[u].deleted
  }

  /** The upserts of the first n passes: one for every live row above the pass's boundary. */
  ghost function UpsertsSent(db: Snapshot, bounds: seq<int>, n: nat): nat
    requires n <= |bounds|
  {
    if n == 0 then 0 else UpsertsSent(db, bounds, n - 1) + |LiveAbove(db, bounds[n - 1])|
  }

  /** The deletes of the first n passes: one for every extra document dropped, and one for every
      deleted row above the pass's boundary. */
  ghost function DeletesSent(db: Snapshot, run: seq<Index>, bounds: seq<int>, n: nat): nat
    requires n <= |run| && n <= |bounds|
  {
    if n == 0 then 0 else
    DeletesSent(db, run, bounds, n - 1)
    + ExtrasDropped(db, run[n - 1], bounds[n - 1]) + |DeletedAbove(db, bounds[n - 1])|
  }

  /** These many upserts and deletes, in counters that saturate. */
  predicate Counts(stats: ScratchStats, upserts: nat, deletes: nat) {
    && stats.upsertCount == Min(upserts, U64_MAX)
    && stats.deleteCount == Min(deletes, U64_MAX)
    && stats.rowCount == Min(upserts + deletes, I64_MAX)
  }

  lemma CountsAreDetermined(a: ScratchStats, b: ScratchStats, upserts: nat, deletes: nat)
    requires Counts(a, upserts, deletes) && Counts(b, upserts, deletes)
    ensures a == b
  {}

  lemma ReappliedParts(db: Snapshot, b: int)
    ensures |Reapplied(db, b)| == |LiveAbove(db, b)| + |DeletedAbove(db, b)|
  {
    assert Reapplied(db, b) == LiveAbove(db, b) + DeletedAbove(db, b) && LiveAbove(db, b) !! DeletedAbove(db, b);
  }

  /** The counters before, with these many upserts and deletes added. */
  predicate Added(stats: ScratchStats, before: ScratchStats, upserts: nat, deletes: nat) {
    && stats.upsertCount == Min(before.upsertCount + upserts, U64_MAX)
    && stats.deleteCount == Min(before.deleteCount + deletes, U64_MAX)
    && stats.rowCount == Min(before.rowCount + upserts + deletes, I64_MAX)
  }

  /** One pass adds an upsert for every live row above its boundary, and a delete for every extra
      document dropped and every deleted row above it. */
  lemma PassCounts(db: Snapshot, index: Index, b: int, before: ScratchStats, now: ScratchStats)
    ensures now == before.Plus(PassStats(db, index, b)).Clamped() <==>
      Added(now, before, |LiveAbove(db, b)|, ExtrasDropped(db, index, b) + |DeletedAbove(db, b)|)
  {
    ReappliedParts(db, b);
  }

  lemma {:induction false} TotalsAreSent(db: Snapshot, run: seq<Index>, bounds: seq<int>, n: nat)
    requires n <= |run| && n <= |bounds|
    ensures var upserts, deletes := UpsertsSent(db, bounds, n), DeletesSent(db, run, bounds, n);
      TotalStats(db, run, bounds, n) == ScratchStats(upserts + deletes, upserts, deletes)
  {
    if n > 0 {
      TotalsAreSent(db, run, bounds, n - 1);
      ReappliedParts(db, bounds[n - 1]);
    }
  }

  /** The last window's boundary: the greatest token above b, if there is one. */
  ghost predicate IsTarget(db: Snapshot, b: int, target: Option<int>) {
    match target
    case None => RowsAbove(db, b) == {}
    case Some(t) => t > b && RowsAbove(db, t) == {} && exists u :: u in db && db[u].latestSkiptoken == t
  }

  lemma TargetIsUnique(db: Snapshot, b: int, s: Option<int>, t: Option<int>)
    requires IsTarget(db, b, s) && IsTarget(db, b, t)
    ensures s == t
  {
    TargetIsGreatest(db, b, s, t);
    TargetIsGreatest(db, b, t, s);
  }

  lemma TargetIsGreatest(db: Snapshot, b: int, s: Option<int>, t: Option<int>)
    requires IsTarget(db, b, s) && IsTarget(db, b, t)
    ensures t.Some? ==> s.Some? && t.value <= s.value
  {
    if t.Some? {
      var u :| u in db && db[u].latestSkiptoken == t.value;
      assert u in RowsAbove(db, b);
      assert s.Some? ==> u !in RowsAbove(db, s.value);
    }
  }

  // ----- a run as it goes on

  ghost predicate BoundsUpTo(db: Snapshot, run: seq<Index>, bounds: seq<int>)
    requires |bounds| <= |run|
  {
    forall k: nat :: k < |bounds| ==> IsBound(db, run, bounds, k)
  }

  lemma MoreBounds(db: Snapshot, run: seq<Index>, bounds: seq<int>, after: Index, b: int)
    requires |bounds| == |run| - 1 && BoundsUpTo(db, run, bounds)
    requires IndexInI64(run[|run| - 1]) && b == Boundary(db, run[|run| - 1])
    ensures BoundsUpTo(db, run + [after], bounds + [b])
  {
    forall k: nat | k < |bounds| + 1 ensures IsBound(db, run + [after], bounds + [b], k) {
      if k < |bounds| { assert IsBound(db, run, bounds, k); }
    }
  }

  lemma {:induction false} TotalStatsPrefix(
    db: Snapshot, run: seq<Index>, bounds: seq<int>, more: seq<Index>, moreBounds: seq<int>, n: nat)
    requires n <= |run| <= |more| && n <= |bounds| <= |moreBounds|
    requires run == more[..|run|] && bounds == moreBounds[..|bounds|]
    ensures TotalStats(db, run, bounds, n) == TotalStats(db, more, moreBounds, n)
  {
    if n > 0 {
      TotalStatsPrefix(db, run, bounds, more, moreBounds, n - 1);
      assert run[n - 1] == more[n - 1] && bounds[n - 1] == moreBounds[n - 1];
    }
  }

  lemma MoreTotals(
    db: Snapshot, run: seq<Index>, bounds: seq<int>, after: Index, b: int, totals: ScratchStats, now: ScratchStats)
    requires |run| > 0 && |bounds| == |run| - 1 && totals == TotalStats(db, run, bounds, |bounds|).Clamped()
    requires now == totals.Plus(PassStats(db, run[|bounds|], b)).Clamped()
    ensures now == TotalStats(db, run + [after], bounds + [b], |run|).Clamped()
  {
    TotalStatsPrefix(db, run, bounds, run + [after], bounds + [b], |bounds|);
    ClampedSum(TotalStats(db, run, bounds, |bounds|), PassStats(db, run[|bounds|], b));
  }

  /** A pass with nothing above its boundary keeps the target of the pass before, which had nothing
      above its higher boundary either. */
  lemma TargetCarries(db: Snapshot, before: int, b: int, last: Option<int>, target: Option<int>)
    requires b < before && IsTarget(db, before, last)
    requires IsTarget(db, b, if RowsAbove(db, b) == {} then None else target)
    requires RowsAbove(db, b) == {} ==> target == last
    ensures IsTarget(db, b, target)
  {
    forall u | u in RowsAbove(db, before) ensures u in RowsAbove(db, b) {}
    if last.Some? {
      var u :| u in db && db[u].latestSkiptoken == last.value;
      assert u in RowsAbove(db, before);
    }
  }

  /** What is known of a run while it goes on. */
  ghost predicate Running(
    db: Snapshot, run: seq<Index>, bounds: seq<int>, ids: set<Uuid>, totals: ScratchStats, target: Option<int>)
  {
    && IsRun(db, run, ids) && GoesOnAll(db, run)
    && |bounds| == |run| - 1 && BoundsUpTo(db, run, bounds)
    && totals == TotalStats(db, run, bounds, |bounds|).Clamped()
    && (if |run| == 1 then target == None else IsTarget(db, bounds[|run| - 2], target))
  }

  /** What the report of the next pass says about the run with that pass. */
  lemma NextOfRun(
    db: Snapshot, run: seq<Index>, bounds: seq<int>, ids: set<Uuid>, totals: ScratchStats, target: Option<int>,
    after: Index, b: int, now: ScratchStats, newTarget: Option<int>)
    requires Running(db, run, bounds, ids, totals, target)
    requires IndexInI64(run[|run| - 1]) && after == Pass(db, run[|run| - 1]) && b == Boundary(db, run[|run| - 1])
    requires now == totals.Plus(PassStats(db, run[|run| - 1], b)).Clamped()
    requires IsTarget(db, b, if RowsAbove(db, b) == {} then None else newTarget)
    requires RowsAbove(db, b) == {} ==> newTarget == target
    ensures IsRun(db, run + [after], ids) && GoesOn(db, run + [after])
    ensures BoundsUpTo(db, run + [after], bounds + [b])
    ensures now == TotalStats(db, run + [after], bounds + [b], |run|).Clamped() && IsTarget(db, b, newTarget)
    ensures !TotalsAgree(db, after) ==> Running(db, run + [after], bounds + [b], ids, now, newTarget)
  {
    Appended(db, run, run + [after], ids);
    MoreBounds(db, run, bounds, after, b);
    MoreTotals(db, run, bounds, after, b, totals, now);
    if |run| > 1 {
      LastDescends(db, run, bounds, ids, b);
      TargetCarries(db, bounds[|run| - 2], b, target, newTarget);
    }
  }

  lemma LastDescends(db: Snapshot, run: seq<Index>, bounds: seq<int>, ids: set<Uuid>, b: int)
    requires IsRun(db, run, ids) && GoesOnAll(db, run) && |run| > 1
    requires |bounds| == |run| - 1 && BoundsUpTo(db, run, bounds)
    requires IndexInI64(run[|run| - 1]) && b == Boundary(db, run[|run| - 1])
    ensures b < bounds[|run| - 2]
  {
    var all := AllBounds(db, run, bounds, ids);
    RunStaysSound(db, run, ids, |run| - 2);
    BoundsDescend(db, run, all, ids, |run| - 2);
    assert IsBound(db, run, all, |run| - 1) && all[|run| - 2] == bounds[|run| - 2];
  }

  /** The boundaries of a whole run, with the one its last index would have as well. */
  lemma AllBounds(db: Snapshot, run: seq<Index>, bounds: seq<int>, ids: set<Uuid>) returns (all: seq<int>)
    requires IsRun(db, run, ids) && |bounds| == |run| - 1 && BoundsUpTo(db, run, bounds)
    ensures AreBounds(db, run, all) && bounds == all[..|bounds|]
  {
    RunStaysSound(db, run, ids, |run| - 1);
    all := bounds + [Boundary(db, run[|run| - 1])];
    forall k: nat | k < |run| ensures IsBound(db, run, all, k) {
      if k < |bounds| { assert IsBound(db, run, bounds, k); }
    }
  }

  lemma EndOfRun(
    db: Snapshot, run: seq<Index>, bounds: seq<int>, ids: set<Uuid>, stats: ScratchStats) returns (all: seq<int>)
    requires IsRun(db, run, ids) && GoesOn(db, run) && |run| > 1 && TotalsAgree(db, run[|run| - 1])
    requires |bounds| == |run| - 1 && BoundsUpTo(db, run, bounds)
    requires stats == TotalStats(db, run, bounds, |bounds|).Clamped()
    ensures IsWholeRun(db, run, ids) && AreBounds(db, run, all) && all[|run| - 2] == bounds[|run| - 2]
    ensures Counts(stats, UpsertsSent(db, all, |run| - 1), DeletesSent(db, run, all, |run| - 1))
    ensures var b, last := bounds[|run| - 2], run[|run| - 1];
      && last == Rebuilt(db, run[0], b) && (last == Projection(db) <==> KeptPrefixIsRight(db, run[0], b))
      && Suffix(last, b) == Suffix(Projection(db), b)
  {
    all := AllBounds(db, run, bounds, ids);
    assert all[|run| - 2] == bounds[|run| - 2];
    assert run[..|run|] == run;
    TotalStatsPrefix(db, run, bounds, run, all, |bounds|);
    TotalsAreSent(db, run, all, |bounds|);
    RunIsExactIff(db, run, all, ids);
    RebuiltIsExactIff(db, run[0], bounds[|run| - 2]);
  }

  lemma StartOfRun(db: Snapshot, first: Index, ids: set<Uuid>)
    requires Fits(db, first) && PositiveTokens(db, first) && ids == first.Keys + db.Keys
    ensures Running(db, [first], [], ids, NO_STATS, None)
  {}
}
