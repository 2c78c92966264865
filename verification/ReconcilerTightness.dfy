/** The bound on the retries of a category is reached: n stale documents can take n + 1 passes. */
module ReconcilerTightness {
  import opened Integers
  import opened Wrappers
  import opened DocumentIds
  import opened ReconcilerModel
  import opened ReconcilerTheorems
  import opened ReconcilerOutcomes

  const LIMIT := I64_MAX - 1

  /** Ids lo to hi - 1. */
  function Interval(lo: nat, hi: nat): (ids: set<Uuid>)
    requires lo <= hi <= I64_MAX
    ensures |ids| == hi - lo && forall u: Uuid :: u in ids <==> lo <= u < hi
  {
    if lo == hi then {} else
    var last: Uuid := hi - 1;
    Interval(lo, hi - 1) + {last}
  }

  /** Row u is live with token u + 1, for u from 0 to n. */
  ghost predicate AreRows(db: Snapshot, n: nat) {
    && (forall u: Uuid :: u in db <==> u <= n)
    && (forall u: Uuid :: u in db ==> db[u] == Row(u + 1, false, Some([])))
  }

  /** Row 0 is not indexed; rows 1 to m are indexed under the token of the row before, rows m + 1
      to n under their own. */
  ghost predicate AreIndexed(index: Index, n: nat, m: nat) {
    && (forall u: Uuid :: u in index <==> 1 <= u <= n)
    && (forall u: Uuid :: u in index ==> index[u] == Doc(if u <= m then u else u + 1, []))
  }

  lemma ProjectionOfRows(db: Snapshot, n: nat)
    requires AreRows(db, n)
    ensures forall u: Uuid :: u in Projection(db) <==> u <= n
    ensures forall u: Uuid :: u in Projection(db) ==> Projection(db)[u] == Doc(u + 1, [])
  {}

  lemma SizesOf(db: Snapshot, index: Index, n: nat, m: nat)
    requires AreRows(db, n) && AreIndexed(index, n, m) && n < LIMIT
    ensures |db| == n + 1 && |Projection(db)| == n + 1 && |index| == n
  {
    ProjectionOfRows(db, n);
    assert db.Keys == Interval(0, n + 1) && Projection(db).Keys == Interval(0, n + 1) &&
      index.Keys == Interval(1, n + 1);
    assert |db.Keys| == n + 1 && |Projection(db).Keys| == n + 1 && |index.Keys| == n;
  }

  lemma RowsUpTo(db: Snapshot, n: nat, b: nat)
    requires AreRows(db, n) && n < LIMIT && b <= n + 1
    ensures |PrefixIds(Projection(db), b)| == b
  {
    ProjectionOfRows(db, n);
    assert PrefixIds(Projection(db), b) == Interval(0, b);
  }

  lemma IndexedUpTo(index: Index, n: nat, m: nat, b: nat)
    requires AreIndexed(index, n, m) && m <= n < LIMIT && b <= n + 1
    ensures |PrefixIds(index, b)| == if b <= m then b else b - 1
  {
    var last := if b <= m then b + 1 else b;
    forall u: Uuid ensures u in PrefixIds(index, b) <==> u in Interval(1, last) {}
    assert PrefixIds(index, b) == Interval(1, last);
  }

  /** Up to m the counts agree, from m + 1 to n + 1 the index is one short. */
  lemma CountsOf(db: Snapshot, index: Index, n: nat, m: nat, b: nat)
    requires AreRows(db, n) && AreIndexed(index, n, m) && m <= n < LIMIT && b <= n + 1
    ensures CountsAgree(db, index, b) <==> b <= m
    ensures !TotalsAgree(db, index)
  {
    SizesOf(db, index, n, m);
    RowsUpTo(db, n, b);
    IndexedUpTo(index, n, m, b);
    AgreementIsExact(db, index, b);
  }

  lemma HighestOf(index: Index, n: nat, m: nat)
    requires AreIndexed(index, n, m) && 0 < n < LIMIT && m <= n
    ensures Highest(index) == Some(if m == n then n else n + 1) && IndexInI64(index)
  {
    var last: Uuid := n;
    assert last in index;
    HighestIsUnique(index, Highest(index), Some(if m == n then n else n + 1));
  }

  lemma SearchOf(db: Snapshot, index: Index, n: nat, m: nat)
    requires AreRows(db, n) && AreIndexed(index, n, m) && m < n < LIMIT
    ensures SearchPrefix(db, index, 0, n + 1, 0) == m
  {
    forall a | 0 <= a <= m ensures CountsAgree(db, index, a) { CountsOf(db, index, n, m, a); }
    SearchReaches(db, index, 0, n + 1, 0, m);
    SearchResult(db, index, 0, n + 1, 0);
    CountsOf(db, index, n, m, SearchPrefix(db, index, 0, n + 1, 0));
  }

  lemma BoundaryOf(db: Snapshot, index: Index, n: nat, m: nat)
    requires AreRows(db, n) && AreIndexed(index, n, m) && 0 < n < LIMIT && m <= n
    ensures IndexInI64(index) && Boundary(db, index) == m
  {
    HighestOf(index, n, m);
    CountsOf(db, index, n, m, if m == n then n else n + 1);
    if m < n {
      SearchOf(db, index, n, m);
    }
  }

  lemma RebuiltAt(db: Snapshot, index: Index, b: int, u: Uuid)
    ensures Lookup(Rebuilt(db, index, b), u)
      == if u in Projection(db) && Projection(db)[u].latestSkiptoken > b then Some(Projection(db)[u])
         else if u in index && index[u].latestSkiptoken <= b && u !in Reapplied(db, b) then Some(index[u])
         else None
  {}

  lemma RebuiltOf(db: Snapshot, index: Index, n: nat, m: nat, u: Uuid)
    requires AreRows(db, n) && AreIndexed(index, n, m) && 0 < m <= n
    ensures Lookup(Rebuilt(db, index, m), u) == if 1 <= u <= n then Some(Doc(if u < m then u else u + 1, [])) else None
  {
    ProjectionOfRows(db, n);
    RebuiltAt(db, index, m, u);
  }

  /** A pass repairs one more document and still misses row 0. */
  lemma PassOf(db: Snapshot, index: Index, n: nat, m: nat)
    requires AreRows(db, n) && AreIndexed(index, n, m) && 0 < m <= n < LIMIT
    ensures IndexInI64(index) && AreIndexed(Pass(db, index), n, m - 1)
  {
    BoundaryOf(db, index, n, m);
    PassIsRebuilt(db, index);
    LookupsAreIndexed(db, index, Rebuilt(db, index, m), n, m);
  }

  lemma LookupsAreIndexed(db: Snapshot, index: Index, after: Index, n: nat, m: nat)
    requires AreRows(db, n) && AreIndexed(index, n, m) && 0 < m <= n && after == Rebuilt(db, index, m)
    ensures AreIndexed(after, n, m - 1)
  {
    forall u: Uuid ensures Lookup(after, u) == if 1 <= u <= n then Some(Doc(if u < m then u else u + 1, [])) else None {
      RebuiltOf(db, index, n, m, u);
    }
    forall u: Uuid ensures u in after <==> 1 <= u <= n { assert Lookup(after, u).Some? <==> u in after; }
    forall u: Uuid | u in after ensures after[u] == Doc(if u <= m - 1 then u else u + 1, []) {
      assert Lookup(after, u) == Some(after[u]);
    }
  }

  lemma OnePassMore(db: Snapshot, index: Index, after: Index, passes: nat)
    requires passes > 0 && IndexInI64(index) && after == Pass(db, index)
    requires !TotalsAgree(db, after) && !CompletesWithin(db, after, passes - 1)
    ensures !CompletesWithin(db, index, passes)
  {}

  lemma {:induction false} NotWithin(db: Snapshot, index: Index, n: nat, m: nat, passes: nat)
    requires AreRows(db, n) && AreIndexed(index, n, m) && passes <= m <= n && 0 < n < LIMIT
    ensures !CompletesWithin(db, index, passes)
    decreases passes
  {
    if passes > 0 {
      PassOf(db, index, n, m);
      var after := Pass(db, index);
      CountsOf(db, after, n, m - 1, 0);
      NotWithin(db, after, n, m - 1, passes - 1);
      OnePassMore(db, index, after, passes);
    }
  }

  lemma RowsExist(n: nat) returns (db: Snapshot)
    requires n < LIMIT
    ensures AreRows(db, n)
  {
    var last: Uuid := n;
    db := map[];
    if n > 0 { db := RowsExist(n - 1); }
    db := db[last := Row(n + 1, false, Some([]))];
  }

  lemma IndexedExist(n: nat, m: nat) returns (index: Index)
    requires n < LIMIT
    ensures AreIndexed(index, n, m)
  {
    index := map[];
    if n > 0 {
      var last: Uuid := n;
      index := IndexedExist(n - 1, m);
      index := index[last := Doc(if n <= m then n else n + 1, [])];
    }
  }

  lemma AllAreStale(db: Snapshot, index: Index, n: nat)
    requires AreRows(db, n) && AreIndexed(index, n, n) && n < LIMIT
    ensures |Stale(db, index)| == n && Fits(db, index) && PositiveTokens(db, index)
  {
    ProjectionOfRows(db, n);
    SizesOf(db, index, n, n);
    assert Stale(db, index) == Interval(1, n + 1);
  }

  /** The retry bound is tight: for every n, some index with n stale documents completes within
      n + 1 passes and not within n. */
  lemma RetryBoundIsTight(n: nat) returns (db: Snapshot, index: Index)
    requires 0 < n < LIMIT
    ensures Fits(db, index) && PositiveTokens(db, index) && |Stale(db, index)| == n
    ensures CompletesWithin(db, index, n + 1) && !CompletesWithin(db, index, n)
  {
    db := RowsExist(n);
    index := IndexedExist(n, n);
    AllAreStale(db, index, n);
    RetryTerminates(db, index, n);
    NotWithin(db, index, n, n, n);
  }
}
