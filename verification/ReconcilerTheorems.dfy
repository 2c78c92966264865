/** What one reconciliation pass makes exact, and why retrying terminates. */
module ReconcilerTheorems {
  import opened Integers
  import opened Wrappers
  import opened DocumentIds
  import opened ReconcilerModel
  import FiniteSets

  /** Indexed ids whose document is not the one the snapshot calls for. */
  function Stale(db: Snapshot, index: Index): set<Uuid> {
    set u | u in index && !(u in Projection(db) && index[u] == Projection(db)[u])
  }

  ghost predicate PositiveTokens(db: Snapshot, index: Index) {
    && (forall u :: u in db && db[u].Live() ==> db[u].latestSkiptoken > 0)
    && (forall u :: u in index ==> index[u].latestSkiptoken > 0)
  }

  /** The row count and every token fit an i64. */
  ghost predicate Fits(db: Snapshot, index: Index) {
    && |db| < I64_MAX
    && (forall u :: u in db ==> -I64_MAX - 1 <= db[u].latestSkiptoken <= I64_MAX)
    && IndexInI64(index)
  }

  // ----- counting

  lemma LiveCountIsProjectionCount(db: Snapshot, boundary: int)
    ensures PostgresCount(db, Some(boundary)) == |PrefixIds(Projection(db), boundary)|
    ensures PostgresCount(db, None) == |Projection(db)|
    ensures PostgresCount(db, Some(boundary)) <= |db| && PostgresCount(db, None) <= |db|
  {
    assert PrefixIds(Projection(db), boundary)
        == set u | u in db && db[u].Live() && db[u].latestSkiptoken <= boundary;
    assert Projection(db).Keys == set u | u in db && db[u].Live();
    FiniteSets.SubsetCardinality(PrefixIds(Projection(db), boundary), db.Keys);
    FiniteSets.SubsetCardinality(Projection(db).Keys, db.Keys);
  }

  /** Below 2^63 rows the saturating comparison is an exact comparison of counts. */
  lemma AgreementIsExact(db: Snapshot, index: Index, boundary: int)
    requires |db| < I64_MAX
    ensures CountsAgree(db, index, boundary)
       <==> |PrefixIds(Projection(db), boundary)| == |PrefixIds(index, boundary)|
    ensures TotalsAgree(db, index) <==> |Projection(db)| == |index|
  {
    LiveCountIsProjectionCount(db, boundary);
  }

  lemma SplitCount(index: Index, boundary: int)
    ensures |index| == |PrefixIds(index, boundary)| + |Suffix(index, boundary)|
    ensures |PrefixIds(index, boundary)| == |Prefix(index, boundary)|
  {
    assert index.Keys == PrefixIds(index, boundary) + Suffix(index, boundary).Keys;
    assert Prefix(index, boundary).Keys == PrefixIds(index, boundary);
  }

  // ----- the boundary

  lemma {:induction false} SearchResult(db: Snapshot, index: Index, low: int, high: int, best: int)
    requires 0 <= low && high <= I64_MAX && (high == I64_MAX ==> !CountsAgree(db, index, high))
    ensures var b := SearchPrefix(db, index, low, high, best);
      b == best || (low <= b <= high && CountsAgree(db, index, b))
    decreases high - low
  {
    if low <= high {
      var mid := low + (high - low) / 2;
      if CountsAgree(db, index, mid) {
        SearchResult(db, index, SaturatingAdd(mid, 1), high, mid);
      } else {
        SearchResult(db, index, low, mid - 1, best);
      }
    }
  }

  ghost predicate AgreementIsDownwardClosed(db: Snapshot, index: Index) {
    forall a, b :: 0 <= a <= b && CountsAgree(db, index, b) ==> CountsAgree(db, index, a)
  }

  lemma SearchStep(db: Snapshot, index: Index, low: int, high: int, best: int)
    requires 0 <= low <= high <= I64_MAX && (high == I64_MAX ==> !CountsAgree(db, index, high))
    ensures var mid := low + (high - low) / 2;
      SearchPrefix(db, index, low, high, best) ==
      if CountsAgree(db, index, mid) then SearchPrefix(db, index, mid + 1, high, mid)
      else SearchPrefix(db, index, low, mid - 1, best)
  {}

  /** The search gets at least as far as agreement holds from 0 on. */
  lemma {:induction false} SearchReaches(db: Snapshot, index: Index, low: int, high: int, best: int, b: int)
    requires 0 <= low <= b <= high <= I64_MAX && (high == I64_MAX ==> !CountsAgree(db, index, high))
    requires forall a :: 0 <= a <= b ==> CountsAgree(db, index, a)
    ensures b <= SearchPrefix(db, index, low, high, best)
    decreases high - low
  {
    var mid := low + (high - low) / 2;
    SearchStep(db, index, low, high, best);
    if !CountsAgree(db, index, mid) {
      SearchReaches(db, index, low, mid - 1, best, b);
    } else if b <= mid {
      SearchResult(db, index, mid + 1, high, mid);
    } else {
      SearchReaches(db, index, mid + 1, high, mid, b);
    }
  }

  /** With downward-closed agreement the search returns the greatest agreeing boundary. */
  lemma SearchIsMaximal(db: Snapshot, index: Index, low: int, high: int, best: int, b: int)
    requires 0 <= low && high <= I64_MAX && (high == I64_MAX ==> !CountsAgree(db, index, high))
    requires AgreementIsDownwardClosed(db, index)
    requires low <= b <= high && CountsAgree(db, index, b)
    ensures b <= SearchPrefix(db, index, low, high, best)
  {
    SearchReaches(db, index, low, high, best, b);
  }

  /** The boundary is a token at which counts agree, unless the search fell back to 0. */
  lemma BoundaryIsVerified(db: Snapshot, index: Index)
    requires IndexInI64(index)
    ensures CountsAgree(db, index, Boundary(db, index)) || Boundary(db, index) == 0
    ensures var h := if index == map[] then 0 else Highest(index).value;
      CountsAgree(db, index, h) ==> Boundary(db, index) == h
    ensures PositiveTokens(db, index) ==> CountsAgree(db, index, Boundary(db, index))
    ensures PositiveTokens(db, index) ==> Boundary(db, index) >= 0
  {
    var highest := Highest(index);
    var h := if highest.Some? then highest.value else 0;
    if !CountsAgree(db, index, h) {
      SearchResult(db, index, 0, if h >= 0 then h else 0, 0);
    }
    if PositiveTokens(db, index) {
      assert PrefixIds(index, 0) == {} && PrefixIds(Projection(db), 0) == {};
      LiveCountIsProjectionCount(db, 0);
    }
  }

  // ----- one pass, in closed form

  /** The ids whose row lies above the boundary and yields an operation. */
  function Reapplied(db: Snapshot, b: int): set<Uuid> {
    set u | u in db && db[u].latestSkiptoken > b && db[u].Touches()
  }

  /** The prefix without the re-applied ids, then the projection above the boundary. */
  function Rebuilt(db: Snapshot, index: Index, b: int): Index {
    (Prefix(index, b) - Reapplied(db, b)) + Suffix(Projection(db), b)
  }

  /** What dropping extras leaves: the prefix untouched, and above it only expected ids. */
  ghost predicate KeptFrom(db: Snapshot, index: Index, kept: Index, boundary: int) {
    && (forall u :: u in kept ==> u in index && kept[u] == index[u])
    && (forall u :: u in index && index[u].latestSkiptoken <= boundary ==> u in kept)
    && (forall u :: u in kept && kept[u].latestSkiptoken > boundary
          ==> u in db && db[u].Live() && db[u].latestSkiptoken > boundary)
  }

  lemma SettleIsRebuilt(db: Snapshot, index: Index, kept: Index, b: int)
    requires KeptFrom(db, index, kept, b)
    ensures Settle(db, kept, RowsAbove(db, b)) == Rebuilt(db, index, b)
  {
    var left, right := Settle(db, kept, RowsAbove(db, b)), Rebuilt(db, index, b);
    forall u ensures Lookup(left, u) == Lookup(right, u) {
      SettleAt(db, kept, RowsAbove(db, b), u);
      assert u in Suffix(Projection(db), b) <==> u in RowsAbove(db, b) && db[u].Live();
      if u !in Reapplied(db, b) {
        assert Lookup(left, u) == Lookup(kept, u);
        assert u in kept <==> u in Prefix(index, b);
      }
    }
    SameLookups(left, right);
  }

  /** On the counts-matched branch and on the repair branch alike, a pass keeps what it verified
      except ids it re-applies, and makes everything above the boundary exact. */
  lemma PassIsRebuilt(db: Snapshot, index: Index)
    requires IndexInI64(index)
    ensures Pass(db, index) == Rebuilt(db, index, Boundary(db, index))
  {
    var b := Boundary(db, index);
    assert KeptFrom(db, index, Kept(db, index, b), b);
    SettleIsRebuilt(db, index, Kept(db, index, b), b);
  }

  /** Above the boundary a rebuilt index is the projection; below it, it lost the re-applied ids. */
  lemma RebuiltParts(db: Snapshot, index: Index, b: int)
    ensures Suffix(Rebuilt(db, index, b), b) == Suffix(Projection(db), b)
    ensures Prefix(Rebuilt(db, index, b), b) == Prefix(index, b) - Reapplied(db, b)
  {
  }

  lemma RebuiltDoc(db: Snapshot, index: Index, b: int, u: Uuid)
    requires u in Rebuilt(db, index, b)
    ensures var doc := Rebuilt(db, index, b)[u];
      (u in index && doc == index[u]) || (u in db && db[u].Live() && doc == db[u].ToDoc())
  {
    if u !in Suffix(Projection(db), b) {
      assert u in Prefix(index, b);
    }
  }

  lemma RebuiltFits(db: Snapshot, index: Index, b: int)
    requires Fits(db, index)
    ensures Fits(db, Rebuilt(db, index, b))
  {
    forall u | u in Rebuilt(db, index, b)
      ensures -I64_MAX - 1 <= Rebuilt(db, index, b)[u].latestSkiptoken <= I64_MAX
    {
      RebuiltDoc(db, index, b, u);
    }
  }

  lemma RebuiltPositive(db: Snapshot, index: Index, b: int)
    requires PositiveTokens(db, index)
    ensures PositiveTokens(db, Rebuilt(db, index, b))
  {
    forall u | u in Rebuilt(db, index, b) ensures Rebuilt(db, index, b)[u].latestSkiptoken > 0 {
      RebuiltDoc(db, index, b, u);
    }
  }

  /** No pass makes a document stale, and none of the ids it re-applied stays stale. */
  lemma RebuiltStale(db: Snapshot, index: Index, b: int)
    ensures Stale(db, Rebuilt(db, index, b)) <= Stale(db, index) - Reapplied(db, b)
  {
  }

  /** After a verified boundary the totals agree exactly when no prefix document was lost. */
  lemma TotalsAgreeIffPrefixKept(db: Snapshot, index: Index, b: int)
    requires |db| < I64_MAX && CountsAgree(db, index, b)
    ensures TotalsAgree(db, Rebuilt(db, index, b)) <==> Prefix(index, b).Keys !! Reapplied(db, b)
  {
    var p, after := Projection(db), Rebuilt(db, index, b);
    var before, now := Prefix(index, b), Prefix(after, b);
    assert |Prefix(p, b)| == |before| by {
      AgreementIsExact(db, index, b);
      SplitCount(index, b);
      SplitCount(p, b);
    }
    assert TotalsAgree(db, after) <==> |p| == |after| by { AgreementIsExact(db, after, b); }
    assert |p| == |Prefix(p, b)| + |Suffix(p, b)| by { SplitCount(p, b); }
    assert |after| == |now| + |Suffix(after, b)| by { SplitCount(after, b); }
    RebuiltParts(db, index, b);
    assert now.Keys == before.Keys - Reapplied(db, b);
    FiniteSets.SubsetCardinality(now.Keys, before.Keys);
  }

  /** Totals that differ after a verified boundary betray an id indexed at or below the boundary
      whose row is above it: the pass has just replaced or removed its stale document. */
  lemma StaleShrinks(db: Snapshot, index: Index, b: int)
    requires |db| < I64_MAX
    ensures Stale(db, Rebuilt(db, index, b)) <= Stale(db, index)
    ensures CountsAgree(db, index, b) && !TotalsAgree(db, Rebuilt(db, index, b))
        ==> Stale(db, Rebuilt(db, index, b)) < Stale(db, index)
  {
    RebuiltStale(db, index, b);
    if CountsAgree(db, index, b) && !TotalsAgree(db, Rebuilt(db, index, b)) {
      TotalsAgreeIffPrefixKept(db, index, b);
      var u :| u in Prefix(index, b).Keys && u in Reapplied(db, b);
      assert u in Stale(db, index);
    }
  }

  lemma PassFits(db: Snapshot, index: Index)
    requires Fits(db, index)
    ensures Fits(db, Pass(db, index))
  {
    PassIsRebuilt(db, index);
    RebuiltFits(db, index, Boundary(db, index));
  }

  /** The retry loop ends with equal totals after at most `n` passes. */
  ghost predicate CompletesWithin(db: Snapshot, index: Index, n: nat)
    decreases n
  {
    && n > 0
    && IndexInI64(index)
    && (TotalsAgree(db, Pass(db, index)) || CompletesWithin(db, Pass(db, index), n - 1))
  }
}
