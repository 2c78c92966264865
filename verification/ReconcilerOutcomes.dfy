/** What a reconciliation that ends has achieved, and from which indexes it ends. */
module ReconcilerOutcomes {
  import opened Integers
  import opened DocumentIds
  import opened ReconcilerModel
  import opened ReconcilerTheorems
  import FiniteSets

  // ----- the retry loop ends

  lemma StrictSubset<T>(small: set<T>, large: set<T>)
    requires small < large
    ensures |small| < |large|
  {
    FiniteSets.SubsetCardinality(small, large);
  }

  /** An incomplete pass from positive tokens strictly shrinks the stale documents. */
  lemma PassShrinksStale(db: Snapshot, index: Index)
    requires Fits(db, index) && PositiveTokens(db, index)
    ensures PositiveTokens(db, Pass(db, index))
    ensures Stale(db, Pass(db, index)) <= Stale(db, index)
    ensures !TotalsAgree(db, Pass(db, index)) ==> Stale(db, Pass(db, index)) < Stale(db, index)
  {
    PassIsRebuilt(db, index);
    BoundaryIsVerified(db, index);
    StaleShrinks(db, index, Boundary(db, index));
    RebuiltPositive(db, index, Boundary(db, index));
  }

  lemma CompletesStep(db: Snapshot, index: Index, after: Index, n: nat)
    requires Fits(db, index) && Fits(db, after) && after == Pass(db, index)
    requires TotalsAgree(db, after) || (n > 0 && CompletesWithin(db, after, n))
    ensures CompletesWithin(db, index, n + 1)
  {}

  /** With positive tokens the category completes within one pass more than it has stale documents. */
  lemma {:induction false} RetryTerminates(db: Snapshot, index: Index, n: nat)
    requires Fits(db, index) && PositiveTokens(db, index)
    requires |Stale(db, index)| <= n
    ensures CompletesWithin(db, index, n + 1)
    decreases n
  {
    PassFits(db, index);
    PassShrinksStale(db, index);
    var after := Pass(db, index);
    if !TotalsAgree(db, after) {
      StrictSubset(Stale(db, after), Stale(db, index));
      RetryTerminates(db, after, n - 1);
    }
    CompletesStep(db, index, after, n);
  }

  /** Above the boundary a rebuilt index and the projection are equal, so their prefix counts differ
      by the same amount at every higher boundary. */
  lemma DisagreementAbove(db: Snapshot, index: Index, b: int, c: int)
    requires |db| < I64_MAX && b <= c
    requires !TotalsAgree(db, Rebuilt(db, index, b))
    ensures !CountsAgree(db, Rebuilt(db, index, b), c)
  {
    var p, after := Projection(db), Rebuilt(db, index, b);
    RebuiltParts(db, index, b);
    CountAbove(after, b, c);
    CountAbove(p, b, c);
    SplitCount(after, b);
    SplitCount(p, b);
    AgreementIsExact(db, after, c);
  }

  lemma CountAbove(index: Index, b: int, c: int)
    requires b <= c
    ensures |PrefixIds(index, c)| == |PrefixIds(index, b)| + |PrefixIds(Suffix(index, b), c)|
  {
    assert PrefixIds(index, c) == PrefixIds(index, b) + PrefixIds(Suffix(index, b), c);
  }

  /** A retry verifies a strictly lower boundary than the pass before it. */
  lemma RetryDescends(db: Snapshot, index: Index)
    requires Fits(db, index) && PositiveTokens(db, index)
    requires !TotalsAgree(db, Pass(db, index))
    ensures Fits(db, Pass(db, index))
    ensures 0 <= Boundary(db, Pass(db, index)) < Boundary(db, index)
  {
    PassIsRebuilt(db, index);
    RebuiltFits(db, index, Boundary(db, index));
    RebuiltPositive(db, index, Boundary(db, index));
    var c := Boundary(db, Pass(db, index));
    BoundaryIsVerified(db, Pass(db, index));
    if c >= Boundary(db, index) {
      DisagreementAbove(db, index, Boundary(db, index), c);
      assert false;
    }
  }

  // ----- what completion means

  lemma SplitMap(a: Index, b: Index, boundary: int)
    requires Prefix(a, boundary) == Prefix(b, boundary)
    requires Suffix(a, boundary) == Suffix(b, boundary)
    ensures a == b
  {
    forall u ensures u in a <==> u in b {
      assert u in a <==> u in Prefix(a, boundary) || u in Suffix(a, boundary);
      assert u in b <==> u in Prefix(b, boundary) || u in Suffix(b, boundary);
    }
    forall u | u in a ensures a[u] == b[u] {
      if a[u].latestSkiptoken <= boundary {
        assert Prefix(a, boundary)[u] == Prefix(b, boundary)[u];
      } else {
        assert Suffix(a, boundary)[u] == Suffix(b, boundary)[u];
      }
    }
  }

  lemma SubtractDisjoint(m: Index, s: set<Uuid>)
    requires m.Keys !! s
    ensures m - s == m
  {}

  lemma RebuiltFromExactPrefix(db: Snapshot, index: Index, b: int)
    requires Prefix(index, b) == Prefix(Projection(db), b)
    ensures Rebuilt(db, index, b) == Projection(db)
    ensures Prefix(index, b).Keys !! Reapplied(db, b)
  {
    forall u | u in Prefix(index, b) ensures u !in Reapplied(db, b) {
      assert u in Prefix(Projection(db), b);
    }
    RebuiltParts(db, index, b);
    SubtractDisjoint(Prefix(index, b), Reapplied(db, b));
    SplitMap(Rebuilt(db, index, b), Projection(db), b);
  }

  /** An exact prefix gives an exact index after one pass. */
  lemma ExactPrefixGivesExactIndex(db: Snapshot, index: Index)
    requires IndexInI64(index)
    requires Prefix(index, Boundary(db, index)) == Prefix(Projection(db), Boundary(db, index))
    ensures Pass(db, index) == Projection(db)
  {
    PassIsRebuilt(db, index);
    RebuiltFromExactPrefix(db, index, Boundary(db, index));
  }

  /** A completed pass leaves the index equal to the projection exactly when the documents at or
      below the verified boundary, which it only counted, were right already. */
  lemma CompletedPassIsExactIff(db: Snapshot, index: Index)
    requires Fits(db, index)
    requires CountsAgree(db, index, Boundary(db, index)) && TotalsAgree(db, Pass(db, index))
    ensures Prefix(Pass(db, index), Boundary(db, index)) == Prefix(index, Boundary(db, index))
    ensures Pass(db, index) == Projection(db)
       <==> Prefix(index, Boundary(db, index)) == Prefix(Projection(db), Boundary(db, index))
  {
    PassIsRebuilt(db, index);
    CompletedRebuildIsExactIff(db, index, Boundary(db, index));
  }

  lemma CompletedRebuildIsExactIff(db: Snapshot, index: Index, b: int)
    requires |db| < I64_MAX && CountsAgree(db, index, b) && TotalsAgree(db, Rebuilt(db, index, b))
    ensures Prefix(Rebuilt(db, index, b), b) == Prefix(index, b)
    ensures Rebuilt(db, index, b) == Projection(db) <==> Prefix(index, b) == Prefix(Projection(db), b)
  {
    TotalsAgreeIffPrefixKept(db, index, b);
    RebuiltParts(db, index, b);
    SubtractDisjoint(Prefix(index, b), Reapplied(db, b));
    if Prefix(index, b) == Prefix(Projection(db), b) {
      RebuiltFromExactPrefix(db, index, b);
    }
  }

  /** An index that is already right stays as it is and completes in one pass. */
  lemma ExactIndexIsFixpoint(db: Snapshot, index: Index)
    requires Fits(db, index) && index == Projection(db)
    ensures Pass(db, index) == index && TotalsAgree(db, Pass(db, index))
  {
    ExactPrefixGivesExactIndex(db, index);
    AgreementIsExact(db, index, 0);
  }

  ghost predicate OnlyMissing(db: Snapshot, index: Index) {
    forall u :: u in index ==> u in Projection(db) && index[u] == Projection(db)[u]
  }

  ghost predicate OnlyExtra(db: Snapshot, index: Index) {
    forall u :: u in Projection(db) ==> u in index && index[u] == Projection(db)[u]
  }

  /** An index that only lacks documents, or only has extra ones, is exact after one pass. */
  lemma OneSidedErrorsConvergeInOnePass(db: Snapshot, index: Index)
    requires Fits(db, index) && PositiveTokens(db, index)
    requires OnlyMissing(db, index) || OnlyExtra(db, index)
    ensures Pass(db, index) == Projection(db) && TotalsAgree(db, Pass(db, index))
  {
    BoundaryIsVerified(db, index);
    OneSidedPrefixIsExact(db, index, Boundary(db, index));
    ExactPrefixGivesExactIndex(db, index);
    AgreementIsExact(db, Pass(db, index), 0);
  }

  lemma OneSidedPrefixIsExact(db: Snapshot, index: Index, b: int)
    requires |db| < I64_MAX && CountsAgree(db, index, b)
    requires OnlyMissing(db, index) || OnlyExtra(db, index)
    ensures Prefix(index, b) == Prefix(Projection(db), b)
  {
    var p := Projection(db);
    AgreementIsExact(db, index, b);
    if OnlyMissing(db, index) {
      assert PrefixIds(index, b) <= PrefixIds(p, b);
      FiniteSets.SubsetCardinality(PrefixIds(index, b), PrefixIds(p, b));
    } else {
      assert PrefixIds(p, b) <= PrefixIds(index, b);
      FiniteSets.SubsetCardinality(PrefixIds(p, b), PrefixIds(index, b));
    }
    forall u | u in PrefixIds(index, b) ensures index[u] == p[u] {
      assert u in PrefixIds(p, b);
    }
    assert Prefix(index, b).Keys == PrefixIds(index, b);
    assert Prefix(p, b).Keys == PrefixIds(p, b);
  }

  // ----- rebuilding from an empty index, for tokens of any sign

  lemma PositivePartNeverAgrees(db: Snapshot, b: int)
    requires |db| < I64_MAX && b >= 0
    requires PrefixIds(Projection(db), 0) != {}
    ensures !CountsAgree(db, Suffix(Projection(db), 0), b)
    ensures !TotalsAgree(db, Suffix(Projection(db), 0))
  {
    var positive := Suffix(Projection(db), 0);
    AgreementIsExact(db, positive, b);
    CountAbove(Projection(db), 0, b);
    SplitCount(Projection(db), 0);
  }

  lemma ZeroBoundary(db: Snapshot, index: Index)
    requires |db| < I64_MAX && IndexInI64(index)
    requires index == map[] || (index == Suffix(Projection(db), 0) && PrefixIds(Projection(db), 0) != {})
    ensures Boundary(db, index) == 0
  {
    var highest := Highest(index);
    var h := if highest.Some? then highest.value else 0;
    assert h >= 0;
    if index == map[] {
      SearchResult(db, index, 0, 0, 0);
    } else {
      PositivePartNeverAgrees(db, h);
      SearchResult(db, index, 0, h, 0);
      var b := SearchPrefix(db, index, 0, h, 0);
      if b != 0 {
        PositivePartNeverAgrees(db, b);
        assert false;
      }
    }
  }

  lemma ZeroBoundaryPass(db: Snapshot, index: Index)
    requires |db| < I64_MAX && IndexInI64(index)
    requires index == map[] || (index == Suffix(Projection(db), 0) && PrefixIds(Projection(db), 0) != {})
    ensures Pass(db, index) == Suffix(Projection(db), 0)
  {
    ZeroBoundary(db, index);
    PassIsRebuilt(db, index);
    RebuiltOverNothing(db, index);
  }

  lemma RebuiltOverNothing(db: Snapshot, index: Index)
    requires forall u :: u in index ==> index[u].latestSkiptoken > 0
    ensures Rebuilt(db, index, 0) == Suffix(Projection(db), 0)
  {
    assert Prefix(index, 0) == map[];
  }

  lemma {:induction false} PositivePartNeverCompletes(db: Snapshot, index: Index, n: nat)
    requires Fits(db, index) && index == Suffix(Projection(db), 0)
    requires PrefixIds(Projection(db), 0) != {}
    ensures !CompletesWithin(db, index, n)
  {
    if n > 0 {
      ZeroBoundaryPass(db, index);
      PositivePartNeverAgrees(db, 0);
      PositivePartNeverCompletes(db, Pass(db, index), n - 1);
    }
  }

  /**
   From an empty index the loop ends exactly when no live row has a token at or below 0, and it
   then ends after the first pass with an exact index. Otherwise the boundary search falls back
   to its unverified default 0 on every pass, and the loop retries for ever.
   */
  lemma EmptyIndexCompletesIff(db: Snapshot, n: nat)
    requires Fits(db, map[]) && n > 0
    ensures CompletesWithin(db, map[], n)
       <==> (forall u :: u in db && db[u].Live() ==> db[u].latestSkiptoken > 0)
    ensures Pass(db, map[]) == Projection(db)
       <==> (forall u :: u in db && db[u].Live() ==> db[u].latestSkiptoken > 0)
  {
    ZeroBoundaryPass(db, map[]);
    PassFits(db, map[]);
    SuffixIsAllIff(db);
    var positive := Suffix(Projection(db), 0);
    AgreementIsExact(db, positive, 0);
    if PrefixIds(Projection(db), 0) != {} {
      PositivePartNeverAgrees(db, 0);
      PositivePartNeverCompletes(db, positive, n - 1);
    }
  }

  lemma SuffixIsAllIff(db: Snapshot)
    ensures Suffix(Projection(db), 0) == Projection(db) <==> PrefixIds(Projection(db), 0) == {}
    ensures PrefixIds(Projection(db), 0) == {}
       <==> (forall u :: u in db && db[u].Live() ==> db[u].latestSkiptoken > 0)
  {
    var p := Projection(db);
    if PrefixIds(p, 0) == {} {
      forall u | u in db && db[u].Live() ensures db[u].latestSkiptoken > 0 {
        assert u !in PrefixIds(p, 0) && u in p;
      }
      SubtractDisjoint(p, PrefixIds(p, 0));
    } else {
      var u :| u in PrefixIds(p, 0);
      assert u in p && u !in Suffix(p, 0);
    }
  }

  // ----- what counting cannot see

  ghost predicate SameIdsAndTokens(db: Snapshot, index: Index) {
    && index.Keys == Projection(db).Keys
    && (forall u :: u in index ==> index[u].latestSkiptoken == db[u].latestSkiptoken)
  }

  /** Completion is only equality of counts: an index with the right ids and tokens completes at
      once and untouched, so every stale body in it survives. */
  lemma StaleBodiesSurvive(db: Snapshot, index: Index)
    requires Fits(db, index) && SameIdsAndTokens(db, index)
    ensures TotalsAgree(db, Pass(db, index)) && Pass(db, index) == index
    ensures Pass(db, index) == Projection(db) <==> Stale(db, index) == {}
  {
    var highest := Highest(index);
    var h := if highest.Some? then highest.value else 0;
    assert PrefixIds(index, h) == PrefixIds(Projection(db), h);
    AgreementIsExact(db, index, h);
    assert Boundary(db, index) == h;
    PassIsRebuilt(db, index);
    NothingToRebuild(db, index, h);
    StaleIsDifference(db, index);
  }

  lemma NothingToRebuild(db: Snapshot, index: Index, h: int)
    requires SameIdsAndTokens(db, index)
    requires forall u :: u in index ==> index[u].latestSkiptoken <= h
    ensures Rebuilt(db, index, h) == index
  {
    assert (set v | v in index && index[v].latestSkiptoken > h) == {};
    SubtractDisjoint(index, {});
    SubtractDisjoint(index, Reapplied(db, h));
    assert Suffix(Projection(db), h).Keys == {};
    AddNothing(index, Suffix(Projection(db), h));
  }

  lemma AddNothing(m: Index, n: Index)
    requires n.Keys == {}
    ensures m + n == m
  {}

  lemma StaleIsDifference(db: Snapshot, index: Index)
    requires index.Keys == Projection(db).Keys
    ensures index == Projection(db) <==> Stale(db, index) == {}
  {
    if Stale(db, index) == {} {
      forall u | u in index ensures index[u] == Projection(db)[u] {
        assert u !in Stale(db, index);
      }
    }
  }
}
