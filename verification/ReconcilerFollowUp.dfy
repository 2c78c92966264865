/** Following the database: one pass brings an index that was right up to date. */
module ReconcilerFollowUp {
  import opened Wrappers
  import opened DocumentIds
  import opened ReconcilerModel
  import opened ReconcilerTheorems
  import opened ReconcilerOutcomes
  import opened ReconcilerRun
  import opened ReconcilerTermination

  /** The same row but for the body its document would get. */
  ghost predicate SameButBody(a: Row, b: Row) {
    a.latestSkiptoken == b.latestSkiptoken && a.deleted == b.deleted && a.detail.Some? == b.detail.Some?
  }

  /** A later snapshot, all of whose changes lie above h: rows at or below h are what they were, but
      for bodies; a row that was live is still there, and still touches the index once it is above. */
  ghost predicate Advanced(before: Snapshot, after: Snapshot, h: int) {
    && (forall u :: u in after && after[u].latestSkiptoken <= h ==> u in before && SameButBody(before[u], after[u]))
    && (forall u :: u in before && before[u].Live() ==>
          u in after && (after[u].latestSkiptoken > h ==> after[u].Touches()))
  }

  /** The index was right, up to h. */
  ghost predicate WasRight(before: Snapshot, index: Index, h: int) {
    index == Projection(before) && forall u :: u in index ==> index[u].latestSkiptoken <= h
  }

  lemma BoundaryIsBelow(db: Snapshot, index: Index, h: int)
    requires IndexInI64(index) && h >= 0 && forall u :: u in index ==> index[u].latestSkiptoken <= h
    ensures Boundary(db, index) <= h
  {
    var highest := Highest(index);
    var top := if highest.Some? then highest.value else 0;
    if !CountsAgree(db, index, top) {
      SearchResult(db, index, 0, if top >= 0 then top else 0, 0);
    }
  }

  /** What a pass keeps of such an index has the ids the later snapshot wants there. */
  lemma KeptIdsAreRight(before: Snapshot, after: Snapshot, index: Index, h: int, b: int)
    requires Advanced(before, after, h) && WasRight(before, index, h) && b <= h
    ensures PrefixIds(index, b) - Reapplied(after, b) == PrefixIds(Projection(after), b)
  {
    forall u ensures u in PrefixIds(index, b) - Reapplied(after, b) <==> u in PrefixIds(Projection(after), b) {
      KeptIdIsRight(before, after, index, h, b, u);
    }
  }

  lemma KeptIdIsRight(before: Snapshot, after: Snapshot, index: Index, h: int, b: int, u: Uuid)
    requires Advanced(before, after, h) && WasRight(before, index, h) && b <= h
    ensures u in PrefixIds(index, b) - Reapplied(after, b) <==> u in PrefixIds(Projection(after), b)
  {
    if u in PrefixIds(index, b) {
      assert u in before && before[u].Live() && u in after;
      if u !in Reapplied(after, b) {
        if after[u].latestSkiptoken <= h { assert SameButBody(before[u], after[u]); }
      }
    }
    if u in PrefixIds(Projection(after), b) {
      assert u in before && SameButBody(before[u], after[u]);
      assert u in Projection(before);
    }
  }

  /** Up to b, the later snapshot wants the bodies the earlier one wanted. */
  ghost predicate SameBodies(before: Snapshot, after: Snapshot, b: int) {
    forall u :: u in PrefixIds(Projection(after), b) ==> u in before && before[u].ToDoc() == after[u].ToDoc()
  }

  lemma KeptDoc(before: Snapshot, after: Snapshot, index: Index, h: int, b: int, u: Uuid)
    requires Advanced(before, after, h) && WasRight(before, index, h) && b <= h
    requires u in PrefixIds(Projection(after), b)
    ensures u in before && u in index && index[u] == before[u].ToDoc() && Projection(after)[u] == after[u].ToDoc()
  {
    assert SameButBody(before[u], after[u]);
    assert u in Projection(before);
  }

  lemma SameDocsIff(before: Snapshot, after: Snapshot, kept: Index, wanted: Index)
    requires kept.Keys == wanted.Keys
    requires forall u :: u in wanted ==> (
      && u in before && u in after
      && kept[u] == before[u].ToDoc() && wanted[u] == after[u].ToDoc())
    ensures kept == wanted <==> forall u :: u in wanted ==> before[u].ToDoc() == after[u].ToDoc()
    ensures |kept| == |wanted|
  {
    assert |kept| == |kept.Keys| && |wanted| == |wanted.Keys|;
  }

  lemma PrefixKeys(index: Index, b: int, gone: set<Uuid>)
    ensures (Prefix(index, b) - gone).Keys == PrefixIds(index, b) - gone
    ensures forall u :: u in Prefix(index, b) - gone ==> (Prefix(index, b) - gone)[u] == index[u]
  {}

  /** What a rebuild keeps, and what the later snapshot wants there. */
  lemma KeptAndWanted(
    before: Snapshot, after: Snapshot, index: Index, h: int, b: int, kept: Index, wanted: Index)
    requires Advanced(before, after, h) && WasRight(before, index, h) && b <= h
    requires kept == Prefix(index, b) - Reapplied(after, b) && wanted == Prefix(Projection(after), b)
    ensures kept.Keys == wanted.Keys == PrefixIds(Projection(after), b)
    ensures forall u :: u in wanted ==> (
      && u in before && u in after
      && kept[u] == before[u].ToDoc() && wanted[u] == after[u].ToDoc())
  {
    KeptIdsAreRight(before, after, index, h, b);
    PrefixKeys(index, b, Reapplied(after, b));
    PrefixKeys(Projection(after), b, {});
    SubtractDisjoint(wanted, {});
    forall u | u in wanted
      ensures u in before && u in after && kept[u] == before[u].ToDoc() && wanted[u] == after[u].ToDoc()
    {
      KeptDoc(before, after, index, h, b, u);
    }
  }

  lemma KeptIsRightIff(before: Snapshot, after: Snapshot, index: Index, h: int, b: int)
    requires Advanced(before, after, h) && WasRight(before, index, h) && b <= h
    ensures KeptPrefixIsRight(after, index, b) <==> SameBodies(before, after, b)
    ensures RightCount(after, index, b)
  {
    var kept, wanted := Prefix(index, b) - Reapplied(after, b), Prefix(Projection(after), b);
    KeptAndWanted(before, after, index, h, b, kept, wanted);
    SameDocsIff(before, after, kept, wanted);
    SplitCount(Projection(after), b);
    assert SameBodies(before, after, b) <==> forall u :: u in wanted ==> before[u].ToDoc() == after[u].ToDoc();
  }

  /**
   If the index was right and everything that has changed since lies above its tokens, one pass
   completes. It leaves the projection if and only if the documents it did not re-apply still want
   the bodies they had: a body can change without its row, when it is drawn from another row.
   */
  lemma OnePassFollows(before: Snapshot, after: Snapshot, index: Index, h: int)
    requires Fits(after, index) && h >= 0 && Advanced(before, after, h) && WasRight(before, index, h)
    ensures TotalsAgree(after, Pass(after, index))
    ensures Pass(after, index) == Projection(after) <==> SameBodies(before, after, Boundary(after, index))
  {
    var b := Boundary(after, index);
    BoundaryIsBelow(after, index, h);
    KeptIsRightIff(before, after, index, h, b);
    TotalsAgreeIffRightCount(after, index, b);
    RebuiltIsExactIff(after, index, b);
    PassIsRebuilt(after, index);
  }

  // ----- a change below the indexed tokens

  /** Row 1 moves from token 5 to 7 while 9 is indexed already. */
  const EARLIER: Snapshot := map[1 := Row(5, false, Some([])), 2 := Row(9, false, Some([]))]
  const LATER: Snapshot := map[1 := Row(7, false, Some([])), 2 := Row(9, false, Some([]))]

  lemma EarlierAndLater()
    ensures Projection(EARLIER) == map[1 := Doc(5, []), 2 := Doc(9, [])]
    ensures Projection(LATER) == map[1 := Doc(7, []), 2 := Doc(9, [])]
    ensures PrefixIds(Projection(EARLIER), 9) == {1, 2} && PrefixIds(Projection(LATER), 9) == {1, 2}
    ensures Reapplied(LATER, 9) == {} && Suffix(Projection(LATER), 9) == map[]
  {}

  lemma NineIsHighest()
    ensures Highest(Projection(EARLIER)) == Some(9)
  {
    var index := Projection(EARLIER);
    EarlierAndLater();
    assert 2 in index && index[2].latestSkiptoken == 9;
    HighestIsUnique(index, Highest(index), Some(9));
  }

  lemma NineIsVerified()
    ensures CountsAgree(LATER, Projection(EARLIER), 9) && Boundary(LATER, Projection(EARLIER)) == 9
  {
    EarlierAndLater();
    NineIsHighest();
    AgreementIsExact(LATER, Projection(EARLIER), 9);
  }

  lemma NothingIsRebuilt()
    ensures Rebuilt(LATER, Projection(EARLIER), 9) == Projection(EARLIER)
  {
    EarlierAndLater();
    assert Prefix(Projection(EARLIER), 9) == Projection(EARLIER);
  }

  lemma RebuiltMissesIt()
    ensures TotalsAgree(LATER, Rebuilt(LATER, Projection(EARLIER), 9))
    ensures Rebuilt(LATER, Projection(EARLIER), 9) != Projection(LATER)
  {
    NothingIsRebuilt();
    EarlierAndLater();
    AgreementIsExact(LATER, Projection(EARLIER), 9);
    assert Projection(EARLIER)[1] != Projection(LATER)[1];
  }

  /** A change that does not lie above the indexed tokens is missed: the counts agree at once. */
  lemma ChangeBelowIsMissed()
    ensures TotalsAgree(LATER, Pass(LATER, Projection(EARLIER)))
    ensures Pass(LATER, Projection(EARLIER)) != Projection(LATER)
  {
    NineIsVerified();
    PassIsRebuilt(LATER, Projection(EARLIER));
    RebuiltMissesIt();
  }
}
