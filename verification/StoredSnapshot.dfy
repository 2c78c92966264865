/** The snapshot the search reconciler reads from the tables page writes leave. */
module StoredSnapshot {
  import opened Integers
  import opened Wrappers
  import opened DocumentIds
  import opened JsonChunks
  import opened SyncDatabase
  import opened SyncWriter
  import opened SyncWriterTheorems
  import opened ReconcilerModel
  import opened ReconcilerTheorems
  import opened ReconcilerOutcomes
  import opened ReconcilerFollowUp
  import S = SyncSchema
  import P = Payload

  /** The body of the document for a key; it may be drawn from any of the tables. */
  type Bodies = (Db, Key) -> Bytes

  /** A registry row joined with its entity row. */
  function RowAt(db: Db, body: Bodies, key: Key): Row
    requires key in db.registry
  {
    Row(db.registry[key].latestSkiptoken, db.registry[key].deleted,
        if key in db.entities then Some(body(db, key)) else None)
  }

  ghost predicate HasRow(db: Db, body: Bodies, category: string, snapshot: Snapshot, u: Uuid) {
    && (u in snapshot <==> Key(category, u) in db.registry)
    && (u in snapshot ==> snapshot[u] == RowAt(db, body, Key(category, u)))
  }

  /** The rows of one category. */
  ghost predicate IsSnapshotOf(db: Db, body: Bodies, category: string, snapshot: Snapshot) {
    forall u: Uuid :: HasRow(db, body, category, snapshot, u)
  }

  lemma SnapshotExists(db: Db, body: Bodies, category: string) returns (snapshot: Snapshot)
    ensures IsSnapshotOf(db, body, category, snapshot)
  {
    snapshot := map[];
    var left := db.registry.Keys;
    while left != {}
      invariant left <= db.registry.Keys
      invariant forall u: Uuid :: Key(category, u) in left || HasRow(db, body, category, snapshot, u)
      decreases |left|
    {
      var key :| key in left;
      if key.category == category {
        snapshot := snapshot[key.sourceId := RowAt(db, body, key)];
      }
      left := left - {key};
    }
    forall u: Uuid ensures HasRow(db, body, category, snapshot, u) {
      assert Key(category, u) in left || HasRow(db, body, category, snapshot, u);
    }
  }

  /** The index the snapshot calls for has one document per entity row, with the registry's token,
      which is at least the token the row was written with. */
  lemma DocumentsAreEntities(db: Db, body: Bodies, category: string, snapshot: Snapshot, u: Uuid)
    requires RegistryInvariant(db) && IsSnapshotOf(db, body, category, snapshot)
    ensures u in Projection(snapshot) <==> Key(category, u) in db.entities
    ensures u in Projection(snapshot) ==>
      && Projection(snapshot)[u] == Doc(db.registry[Key(category, u)].latestSkiptoken, body(db, Key(category, u)))
      && Projection(snapshot)[u].latestSkiptoken >= db.entities[Key(category, u)].latestSkiptoken
  {
    assert HasRow(db, body, category, snapshot, u);
  }

  // ----- where tokens come from

  predicate HasToken(effect: Effect, token: int) {
    match effect
    case Nothing => true
    case Raise(t, _, _) => t == token
    case Fixed(row) => row.latestSkiptoken == token
  }

  lemma {:induction false} TargetsToken(
    effect: Effect, relations: seq<P.ParsedRelation>, entity: P.ParsedEntity, page: Page, key: Key)
    requires HasToken(effect, page.latestSkiptoken)
    ensures var after := TargetsEffect(effect, relations, entity, page, key);
      HasToken(after, page.latestSkiptoken) && (effect != Nothing ==> after != Nothing)
  {
    if relations != [] {
      TargetsToken(effect, relations[..|relations| - 1], entity, page, key);
    }
  }

  /** A page gives a registry row its own token or leaves it alone, and then has not written the key. */
  lemma {:induction false} PageToken(entities: seq<P.ParsedEntity>, page: Page, key: Key)
    ensures HasToken(PageEffect(entities, page, key), page.latestSkiptoken)
    ensures PageEffect(entities, page, key) == Nothing ==> !Writes(entities, key)
  {
    if entities != [] {
      var front, last := entities[..|entities| - 1], entities[|entities| - 1];
      assert entities == front + [last];
      PageToken(front, page, key);
      var own := if EntityKey(last) == key then Fixed(RegistryRowFor(last, page)) else PageEffect(front, page, key);
      TargetsToken(own, last.relations, last, page, key);
      assert Writes(entities, key) <==> Writes(front, key) || EntityKey(last) == key;
    }
  }

  ghost predicate SameRow(before: Db, after: Db, key: Key) {
    Registered(before, key) == Registered(after, key) && SameCurrent(before, after, key)
  }

  /** After a page, a row keeps everything or has the page's token, or a greater one. */
  lemma PageKeepsOrRaises(lexer: P.Lexer, schemas: seq<S.EntityType>, before: Db, page: Page, key: Key)
    requires RegistryInvariant(before) && PageResult(lexer, schemas, before, page).Ok?
    ensures var after := PageResult(lexer, schemas, before, page).value;
      || SameRow(before, after, key)
      || (key in after.registry && after.registry[key].latestSkiptoken >= page.latestSkiptoken)
    ensures var after := PageResult(lexer, schemas, before, page).value;
      key in after.registry ==>
        || after.registry[key].latestSkiptoken == page.latestSkiptoken
        || (key in before.registry && after.registry[key].latestSkiptoken == before.registry[key].latestSkiptoken)
  {
    var schema := S.EntityNamed(schemas, page.category).value;
    var written := ApplyEntities(lexer, schema, before, page.entities, page).value;
    var after := PageResult(lexer, schemas, before, page).value;
    PageToken(page.entities, page, key);
    PageActsByEffect(lexer, schema, before, page.entities, page, key);
    assert Registered(after, key) == Registered(written, key);
    if PageEffect(page.entities, page, key) == Nothing {
      Replay(lexer, schema, before, before, page.entities, page);
      assert SameCurrent(if Writes(page.entities, key) then written else before, written, key);
      CursorsAside(before, written, after, key);
    }
  }

  lemma CursorsAside(before: Db, written: Db, after: Db, key: Key)
    requires SameCurrent(before, written, key) && after == written.(cursors := after.cursors)
    ensures SameCurrent(before, after, key)
  {
    forall r: RelationKey | r.source == key ensures RelationAt(before, r) == RelationAt(after, r) {
      assert RelationAt(before, r) == RelationAt(written, r);
    }
    forall r: RepeatedKey | r.source == key ensures RepeatedAt(before, r) == RepeatedAt(after, r) {
      assert RepeatedAt(before, r) == RepeatedAt(written, r);
    }
  }

  ghost predicate IsTokenOf(pages: seq<Page>, token: int) {
    exists p :: p in pages && p.latestSkiptoken == token
  }

  /** Every registry token is one of a page's. */
  lemma {:induction false} TokensComeFromPages(
    lexer: P.Lexer, schemas: seq<S.EntityType>, pages: seq<Page>, key: Key)
    ensures var db := AfterPages(lexer, schemas, EMPTY_DB, pages);
      key in db.registry ==> IsTokenOf(pages, db.registry[key].latestSkiptoken)
  {
    if pages != [] {
      var front, last := pages[..|pages| - 1], pages[|pages| - 1];
      assert pages == front + [last];
      TokensComeFromPages(lexer, schemas, front, key);
      PagesKeepRegistryInvariant(lexer, schemas, EMPTY_DB, front);
      var before := AfterPages(lexer, schemas, EMPTY_DB, front);
      if PageResult(lexer, schemas, before, last).Ok? {
        PageKeepsOrRaises(lexer, schemas, before, last, key);
      }
    }
  }

  // ----- what stays

  /** Registered, and deleted or with its entity row. */
  ghost predicate IsHeld(db: Db, key: Key) {
    key in db.registry && (db.registry[key].deleted || key in db.entities)
  }

  lemma EntityKeepsHeld(lexer: P.Lexer, schema: S.EntityType, db: Db, entity: P.ParsedEntity, page: Page, key: Key)
    requires RegistryInvariant(db) && ApplyEntity(lexer, schema, db, entity, page).Ok? && IsHeld(db, key)
    ensures IsHeld(ApplyEntity(lexer, schema, db, entity, page).value, key)
  {
    var own := EntityKey(entity);
    var cleared := DeleteCurrentRows(UpsertSyncEntity(db, own, RegistryRowFor(entity, page)), own);
    ApplyEntityParts(lexer, schema, db, entity, page);
    ClearedTables(db, own, RegistryRowFor(entity, page));
    ClearedKeepsInvariant(db, own, RegistryRowFor(entity, page));
    TargetsKeepInvariant(cleared, entity.relations, entity, page);
  }

  lemma {:induction false} EntitiesKeepHeld(
    lexer: P.Lexer, schema: S.EntityType, db: Db, entities: seq<P.ParsedEntity>, page: Page, key: Key)
    requires RegistryInvariant(db) && ApplyEntities(lexer, schema, db, entities, page).Ok? && IsHeld(db, key)
    ensures IsHeld(ApplyEntities(lexer, schema, db, entities, page).value, key)
  {
    if entities != [] {
      var front, last := entities[..|entities| - 1], entities[|entities| - 1];
      EntitiesKeepHeld(lexer, schema, db, front, page, key);
      ApplyEntitiesKeepInvariant(lexer, schema, db, front, page);
      EntityKeepsHeld(lexer, schema, ApplyEntities(lexer, schema, db, front, page).value, last, page, key);
    }
  }

  lemma {:induction false} PagesKeepHeld(
    lexer: P.Lexer, schemas: seq<S.EntityType>, db: Db, pages: seq<Page>, key: Key)
    requires RegistryInvariant(db) && IsHeld(db, key)
    ensures IsHeld(AfterPages(lexer, schemas, db, pages), key)
  {
    if pages != [] {
      var front, last := pages[..|pages| - 1], pages[|pages| - 1];
      PagesKeepHeld(lexer, schemas, db, front, key);
      PagesKeepRegistryInvariant(lexer, schemas, db, front);
      var before := AfterPages(lexer, schemas, db, front);
      if PageResult(lexer, schemas, before, last).Ok? {
        EntitiesKeepHeld(lexer, S.EntityNamed(schemas, last.category).value, before, last.entities, last, key);
      }
    }
  }

  /** Pages above h leave alone every row that is at or below h afterwards. */
  lemma {:induction false} PagesKeepLowRows(
    lexer: P.Lexer, schemas: seq<S.EntityType>, db: Db, pages: seq<Page>, h: int, key: Key)
    requires RegistryInvariant(db) && forall p :: p in pages ==> p.latestSkiptoken > h
    requires var after := AfterPages(lexer, schemas, db, pages);
      key in after.registry && after.registry[key].latestSkiptoken <= h
    ensures SameRow(db, AfterPages(lexer, schemas, db, pages), key)
    decreases |pages|
  {
    if pages == [] {
      assert SameCurrent(db, db, key);
    } else {
      var front, last := pages[..|pages| - 1], pages[|pages| - 1];
      assert last in pages && forall p :: p in front ==> p in pages;
      PagesKeepRegistryInvariant(lexer, schemas, db, front);
      var before, after := AfterPages(lexer, schemas, db, front), AfterPages(lexer, schemas, db, pages);
      if PageResult(lexer, schemas, before, last).Ok? {
        PageKeepsOrRaises(lexer, schemas, before, last, key);
        PagesKeepLowRows(lexer, schemas, db, front, h, key);
        SameCurrentChains(db, before, after, key);
      } else {
        PagesKeepLowRows(lexer, schemas, db, front, h, key);
      }
    }
  }

  // ----- the mirror of the mirror

  /** Pages above h advance the snapshot of every category. */
  lemma PagesAdvance(
    lexer: P.Lexer, schemas: seq<S.EntityType>, db: Db, pages: seq<Page>, h: int, body: Bodies, category: string,
    before: Snapshot, after: Snapshot)
    requires RegistryInvariant(db) && forall p :: p in pages ==> p.latestSkiptoken > h
    requires IsSnapshotOf(db, body, category, before)
    requires IsSnapshotOf(AfterPages(lexer, schemas, db, pages), body, category, after)
    ensures Advanced(before, after, h)
  {
    var later := AfterPages(lexer, schemas, db, pages);
    forall u | u in after && after[u].latestSkiptoken <= h ensures u in before && SameButBody(before[u], after[u]) {
      var key := Key(category, u);
      assert HasRow(db, body, category, before, u) && HasRow(later, body, category, after, u);
      PagesKeepLowRows(lexer, schemas, db, pages, h, key);
      assert EntityAt(db, key) == EntityAt(later, key);
    }
    forall u | u in before && before[u].Live()
      ensures u in after && (after[u].latestSkiptoken > h ==> after[u].Touches())
    {
      assert HasRow(db, body, category, before, u) && HasRow(later, body, category, after, u);
      PagesKeepHeld(lexer, schemas, db, pages, Key(category, u));
    }
  }

  lemma {:induction false} PagesAfterPages(
    lexer: P.Lexer, schemas: seq<S.EntityType>, db: Db, first: seq<Page>, more: seq<Page>)
    ensures AfterPages(lexer, schemas, db, first + more)
      == AfterPages(lexer, schemas, AfterPages(lexer, schemas, db, first), more)
    decreases |more|
  {
    if more == [] {
      assert first + more == first;
    } else {
      var all := first + more;
      PagesAfterPages(lexer, schemas, db, first, more[..|more| - 1]);
      assert all[..|all| - 1] == first + more[..|more| - 1] && all[|all| - 1] == more[|more| - 1];
    }
  }

  lemma TokensAreInRange(
    lexer: P.Lexer, schemas: seq<S.EntityType>, pages: seq<Page>, body: Bodies, category: string, snapshot: Snapshot,
    low: int, high: int)
    requires IsSnapshotOf(AfterPages(lexer, schemas, EMPTY_DB, pages), body, category, snapshot)
    requires forall p :: p in pages ==> low <= p.latestSkiptoken <= high
    ensures forall u :: u in snapshot ==> low <= snapshot[u].latestSkiptoken <= high
  {
    forall u | u in snapshot ensures low <= snapshot[u].latestSkiptoken <= high {
      assert HasRow(AfterPages(lexer, schemas, EMPTY_DB, pages), body, category, snapshot, u);
      TokensComeFromPages(lexer, schemas, pages, Key(category, u));
    }
  }

  /** After any pages with positive tokens, reconciling an empty index of a category completes in
      one pass, with a document for every entity row and no other. */
  lemma MirrorFromScratch(
    lexer: P.Lexer, schemas: seq<S.EntityType>, pages: seq<Page>, body: Bodies, category: string, snapshot: Snapshot)
    requires forall p :: p in pages ==> 0 < p.latestSkiptoken <= I64_MAX
    requires IsSnapshotOf(AfterPages(lexer, schemas, EMPTY_DB, pages), body, category, snapshot)
    requires |snapshot| < I64_MAX
    ensures Pass(snapshot, map[]) == Projection(snapshot) && CompletesWithin(snapshot, map[], 1)
    ensures forall u: Uuid ::
      u in Projection(snapshot) <==> Key(category, u) in AfterPages(lexer, schemas, EMPTY_DB, pages).entities
  {
    TokensAreInRange(lexer, schemas, pages, body, category, snapshot, 1, I64_MAX);
    EmptyIndexCompletesIff(snapshot, 1);
    PagesKeepRegistryInvariant(lexer, schemas, EMPTY_DB, pages);
    forall u: Uuid ensures u in Projection(snapshot)
      <==> Key(category, u) in AfterPages(lexer, schemas, EMPTY_DB, pages).entities
    {
      DocumentsAreEntities(AfterPages(lexer, schemas, EMPTY_DB, pages), body, category, snapshot, u);
    }
  }

  /**
   An index that was right for the pages up to token h is brought up to date by one pass after any
   further pages above h, of this and of other categories: it completes, and is exact if and only
   if the documents it did not re-apply still want the bodies they had.
   */
  lemma MirrorFollows(
    lexer: P.Lexer, schemas: seq<S.EntityType>, first: seq<Page>, more: seq<Page>, h: int, body: Bodies,
    category: string, before: Snapshot, after: Snapshot)
    requires 0 <= h && (forall p :: p in first ==> -I64_MAX - 1 <= p.latestSkiptoken <= h)
    requires forall p :: p in more ==> h < p.latestSkiptoken <= I64_MAX
    requires IsSnapshotOf(AfterPages(lexer, schemas, EMPTY_DB, first), body, category, before)
    requires IsSnapshotOf(AfterPages(lexer, schemas, EMPTY_DB, first + more), body, category, after)
    requires h <= I64_MAX && |after| < I64_MAX
    ensures Fits(after, Projection(before)) && TotalsAgree(after, Pass(after, Projection(before)))
    ensures Pass(after, Projection(before)) == Projection(after)
      <==> SameBodies(before, after, Boundary(after, Projection(before)))
  {
    PagesKeepRegistryInvariant(lexer, schemas, EMPTY_DB, first);
    PagesAfterPages(lexer, schemas, EMPTY_DB, first, more);
    PagesAdvance(lexer, schemas, AfterPages(lexer, schemas, EMPTY_DB, first), more, h, body, category, before, after);
    TokensAreInRange(lexer, schemas, first, body, category, before, -I64_MAX - 1, h);
    TokensAreInRange(lexer, schemas, first + more, body, category, after, -I64_MAX - 1, I64_MAX);
    OnePassFollows(before, after, Projection(before), h);
  }
}
