/** What the locks of a page protect: nothing else is written, and pages without a key in common commute. */
module WriterIsolation {
  import opened SyncDatabase
  import opened SyncWriter
  import opened SyncWriterTheorems
  import opened WriterLocks
  import S = SyncSchema
  import P = Payload

  lemma {:induction false} TargetsEffectElsewhere(
    effect: Effect, relations: seq<P.ParsedRelation>, entity: P.ParsedEntity, page: Page, key: Key)
    requires forall r :: r in relations ==> TargetKey(r) != key
    ensures TargetsEffect(effect, relations, entity, page, key) == effect
  {
    if relations != [] {
      assert relations[|relations| - 1] in relations;
      TargetsEffectElsewhere(effect, relations[..|relations| - 1], entity, page, key);
    }
  }

  lemma {:induction false} NoEffectElsewhere(entities: seq<P.ParsedEntity>, page: Page, key: Key)
    requires !PageLocks(entities, key)
    ensures PageEffect(entities, page, key) == Nothing && !Writes(entities, key)
  {
    if entities != [] {
      var front, last := entities[..|entities| - 1], entities[|entities| - 1];
      assert entities == front + [last];
      PageLocksGrow(front, last);
      NoEffectElsewhere(front, page, key);
      TargetsEffectElsewhere(Nothing, last.relations, last, page, key);
      forall e | e in entities ensures EntityKey(e) != key {
        assert !EntityLocks(e, key);
      }
    }
  }

  /** A page changes no registry row and no current row outside the keys it locks. */
  lemma LocksCoverWrites(lexer: P.Lexer, schemas: seq<S.EntityType>, db: Db, page: Page, key: Key)
    requires RegistryInvariant(db) && PageResult(lexer, schemas, db, page).Ok? && !PageLocks(page.entities, key)
    ensures var after := PageResult(lexer, schemas, db, page).value;
      Registered(after, key) == Registered(db, key) && SameCurrent(db, after, key)
  {
    var schema := S.EntityNamed(schemas, page.category).value;
    NoEffectElsewhere(page.entities, page, key);
    PageActsByEffect(lexer, schema, db, page.entities, page, key);
    Replay(lexer, schema, db, db, page.entities, page);
    var written := ApplyEntities(lexer, schema, db, page.entities, page).value;
    assert SameCurrent(if Writes(page.entities, key) then written else db, written, key);
    var after := PageResult(lexer, schemas, db, page).value;
    assert forall r: RelationKey :: RelationAt(after, r) == RelationAt(written, r);
    assert forall r: RepeatedKey :: RepeatedAt(after, r) == RepeatedAt(written, r);
  }

  /** The tables after a page, at one key: its effect on the registry row, and the current rows
      of the page alone if it writes the key. */
  ghost predicate Written(
    lexer: P.Lexer, schemas: seq<S.EntityType>, before: Db, after: Db, page: Page, alone: Db, key: Key)
  {
    && Registered(after, key) == ApplyEffect(PageEffect(page.entities, page, key), Registered(before, key))
    && SameCurrent(if Writes(page.entities, key) then alone else before, after, key)
  }

  /** What a page does to a key is the same over any database: `alone` is the page over `any`. */
  lemma PageWrites(lexer: P.Lexer, schemas: seq<S.EntityType>, any: Db, before: Db, page: Page)
    requires RegistryInvariant(any) && RegistryInvariant(before) && PageResult(lexer, schemas, any, page).Ok?
    ensures PageResult(lexer, schemas, before, page).Ok?
    ensures forall key :: Written(lexer, schemas, before, PageResult(lexer, schemas, before, page).value, page,
      PageResult(lexer, schemas, any, page).value, key)
  {
    var schema := S.EntityNamed(schemas, page.category).value;
    Replay(lexer, schema, any, before, page.entities, page);
    var alone := ApplyEntities(lexer, schema, any, page.entities, page).value;
    var written := ApplyEntities(lexer, schema, before, page.entities, page).value;
    var alone', after := PageResult(lexer, schemas, any, page).value, PageResult(lexer, schemas, before, page).value;
    forall key ensures Written(lexer, schemas, before, after, page, alone', key) {
      PageActsByEffect(lexer, schema, before, page.entities, page, key);
      assert SameCurrent(if Writes(page.entities, key) then alone else before, written, key);
      if Writes(page.entities, key) {
        SameCurrentUpToCursors(alone, written, alone', after, key);
      } else {
        SameCurrentUpToCursors(before, written, before, after, key);
      }
    }
  }

  lemma SameCurrentUpToCursors(a: Db, b: Db, a': Db, b': Db, key: Key)
    requires SameCurrent(a, b, key)
    requires a' == a.(cursors := a'.cursors) && b' == b.(cursors := b'.cursors)
    ensures SameCurrent(a', b', key)
  {
    forall r: RelationKey | r.source == key ensures RelationAt(a', r) == RelationAt(b', r) {
      assert RelationAt(a, r) == RelationAt(b, r);
    }
    forall r: RepeatedKey | r.source == key ensures RepeatedAt(a', r) == RepeatedAt(b', r) {
      assert RepeatedAt(a, r) == RepeatedAt(b, r);
    }
  }

  ghost predicate NoKeyInCommon(p: Page, q: Page) {
    forall key :: !(PageLocks(p.entities, key) && PageLocks(q.entities, key))
  }

  lemma OrderDoesNotMatterAt(
    lexer: P.Lexer, schemas: seq<S.EntityType>, db: Db, p: Page, q: Page, key: Key, afterP: Db, afterQ: Db, pq: Db,
    qp: Db)
    requires !(PageLocks(p.entities, key) && PageLocks(q.entities, key))
    requires Written(lexer, schemas, db, afterP, p, afterP, key) && Written(lexer, schemas, afterP, pq, q, afterQ, key)
    requires Written(lexer, schemas, db, afterQ, q, afterQ, key) && Written(lexer, schemas, afterQ, qp, p, afterP, key)
    ensures Registered(pq, key) == Registered(qp, key) && SameCurrent(pq, qp, key)
  {
    if !PageLocks(p.entities, key) {
      NoEffectElsewhere(p.entities, p, key);
      assert SameCurrent(afterQ, qp, key) && SameCurrent(db, afterP, key);
      SameCurrentEndsAlike(db, afterP, afterQ, pq, qp, Writes(q.entities, key), key);
    } else {
      NoEffectElsewhere(q.entities, q, key);
      assert SameCurrent(afterP, pq, key) && SameCurrent(db, afterQ, key);
      SameCurrentEndsAlike(db, afterQ, afterP, qp, pq, Writes(p.entities, key), key);
      SameCurrentIsSymmetric(qp, pq, key);
    }
  }

  lemma OrderDoesNotMatter(
    lexer: P.Lexer, schemas: seq<S.EntityType>, db: Db, p: Page, q: Page, afterP: Db, afterQ: Db, pq: Db, qp: Db)
    requires NoKeyInCommon(p, q)
    requires forall key :: Written(lexer, schemas, db, afterP, p, afterP, key)
    requires forall key :: Written(lexer, schemas, afterP, pq, q, afterQ, key)
    requires forall key :: Written(lexer, schemas, db, afterQ, q, afterQ, key)
    requires forall key :: Written(lexer, schemas, afterQ, qp, p, afterP, key)
    ensures forall key :: Registered(pq, key) == Registered(qp, key) && SameCurrent(pq, qp, key)
  {
    forall key ensures Registered(pq, key) == Registered(qp, key) && SameCurrent(pq, qp, key) {
      OrderDoesNotMatterAt(lexer, schemas, db, p, q, key, afterP, afterQ, pq, qp);
    }
  }

  /** x leaves the key alone and y may write it: x then y, or y then x, end alike. */
  lemma SameCurrentEndsAlike(db: Db, afterX: Db, afterY: Db, xy: Db, yx: Db, written: bool, key: Key)
    requires SameCurrent(db, afterX, key) && SameCurrent(afterY, yx, key)
    requires SameCurrent(if written then afterY else afterX, xy, key)
    requires SameCurrent(if written then afterY else db, afterY, key)
    ensures SameCurrent(xy, yx, key)
  {
    SameCurrentIsSymmetric(if written then afterY else afterX, xy, key);
    if written {
      SameCurrentChains(xy, afterY, yx, key);
    } else {
      SameCurrentIsSymmetric(db, afterX, key);
      SameCurrentChains(xy, afterX, db, key);
      SameCurrentChains(xy, db, afterY, key);
      SameCurrentChains(xy, afterY, yx, key);
    }
  }

  /** Pages of two categories that lock no key in common can be written in either order, so
      holding their own locks is all that concurrent writers need. */
  lemma DisjointPagesCommute(lexer: P.Lexer, schemas: seq<S.EntityType>, db: Db, p: Page, q: Page)
    requires RegistryInvariant(db) && NoKeyInCommon(p, q)
    requires PageResult(lexer, schemas, db, p).Ok? && PageResult(lexer, schemas, db, q).Ok?
    requires S.EntityNamed(schemas, p.category).value.category != S.EntityNamed(schemas, q.category).value.category
    ensures var afterP, afterQ := PageResult(lexer, schemas, db, p).value, PageResult(lexer, schemas, db, q).value;
      && PageResult(lexer, schemas, afterP, q).Ok?
      && PageResult(lexer, schemas, afterP, q) == PageResult(lexer, schemas, afterQ, p)
  {
    var afterP, afterQ := PageResult(lexer, schemas, db, p).value, PageResult(lexer, schemas, db, q).value;
    PageKeepsInvariant(lexer, schemas, db, p);
    PageKeepsInvariant(lexer, schemas, db, q);
    PageWrites(lexer, schemas, db, db, p);
    PageWrites(lexer, schemas, db, db, q);
    PageWrites(lexer, schemas, db, afterP, q);
    PageWrites(lexer, schemas, db, afterQ, p);
    var pq, qp := PageResult(lexer, schemas, afterP, q).value, PageResult(lexer, schemas, afterQ, p).value;
    OrderDoesNotMatter(lexer, schemas, db, p, q, afterP, afterQ, pq, qp);
    CursorsAfter(lexer, schemas, db, p);
    CursorsAfter(lexer, schemas, db, q);
    CursorsAfter(lexer, schemas, afterP, q);
    CursorsAfter(lexer, schemas, afterQ, p);
    CursorsCommute(
      db.cursors, S.EntityNamed(schemas, p.category).value.category, S.EntityNamed(schemas, q.category).value.category,
      CursorRow(p.latestSkiptoken, p.nextUrl, Running, p.atomUpdatedAt),
      CursorRow(q.latestSkiptoken, q.nextUrl, Running, q.atomUpdatedAt));
    SameEverywhere(pq, qp);
  }

  lemma CursorsCommute(cursors: map<string, CursorRow>, a: string, b: string, x: CursorRow, y: CursorRow)
    requires a != b
    ensures cursors[a := x][b := y] == cursors[b := y][a := x]
  {}

  lemma PageKeepsInvariant(lexer: P.Lexer, schemas: seq<S.EntityType>, db: Db, page: Page)
    requires RegistryInvariant(db) && PageResult(lexer, schemas, db, page).Ok?
    ensures RegistryInvariant(PageResult(lexer, schemas, db, page).value)
  {
    ApplyEntitiesKeepInvariant(lexer, S.EntityNamed(schemas, page.category).value, db, page.entities, page);
  }

  lemma CursorsAfter(lexer: P.Lexer, schemas: seq<S.EntityType>, db: Db, page: Page)
    requires PageResult(lexer, schemas, db, page).Ok?
    ensures PageResult(lexer, schemas, db, page).value.cursors
      == db.cursors[S.EntityNamed(schemas, page.category).value.category :=
      CursorRow(page.latestSkiptoken, page.nextUrl, Running, page.atomUpdatedAt)]
  {
    PageActsByEffect(lexer, S.EntityNamed(schemas, page.category).value, db, page.entities, page, Key("", 0));
  }
}
