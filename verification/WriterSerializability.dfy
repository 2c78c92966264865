/** Any number of page writers, their statements interleaved in any way: whatever they commit is
    what the same pages give one after another, in the order of their commits. */
module WriterSerializability {
  import opened Wrappers
  import opened SqlNames
  import opened SyncDatabase
  import opened SyncWriter
  import opened SyncWriterTheorems
  import opened WriterLocks
  import opened WriterStatements
  import S = SyncSchema
  import P = Payload

  // ----- how far a statement reaches

  /** The one key whose rows a statement writes. */
  function WrittenKey(st: Statement): Key {
    match st
    case Target(_, relation) => TargetKey(relation)
    case _ => EntityKey(st.entity)
  }

  /** The keys a statement writes or looks at. */
  predicate Within(st: Statement, keys: set<Key>) {
    && WrittenKey(st) in keys
    && (st.Relations? ==> forall r :: r in st.entity.relations ==> TargetKey(r) in keys)
  }

  /** The same registry row and the same current rows under a key. */
  ghost predicate Alike(a: Db, b: Db, key: Key) {
    Registered(a, key) == Registered(b, key) && SameCurrent(a, b, key)
  }

  ghost predicate Agree(a: Db, b: Db, keys: set<Key>) {
    forall key :: key in keys ==> Alike(a, b, key)
  }

  /** Nothing but the rows of one key differs. */
  ghost predicate OnlyAt(before: Db, after: Db, key: Key) {
    before.cursors == after.cursors && forall k :: k != key ==> Alike(before, after, k)
  }

  lemma AlikeChains(a: Db, b: Db, c: Db, key: Key)
    requires Alike(a, b, key) && Alike(b, c, key)
    ensures Alike(a, c, key) && Alike(b, a, key)
  {
    SameCurrentChains(a, b, c, key);
    SameCurrentIsSymmetric(a, b, key);
  }

  lemma OnlyAtChains(a: Db, b: Db, c: Db, key: Key)
    requires OnlyAt(a, b, key) && OnlyAt(b, c, key)
    ensures OnlyAt(a, c, key)
  {
    forall k | k != key ensures Alike(a, c, k) {
      AlikeChains(a, b, c, k);
    }
  }

  /** Two outcomes, over databases alike under the key: the same error, or the same rows there. */
  ghost predicate SameOutcome<E>(a: Db, b: Db, ra: Result<Db, E>, rb: Result<Db, E>, key: Key) {
    match (ra, rb)
    case (Ok(a'), Ok(b')) => Alike(a', b', key) && OnlyAt(a, a', key) && OnlyAt(b, b', key)
    case (Err(e), Err(f)) => e == f
    case _ => false
  }

  lemma SameOutcomeChains<E>(a: Db, b: Db, a': Db, b': Db, ra: Result<Db, E>, rb: Result<Db, E>, key: Key)
    requires OnlyAt(a, a', key) && OnlyAt(b, b', key) && SameOutcome(a', b', ra, rb, key)
    ensures SameOutcome(a, b, ra, rb, key)
  {
    if ra.Ok? {
      OnlyAtChains(a, a', ra.value, key);
      OnlyAtChains(b, b', rb.value, key);
    }
  }

  // ----- each statement

  lemma RegisterAlike(a: Db, b: Db, key: Key, row: RegistryRow)
    requires Alike(a, b, key)
    ensures Alike(UpsertSyncEntity(a, key, row), UpsertSyncEntity(b, key, row), key)
    ensures OnlyAt(a, UpsertSyncEntity(a, key, row), key)
  {
    OneRegistered(a, key, row);
    OneRegistered(b, key, row);
    RegistryOnly(a, UpsertSyncEntity(a, key, row), b, UpsertSyncEntity(b, key, row), key);
  }

  lemma OneRegistered(db: Db, key: Key, row: RegistryRow)
    ensures var after := UpsertSyncEntity(db, key, row);
      && OnlyRegistry(db, after) && Registered(after, key) == Some(row)
      && forall k :: k != key ==> Registered(db, k) == Registered(after, k)
  {}

  lemma TargetAlike(a: Db, b: Db, key: Key, token: int, su: int, au: int)
    requires Alike(a, b, key)
    ensures Alike(UpsertRelationTarget(a, key, token, su, au), UpsertRelationTarget(b, key, token, su, au), key)
    ensures OnlyAt(a, UpsertRelationTarget(a, key, token, su, au), key)
  {
    forall k ensures k != key ==> Registered(a, k) == Registered(UpsertRelationTarget(a, key, token, su, au), k) {
      OneTargetHasEffect(a, key, token, su, au, k);
    }
    OneTargetHasEffect(a, key, token, su, au, key);
    OneTargetHasEffect(b, key, token, su, au, key);
    RegistryOnly(a, UpsertRelationTarget(a, key, token, su, au), b, UpsertRelationTarget(b, key, token, su, au), key);
  }

  /** A change of one registry row, the same in two databases. */
  lemma RegistryOnly(a: Db, a': Db, b: Db, b': Db, key: Key)
    requires Alike(a, b, key) && OnlyRegistry(a, a') && OnlyRegistry(b, b')
    requires forall k :: k != key ==> Registered(a, k) == Registered(a', k)
    requires Registered(a', key) == Registered(b', key)
    ensures Alike(a', b', key) && OnlyAt(a, a', key)
  {
    SameCurrentInherits(a, b, a', b', key);
    forall k | k != key ensures Alike(a, a', k) {
      SameCurrentInherits(a, a, a, a', k);
    }
  }

  lemma SameCurrentInherits(a: Db, b: Db, a': Db, b': Db, key: Key)
    requires SameCurrent(a, b, key) && OnlyRegistry(a, a') && OnlyRegistry(b, b')
    ensures SameCurrent(a', b', key)
  {
    forall r: RelationKey | r.source == key ensures RelationAt(a', r) == RelationAt(b', r) {
      assert RelationAt(a, r) == RelationAt(b, r);
    }
    forall r: RepeatedKey | r.source == key ensures RepeatedAt(a', r) == RepeatedAt(b', r) {
      assert RepeatedAt(a, r) == RepeatedAt(b, r);
    }
  }

  lemma ClearOnlyAt(db: Db, key: Key)
    ensures OnlyAt(db, DeleteCurrentRows(db, key), key)
    ensures key in db.entities ==> (
      && EntityAt(DeleteCurrentRows(db, key), key) == None
      && (forall r: RelationKey :: r.source == key ==> RelationAt(DeleteCurrentRows(db, key), r) == None)
      && (forall r: RepeatedKey :: r.source == key ==> RepeatedAt(DeleteCurrentRows(db, key), r) == None))
  {
    var after := DeleteCurrentRows(db, key);
    forall k | k != key ensures Alike(db, after, k) {
      assert forall r: RelationKey :: r.source == k ==> RelationAt(db, r) == RelationAt(after, r);
      assert forall r: RepeatedKey :: r.source == k ==> RepeatedAt(db, r) == RepeatedAt(after, r);
    }
  }

  lemma ClearAlike(a: Db, b: Db, key: Key)
    requires Alike(a, b, key)
    ensures Alike(DeleteCurrentRows(a, key), DeleteCurrentRows(b, key), key)
  {
    ClearOnlyAt(a, key);
    ClearOnlyAt(b, key);
    assert EntityAt(a, key) == EntityAt(b, key);
  }

  lemma RowAlike(a: Db, b: Db, key: Key, row: EntityRow)
    requires Alike(a, b, key)
    ensures SameOutcome(a, b, InsertEntityRow(a, key, row), InsertEntityRow(b, key, row), key)
  {
    assert Registered(a, key) == Registered(b, key);
    if key in a.registry {
      EntityOnlyAt(a, key, row);
      EntityOnlyAt(b, key, row);
      var a', b' := InsertEntityRow(a, key, row).value, InsertEntityRow(b, key, row).value;
      assert forall r: RelationKey :: RelationAt(a', r) == RelationAt(a, r) && RelationAt(b', r) == RelationAt(b, r);
      assert forall r: RepeatedKey :: RepeatedAt(a', r) == RepeatedAt(a, r) && RepeatedAt(b', r) == RepeatedAt(b, r);
    }
  }

  lemma EntityOnlyAt(db: Db, key: Key, row: EntityRow)
    ensures OnlyAt(db, db.(entities := db.entities[key := row]), key)
  {
    var after := db.(entities := db.entities[key := row]);
    forall k | k != key ensures Alike(db, after, k) {
      assert forall r: RelationKey :: RelationAt(after, r) == RelationAt(db, r);
      assert forall r: RepeatedKey :: RepeatedAt(after, r) == RepeatedAt(db, r);
    }
  }

  lemma RelationOnlyAt(db: Db, key: RelationKey, updatedAt: int)
    ensures OnlyAt(db, db.(relations := db.relations[key := updatedAt]), key.source)
  {
    var after := db.(relations := db.relations[key := updatedAt]);
    forall k | k != key.source ensures Alike(db, after, k) {
      assert forall r: RelationKey :: r.source == k ==> RelationAt(after, r) == RelationAt(db, r);
      assert forall r: RepeatedKey :: RepeatedAt(after, r) == RepeatedAt(db, r);
    }
  }

  lemma RelationAlike(a: Db, b: Db, key: RelationKey, single: bool, updatedAt: int)
    requires Alike(a, b, key.source) && Registered(a, key.target) == Registered(b, key.target)
    ensures SameOutcome(a, b,
      InsertRelation(a, key, single, updatedAt), InsertRelation(b, key, single, updatedAt), key.source)
  {
    assert EntityAt(a, key.source) == EntityAt(b, key.source);
    SameCurrentIsSymmetric(a, b, key.source);
    assert RelationTaken(a.relations, key, single) <==> RelationTaken(b.relations, key, single) by {
      if RelationTaken(a.relations, key, single) { TakenTransfers(a, b, key, single); }
      if RelationTaken(b.relations, key, single) { TakenTransfers(b, a, key, single); }
    }
    if InsertRelation(a, key, single, updatedAt).Ok? {
      RelationOnlyAt(a, key, updatedAt);
      RelationOnlyAt(b, key, updatedAt);
      var a', b' := InsertRelation(a, key, single, updatedAt).value, InsertRelation(b, key, single, updatedAt).value;
      forall r: RelationKey | r.source == key.source ensures RelationAt(a', r) == RelationAt(b', r) {
        assert RelationAt(a, r) == RelationAt(b, r);
      }
      forall r: RepeatedKey | r.source == key.source ensures RepeatedAt(a', r) == RepeatedAt(b', r) {
        assert RepeatedAt(a, r) == RepeatedAt(b, r);
      }
    }
  }

  ghost predicate TargetsAlike(a: Db, b: Db, relations: seq<P.ParsedRelation>) {
    forall r :: r in relations ==> Registered(a, TargetKey(r)) == Registered(b, TargetKey(r))
  }

  lemma {:induction false} RelationsAlike(
    a: Db, b: Db, table: string, single: bool, entity: P.ParsedEntity, relations: seq<P.ParsedRelation>)
    requires Alike(a, b, EntityKey(entity)) && TargetsAlike(a, b, relations)
    ensures SameOutcome(a, b, InsertRelationRows(a, table, single, entity, relations),
      InsertRelationRows(b, table, single, entity, relations), EntityKey(entity))
  {
    if relations != [] {
      var front, last := relations[..|relations| - 1], relations[|relations| - 1];
      assert forall r :: r in front ==> r in relations;
      RelationsAlike(a, b, table, single, entity, front);
      var fa, fb := InsertRelationRows(a, table, single, entity, front),
        InsertRelationRows(b, table, single, entity, front);
      if fa.Ok? && BelongsTo(last, table) {
        RelationRowsOnly(a, table, single, entity, front);
        RelationRowsOnly(b, table, single, entity, front);
        assert last in relations;
        var key := RelationRowKey(table, entity, last);
        assert Registered(fa.value, key.target) == Registered(a, key.target);
        assert Registered(fb.value, key.target) == Registered(b, key.target);
        RelationAlike(fa.value, fb.value, key, single, entity.sourceUpdatedAt);
        SameOutcomeChains(a, b, fa.value, fb.value, InsertRelation(fa.value, key, single, entity.sourceUpdatedAt),
          InsertRelation(fb.value, key, single, entity.sourceUpdatedAt), EntityKey(entity));
      }
    }
  }

  lemma RepeatedOnlyAt(db: Db, key: RepeatedKey, value: BindValue)
    ensures OnlyAt(db, db.(repeated := db.repeated[key := value]), key.source)
  {
    var after := db.(repeated := db.repeated[key := value]);
    forall k | k != key.source ensures Alike(db, after, k) {
      assert forall r: RelationKey :: RelationAt(after, r) == RelationAt(db, r);
      assert forall r: RepeatedKey :: r.source == k ==> RepeatedAt(after, r) == RepeatedAt(db, r);
    }
  }

  lemma RepeatedAlike(a: Db, b: Db, key: RepeatedKey, value: BindValue)
    requires Alike(a, b, key.source)
    ensures SameOutcome(a, b, InsertRepeated(a, key, value), InsertRepeated(b, key, value), key.source)
  {
    assert RepeatedAt(a, key) == RepeatedAt(b, key);
    assert EntityAt(a, key.source) == EntityAt(b, key.source);
    if InsertRepeated(a, key, value).Ok? {
      RepeatedOnlyAt(a, key, value);
      RepeatedOnlyAt(b, key, value);
      var a', b' := InsertRepeated(a, key, value).value, InsertRepeated(b, key, value).value;
      forall r: RelationKey | r.source == key.source ensures RelationAt(a', r) == RelationAt(b', r) {
        assert RelationAt(a, r) == RelationAt(b, r);
      }
      forall r: RepeatedKey | r.source == key.source ensures RepeatedAt(a', r) == RepeatedAt(b', r) {
        assert RepeatedAt(a, r) == RepeatedAt(b, r);
      }
    }
  }

  /** Over databases that agree on the keys it reaches, a statement fails alike or writes alike,
      and touches the rows of one key only. */
  lemma StatementAlike(lexer: P.Lexer, schema: S.EntityType, page: Page, a: Db, b: Db, st: Statement, keys: set<Key>)
    requires Agree(a, b, keys) && Within(st, keys)
    ensures SameOutcome(a, b, Execute(lexer, schema, page, a, st), Execute(lexer, schema, page, b, st), WrittenKey(st))
  {
    var key := WrittenKey(st);
    assert Alike(a, b, key);
    AlikeChains(a, b, b, key) by { assert SameCurrent(b, b, key); }
    match st
    case Register(e) =>
      RegisterAlike(a, b, key, RegistryRowFor(e, page));
      RegisterAlike(b, a, key, RegistryRowFor(e, page));
    case Clear(e) =>
      ClearAlike(a, b, key);
      ClearOnlyAt(a, key);
      ClearOnlyAt(b, key);
    case Target(e, r) =>
      TargetAlike(a, b, key, page.latestSkiptoken, TargetUpdatedAt(r, e), page.atomUpdatedAt);
      TargetAlike(b, a, key, page.latestSkiptoken, TargetUpdatedAt(r, e), page.atomUpdatedAt);
    case Row(e) =>
      if BuildEntityRow(lexer, schema, e, page).Ok? {
        RowAlike(a, b, key, BuildEntityRow(lexer, schema, e, page).value);
      }
    case Relations(e, f) =>
      assert TargetsAlike(a, b, e.relations) by {
        forall r | r in e.relations ensures Registered(a, TargetKey(r)) == Registered(b, TargetKey(r)) {
          assert Alike(a, b, TargetKey(r));
        }
      }
      RelationsAlike(a, b, ChildTable(schema.category, f.name), S.HasSingleConstraint(f), e, e.relations);
    case Repeated(e, f, s) =>
      var value := BindFromParsedValue(lexer, s.name, s.value, S.SqlTypeOf(f.xsdType));
      if value.Ok? {
        RepeatedAlike(a, b, RepeatedKey(ChildTable(schema.category, f.name), key, s.ordinal), value.value);
      }
  }

  // ----- several statements

  /** Nothing but the rows of these keys differs. */
  ghost predicate OnlyIn(before: Db, after: Db, keys: set<Key>) {
    before.cursors == after.cursors && forall k :: k !in keys ==> Alike(before, after, k)
  }

  ghost predicate SameResult(a: Db, b: Db, ra: Result<Db, WriteError>, rb: Result<Db, WriteError>, keys: set<Key>) {
    match (ra, rb)
    case (Ok(a'), Ok(b')) => Agree(a', b', keys) && OnlyIn(a, a', keys) && OnlyIn(b, b', keys)
    case (Err(e), Err(f)) => e == f
    case _ => false
  }

  lemma OutcomeInResult(a: Db, b: Db, ra: Result<Db, WriteError>, rb: Result<Db, WriteError>, key: Key, keys: set<Key>)
    requires Agree(a, b, keys) && key in keys && SameOutcome(a, b, ra, rb, key)
    ensures SameResult(a, b, ra, rb, keys)
  {
    if ra.Ok? {
      forall k | k in keys ensures Alike(ra.value, rb.value, k) {
        if k != key {
          assert Alike(a, b, k) && Alike(a, ra.value, k) && Alike(b, rb.value, k);
          AlikeChains(a, ra.value, ra.value, k) by { assert SameCurrent(ra.value, ra.value, k); }
          AlikeChains(ra.value, a, b, k);
          AlikeChains(ra.value, b, rb.value, k);
        }
      }
    }
  }

  lemma ResultsChain(
    a: Db, b: Db, a': Db, b': Db, ra: Result<Db, WriteError>, rb: Result<Db, WriteError>, keys: set<Key>)
    requires OnlyIn(a, a', keys) && OnlyIn(b, b', keys) && SameResult(a', b', ra, rb, keys)
    ensures SameResult(a, b, ra, rb, keys)
  {
    if ra.Ok? {
      forall k | k !in keys ensures Alike(a, ra.value, k) && Alike(b, rb.value, k) {
        AlikeChains(a, a', ra.value, k);
        AlikeChains(b, b', rb.value, k);
      }
    }
  }

  /** A transaction that stays within its keys sees nothing else and leaves the rest alone. */
  lemma {:induction false} StatementsAlike(
    lexer: P.Lexer, schema: S.EntityType, page: Page, a: Db, b: Db, sts: seq<Statement>, keys: set<Key>)
    requires Agree(a, b, keys) && forall st :: st in sts ==> Within(st, keys)
    ensures SameResult(a, b, ExecuteAll(lexer, schema, page, a, sts), ExecuteAll(lexer, schema, page, b, sts), keys)
  {
    if sts == [] {
      forall k ensures Alike(a, a, k) && Alike(b, b, k) {
        assert SameCurrent(a, a, k) && SameCurrent(b, b, k);
      }
    } else {
      var front, last := sts[..|sts| - 1], sts[|sts| - 1];
      StatementsAlike(lexer, schema, page, a, b, front, keys);
      var fa, fb := ExecuteAll(lexer, schema, page, a, front), ExecuteAll(lexer, schema, page, b, front);
      if fa.Ok? {
        StatementAlike(lexer, schema, page, fa.value, fb.value, last, keys);
        var ra, rb := Execute(lexer, schema, page, fa.value, last), Execute(lexer, schema, page, fb.value, last);
        OutcomeInResult(fa.value, fb.value, ra, rb, WrittenKey(last), keys);
        ResultsChain(a, b, fa.value, fb.value, ra, rb, keys);
      }
    }
  }

  // ----- the keys of a page cover its statements

  predicate OfEntity(st: Statement, entity: P.ParsedEntity) {
    st.entity == entity && (st.Target? ==> st.relation in entity.relations)
  }

  lemma {:induction false} TargetsOfEntity(entity: P.ParsedEntity, relations: seq<P.ParsedRelation>)
    requires forall r :: r in relations ==> r in entity.relations
    ensures forall st :: st in Targets(entity, relations) ==> OfEntity(st, entity)
  {
    if relations != [] {
      TargetsOfEntity(entity, relations[..|relations| - 1]);
    }
  }

  lemma {:induction false} RelationInsertsOfEntity(entity: P.ParsedEntity, fields: seq<S.Field>)
    ensures forall st :: st in RelationInserts(entity, fields) ==> OfEntity(st, entity)
  {
    if fields != [] {
      RelationInsertsOfEntity(entity, fields[..|fields| - 1]);
    }
  }

  lemma {:induction false} ScalarInsertsOfEntity(entity: P.ParsedEntity, field: S.Field, scalars: seq<P.ParsedScalar>)
    ensures forall st :: st in ScalarInserts(entity, field, scalars) ==> OfEntity(st, entity)
  {
    if scalars != [] {
      ScalarInsertsOfEntity(entity, field, scalars[..|scalars| - 1]);
    }
  }

  lemma {:induction false} RepeatedInsertsOfEntity(entity: P.ParsedEntity, fields: seq<S.Field>)
    ensures forall st :: st in RepeatedInserts(entity, fields) ==> OfEntity(st, entity)
  {
    if fields != [] {
      RepeatedInsertsOfEntity(entity, fields[..|fields| - 1]);
      ScalarInsertsOfEntity(entity, fields[|fields| - 1], entity.scalars);
    }
  }

  lemma EntityStatementsOfEntity(schema: S.EntityType, entity: P.ParsedEntity)
    ensures forall st :: st in EntityStatements(schema, entity) ==> OfEntity(st, entity)
  {
    TargetsOfEntity(entity, entity.relations);
    RelationInsertsOfEntity(entity, schema.fields);
    RepeatedInsertsOfEntity(entity, schema.fields);
  }

  /** Every statement of a page stays within the keys the page locks. */
  lemma {:induction false} LocksCoverStatements(
    schema: S.EntityType, entities: seq<P.ParsedEntity>, part: seq<P.ParsedEntity>, keys: set<Key>)
    requires forall key :: key in keys <==> PageLocks(entities, key)
    requires forall e :: e in part ==> e in entities
    ensures forall st :: st in PageStatements(schema, part) ==> Within(st, keys)
  {
    if part != [] {
      var front, last := part[..|part| - 1], part[|part| - 1];
      LocksCoverStatements(schema, entities, front, keys);
      EntityStatementsOfEntity(schema, last);
      forall st | st in EntityStatements(schema, last) ensures Within(st, keys) {
        assert OfEntity(st, last) && last in entities;
        assert EntityLocks(last, EntityKey(last));
        forall r | r in last.relations ensures TargetKey(r) in keys {
          assert EntityLocks(last, TargetKey(r));
        }
      }
    }
  }

  // ----- what a transaction sees

  function Over<V>(base: map<Key, V>, own: map<Key, V>, keys: set<Key>): map<Key, V> {
    (base - keys) + (own - (own.Keys - keys))
  }

  function RelationsOver(
    base: map<RelationKey, int>, own: map<RelationKey, int>, keys: set<Key>): map<RelationKey, int>
  {
    (base - (set r | r in base && r.source in keys)) + (own - (set r | r in own && r.source !in keys))
  }

  function RepeatedOver(base: map<RepeatedKey, BindValue>, own: map<RepeatedKey, BindValue>, keys: set<Key>):
    map<RepeatedKey, BindValue>
  {
    (base - (set r | r in base && r.source in keys)) + (own - (set r | r in own && r.source !in keys))
  }

  /** The committed rows, with a transaction's own rows under the keys it has written. */
  function Overlay(base: Db, own: Db, keys: set<Key>): Db {
    Db(Over(base.registry, own.registry, keys), Over(base.entities, own.entities, keys),
       RelationsOver(base.relations, own.relations, keys), RepeatedOver(base.repeated, own.repeated, keys),
       base.cursors)
  }

  lemma OverlayAt(base: Db, own: Db, keys: set<Key>, key: Key)
    ensures Alike(Overlay(base, own, keys), if key in keys then own else base, key)
  {
    var over, at := Overlay(base, own, keys), if key in keys then own else base;
    assert Registered(over, key) == Registered(at, key);
    assert EntityAt(over, key) == EntityAt(at, key);
    forall r: RelationKey | r.source == key ensures RelationAt(over, r) == RelationAt(at, r) {
      RelationsOverAt(base.relations, own.relations, keys, r);
    }
    forall r: RepeatedKey | r.source == key ensures RepeatedAt(over, r) == RepeatedAt(at, r) {
      RepeatedOverAt(base.repeated, own.repeated, keys, r);
    }
  }

  lemma RelationsOverAt(base: map<RelationKey, int>, own: map<RelationKey, int>, keys: set<Key>, r: RelationKey)
    ensures var at, over := if r.source in keys then own else base, RelationsOver(base, own, keys);
      (r in over <==> r in at) && (r in at ==> over[r] == at[r])
  {}

  lemma RepeatedOverAt(
    base: map<RepeatedKey, BindValue>, own: map<RepeatedKey, BindValue>, keys: set<Key>, r: RepeatedKey)
    ensures var at, over := if r.source in keys then own else base, RepeatedOver(base, own, keys);
      (r in over <==> r in at) && (r in at ==> over[r] == at[r])
  {}

  /** A database is an overlay when it is one under every key. */
  lemma IsOverlay(db: Db, base: Db, own: Db, keys: set<Key>)
    requires db.cursors == base.cursors
    requires forall key :: Alike(db, if key in keys then own else base, key)
    ensures db == Overlay(base, own, keys)
  {
    var over := Overlay(base, own, keys);
    forall key ensures SameCurrent(db, over, key) && Registered(db, key) == Registered(over, key) {
      var at := if key in keys then own else base;
      OverlayAt(base, own, keys, key);
      assert Alike(db, at, key);
      SameCurrentIsSymmetric(over, at, key);
      SameCurrentChains(db, at, over, key);
    }
    SameEverywhere(db, over);
  }

  lemma OverlayOfNothing(base: Db, own: Db)
    ensures Overlay(base, own, {}) == base
  {
    forall key ensures Alike(base, base, key) {
      assert SameCurrent(base, base, key);
    }
    IsOverlay(base, base, own, {});
  }

  /** A statement that adds a key to those written. */
  lemma OverlayGrows(base: Db, own: Db, written: set<Key>, after: Db, key: Key)
    requires OnlyAt(Overlay(base, own, written), after, key)
    ensures after == Overlay(base, after, written + {key})
  {
    var seen := Overlay(base, own, written);
    forall k ensures Alike(after, if k in written + {key} then after else base, k) {
      assert SameCurrent(after, after, k);
      if k !in written + {key} {
        OverlayAt(base, own, written, k);
        AlikeChains(seen, after, after, k);
        AlikeChains(after, seen, base, k);
      }
    }
    IsOverlay(after, base, after, written + {key});
  }

  /** A change of the committed rows elsewhere moves the base of a transaction's view, no more. */
  lemma OverlayMoves(base: Db, base': Db, own: Db, written: set<Key>, after: Db, keys: set<Key>)
    requires written <= keys && Agree(base, base', keys)
    requires Agree(Overlay(base, own, written), after, keys) && OnlyIn(base', after, keys)
    ensures after == Overlay(base', own, written)
  {
    var seen := Overlay(base, own, written);
    forall k ensures Alike(after, if k in written then own else base', k) {
      OverlayAt(base, own, written, k);
      if k in keys {
        assert Alike(seen, after, k) && Alike(base, base', k);
        SameCurrentIsSymmetric(seen, after, k);
        AlikeChains(after, seen, if k in written then own else base, k);
        if k !in written {
          AlikeChains(after, base, base', k);
        }
      } else {
        assert Alike(base', after, k);
        SameCurrentIsSymmetric(base', after, k);
      }
    }
    IsOverlay(after, base', own, written);
  }

  // ----- writers at work

  /** How far a transaction is: the statements executed, its own rows, and the keys they are under. */
  datatype Session = Session(progress: nat, own: Db, written: set<Key>)

  /** Writer i writes page i; `log` lists the writers that have committed, in order. */
  datatype State = State(
    pages: seq<Page>, system: System, sessions: seq<Session>, committed: Db, log: seq<nat>)

  /** The pages a transaction is opened for: a known category, and all entities of that category. */
  predicate IsOpened(schemas: seq<S.EntityType>, page: Page) {
    var schema := S.EntityNamed(schemas, page.category);
    schema.Some? && FirstMismatch(page.entities, schema.value.category).None?
  }

  function SchemaOf(schemas: seq<S.EntityType>, page: Page): S.EntityType
    requires IsOpened(schemas, page)
  {
    S.EntityNamed(schemas, page.category).value
  }

  function StatementsOf(schemas: seq<S.EntityType>, page: Page): seq<Statement>
    requires IsOpened(schemas, page)
  {
    PageStatements(SchemaOf(schemas, page), page.entities)
  }

  ghost predicate Shaped(schemas: seq<S.EntityType>, s: State) {
    && |s.pages| == |s.sessions| == |s.system.writers|
    && (forall p :: p in s.pages ==> IsOpened(schemas, p))
    && (forall n :: 0 <= n < |s.log| ==> s.log[n] < |s.pages|)
  }

  /** Each statement sees what is committed when it starts, and its own transaction's rows. */
  function Seen(s: State, i: nat): Db
    requires i < |s.sessions|
  {
    Overlay(s.committed, s.sessions[i].own, s.sessions[i].written)
  }

  ghost predicate HasNext(schemas: seq<S.EntityType>, s: State, i: nat) {
    Shaped(schemas, s) && CanCommit(s.system, i) && s.sessions[i].progress < |StatementsOf(schemas, s.pages[i])|
  }

  ghost function Next(schemas: seq<S.EntityType>, s: State, i: nat): Statement
    requires HasNext(schemas, s, i)
  {
    StatementsOf(schemas, s.pages[i])[s.sessions[i].progress]
  }

  ghost function NextOutcome(lexer: P.Lexer, schemas: seq<S.EntityType>, s: State, i: nat): Result<Db, WriteError>
    requires HasNext(schemas, s, i)
  {
    Execute(lexer, SchemaOf(schemas, s.pages[i]), s.pages[i], Seen(s, i), Next(schemas, s, i))
  }

  ghost predicate LockStep(hash: Hash, s: State, t: State, i: nat) {
    CanAcquire(hash, s.system, i) && t == s.(system := Acquire(hash, s.system, i))
  }

  /** One statement of a transaction that has all its locks. */
  ghost predicate StatementStep(lexer: P.Lexer, schemas: seq<S.EntityType>, s: State, t: State, i: nat) {
    && HasNext(schemas, s, i) && NextOutcome(lexer, schemas, s, i).Ok?
    && t == s.(sessions := s.sessions[i := Session(s.sessions[i].progress + 1,
         NextOutcome(lexer, schemas, s, i).value, s.sessions[i].written + {WrittenKey(Next(schemas, s, i))})])
  }

  function WithCursor(schemas: seq<S.EntityType>, db: Db, page: Page): Db
    requires IsOpened(schemas, page)
  {
    db.(cursors := db.cursors[SchemaOf(schemas, page).category :=
      CursorRow(page.latestSkiptoken, page.nextUrl, Running, page.atomUpdatedAt)])
  }

  ghost predicate CanFinish(schemas: seq<S.EntityType>, s: State, i: nat) {
    Shaped(schemas, s) && CanCommit(s.system, i) && s.sessions[i].progress == |StatementsOf(schemas, s.pages[i])|
  }

  /** The transaction's rows and its cursor become the committed ones. */
  ghost predicate CommitStep(schemas: seq<S.EntityType>, s: State, t: State, i: nat) {
    && CanFinish(schemas, s, i)
    && t == s.(system := Release(s.system, i),
               committed := WithCursor(schemas, Seen(s, i), s.pages[i]), log := s.log + [i])
  }

  /** A transaction may end without committing at any moment. */
  ghost predicate FailStep(s: State, t: State, i: nat) {
    Unfinished(s.system, i) && t == s.(system := Release(s.system, i))
  }

  ghost predicate Moves(hash: Hash, lexer: P.Lexer, schemas: seq<S.EntityType>, s: State, t: State, i: nat) {
    || LockStep(hash, s, t, i) || StatementStep(lexer, schemas, s, t, i)
    || CommitStep(schemas, s, t, i) || FailStep(s, t, i)
  }

  ghost predicate Goes(hash: Hash, lexer: P.Lexer, schemas: seq<S.EntityType>, s: State, t: State) {
    exists i: nat :: Moves(hash, lexer, schemas, s, t, i)
  }

  ghost predicate LocksItsKeys(s: State, i: nat) {
    i < |s.pages| && i < |s.system.writers| ==>
      forall key :: key in s.system.writers[i].keys <==> PageLocks(s.pages[i].entities, key)
  }

  ghost predicate Starts(schemas: seq<S.EntityType>, s: State) {
    && Shaped(schemas, s) && Init(s.system) && s.log == []
    && (forall i: nat :: LocksItsKeys(s, i))
    && (forall i | 0 <= i < |s.sessions| :: s.sessions[i].progress == 0 && s.sessions[i].written == {})
  }

  ghost predicate IsHistory(hash: Hash, lexer: P.Lexer, schemas: seq<S.EntityType>, run: seq<State>) {
    && |run| > 0 && Starts(schemas, run[0])
    && forall k | 0 <= k < |run| - 1 :: Goes(hash, lexer, schemas, run[k], run[k + 1])
  }

  // ----- what every step keeps

  function KeySet(s: State, i: nat): set<Key>
    requires i < |s.system.writers|
  {
    set k | k in s.system.writers[i].keys
  }

  /** What a transaction sees is what its statements so far give over the committed rows of now. */
  ghost predicate SeesItsOwn(lexer: P.Lexer, schemas: seq<S.EntityType>, s: State, i: nat)
    requires Shaped(schemas, s)
  {
    Unfinished(s.system, i) ==>
      var sts, session := StatementsOf(schemas, s.pages[i]), s.sessions[i];
      && session.progress <= |sts| && session.written <= KeySet(s, i)
      && (session.progress > 0 ==> CanCommit(s.system, i)) && (session.progress == 0 ==> session.written == {})
      && ExecuteAll(lexer, SchemaOf(schemas, s.pages[i]), s.pages[i], s.committed, sts[..session.progress])
        == Ok(Seen(s, i))
  }

  ghost predicate LogIsOver(s: State) {
    && (forall i :: i in s.log ==> i < |s.system.writers| && s.system.writers[i].done)
    && (forall a, b :: 0 <= a < b < |s.log| ==> s.log[a] != s.log[b])
  }

  ghost predicate Sound(hash: Hash, lexer: P.Lexer, schemas: seq<S.EntityType>, s: State) {
    && Shaped(schemas, s) && Consistent(hash, s.system) && LogIsOver(s)
    && (forall i: nat :: LocksItsKeys(s, i)) && (forall i: nat :: SeesItsOwn(lexer, schemas, s, i))
  }

  lemma StartIsSound(hash: Hash, lexer: P.Lexer, schemas: seq<S.EntityType>, s: State)
    requires Starts(schemas, s)
    ensures Sound(hash, lexer, schemas, s)
  {
    forall i: nat ensures SeesItsOwn(lexer, schemas, s, i) {
      if Unfinished(s.system, i) {
        OverlayOfNothing(s.committed, s.sessions[i].own);
      }
    }
  }

  lemma LockKeepsSound(hash: Hash, lexer: P.Lexer, schemas: seq<S.EntityType>, s: State, t: State, i: nat)
    requires Sound(hash, lexer, schemas, s) && LockStep(hash, s, t, i)
    ensures Sound(hash, lexer, schemas, t)
  {
    AcquireKeepsConsistent(hash, s.system, i);
    forall k: nat ensures LocksItsKeys(t, k) && SeesItsOwn(lexer, schemas, t, k) {
      assert LocksItsKeys(s, k) && SeesItsOwn(lexer, schemas, s, k);
      if k < |s.system.writers| {
        assert t.system.writers[k].keys == s.system.writers[k].keys;
        assert KeySet(t, k) == KeySet(s, k);
      }
    }
  }

  lemma FailKeepsSound(hash: Hash, lexer: P.Lexer, schemas: seq<S.EntityType>, s: State, t: State, i: nat)
    requires Sound(hash, lexer, schemas, s) && FailStep(s, t, i)
    ensures Sound(hash, lexer, schemas, t)
  {
    ReleaseKeepsConsistent(hash, s.system, i);
    forall k: nat ensures LocksItsKeys(t, k) && SeesItsOwn(lexer, schemas, t, k) {
      assert LocksItsKeys(s, k) && SeesItsOwn(lexer, schemas, s, k);
      if k < |s.system.writers| {
        assert t.system.writers[k].keys == s.system.writers[k].keys;
        assert KeySet(t, k) == KeySet(s, k);
      }
    }
  }

  lemma NextIsWithin(schemas: seq<S.EntityType>, s: State, i: nat)
    requires HasNext(schemas, s, i) && LocksItsKeys(s, i)
    ensures Within(Next(schemas, s, i), KeySet(s, i))
  {
    LocksCoverStatements(SchemaOf(schemas, s.pages[i]), s.pages[i].entities, s.pages[i].entities, KeySet(s, i));
  }

  lemma StatementKeepsSound(hash: Hash, lexer: P.Lexer, schemas: seq<S.EntityType>, s: State, t: State, i: nat)
    requires Sound(hash, lexer, schemas, s) && StatementStep(lexer, schemas, s, t, i)
    ensures Sound(hash, lexer, schemas, t)
  {
    forall k: nat ensures LocksItsKeys(t, k) && SeesItsOwn(lexer, schemas, t, k) {
      assert LocksItsKeys(s, k) && SeesItsOwn(lexer, schemas, s, k);
      if k == i {
        StatementSees(lexer, schemas, s, t, i);
      }
    }
  }

  lemma StatementSees(lexer: P.Lexer, schemas: seq<S.EntityType>, s: State, t: State, i: nat)
    requires Shaped(schemas, s) && LocksItsKeys(s, i) && SeesItsOwn(lexer, schemas, s, i)
    requires StatementStep(lexer, schemas, s, t, i)
    ensures SeesItsOwn(lexer, schemas, t, i)
  {
    var page, session, st := s.pages[i], s.sessions[i], Next(schemas, s, i);
    var schema, sts, n := SchemaOf(schemas, page), StatementsOf(schemas, page), session.progress;
    NextIsWithin(schemas, s, i);
    var seen, after := Seen(s, i), NextOutcome(lexer, schemas, s, i).value;
    SameDbAgrees(seen, KeySet(s, i));
    StatementAlike(lexer, schema, page, seen, seen, st, KeySet(s, i));
    OverlayGrows(s.committed, session.own, session.written, after, WrittenKey(st));
    assert sts[..n + 1][..n] == sts[..n] && sts[..n + 1][n] == st;
  }

  lemma SameDbAgrees(db: Db, keys: set<Key>)
    ensures Agree(db, db, keys)
  {
    forall key ensures Alike(db, db, key) {
      assert SameCurrent(db, db, key);
    }
  }

  /** Two writers that have all their locks have no key in common. */
  lemma LockedKeysAreDisjoint(hash: Hash, s: State, i: nat, j: nat)
    requires Consistent(hash, s.system) && CanCommit(s.system, i) && CanCommit(s.system, j) && i != j
    ensures KeySet(s, i) !! KeySet(s, j)
  {
    forall key | key in KeySet(s, i) && key in KeySet(s, j) ensures false {
      var a :| 0 <= a < |s.system.writers[i].keys| && s.system.writers[i].keys[a] == key;
      var b :| 0 <= b < |s.system.writers[j].keys| && s.system.writers[j].keys[b] == key;
      assert Took(hash, s.system, i, hash(key)) && Took(hash, s.system, j, hash(key));
    }
  }

  lemma SeenIsOnlyIn(s: State, i: nat, keys: set<Key>)
    requires i < |s.sessions| && s.sessions[i].written <= keys
    ensures OnlyIn(s.committed, Seen(s, i), keys)
  {
    forall k | k !in keys ensures Alike(s.committed, Seen(s, i), k) {
      OverlayAt(s.committed, s.sessions[i].own, s.sessions[i].written, k);
      SameCurrentIsSymmetric(Seen(s, i), s.committed, k);
    }
  }

  lemma CursorsAside(schemas: seq<S.EntityType>, base: Db, db: Db, page: Page, key: Key)
    requires IsOpened(schemas, page) && Alike(base, db, key)
    ensures Alike(base, WithCursor(schemas, db, page), key)
  {
    var after := WithCursor(schemas, db, page);
    forall r: RelationKey | r.source == key ensures RelationAt(base, r) == RelationAt(after, r) {
      assert RelationAt(base, r) == RelationAt(db, r);
    }
    forall r: RepeatedKey | r.source == key ensures RepeatedAt(base, r) == RepeatedAt(after, r) {
      assert RepeatedAt(base, r) == RepeatedAt(db, r);
    }
  }

  /** A commit changes no row another writer has locked. */
  lemma CommitAgrees(hash: Hash, lexer: P.Lexer, schemas: seq<S.EntityType>, s: State, t: State, i: nat, k: nat)
    requires Sound(hash, lexer, schemas, s) && CommitStep(schemas, s, t, i) && k != i && CanCommit(s.system, k)
    ensures Agree(s.committed, t.committed, KeySet(s, k))
  {
    assert SeesItsOwn(lexer, schemas, s, i);
    LockedKeysAreDisjoint(hash, s, i, k);
    SeenIsOnlyIn(s, i, KeySet(s, i));
    forall key | key in KeySet(s, k) ensures Alike(s.committed, t.committed, key) {
      assert Alike(s.committed, Seen(s, i), key);
      CursorsAside(schemas, s.committed, Seen(s, i), s.pages[i], key);
    }
  }

  /** So another writer's statements give over the new committed rows what it sees there. */
  lemma CommitIsNotSeen(lexer: P.Lexer, schemas: seq<S.EntityType>, s: State, t: State, k: nat)
    requires Shaped(schemas, s) && LocksItsKeys(s, k) && SeesItsOwn(lexer, schemas, s, k) && Unfinished(s.system, k)
    requires Agree(s.committed, t.committed, KeySet(s, k)) && t.sessions == s.sessions
    ensures var page := s.pages[k];
      var part := StatementsOf(schemas, page)[..s.sessions[k].progress];
      ExecuteAll(lexer, SchemaOf(schemas, page), page, t.committed, part)
        == Ok(Seen(t, k))
  {
    var page, session, keys := s.pages[k], s.sessions[k], KeySet(s, k);
    var schema, part := SchemaOf(schemas, page), StatementsOf(schemas, page)[..session.progress];
    LocksCoverStatements(schema, page.entities, page.entities, keys);
    StatementsAlike(lexer, schema, page, s.committed, t.committed, part, keys);
    var after := ExecuteAll(lexer, schema, page, t.committed, part).value;
    OverlayMoves(s.committed, t.committed, session.own, session.written, after, keys);
  }

  lemma CommitKeepsSound(hash: Hash, lexer: P.Lexer, schemas: seq<S.EntityType>, s: State, t: State, i: nat)
    requires Sound(hash, lexer, schemas, s) && CommitStep(schemas, s, t, i)
    ensures Sound(hash, lexer, schemas, t)
  {
    ReleaseKeepsConsistent(hash, s.system, i);
    forall k: nat ensures LocksItsKeys(t, k) && SeesItsOwn(lexer, schemas, t, k) {
      assert LocksItsKeys(s, k) && SeesItsOwn(lexer, schemas, s, k);
      if k < |s.system.writers| {
        assert t.system.writers[k].keys == s.system.writers[k].keys;
        assert KeySet(t, k) == KeySet(s, k);
        if k != i && Unfinished(s.system, k) {
          if s.sessions[k].progress == 0 {
            OverlayOfNothing(t.committed, s.sessions[k].own);
          } else {
            CommitAgrees(hash, lexer, schemas, s, t, i, k);
            CommitIsNotSeen(lexer, schemas, s, t, k);
          }
        }
      }
    }
  }

  // ----- the committed database

  /** The pages of the committed writers, in order. */
  function PagesOf(pages: seq<Page>, log: seq<nat>): seq<Page>
    requires forall n :: 0 <= n < |log| ==> log[n] < |pages|
  {
    if log == [] then [] else PagesOf(pages, log[..|log| - 1]) + [pages[log[|log| - 1]]]
  }

  /** The committed rows are what these pages give, one after another. */
  predicate IsSerial(lexer: P.Lexer, schemas: seq<S.EntityType>, start: Db, pages: seq<Page>, committed: Db) {
    AllAccepted(lexer, schemas, start, pages) && committed == AfterPages(lexer, schemas, start, pages)
  }

  lemma SerialGrows(
    lexer: P.Lexer, schemas: seq<S.EntityType>, start: Db, pages: seq<Page>, before: Db, page: Page, after: Db)
    requires IsSerial(lexer, schemas, start, pages, before) && PageResult(lexer, schemas, before, page) == Ok(after)
    ensures IsSerial(lexer, schemas, start, pages + [page], after)
  {
    var all := pages + [page];
    assert all[..|all| - 1] == pages && all[|all| - 1] == page;
  }

  /** A writer that commits does what its page does to the committed rows of that moment. */
  lemma CommitIsThePage(lexer: P.Lexer, schemas: seq<S.EntityType>, s: State, t: State, i: nat)
    requires Shaped(schemas, s) && SeesItsOwn(lexer, schemas, s, i) && CommitStep(schemas, s, t, i)
    ensures PageResult(lexer, schemas, s.committed, s.pages[i]) == Ok(t.committed)
  {
    var page := s.pages[i];
    var sts := StatementsOf(schemas, page);
    assert sts[..|sts|] == sts;
    PageExecutes(lexer, SchemaOf(schemas, page), page, s.committed, page.entities);
  }

  lemma MoveKeepsSound(hash: Hash, lexer: P.Lexer, schemas: seq<S.EntityType>, s: State, t: State, i: nat)
    requires Sound(hash, lexer, schemas, s) && Moves(hash, lexer, schemas, s, t, i)
    ensures Sound(hash, lexer, schemas, t) && t.pages == s.pages
  {
    if LockStep(hash, s, t, i) {
      LockKeepsSound(hash, lexer, schemas, s, t, i);
    } else if StatementStep(lexer, schemas, s, t, i) {
      StatementKeepsSound(hash, lexer, schemas, s, t, i);
    } else if CommitStep(schemas, s, t, i) {
      CommitKeepsSound(hash, lexer, schemas, s, t, i);
    } else {
      FailKeepsSound(hash, lexer, schemas, s, t, i);
    }
  }

  lemma MoveStaysSerial(
    hash: Hash, lexer: P.Lexer, schemas: seq<S.EntityType>, start: Db, s: State, t: State, i: nat)
    requires Shaped(schemas, s) && Shaped(schemas, t) && SeesItsOwn(lexer, schemas, s, i)
    requires Moves(hash, lexer, schemas, s, t, i)
    requires IsSerial(lexer, schemas, start, PagesOf(s.pages, s.log), s.committed)
    ensures IsSerial(lexer, schemas, start, PagesOf(t.pages, t.log), t.committed)
  {
    if CommitStep(schemas, s, t, i) {
      CommitIsThePage(lexer, schemas, s, t, i);
      SerialGrows(lexer, schemas, start, PagesOf(s.pages, s.log), s.committed, s.pages[i], t.committed);
      assert t.log[..|t.log| - 1] == s.log;
    }
  }

  lemma {:induction false} EveryStateIsSound(
    hash: Hash, lexer: P.Lexer, schemas: seq<S.EntityType>, run: seq<State>, k: nat)
    requires IsHistory(hash, lexer, schemas, run) && k < |run|
    ensures Sound(hash, lexer, schemas, run[k]) && run[k].pages == run[0].pages
    ensures IsSerial(lexer, schemas, run[0].committed, PagesOf(run[k].pages, run[k].log), run[k].committed)
  {
    if k == 0 {
      StartIsSound(hash, lexer, schemas, run[0]);
    } else {
      EveryStateIsSound(hash, lexer, schemas, run, k - 1);
      var s, t := run[k - 1], run[k];
      assert Goes(hash, lexer, schemas, run[k - 1], run[k - 1 + 1]);
      var i: nat :| Moves(hash, lexer, schemas, s, t, i);
      MoveKeepsSound(hash, lexer, schemas, s, t, i);
      assert SeesItsOwn(lexer, schemas, s, i);
      MoveStaysSerial(hash, lexer, schemas, run[0].committed, s, t, i);
    }
  }

  /** Serializability: whatever the order of their steps, and whatever fails on the way, the
      committed database is the one the committed pages give when they are written alone, each
      once, in the order of their commits, and every one of them is accepted there. */
  lemma WritersAreSerializable(hash: Hash, lexer: P.Lexer, schemas: seq<S.EntityType>, run: seq<State>)
    requires IsHistory(hash, lexer, schemas, run)
    ensures var s := run[|run| - 1];
      && Shaped(schemas, s) && LogIsOver(s) && s.pages == run[0].pages
      && IsSerial(lexer, schemas, run[0].committed, PagesOf(s.pages, s.log), s.committed)
  {
    EveryStateIsSound(hash, lexer, schemas, run, |run| - 1);
  }

  // ----- no writer is refused because of another

  lemma ErrorStays(lexer: P.Lexer, schema: S.EntityType, page: Page, db: Db, sts: seq<Statement>, n: nat)
    requires n <= |sts| && ExecuteAll(lexer, schema, page, db, sts[..n]).Err?
    ensures ExecuteAll(lexer, schema, page, db, sts).Err?
  {
    assert sts == sts[..n] + sts[n..];
    ExecuteAppend(lexer, schema, page, db, sts[..n], sts[n..]);
  }

  lemma NextErrorFailsAll(
    lexer: P.Lexer, schema: S.EntityType, page: Page, db: Db, sts: seq<Statement>, n: nat, seen: Db)
    requires n < |sts| && ExecuteAll(lexer, schema, page, db, sts[..n]) == Ok(seen)
    requires Execute(lexer, schema, page, seen, sts[n]).Err?
    ensures ExecuteAll(lexer, schema, page, db, sts).Err?
  {
    ExecuteLast(lexer, schema, page, db, sts[..n], sts[n]);
    assert sts[..n + 1] == sts[..n] + [sts[n]];
    ErrorStays(lexer, schema, page, db, sts, n + 1);
  }

  lemma FailingStatementsRefuse(lexer: P.Lexer, schemas: seq<S.EntityType>, db: Db, page: Page)
    requires IsOpened(schemas, page)
    requires ExecuteAll(lexer, SchemaOf(schemas, page), page, db, StatementsOf(schemas, page)).Err?
    ensures PageResult(lexer, schemas, db, page).Err?
  {
    PageExecutes(lexer, SchemaOf(schemas, page), page, db, page.entities);
  }

  lemma NextErrorIsThePages(lexer: P.Lexer, schemas: seq<S.EntityType>, s: State, i: nat)
    requires Shaped(schemas, s) && SeesItsOwn(lexer, schemas, s, i) && HasNext(schemas, s, i)
    requires NextOutcome(lexer, schemas, s, i).Err?
    ensures PageResult(lexer, schemas, s.committed, s.pages[i]).Err?
  {
    var page := s.pages[i];
    NextErrorFailsAll(lexer, SchemaOf(schemas, page), page, s.committed, StatementsOf(schemas, page),
      s.sessions[i].progress, Seen(s, i));
    FailingStatementsRefuse(lexer, schemas, s.committed, page);
  }

  /** In every reachable state, the next statement of a writer fails only if its page is refused
      on its own, over any database at all that keeps the registry invariant. */
  lemma RefusedOnlyAlone(
    hash: Hash, lexer: P.Lexer, schemas: seq<S.EntityType>, run: seq<State>, i: nat, alone: Db)
    requires IsHistory(hash, lexer, schemas, run) && RegistryInvariant(run[0].committed) && RegistryInvariant(alone)
    requires HasNext(schemas, run[|run| - 1], i) && NextOutcome(lexer, schemas, run[|run| - 1], i).Err?
    ensures PageResult(lexer, schemas, alone, run[|run| - 1].pages[i]).Err?
  {
    var s := run[|run| - 1];
    EveryStateIsSound(hash, lexer, schemas, run, |run| - 1);
    assert SeesItsOwn(lexer, schemas, s, i);
    NextErrorIsThePages(lexer, schemas, s, i);
    PagesKeepRegistryInvariant(lexer, schemas, run[0].committed, PagesOf(s.pages, s.log));
    AcceptanceIsThePagesOwn(lexer, schemas, s.committed, alone, s.pages[i]);
  }

  /** Some writer can go on, without failing. */
  ghost predicate SomeoneGoesOn(hash: Hash, lexer: P.Lexer, schemas: seq<S.EntityType>, s: State) {
    exists i: nat ::
      || CanAcquire(hash, s.system, i) || CanFinish(schemas, s, i)
      || (HasNext(schemas, s, i) && NextOutcome(lexer, schemas, s, i).Ok?)
  }

  /** With acceptable pages and a hash that does not tangle their keys, writers are never stuck. */
  lemma WritersGoOn(hash: Hash, lexer: P.Lexer, schemas: seq<S.EntityType>, run: seq<State>, alone: Db, keys: iset<Key>)
    requires IsHistory(hash, lexer, schemas, run) && RegistryInvariant(run[0].committed) && RegistryInvariant(alone)
    requires forall p :: p in run[0].pages ==> PageResult(lexer, schemas, alone, p).Ok?
    requires Untangled(hash, keys) && KeysFrom(run[|run| - 1].system, keys) && !AllDone(run[|run| - 1].system)
    ensures SomeoneGoesOn(hash, lexer, schemas, run[|run| - 1])
  {
    EveryStateIsSound(hash, lexer, schemas, run, |run| - 1);
    var s := run[|run| - 1];
    ConsistentGoesOn(hash, s.system, keys);
    var i: nat :| CanAcquire(hash, s.system, i) || CanCommit(s.system, i);
    if !CanAcquire(hash, s.system, i) {
      assert SeesItsOwn(lexer, schemas, s, i);
      if HasNext(schemas, s, i) {
        assert s.pages[i] in run[0].pages;
        if NextOutcome(lexer, schemas, s, i).Err? {
          RefusedOnlyAlone(hash, lexer, schemas, run, i, alone);
        }
      }
    }
  }
}
