/** What page writes keep, and that writing a page twice is writing it once. */
module SyncWriterTheorems {
  import opened Integers
  import opened Wrappers
  import opened SqlNames
  import opened SyncDatabase
  import opened SyncWriter
  import S = SyncSchema
  import P = Payload

  // ----- the effect of a page on one registry row

  /** Nothing, a raise to at least these values, or a fixed row whatever was there. */
  datatype Effect = Nothing | Raise(token: int, sourceUpdatedAt: int, atomUpdatedAt: int) | Fixed(row: RegistryRow)

  function Raised(row: RegistryRow, token: int, sourceUpdatedAt: int, atomUpdatedAt: int): RegistryRow {
    RegistryRow(Max(row.latestSkiptoken, token), row.deleted,
                Max(row.sourceUpdatedAt, sourceUpdatedAt), Max(row.atomUpdatedAt, atomUpdatedAt))
  }

  function ApplyEffect(effect: Effect, before: Option<RegistryRow>): Option<RegistryRow> {
    match effect
    case Nothing => before
    case Fixed(row) => Some(row)
    case Raise(token, su, au) =>
      Some(if before.None? then RegistryRow(token, false, su, au) else Raised(before.value, token, su, au))
  }

  /** A further relation-target upsert. */
  function ThenRaise(effect: Effect, token: int, su: int, au: int): Effect {
    match effect
    case Nothing => Raise(token, su, au)
    case Raise(t, s, a) => Raise(Max(t, token), Max(s, su), Max(a, au))
    case Fixed(row) => Fixed(Raised(row, token, su, au))
  }

  function TargetsEffect(
    effect: Effect, relations: seq<P.ParsedRelation>, entity: P.ParsedEntity, page: Page, key: Key): Effect
  {
    if relations == [] then effect else
    var last := relations[|relations| - 1];
    var before := TargetsEffect(effect, relations[..|relations| - 1], entity, page, key);
    if TargetKey(last) == key
    then ThenRaise(before, page.latestSkiptoken, TargetUpdatedAt(last, entity), page.atomUpdatedAt)
    else before
  }

  /** The effect of the entities of a page, in order, on one key. */
  function PageEffect(entities: seq<P.ParsedEntity>, page: Page, key: Key): Effect {
    if entities == [] then Nothing else
    var last := entities[|entities| - 1];
    var before := PageEffect(entities[..|entities| - 1], page, key);
    var own := if EntityKey(last) == key then Fixed(RegistryRowFor(last, page)) else before;
    if last.deleted then own else TargetsEffect(own, last.relations, last, page, key)
  }

  function Registered(db: Db, key: Key): Option<RegistryRow> {
    if key in db.registry then Some(db.registry[key]) else None
  }

  /** Effects are idempotent: overwriting and raising both are. */
  lemma EffectIsIdempotent(effect: Effect, before: Option<RegistryRow>)
    ensures ApplyEffect(effect, ApplyEffect(effect, before)) == ApplyEffect(effect, before)
  {}

  /** Only the registry differs. */
  ghost predicate OnlyRegistry(before: Db, after: Db) {
    && before.entities == after.entities && before.relations == after.relations
    && before.repeated == after.repeated && before.cursors == after.cursors
  }

  lemma OneTargetHasEffect(db: Db, target: Key, token: int, su: int, au: int, key: Key)
    ensures var after := UpsertRelationTarget(db, target, token, su, au);
      && Registered(after, key)
        == (if target == key then ApplyEffect(Raise(token, su, au), Registered(db, key)) else Registered(db, key))
      && OnlyRegistry(db, after)
  {}

  lemma RaiseComposes(effect: Effect, token: int, su: int, au: int, before: Option<RegistryRow>)
    ensures ApplyEffect(Raise(token, su, au), ApplyEffect(effect, before))
      == ApplyEffect(ThenRaise(effect, token, su, au), before)
  {}

  lemma {:induction false} TargetsHaveEffect(
    db: Db, relations: seq<P.ParsedRelation>, entity: P.ParsedEntity, page: Page, key: Key, effect: Effect,
    before: Option<RegistryRow>)
    requires Registered(db, key) == ApplyEffect(effect, before)
    ensures var after := UpsertTargets(db, relations, entity, page);
      && Registered(after, key) == ApplyEffect(TargetsEffect(effect, relations, entity, page, key), before)
      && OnlyRegistry(db, after)
  {
    if relations != [] {
      var front, last := relations[..|relations| - 1], relations[|relations| - 1];
      TargetsHaveEffect(db, front, entity, page, key, effect, before);
      var su := TargetUpdatedAt(last, entity);
      OneTargetHasEffect(UpsertTargets(db, front, entity, page), TargetKey(last), page.latestSkiptoken, su,
        page.atomUpdatedAt, key);
      RaiseComposes(TargetsEffect(effect, front, entity, page, key), page.latestSkiptoken, su, page.atomUpdatedAt,
        before);
    }
  }

  /** Relation and repeated-scalar inserts leave the registry, the entities and the cursors alone. */
  ghost predicate OnlyChildRows(before: Db, after: Db) {
    before.registry == after.registry && before.entities == after.entities && before.cursors == after.cursors
  }

  lemma {:induction false} RelationRowsOnly(
    db: Db, table: string, single: bool, entity: P.ParsedEntity, relations: seq<P.ParsedRelation>)
    ensures var r := InsertRelationRows(db, table, single, entity, relations);
      r.Ok? ==> OnlyChildRows(db, r.value) && r.value.repeated == db.repeated
  {
    if relations != [] {
      RelationRowsOnly(db, table, single, entity, relations[..|relations| - 1]);
    }
  }

  lemma {:induction false} RelationTablesOnly(
    db: Db, schema: S.EntityType, fields: seq<S.Field>, entity: P.ParsedEntity)
    ensures var r := InsertRelationTables(db, schema, fields, entity);
      r.Ok? ==> OnlyChildRows(db, r.value) && r.value.repeated == db.repeated
  {
    if fields != [] {
      var last := fields[|fields| - 1];
      RelationTablesOnly(db, schema, fields[..|fields| - 1], entity);
      var before := InsertRelationTables(db, schema, fields[..|fields| - 1], entity);
      if before.Ok? && S.IsRelationTable(last) {
        RelationRowsOnly(before.value, ChildTable(schema.category, last.name), S.HasSingleConstraint(last), entity,
          entity.relations);
      }
    }
  }

  lemma {:induction false} RepeatedRowsOnly(
    lexer: P.Lexer, db: Db, table: string, field: S.Field, entity: P.ParsedEntity, scalars: seq<P.ParsedScalar>)
    ensures var r := InsertRepeatedRows(lexer, db, table, field, entity, scalars);
      r.Ok? ==> OnlyChildRows(db, r.value) && r.value.relations == db.relations
  {
    if scalars != [] {
      RepeatedRowsOnly(lexer, db, table, field, entity, scalars[..|scalars| - 1]);
    }
  }

  lemma {:induction false} RepeatedTablesOnly(
    lexer: P.Lexer, db: Db, schema: S.EntityType, fields: seq<S.Field>, entity: P.ParsedEntity)
    ensures var r := InsertRepeatedTables(lexer, db, schema, fields, entity);
      r.Ok? ==> OnlyChildRows(db, r.value) && r.value.relations == db.relations
  {
    if fields != [] {
      var last := fields[|fields| - 1];
      RepeatedTablesOnly(lexer, db, schema, fields[..|fields| - 1], entity);
      var before := InsertRepeatedTables(lexer, db, schema, fields[..|fields| - 1], entity);
      if before.Ok? && S.IsRepeatedScalarTable(last) {
        RepeatedRowsOnly(lexer, before.value, ChildTable(schema.category, last.name), last, entity, entity.scalars);
      }
    }
  }

  /** The tables of a live entity after its inserts: registry and cursors as after registering. */
  lemma ApplyEntityParts(lexer: P.Lexer, schema: S.EntityType, db: Db, entity: P.ParsedEntity, page: Page)
    requires ApplyEntity(lexer, schema, db, entity, page).Ok?
    ensures var key := EntityKey(entity);
      var cleared := DeleteCurrentRows(UpsertSyncEntity(db, key, RegistryRowFor(entity, page)), key);
      var after := ApplyEntity(lexer, schema, db, entity, page).value;
      && after.cursors == db.cursors
      && (entity.deleted ==> after == cleared)
      && (!entity.deleted ==>
            && after.registry == UpsertTargets(cleared, entity.relations, entity, page).registry
            && BuildEntityRow(lexer, schema, entity, page).Ok?
            && after.entities == cleared.entities[key := BuildEntityRow(lexer, schema, entity, page).value])
  {
    var key := EntityKey(entity);
    var cleared := DeleteCurrentRows(UpsertSyncEntity(db, key, RegistryRowFor(entity, page)), key);
    if !entity.deleted {
      var registered := UpsertTargets(cleared, entity.relations, entity, page);
      TargetsHaveEffect(cleared, entity.relations, entity, page, key, Nothing, Registered(cleared, key));
      var inserted := InsertEntityRow(registered, key, BuildEntityRow(lexer, schema, entity, page).value).value;
      RelationTablesOnly(inserted, schema, schema.fields, entity);
      RepeatedTablesOnly(lexer, InsertRelationTables(inserted, schema, schema.fields, entity).value, schema,
        schema.fields, entity);
    }
  }

  /** A page acts on every registry row through its effect. */
  lemma {:induction false} PageActsByEffect(
    lexer: P.Lexer, schema: S.EntityType, db: Db, entities: seq<P.ParsedEntity>, page: Page, key: Key)
    requires ApplyEntities(lexer, schema, db, entities, page).Ok?
    ensures Registered(ApplyEntities(lexer, schema, db, entities, page).value, key)
      == ApplyEffect(PageEffect(entities, page, key), Registered(db, key))
    ensures ApplyEntities(lexer, schema, db, entities, page).value.cursors == db.cursors
  {
    if entities != [] {
      var front, last := entities[..|entities| - 1], entities[|entities| - 1];
      PageActsByEffect(lexer, schema, db, front, page, key);
      var before := ApplyEntities(lexer, schema, db, front, page).value;
      ApplyEntityParts(lexer, schema, before, last, page);
      var own := EntityKey(last);
      var cleared := DeleteCurrentRows(UpsertSyncEntity(before, own, RegistryRowFor(last, page)), own);
      var effect := if own == key then Fixed(RegistryRowFor(last, page)) else PageEffect(front, page, key);
      assert Registered(cleared, key) == ApplyEffect(effect, Registered(db, key));
      if !last.deleted {
        TargetsHaveEffect(cleared, last.relations, last, page, key, effect, Registered(db, key));
      }
    }
  }

  // ----- the registry invariant

  ghost predicate RegistryGrows(before: Db, after: Db) {
    forall k :: k in before.registry ==>
      && k in after.registry && after.registry[k].deleted == before.registry[k].deleted
      && after.registry[k].latestSkiptoken >= before.registry[k].latestSkiptoken
  }

  /** Removing a key's rows, then setting its registry row, in terms of the tables before. */
  lemma ClearedTables(db: Db, key: Key, row: RegistryRow)
    requires RegistryInvariant(db)
    ensures var cleared := DeleteCurrentRows(UpsertSyncEntity(db, key, row), key);
      && cleared.registry == db.registry[key := row]
      && cleared.cursors == db.cursors
      && cleared.entities == db.entities - {key}
      && (forall k :: k in cleared.relations <==> k in db.relations && k.source != key)
      && (forall k :: k in cleared.relations ==> cleared.relations[k] == db.relations[k])
      && (forall k :: k in cleared.repeated <==> k in db.repeated && k.source != key)
      && (forall k :: k in cleared.repeated ==> cleared.repeated[k] == db.repeated[k])
  {
    if key !in db.entities {
      RowsNeedTheirEntity(db, key);
      assert db.entities - {key} == db.entities;
      forall k | k in db.relations ensures k.source != key {
        assert k !in RelationsFrom(db.relations, key);
      }
      forall k | k in db.repeated ensures k.source != key {
        assert k !in RepeatedFrom(db.repeated, key);
      }
    }
  }

  lemma ClearedKeepsInvariant(db: Db, key: Key, row: RegistryRow)
    requires RegistryInvariant(db)
    ensures var cleared := DeleteCurrentRows(UpsertSyncEntity(db, key, row), key);
      && RegistryInvariant(cleared)
      && key in cleared.registry && cleared.registry[key] == row
      && key !in cleared.entities
  {
    ClearedTables(db, key, row);
    var cleared := DeleteCurrentRows(UpsertSyncEntity(db, key, row), key);
    KeepsInvariantWithout(db, cleared, key, row);
  }

  lemma KeepsInvariantWithout(db: Db, cleared: Db, key: Key, row: RegistryRow)
    requires RegistryInvariant(db)
    requires cleared.registry == db.registry[key := row] && cleared.entities == db.entities - {key}
    requires forall k :: k in cleared.relations ==> k in db.relations && k.source != key
    requires forall k :: k in cleared.repeated ==> k in db.repeated && k.source != key
    ensures RegistryInvariant(cleared)
  {}

  lemma {:induction false} TargetsKeepInvariant(
    db: Db, relations: seq<P.ParsedRelation>, entity: P.ParsedEntity, page: Page)
    requires RegistryInvariant(db)
    ensures var after := UpsertTargets(db, relations, entity, page);
      && RegistryInvariant(after) && RegistryGrows(db, after)
      && (forall r :: r in relations ==> TargetKey(r) in after.registry)
  {
    if relations != [] {
      var front, last := relations[..|relations| - 1], relations[|relations| - 1];
      TargetsKeepInvariant(db, front, entity, page);
      assert relations == front + [last];
    }
  }

  lemma {:induction false} RelationRowsKeepInvariant(
    db: Db, table: string, single: bool, entity: P.ParsedEntity, relations: seq<P.ParsedRelation>)
    requires RegistryInvariant(db)
    ensures var r := InsertRelationRows(db, table, single, entity, relations); r.Ok? ==> RegistryInvariant(r.value)
  {
    if relations != [] {
      RelationRowsKeepInvariant(db, table, single, entity, relations[..|relations| - 1]);
    }
  }

  lemma {:induction false} RelationTablesKeepInvariant(
    db: Db, schema: S.EntityType, fields: seq<S.Field>, entity: P.ParsedEntity)
    requires RegistryInvariant(db)
    ensures var r := InsertRelationTables(db, schema, fields, entity); r.Ok? ==> RegistryInvariant(r.value)
  {
    if fields != [] {
      var last := fields[|fields| - 1];
      RelationTablesKeepInvariant(db, schema, fields[..|fields| - 1], entity);
      var before := InsertRelationTables(db, schema, fields[..|fields| - 1], entity);
      if before.Ok? && S.IsRelationTable(last) {
        RelationRowsKeepInvariant(before.value, ChildTable(schema.category, last.name), S.HasSingleConstraint(last),
          entity, entity.relations);
      }
    }
  }

  lemma {:induction false} RepeatedRowsKeepInvariant(
    lexer: P.Lexer, db: Db, table: string, field: S.Field, entity: P.ParsedEntity, scalars: seq<P.ParsedScalar>)
    requires RegistryInvariant(db)
    ensures var r := InsertRepeatedRows(lexer, db, table, field, entity, scalars); r.Ok? ==> RegistryInvariant(r.value)
  {
    if scalars != [] {
      RepeatedRowsKeepInvariant(lexer, db, table, field, entity, scalars[..|scalars| - 1]);
    }
  }

  lemma {:induction false} RepeatedTablesKeepInvariant(
    lexer: P.Lexer, db: Db, schema: S.EntityType, fields: seq<S.Field>, entity: P.ParsedEntity)
    requires RegistryInvariant(db)
    ensures var r := InsertRepeatedTables(lexer, db, schema, fields, entity); r.Ok? ==> RegistryInvariant(r.value)
  {
    if fields != [] {
      var last := fields[|fields| - 1];
      RepeatedTablesKeepInvariant(lexer, db, schema, fields[..|fields| - 1], entity);
      var before := InsertRepeatedTables(lexer, db, schema, fields[..|fields| - 1], entity);
      if before.Ok? && S.IsRepeatedScalarTable(last) {
        RepeatedRowsKeepInvariant(lexer, before.value, ChildTable(schema.category, last.name), last, entity,
          entity.scalars);
      }
    }
  }

  lemma ApplyEntityKeepsInvariant(lexer: P.Lexer, schema: S.EntityType, db: Db, entity: P.ParsedEntity, page: Page)
    requires RegistryInvariant(db)
    ensures var r := ApplyEntity(lexer, schema, db, entity, page); r.Ok? ==> RegistryInvariant(r.value)
  {
    var key := EntityKey(entity);
    ClearedKeepsInvariant(db, key, RegistryRowFor(entity, page));
    var cleared := DeleteCurrentRows(UpsertSyncEntity(db, key, RegistryRowFor(entity, page)), key);
    if !entity.deleted && ApplyEntity(lexer, schema, db, entity, page).Ok? {
      TargetsKeepInvariant(cleared, entity.relations, entity, page);
      var registered := UpsertTargets(cleared, entity.relations, entity, page);
      var inserted := InsertEntityRow(registered, key, BuildEntityRow(lexer, schema, entity, page).value).value;
      RelationTablesKeepInvariant(inserted, schema, schema.fields, entity);
      RepeatedTablesKeepInvariant(lexer, InsertRelationTables(inserted, schema, schema.fields, entity).value, schema,
        schema.fields, entity);
    }
  }

  lemma {:induction false} ApplyEntitiesKeepInvariant(
    lexer: P.Lexer, schema: S.EntityType, db: Db, entities: seq<P.ParsedEntity>, page: Page)
    requires RegistryInvariant(db)
    ensures var r := ApplyEntities(lexer, schema, db, entities, page); r.Ok? ==> RegistryInvariant(r.value)
  {
    if entities != [] {
      var front := entities[..|entities| - 1];
      ApplyEntitiesKeepInvariant(lexer, schema, db, front, page);
      var before := ApplyEntities(lexer, schema, db, front, page);
      if before.Ok? {
        ApplyEntityKeepsInvariant(lexer, schema, before.value, entities[|entities| - 1], page);
      }
    }
  }

  /** The database after a sequence of page writes; a refused page changes nothing. */
  function AfterPages(lexer: P.Lexer, schemas: seq<S.EntityType>, db: Db, pages: seq<Page>): Db {
    if pages == [] then db else
    var before := AfterPages(lexer, schemas, db, pages[..|pages| - 1]);
    match PageResult(lexer, schemas, before, pages[|pages| - 1])
    case Ok(after) => after
    case Err(_) => before
  }

  /** None of the pages is refused when they are written one after another. */
  predicate AllAccepted(lexer: P.Lexer, schemas: seq<S.EntityType>, start: Db, pages: seq<Page>) {
    pages == [] ||
    (var front := pages[..|pages| - 1];
     && AllAccepted(lexer, schemas, start, front)
     && PageResult(lexer, schemas, AfterPages(lexer, schemas, start, front), pages[|pages| - 1]).Ok?)
  }

  const EMPTY_DB := Db(map[], map[], map[], map[], map[])

  /** Every sequence of page writes, of any pages for any schema, keeps the registry invariant. */
  lemma {:induction false} PagesKeepRegistryInvariant(
    lexer: P.Lexer, schemas: seq<S.EntityType>, db: Db, pages: seq<Page>)
    requires db == EMPTY_DB || RegistryInvariant(db)
    ensures RegistryInvariant(AfterPages(lexer, schemas, db, pages))
  {
    if pages != [] {
      var page := pages[|pages| - 1];
      PagesKeepRegistryInvariant(lexer, schemas, db, pages[..|pages| - 1]);
      var before := AfterPages(lexer, schemas, db, pages[..|pages| - 1]);
      if PageResult(lexer, schemas, before, page).Ok? {
        ApplyEntitiesKeepInvariant(lexer, S.EntityNamed(schemas, page.category).value, before, page.entities, page);
      }
    }
  }

  // ----- two databases written in lockstep

  function EntityAt(db: Db, key: Key): Option<EntityRow> {
    if key in db.entities then Some(db.entities[key]) else None
  }

  function RelationAt(db: Db, key: RelationKey): Option<int> {
    if key in db.relations then Some(db.relations[key]) else None
  }

  function RepeatedAt(db: Db, key: RepeatedKey): Option<BindValue> {
    if key in db.repeated then Some(db.repeated[key]) else None
  }

  /** The two databases hold the same current rows for a key. */
  ghost predicate SameCurrent(a: Db, b: Db, key: Key) {
    && EntityAt(a, key) == EntityAt(b, key)
    && (forall k: RelationKey :: k.source == key ==> RelationAt(a, k) == RelationAt(b, k))
    && (forall k: RepeatedKey :: k.source == key ==> RepeatedAt(a, k) == RepeatedAt(b, k))
  }

  /** Every other key has the same current rows. */
  ghost predicate OthersKept(a: Db, b: Db, key: Key) {
    forall k :: k != key ==> SameCurrent(a, b, k)
  }

  lemma SameCurrentRelation(a: Db, b: Db, key: RelationKey, single: bool, updatedAt: int)
    requires SameCurrent(a, b, key.source) && key.source in a.entities
    requires key.target in a.registry && key.target in b.registry
    ensures InsertRelation(a, key, single, updatedAt).Ok? <==> InsertRelation(b, key, single, updatedAt).Ok?
    ensures InsertRelation(a, key, single, updatedAt).Ok? ==>
      && SameCurrent(
           InsertRelation(a, key, single, updatedAt).value, InsertRelation(b, key, single, updatedAt).value, key.source)
      && OthersKept(a, InsertRelation(a, key, single, updatedAt).value, key.source)
  {
    assert EntityAt(a, key.source) == EntityAt(b, key.source);
    assert RelationTaken(a.relations, key, single) <==> RelationTaken(b.relations, key, single) by {
      if RelationTaken(a.relations, key, single) { TakenTransfers(a, b, key, single); }
      if RelationTaken(b.relations, key, single) { TakenTransfers(b, a, key, single); }
    }
  }

  lemma TakenTransfers(a: Db, b: Db, key: RelationKey, single: bool)
    requires SameCurrent(a, b, key.source) && RelationTaken(a.relations, key, single)
    ensures RelationTaken(b.relations, key, single)
  {
    assert RelationAt(a, key) == RelationAt(b, key);
    if key !in a.relations {
      var k :| k in a.relations && k.table == key.table && k.source == key.source && k.name == key.name;
      assert RelationAt(a, k) == RelationAt(b, k);
    }
  }

  lemma OthersKeptChains(a: Db, b: Db, c: Db, key: Key)
    requires OthersKept(a, b, key) && OthersKept(b, c, key)
    ensures OthersKept(a, c, key)
  {
    forall k | k != key ensures SameCurrent(a, c, k) {
      assert SameCurrent(a, b, k) && SameCurrent(b, c, k);
    }
  }

  /** Both databases can take the child rows of the entity: its row is there, its targets registered. */
  ghost predicate Ready(a: Db, b: Db, entity: P.ParsedEntity) {
    && SameCurrent(a, b, EntityKey(entity)) && EntityKey(entity) in a.entities
    && (forall r :: r in entity.relations ==> TargetKey(r) in a.registry && TargetKey(r) in b.registry)
  }

  /** From Ready databases a and b, the inserts that gave a2 and b2 did the same to the entity only. */
  ghost predicate InStep(a: Db, b: Db, a2: Db, b2: Db, entity: P.ParsedEntity) {
    && Ready(a2, b2, entity)
    && OthersKept(a, a2, EntityKey(entity)) && OthersKept(b, b2, EntityKey(entity))
  }

  lemma InStepChains(a: Db, b: Db, a2: Db, b2: Db, a3: Db, b3: Db, entity: P.ParsedEntity)
    requires InStep(a, b, a2, b2, entity) && InStep(a2, b2, a3, b3, entity)
    ensures InStep(a, b, a3, b3, entity)
  {
    OthersKeptChains(a, a2, a3, EntityKey(entity));
    OthersKeptChains(b, b2, b3, EntityKey(entity));
  }

  lemma RelationInStep(a: Db, b: Db, table: string, single: bool, entity: P.ParsedEntity, relation: P.ParsedRelation)
    requires Ready(a, b, entity) && relation in entity.relations
    ensures var key := RelationRowKey(table, entity, relation);
      var ra, rb := InsertRelation(a, key, single, entity.sourceUpdatedAt),
        InsertRelation(b, key, single, entity.sourceUpdatedAt);
      && ra.Ok? == rb.Ok? && (ra.Ok? ==> InStep(a, b, ra.value, rb.value, entity))
  {
    var key := RelationRowKey(table, entity, relation);
    SameCurrentRelation(a, b, key, single, entity.sourceUpdatedAt);
    SameCurrentIsSymmetric(a, b, EntityKey(entity));
    SameCurrentRelation(b, a, key, single, entity.sourceUpdatedAt);
  }

  lemma SameCurrentIsSymmetric(a: Db, b: Db, key: Key)
    requires SameCurrent(a, b, key)
    ensures SameCurrent(b, a, key)
  {
    forall k: RelationKey | k.source == key ensures RelationAt(b, k) == RelationAt(a, k) {}
    forall k: RepeatedKey | k.source == key ensures RepeatedAt(b, k) == RepeatedAt(a, k) {}
  }

  lemma {:induction false} RelationRowsInStep(
    a: Db, b: Db, table: string, single: bool, entity: P.ParsedEntity, relations: seq<P.ParsedRelation>)
    requires Ready(a, b, entity) && (forall r :: r in relations ==> r in entity.relations)
    ensures var ra := InsertRelationRows(a, table, single, entity, relations);
      var rb := InsertRelationRows(b, table, single, entity, relations);
      && ra.Ok? == rb.Ok? && (ra.Ok? ==> InStep(a, b, ra.value, rb.value, entity))
  {
    if relations != [] {
      var front, last := relations[..|relations| - 1], relations[|relations| - 1];
      RelationRowsInStep(a, b, table, single, entity, front);
      var a2, b2 := InsertRelationRows(a, table, single, entity, front),
        InsertRelationRows(b, table, single, entity, front);
      if a2.Ok? && BelongsTo(last, table) {
        RelationInStep(a2.value, b2.value, table, single, entity, last);
        var key := RelationRowKey(table, entity, last);
        var a3 := InsertRelation(a2.value, key, single, entity.sourceUpdatedAt);
        var b3 := InsertRelation(b2.value, key, single, entity.sourceUpdatedAt);
        if a3.Ok? { InStepChains(a, b, a2.value, b2.value, a3.value, b3.value, entity); }
      }
    }
  }

  lemma {:induction false} RelationTablesInStep(
    a: Db, b: Db, schema: S.EntityType, fields: seq<S.Field>, entity: P.ParsedEntity)
    requires Ready(a, b, entity)
    ensures var ra := InsertRelationTables(a, schema, fields, entity);
      var rb := InsertRelationTables(b, schema, fields, entity);
      && ra.Ok? == rb.Ok? && (ra.Ok? ==> InStep(a, b, ra.value, rb.value, entity))
  {
    if fields != [] {
      var front, last := fields[..|fields| - 1], fields[|fields| - 1];
      RelationTablesInStep(a, b, schema, front, entity);
      var a2, b2 := InsertRelationTables(a, schema, front, entity), InsertRelationTables(b, schema, front, entity);
      if a2.Ok? && S.IsRelationTable(last) {
        var table, single := ChildTable(schema.category, last.name), S.HasSingleConstraint(last);
        RelationRowsInStep(a2.value, b2.value, table, single, entity, entity.relations);
        var a3 := InsertRelationRows(a2.value, table, single, entity, entity.relations);
        var b3 := InsertRelationRows(b2.value, table, single, entity, entity.relations);
        if a3.Ok? { InStepChains(a, b, a2.value, b2.value, a3.value, b3.value, entity); }
      }
    }
  }

  lemma RepeatedInStep(a: Db, b: Db, table: string, ordinal: int, value: BindValue, entity: P.ParsedEntity)
    requires Ready(a, b, entity)
    ensures var key := RepeatedKey(table, EntityKey(entity), ordinal);
      var ra, rb := InsertRepeated(a, key, value), InsertRepeated(b, key, value);
      && ra.Ok? == rb.Ok? && (ra.Ok? ==> InStep(a, b, ra.value, rb.value, entity))
  {
    var key := RepeatedKey(table, EntityKey(entity), ordinal);
    assert RepeatedAt(a, key) == RepeatedAt(b, key) && EntityAt(a, key.source) == EntityAt(b, key.source);
    var ra, rb := InsertRepeated(a, key, value), InsertRepeated(b, key, value);
    if ra.Ok? {
      assert SameCurrent(ra.value, rb.value, EntityKey(entity));
      assert OthersKept(a, ra.value, EntityKey(entity));
      assert OthersKept(b, rb.value, EntityKey(entity));
    }
  }

  lemma {:induction false} RepeatedRowsInStep(
    lexer: P.Lexer, a: Db, b: Db, table: string, field: S.Field, entity: P.ParsedEntity, scalars: seq<P.ParsedScalar>)
    requires Ready(a, b, entity)
    ensures var ra := InsertRepeatedRows(lexer, a, table, field, entity, scalars);
      var rb := InsertRepeatedRows(lexer, b, table, field, entity, scalars);
      && ra.Ok? == rb.Ok? && (ra.Ok? ==> InStep(a, b, ra.value, rb.value, entity))
  {
    if scalars != [] {
      var front, last := scalars[..|scalars| - 1], scalars[|scalars| - 1];
      RepeatedRowsInStep(lexer, a, b, table, field, entity, front);
      var a2, b2 := InsertRepeatedRows(lexer, a, table, field, entity, front),
        InsertRepeatedRows(lexer, b, table, field, entity, front);
      var bound := BindFromParsedValue(lexer, last.name, last.value, S.SqlTypeOf(field.xsdType));
      if a2.Ok? && last.name == field.name && bound.Ok? {
        RepeatedInStep(a2.value, b2.value, table, last.ordinal, bound.value, entity);
        var key := RepeatedKey(table, EntityKey(entity), last.ordinal);
        var a3, b3 := InsertRepeated(a2.value, key, bound.value), InsertRepeated(b2.value, key, bound.value);
        if a3.Ok? { InStepChains(a, b, a2.value, b2.value, a3.value, b3.value, entity); }
      }
    }
  }

  lemma {:induction false} RepeatedTablesInStep(
    lexer: P.Lexer, a: Db, b: Db, schema: S.EntityType, fields: seq<S.Field>, entity: P.ParsedEntity)
    requires Ready(a, b, entity)
    ensures var ra := InsertRepeatedTables(lexer, a, schema, fields, entity);
      var rb := InsertRepeatedTables(lexer, b, schema, fields, entity);
      && ra.Ok? == rb.Ok? && (ra.Ok? ==> InStep(a, b, ra.value, rb.value, entity))
  {
    if fields != [] {
      var front, last := fields[..|fields| - 1], fields[|fields| - 1];
      RepeatedTablesInStep(lexer, a, b, schema, front, entity);
      var a2, b2 := InsertRepeatedTables(lexer, a, schema, front, entity),
        InsertRepeatedTables(lexer, b, schema, front, entity);
      if a2.Ok? && S.IsRepeatedScalarTable(last) {
        var table := ChildTable(schema.category, last.name);
        RepeatedRowsInStep(lexer, a2.value, b2.value, table, last, entity, entity.scalars);
        var a3 := InsertRepeatedRows(lexer, a2.value, table, last, entity, entity.scalars);
        var b3 := InsertRepeatedRows(lexer, b2.value, table, last, entity, entity.scalars);
        if a3.Ok? { InStepChains(a, b, a2.value, b2.value, a3.value, b3.value, entity); }
      }
    }
  }

  /** What is left of a cleared key is nothing, and other keys keep their rows. */
  lemma ClearedKeepsOthers(db: Db, key: Key, row: RegistryRow)
    requires RegistryInvariant(db)
    ensures var cleared := DeleteCurrentRows(UpsertSyncEntity(db, key, row), key);
      OthersKept(db, cleared, key) && SameCurrent(EMPTY_DB, cleared, key)
  {
    ClearedTables(db, key, row);
    var cleared := DeleteCurrentRows(UpsertSyncEntity(db, key, row), key);
    forall k | k != key ensures SameCurrent(db, cleared, k) {
      forall r: RelationKey | r.source == k ensures RelationAt(db, r) == RelationAt(cleared, r) {}
      forall r: RepeatedKey | r.source == k ensures RepeatedAt(db, r) == RepeatedAt(cleared, r) {}
    }
    forall r: RelationKey | r.source == key ensures RelationAt(cleared, r) == None {}
    forall r: RepeatedKey | r.source == key ensures RepeatedAt(cleared, r) == None {}
  }

  /** The database once the entity's row is in and its targets are registered. */
  ghost function WithEntityRow(lexer: P.Lexer, schema: S.EntityType, db: Db, entity: P.ParsedEntity, page: Page): Db
    requires BuildEntityRow(lexer, schema, entity, page).Ok?
  {
    var key := EntityKey(entity);
    var cleared := DeleteCurrentRows(UpsertSyncEntity(db, key, RegistryRowFor(entity, page)), key);
    var registered := UpsertTargets(cleared, entity.relations, entity, page);
    registered.(entities := registered.entities[key := BuildEntityRow(lexer, schema, entity, page).value])
  }

  /** Current rows under a key once only its entity row is there. */
  ghost predicate JustTheRow(db: Db, key: Key, row: EntityRow) {
    SameCurrent(EMPTY_DB.(entities := map[key := row]), db, key)
  }

  lemma AddingTheRow(db: Db, cleared: Db, registered: Db, key: Key, row: EntityRow)
    requires OthersKept(db, cleared, key) && SameCurrent(EMPTY_DB, cleared, key) && OnlyRegistry(cleared, registered)
    ensures var after := registered.(entities := registered.entities[key := row]);
      OthersKept(db, after, key) && JustTheRow(after, key, row)
  {
    var after := registered.(entities := registered.entities[key := row]);
    forall k | k != key ensures SameCurrent(db, after, k) {
      assert SameCurrent(db, cleared, k);
      assert EntityAt(after, k) == EntityAt(cleared, k);
      forall r: RelationKey | r.source == k ensures RelationAt(after, r) == RelationAt(db, r) {
        assert RelationAt(cleared, r) == RelationAt(db, r);
      }
      forall r: RepeatedKey | r.source == k ensures RepeatedAt(after, r) == RepeatedAt(db, r) {
        assert RepeatedAt(cleared, r) == RepeatedAt(db, r);
      }
    }
    forall r: RelationKey | r.source == key ensures RelationAt(after, r) == None {
      assert RelationAt(cleared, r) == RelationAt(EMPTY_DB, r);
    }
    forall r: RepeatedKey | r.source == key ensures RepeatedAt(after, r) == None {
      assert RepeatedAt(cleared, r) == RepeatedAt(EMPTY_DB, r);
    }
  }

  lemma WithEntityRowParts(lexer: P.Lexer, schema: S.EntityType, db: Db, entity: P.ParsedEntity, page: Page)
    requires RegistryInvariant(db) && BuildEntityRow(lexer, schema, entity, page).Ok?
    ensures var key, after := EntityKey(entity), WithEntityRow(lexer, schema, db, entity, page);
      && OthersKept(db, after, key)
      && JustTheRow(after, key, BuildEntityRow(lexer, schema, entity, page).value)
      && (forall r :: r in entity.relations ==> TargetKey(r) in after.registry)
      && key in after.entities
      && (!entity.deleted ==>
            ApplyEntity(lexer, schema, db, entity, page) == InsertChildRows(lexer, schema, after, entity))
  {
    var key, row := EntityKey(entity), RegistryRowFor(entity, page);
    var cleared := DeleteCurrentRows(UpsertSyncEntity(db, key, row), key);
    ClearedKeepsOthers(db, key, row);
    ClearedKeepsInvariant(db, key, row);
    TargetsKeepInvariant(cleared, entity.relations, entity, page);
    TargetsHaveEffect(cleared, entity.relations, entity, page, key, Nothing, Registered(cleared, key));
    AddingTheRow(db, cleared, UpsertTargets(cleared, entity.relations, entity, page), key,
      BuildEntityRow(lexer, schema, entity, page).value);
  }

  lemma SameRowSameCurrent(a: Db, b: Db, key: Key, row: EntityRow)
    requires JustTheRow(a, key, row) && JustTheRow(b, key, row)
    ensures SameCurrent(a, b, key)
  {
    var just := EMPTY_DB.(entities := map[key := row]);
    forall r: RelationKey | r.source == key ensures RelationAt(a, r) == RelationAt(b, r) {
      assert RelationAt(just, r) == RelationAt(a, r) && RelationAt(just, r) == RelationAt(b, r);
    }
    forall r: RepeatedKey | r.source == key ensures RepeatedAt(a, r) == RepeatedAt(b, r) {
      assert RepeatedAt(just, r) == RepeatedAt(a, r) && RepeatedAt(just, r) == RepeatedAt(b, r);
    }
  }

  lemma ChildRowsInStep(lexer: P.Lexer, schema: S.EntityType, a: Db, b: Db, entity: P.ParsedEntity)
    requires Ready(a, b, entity)
    ensures var ra, rb := InsertChildRows(lexer, schema, a, entity), InsertChildRows(lexer, schema, b, entity);
      && ra.Ok? == rb.Ok? && (ra.Ok? ==> InStep(a, b, ra.value, rb.value, entity))
  {
    RelationTablesInStep(a, b, schema, schema.fields, entity);
    var a2, b2 := InsertRelationTables(a, schema, schema.fields, entity),
      InsertRelationTables(b, schema, schema.fields, entity);
    if a2.Ok? {
      RepeatedTablesInStep(lexer, a2.value, b2.value, schema, schema.fields, entity);
      var a3 := InsertRepeatedTables(lexer, a2.value, schema, schema.fields, entity);
      var b3 := InsertRepeatedTables(lexer, b2.value, schema, schema.fields, entity);
      if a3.Ok? { InStepChains(a, b, a2.value, b2.value, a3.value, b3.value, entity); }
    }
  }

  /** One entity is written alike into any two databases that keep the invariant, and whatever
      they held before: both refuse it or both take it, ending with the same rows under its key
      and untouched rows under every other. */
  lemma EntityWrittenAlike(lexer: P.Lexer, schema: S.EntityType, a: Db, b: Db, entity: P.ParsedEntity, page: Page)
    requires RegistryInvariant(a) && RegistryInvariant(b)
    ensures var key := EntityKey(entity);
      var ra, rb := ApplyEntity(lexer, schema, a, entity, page), ApplyEntity(lexer, schema, b, entity, page);
      && ra.Ok? == rb.Ok?
      && (ra.Ok? ==>
            SameCurrent(ra.value, rb.value, key) && OthersKept(a, ra.value, key) && OthersKept(b, rb.value, key))
  {
    var key := EntityKey(entity);
    if entity.deleted {
      DeletedWrittenAlike(lexer, schema, a, b, entity, page);
    } else if BuildEntityRow(lexer, schema, entity, page).Ok? {
      WithEntityRowParts(lexer, schema, a, entity, page);
      WithEntityRowParts(lexer, schema, b, entity, page);
      var a1, b1 := WithEntityRow(lexer, schema, a, entity, page), WithEntityRow(lexer, schema, b, entity, page);
      SameRowSameCurrent(a1, b1, key, BuildEntityRow(lexer, schema, entity, page).value);
      ChildRowsInStep(lexer, schema, a1, b1, entity);
      var ra, rb := ApplyEntity(lexer, schema, a, entity, page), ApplyEntity(lexer, schema, b, entity, page);
      if ra.Ok? {
        OthersKeptChains(a, a1, ra.value, key);
        OthersKeptChains(b, b1, rb.value, key);
      }
    }
  }

  lemma DeletedWrittenAlike(lexer: P.Lexer, schema: S.EntityType, a: Db, b: Db, entity: P.ParsedEntity, page: Page)
    requires RegistryInvariant(a) && RegistryInvariant(b) && entity.deleted
    ensures var key := EntityKey(entity);
      var ra, rb := ApplyEntity(lexer, schema, a, entity, page), ApplyEntity(lexer, schema, b, entity, page);
      && ra.Ok? && rb.Ok?
      && SameCurrent(ra.value, rb.value, key) && OthersKept(a, ra.value, key) && OthersKept(b, rb.value, key)
  {
    var key, row := EntityKey(entity), RegistryRowFor(entity, page);
    ClearedKeepsOthers(a, key, row);
    ClearedKeepsOthers(b, key, row);
    SameCurrentIsSymmetric(EMPTY_DB, DeleteCurrentRows(UpsertSyncEntity(a, key, row), key), key);
    SameCurrentChains(DeleteCurrentRows(UpsertSyncEntity(a, key, row), key), EMPTY_DB,
      DeleteCurrentRows(UpsertSyncEntity(b, key, row), key), key);
  }

  lemma SameCurrentChains(a: Db, b: Db, c: Db, key: Key)
    requires SameCurrent(a, b, key) && SameCurrent(b, c, key)
    ensures SameCurrent(a, c, key)
  {}

  // ----- idempotence

  predicate Writes(entities: seq<P.ParsedEntity>, key: Key) {
    exists e :: e in entities && EntityKey(e) == key
  }

  /** Replaying entities over any database that keeps the invariant succeeds, gives the keys they
      write the rows of the first run and leaves the other keys as they are. */
  lemma {:induction false} Replay(
    lexer: P.Lexer, schema: S.EntityType, db: Db, over: Db, entities: seq<P.ParsedEntity>, page: Page)
    requires RegistryInvariant(db) && RegistryInvariant(over) && ApplyEntities(lexer, schema, db, entities, page).Ok?
    ensures ApplyEntities(lexer, schema, over, entities, page).Ok?
    ensures forall key :: SameCurrent(
        if Writes(entities, key) then ApplyEntities(lexer, schema, db, entities, page).value else over,
        ApplyEntities(lexer, schema, over, entities, page).value, key)
  {
    if entities != [] {
      var front, last := entities[..|entities| - 1], entities[|entities| - 1];
      Replay(lexer, schema, db, over, front, page);
      var a, b := ApplyEntities(lexer, schema, db, front, page).value,
        ApplyEntities(lexer, schema, over, front, page).value;
      ApplyEntitiesKeepInvariant(lexer, schema, db, front, page);
      ApplyEntitiesKeepInvariant(lexer, schema, over, front, page);
      EntityWrittenAlike(lexer, schema, a, b, last, page);
      ReplayEverywhere(entities, a, b, ApplyEntity(lexer, schema, a, last, page).value,
        ApplyEntity(lexer, schema, b, last, page).value, over);
    }
  }

  lemma ReplayEverywhere(entities: seq<P.ParsedEntity>, a: Db, b: Db, a2: Db, b2: Db, over: Db)
    requires entities != []
    requires var front, own := entities[..|entities| - 1], EntityKey(entities[|entities| - 1]);
      && (forall key :: SameCurrent(if Writes(front, key) then a else over, b, key))
      && SameCurrent(a2, b2, own) && OthersKept(a, a2, own) && OthersKept(b, b2, own)
    ensures forall key :: SameCurrent(if Writes(entities, key) then a2 else over, b2, key)
  {
    var front, last := entities[..|entities| - 1], entities[|entities| - 1];
    assert entities == front + [last];
    forall key ensures SameCurrent(if Writes(entities, key) then a2 else over, b2, key) {
      assert Writes(entities, key) <==> Writes(front, key) || EntityKey(last) == key;
      ReplayStep(if Writes(front, key) then a else over, a, b, a2, b2, over, EntityKey(last), key, Writes(front, key));
    }
  }

  lemma ReplayStep(was: Db, a: Db, b: Db, a2: Db, b2: Db, over: Db, own: Key, key: Key, written: bool)
    requires SameCurrent(was, b, key) && was == (if written then a else over)
    requires SameCurrent(a2, b2, own) && OthersKept(a, a2, own) && OthersKept(b, b2, own)
    ensures SameCurrent(if written || own == key then a2 else over, b2, key)
  {
    if key != own {
      assert SameCurrent(a, a2, key) && SameCurrent(b, b2, key);
      SameCurrentChains(was, b, b2, key);
      if written {
        SameCurrentIsSymmetric(a, a2, key);
        SameCurrentChains(a2, a, b2, key);
      }
    }
  }

  lemma SameEverywhere(a: Db, b: Db)
    requires forall key :: SameCurrent(a, b, key)
    requires forall key :: Registered(a, key) == Registered(b, key)
    requires a.cursors == b.cursors
    ensures a == b
  {
    forall k ensures (k in a.registry <==> k in b.registry) && (k in a.registry ==> a.registry[k] == b.registry[k]) {
      assert Registered(a, k) == Registered(b, k);
    }
    assert a.registry == b.registry;
    forall k ensures (k in a.entities <==> k in b.entities) && (k in a.entities ==> a.entities[k] == b.entities[k]) {
      assert SameCurrent(a, b, k);
    }
    assert a.entities == b.entities;
    forall k: RelationKey
      ensures (k in a.relations <==> k in b.relations) && (k in a.relations ==> a.relations[k] == b.relations[k])
    {
      assert SameCurrent(a, b, k.source);
      assert RelationAt(a, k) == RelationAt(b, k);
    }
    assert a.relations == b.relations;
    forall k: RepeatedKey
      ensures (k in a.repeated <==> k in b.repeated) && (k in a.repeated ==> a.repeated[k] == b.repeated[k])
    {
      assert SameCurrent(a, b, k.source);
      assert RepeatedAt(a, k) == RepeatedAt(b, k);
    }
    assert a.repeated == b.repeated;
  }

  lemma {:induction false} EntitiesTwiceIsOnce(
    lexer: P.Lexer, schema: S.EntityType, db: Db, entities: seq<P.ParsedEntity>, page: Page,
    cursors: map<string, CursorRow>)
    requires RegistryInvariant(db) && ApplyEntities(lexer, schema, db, entities, page).Ok?
    ensures var once := ApplyEntities(lexer, schema, db, entities, page).value.(cursors := cursors);
      ApplyEntities(lexer, schema, once, entities, page) == Ok(once)
  {
    ApplyEntitiesKeepInvariant(lexer, schema, db, entities, page);
    var first := ApplyEntities(lexer, schema, db, entities, page).value;
    var once := first.(cursors := cursors);
    Replay(lexer, schema, db, once, entities, page);
    var twice := ApplyEntities(lexer, schema, once, entities, page).value;
    forall key ensures SameCurrent(once, twice, key) {
      assert SameCurrent(if Writes(entities, key) then first else once, twice, key);
      CursorsDoNotMatter(first, once, twice, key);
    }
    forall key ensures Registered(once, key) == Registered(twice, key) {
      PageActsByEffect(lexer, schema, db, entities, page, key);
      PageActsByEffect(lexer, schema, once, entities, page, key);
      EffectIsIdempotent(PageEffect(entities, page, key), Registered(db, key));
    }
    PageActsByEffect(lexer, schema, once, entities, page, Key("", 0));
    SameEverywhere(once, twice);
  }

  lemma CursorsDoNotMatter(first: Db, once: Db, twice: Db, key: Key)
    requires once == first.(cursors := once.cursors)
    requires SameCurrent(first, twice, key) || SameCurrent(once, twice, key)
    ensures SameCurrent(once, twice, key)
  {
    if SameCurrent(first, twice, key) {
      forall r: RelationKey | r.source == key ensures RelationAt(once, r) == RelationAt(twice, r) {
        assert RelationAt(first, r) == RelationAt(twice, r);
      }
      forall r: RepeatedKey | r.source == key ensures RepeatedAt(once, r) == RepeatedAt(twice, r) {
        assert RepeatedAt(first, r) == RepeatedAt(twice, r);
      }
    }
  }

  /** Applying a page that was applied already changes nothing, even when its entities reference
      or repeat each other. */
  lemma PageTwiceIsOnce(lexer: P.Lexer, schemas: seq<S.EntityType>, db: Db, page: Page)
    requires RegistryInvariant(db) && PageResult(lexer, schemas, db, page).Ok?
    ensures PageResult(lexer, schemas, PageResult(lexer, schemas, db, page).value, page)
      == PageResult(lexer, schemas, db, page)
  {
    var schema := S.EntityNamed(schemas, page.category).value;
    var after := PageResult(lexer, schemas, db, page).value;
    EntitiesTwiceIsOnce(lexer, schema, db, page.entities, page, after.cursors);
    assert after == ApplyEntities(lexer, schema, db, page.entities, page).value.(cursors := after.cursors);
    var row := CursorRow(page.latestSkiptoken, page.nextUrl, Running, page.atomUpdatedAt);
    assert after.cursors[schema.category := row] == after.cursors;
  }

  /** Whether a page is accepted does not depend on what the database held. */
  lemma AcceptanceIsThePagesOwn(lexer: P.Lexer, schemas: seq<S.EntityType>, a: Db, b: Db, page: Page)
    requires RegistryInvariant(a) && RegistryInvariant(b)
    ensures PageResult(lexer, schemas, a, page).Ok? <==> PageResult(lexer, schemas, b, page).Ok?
  {
    var schema := S.EntityNamed(schemas, page.category);
    if schema.Some? {
      if ApplyEntities(lexer, schema.value, a, page.entities, page).Ok? {
        Replay(lexer, schema.value, a, b, page.entities, page);
      }
      if ApplyEntities(lexer, schema.value, b, page.entities, page).Ok? {
        Replay(lexer, schema.value, b, a, page.entities, page);
      }
    }
  }
}
