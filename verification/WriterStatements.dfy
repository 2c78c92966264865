/** A page write as a sequence of statements, each reaching no further than the keys of its entity. */
module WriterStatements {
  import opened Wrappers
  import opened SqlNames
  import opened SyncDatabase
  import opened SyncWriter
  import S = SyncSchema
  import P = Payload

  /** The statements of a page write; a relation table is filled by one INSERT, a repeated scalar by
      one INSERT each. */
  datatype Statement =
    | Register(entity: P.ParsedEntity)
    | Clear(entity: P.ParsedEntity)
    | Target(entity: P.ParsedEntity, relation: P.ParsedRelation)
    | Row(entity: P.ParsedEntity)
    | Relations(entity: P.ParsedEntity, field: S.Field)
    | Repeated(entity: P.ParsedEntity, field: S.Field, scalar: P.ParsedScalar)

  function InsertScalar(
    lexer: P.Lexer, db: Db, table: string, field: S.Field, entity: P.ParsedEntity, scalar: P.ParsedScalar):
    Result<Db, WriteError>
  {
    match BindFromParsedValue(lexer, scalar.name, scalar.value, S.SqlTypeOf(field.xsdType))
    case Err(error) => Err(error)
    case Ok(value) => AsWrite(InsertRepeated(db, RepeatedKey(table, EntityKey(entity), scalar.ordinal), value))
  }

  function AsWrite(r: Result<Db, DbError>): Result<Db, WriteError> {
    match r
    case Err(error) => Err(Database(error))
    case Ok(db) => Ok(db)
  }

  function InsertRow(
    lexer: P.Lexer, schema: S.EntityType, db: Db, entity: P.ParsedEntity, page: Page): Result<Db, WriteError>
  {
    match BuildEntityRow(lexer, schema, entity, page)
    case Err(error) => Err(error)
    case Ok(row) => AsWrite(InsertEntityRow(db, EntityKey(entity), row))
  }

  function Execute(lexer: P.Lexer, schema: S.EntityType, page: Page, db: Db, st: Statement): Result<Db, WriteError> {
    match st
    case Register(e) => Ok(UpsertSyncEntity(db, EntityKey(e), RegistryRowFor(e, page)))
    case Clear(e) => Ok(DeleteCurrentRows(db, EntityKey(e)))
    case Target(e, r) =>
      Ok(UpsertRelationTarget(db, TargetKey(r), page.latestSkiptoken, TargetUpdatedAt(r, e), page.atomUpdatedAt))
    case Row(e) => InsertRow(lexer, schema, db, e, page)
    case Relations(e, f) =>
      AsWrite(InsertRelationRows(db, ChildTable(schema.category, f.name), S.HasSingleConstraint(f), e, e.relations))
    case Repeated(e, f, s) => InsertScalar(lexer, db, ChildTable(schema.category, f.name), f, e, s)
  }

  function ExecuteAll(lexer: P.Lexer, schema: S.EntityType, page: Page, db: Db, sts: seq<Statement>):
    Result<Db, WriteError>
  {
    if sts == [] then Ok(db) else
    match ExecuteAll(lexer, schema, page, db, sts[..|sts| - 1])
    case Err(error) => Err(error)
    case Ok(before) => Execute(lexer, schema, page, before, sts[|sts| - 1])
  }

  // ----- the statements of a page

  function Targets(entity: P.ParsedEntity, relations: seq<P.ParsedRelation>): seq<Statement> {
    if relations == [] then []
    else Targets(entity, relations[..|relations| - 1]) + [Target(entity, relations[|relations| - 1])]
  }

  function RelationInserts(entity: P.ParsedEntity, fields: seq<S.Field>): seq<Statement> {
    if fields == [] then [] else
    var last := fields[|fields| - 1];
    RelationInserts(entity, fields[..|fields| - 1])
    + (if S.IsRelationTable(last) then [Relations(entity, last)] else [])
  }

  function ScalarInserts(entity: P.ParsedEntity, field: S.Field, scalars: seq<P.ParsedScalar>): seq<Statement> {
    if scalars == [] then [] else
    var last := scalars[|scalars| - 1];
    ScalarInserts(entity, field, scalars[..|scalars| - 1])
    + (if last.name == field.name then [Repeated(entity, field, last)] else [])
  }

  function RepeatedInserts(entity: P.ParsedEntity, fields: seq<S.Field>): seq<Statement> {
    if fields == [] then [] else
    var last := fields[|fields| - 1];
    RepeatedInserts(entity, fields[..|fields| - 1])
    + (if S.IsRepeatedScalarTable(last) then ScalarInserts(entity, last, entity.scalars) else [])
  }

  function LiveStatements(schema: S.EntityType, entity: P.ParsedEntity): seq<Statement> {
    Targets(entity, entity.relations) + [Row(entity)]
    + RelationInserts(entity, schema.fields) + RepeatedInserts(entity, schema.fields)
  }

  function EntityStatements(schema: S.EntityType, entity: P.ParsedEntity): seq<Statement> {
    [Register(entity), Clear(entity)] + (if entity.deleted then [] else LiveStatements(schema, entity))
  }

  function PageStatements(schema: S.EntityType, entities: seq<P.ParsedEntity>): seq<Statement> {
    if entities == [] then []
    else PageStatements(schema, entities[..|entities| - 1]) + EntityStatements(schema, entities[|entities| - 1])
  }

  // ----- executing them is writing the page

  function Then(lexer: P.Lexer, schema: S.EntityType, page: Page, before: Result<Db, WriteError>, sts: seq<Statement>):
    Result<Db, WriteError>
  {
    match before
    case Err(error) => Err(error)
    case Ok(db) => ExecuteAll(lexer, schema, page, db, sts)
  }

  lemma {:induction false} ExecuteAppend(
    lexer: P.Lexer, schema: S.EntityType, page: Page, db: Db, a: seq<Statement>, b: seq<Statement>)
    ensures ExecuteAll(lexer, schema, page, db, a + b)
      == Then(lexer, schema, page, ExecuteAll(lexer, schema, page, db, a), b)
    decreases |b|
  {
    if b == [] {
      assert a + b == a;
    } else {
      ExecuteAppend(lexer, schema, page, db, a, b[..|b| - 1]);
      assert (a + b)[..|a + b| - 1] == a + b[..|b| - 1];
    }
  }

  function ThenOne(lexer: P.Lexer, schema: S.EntityType, page: Page, before: Result<Db, WriteError>, st: Statement):
    Result<Db, WriteError>
  {
    match before
    case Err(error) => Err(error)
    case Ok(db) => Execute(lexer, schema, page, db, st)
  }

  lemma ExecuteLast(lexer: P.Lexer, schema: S.EntityType, page: Page, db: Db, sts: seq<Statement>, st: Statement)
    ensures ExecuteAll(lexer, schema, page, db, sts + [st])
      == ThenOne(lexer, schema, page, ExecuteAll(lexer, schema, page, db, sts), st)
  {
    var all := sts + [st];
    assert all[..|all| - 1] == sts && all[|all| - 1] == st;
  }

  lemma ExecuteOne(lexer: P.Lexer, schema: S.EntityType, page: Page, db: Db, st: Statement)
    ensures ExecuteAll(lexer, schema, page, db, [st]) == Execute(lexer, schema, page, db, st)
  {
    assert [st][..0] == [];
  }

  lemma {:induction false} TargetsExecute(
    lexer: P.Lexer, schema: S.EntityType, page: Page, db: Db, entity: P.ParsedEntity, relations: seq<P.ParsedRelation>)
    ensures ExecuteAll(lexer, schema, page, db, Targets(entity, relations))
      == Ok(UpsertTargets(db, relations, entity, page))
  {
    if relations != [] {
      var front := relations[..|relations| - 1];
      TargetsExecute(lexer, schema, page, db, entity, front);
      var sts := Targets(entity, relations);
      assert sts[..|sts| - 1] == Targets(entity, front);
    }
  }

  /** One more relation table, after the outcome of the tables before it. */
  function ThenTable(before: Result<Db, DbError>, schema: S.EntityType, field: S.Field, entity: P.ParsedEntity):
    Result<Db, DbError>
  {
    match before
    case Err(error) => Err(error)
    case Ok(db) =>
      InsertRelationRows(db, ChildTable(schema.category, field.name), S.HasSingleConstraint(field), entity,
        entity.relations)
  }

  lemma TableExecutes(
    lexer: P.Lexer, schema: S.EntityType, page: Page, before: Result<Db, DbError>, entity: P.ParsedEntity,
    field: S.Field)
    ensures ThenOne(lexer, schema, page, AsWrite(before), Relations(entity, field))
      == AsWrite(ThenTable(before, schema, field, entity))
  {}

  lemma LastTable(db: Db, schema: S.EntityType, front: seq<S.Field>, last: S.Field, entity: P.ParsedEntity)
    ensures InsertRelationTables(db, schema, front + [last], entity)
      == var before := InsertRelationTables(db, schema, front, entity);
         if S.IsRelationTable(last) then ThenTable(before, schema, last, entity) else before
    ensures RelationInserts(entity, front + [last])
      == RelationInserts(entity, front) + (if S.IsRelationTable(last) then [Relations(entity, last)] else [])
  {
    var fields := front + [last];
    assert fields[..|fields| - 1] == front && fields[|fields| - 1] == last;
  }

  lemma {:induction false} RelationsExecute(
    lexer: P.Lexer, schema: S.EntityType, page: Page, db: Db, entity: P.ParsedEntity, fields: seq<S.Field>)
    ensures ExecuteAll(lexer, schema, page, db, RelationInserts(entity, fields))
      == AsWrite(InsertRelationTables(db, schema, fields, entity))
  {
    if fields != [] {
      var front, last := fields[..|fields| - 1], fields[|fields| - 1];
      RelationsExecute(lexer, schema, page, db, entity, front);
      RelationsStep(lexer, schema, page, db, entity, front, last);
      assert fields == front + [last];
    }
  }

  lemma RelationsStep(
    lexer: P.Lexer, schema: S.EntityType, page: Page, db: Db, entity: P.ParsedEntity, front: seq<S.Field>,
    last: S.Field)
    requires ExecuteAll(lexer, schema, page, db, RelationInserts(entity, front))
      == AsWrite(InsertRelationTables(db, schema, front, entity))
    ensures ExecuteAll(lexer, schema, page, db, RelationInserts(entity, front + [last]))
      == AsWrite(InsertRelationTables(db, schema, front + [last], entity))
  {
    LastTable(db, schema, front, last, entity);
    ExecuteLast(lexer, schema, page, db, RelationInserts(entity, front), Relations(entity, last));
    TableExecutes(lexer, schema, page, InsertRelationTables(db, schema, front, entity), entity, last);
    assert RelationInserts(entity, front) + [] == RelationInserts(entity, front);
  }

  lemma LastScalar(
    lexer: P.Lexer, schema: S.EntityType, page: Page, db: Db, entity: P.ParsedEntity, field: S.Field,
    front: seq<P.ParsedScalar>, last: P.ParsedScalar)
    ensures var table := ChildTable(schema.category, field.name);
      var before := InsertRepeatedRows(lexer, db, table, field, entity, front);
      InsertRepeatedRows(lexer, db, table, field, entity, front + [last])
        == if last.name != field.name then before
           else ThenOne(lexer, schema, page, before, Repeated(entity, field, last))
    ensures ScalarInserts(entity, field, front + [last])
      == ScalarInserts(entity, field, front) + (if last.name == field.name then [Repeated(entity, field, last)] else [])
  {
    var scalars := front + [last];
    assert scalars[..|scalars| - 1] == front && scalars[|scalars| - 1] == last;
  }

  lemma {:induction false} ScalarsExecute(
    lexer: P.Lexer, schema: S.EntityType, page: Page, db: Db, entity: P.ParsedEntity, field: S.Field,
    scalars: seq<P.ParsedScalar>)
    ensures ExecuteAll(lexer, schema, page, db, ScalarInserts(entity, field, scalars))
      == InsertRepeatedRows(lexer, db, ChildTable(schema.category, field.name), field, entity, scalars)
  {
    if scalars != [] {
      var front, last := scalars[..|scalars| - 1], scalars[|scalars| - 1];
      ScalarsExecute(lexer, schema, page, db, entity, field, front);
      ScalarsStep(lexer, schema, page, db, entity, field, front, last);
      assert scalars == front + [last];
    }
  }

  lemma ScalarsStep(
    lexer: P.Lexer, schema: S.EntityType, page: Page, db: Db, entity: P.ParsedEntity, field: S.Field,
    front: seq<P.ParsedScalar>, last: P.ParsedScalar)
    requires ExecuteAll(lexer, schema, page, db, ScalarInserts(entity, field, front))
      == InsertRepeatedRows(lexer, db, ChildTable(schema.category, field.name), field, entity, front)
    ensures ExecuteAll(lexer, schema, page, db, ScalarInserts(entity, field, front + [last]))
      == InsertRepeatedRows(lexer, db, ChildTable(schema.category, field.name), field, entity, front + [last])
  {
    LastScalar(lexer, schema, page, db, entity, field, front, last);
    ExecuteLast(lexer, schema, page, db, ScalarInserts(entity, field, front), Repeated(entity, field, last));
    assert ScalarInserts(entity, field, front) + [] == ScalarInserts(entity, field, front);
  }

  lemma {:induction false} RepeatedExecute(
    lexer: P.Lexer, schema: S.EntityType, page: Page, db: Db, entity: P.ParsedEntity, fields: seq<S.Field>)
    ensures ExecuteAll(lexer, schema, page, db, RepeatedInserts(entity, fields))
      == InsertRepeatedTables(lexer, db, schema, fields, entity)
  {
    if fields != [] {
      var front, last := fields[..|fields| - 1], fields[|fields| - 1];
      RepeatedExecute(lexer, schema, page, db, entity, front);
      if S.IsRepeatedScalarTable(last) {
        ExecuteAppend(lexer, schema, page, db, RepeatedInserts(entity, front),
          ScalarInserts(entity, last, entity.scalars));
        var before := InsertRepeatedTables(lexer, db, schema, front, entity);
        if before.Ok? {
          ScalarsExecute(lexer, schema, page, before.value, entity, last, entity.scalars);
        }
      } else {
        assert RepeatedInserts(entity, fields) == RepeatedInserts(entity, front);
      }
    }
  }

  lemma ChildRowsExecute(lexer: P.Lexer, schema: S.EntityType, page: Page, db: Db, entity: P.ParsedEntity)
    ensures ExecuteAll(
      lexer, schema, page, db, RelationInserts(entity, schema.fields) + RepeatedInserts(entity, schema.fields))
      == InsertChildRows(lexer, schema, db, entity)
  {
    ExecuteAppend(lexer, schema, page, db, RelationInserts(entity, schema.fields),
      RepeatedInserts(entity, schema.fields));
    RelationsExecute(lexer, schema, page, db, entity, schema.fields);
    var related := InsertRelationTables(db, schema, schema.fields, entity);
    if related.Ok? {
      RepeatedExecute(lexer, schema, page, related.value, entity, schema.fields);
    }
  }

  lemma EntityExecutes(lexer: P.Lexer, schema: S.EntityType, page: Page, db: Db, entity: P.ParsedEntity)
    ensures ExecuteAll(lexer, schema, page, db, EntityStatements(schema, entity))
      == ApplyEntity(lexer, schema, db, entity, page)
  {
    var start := [Register(entity), Clear(entity)];
    var cleared := DeleteCurrentRows(UpsertSyncEntity(db, EntityKey(entity), RegistryRowFor(entity, page)),
      EntityKey(entity));
    ExecuteAppend(lexer, schema, page, db, [Register(entity)], [Clear(entity)]);
    ExecuteOne(lexer, schema, page, db, Register(entity));
    ExecuteOne(lexer, schema, page, UpsertSyncEntity(db, EntityKey(entity), RegistryRowFor(entity, page)),
      Clear(entity));
    assert start == [Register(entity)] + [Clear(entity)];
    assert ExecuteAll(lexer, schema, page, db, start) == Ok(cleared);
    if entity.deleted {
      assert EntityStatements(schema, entity) == start;
    } else {
      ExecuteAppend(lexer, schema, page, db, start, LiveStatements(schema, entity));
      LiveExecutes(lexer, schema, page, cleared, entity);
    }
  }

  lemma LiveExecutes(lexer: P.Lexer, schema: S.EntityType, page: Page, db: Db, entity: P.ParsedEntity)
    ensures ExecuteAll(lexer, schema, page, db, LiveStatements(schema, entity)) ==
      match InsertRow(lexer, schema, UpsertTargets(db, entity.relations, entity, page), entity, page) {
        case Err(error) => Err(error)
        case Ok(inserted) => InsertChildRows(lexer, schema, inserted, entity)
      }
  {
    var targets, children := Targets(entity, entity.relations),
      RelationInserts(entity, schema.fields) + RepeatedInserts(entity, schema.fields);
    assert LiveStatements(schema, entity) == targets + ([Row(entity)] + children);
    ExecuteAppend(lexer, schema, page, db, targets, [Row(entity)] + children);
    TargetsExecute(lexer, schema, page, db, entity, entity.relations);
    var registered := UpsertTargets(db, entity.relations, entity, page);
    ExecuteAppend(lexer, schema, page, registered, [Row(entity)], children);
    ExecuteOne(lexer, schema, page, registered, Row(entity));
    var inserted := InsertRow(lexer, schema, registered, entity, page);
    if inserted.Ok? {
      ChildRowsExecute(lexer, schema, page, inserted.value, entity);
    }
  }

  /** The statements of a page, one after another, are the page write. */
  lemma {:induction false} PageExecutes(
    lexer: P.Lexer, schema: S.EntityType, page: Page, db: Db, entities: seq<P.ParsedEntity>)
    ensures ExecuteAll(lexer, schema, page, db, PageStatements(schema, entities))
      == ApplyEntities(lexer, schema, db, entities, page)
  {
    if entities != [] {
      var front, last := entities[..|entities| - 1], entities[|entities| - 1];
      PageExecutes(lexer, schema, page, db, front);
      ExecuteAppend(lexer, schema, page, db, PageStatements(schema, front), EntityStatements(schema, last));
      var before := ApplyEntities(lexer, schema, db, front, page);
      if before.Ok? {
        EntityExecutes(lexer, schema, page, before.value, last);
      }
    }
  }
}
