/** Writing one parsed page and its cursor in a single transaction. */
module SyncWriter {
  import opened Wrappers
  import opened SqlNames
  import opened SyncDatabase
  import S = SyncSchema
  import P = Payload

  datatype Page = Page(
    category: string, latestSkiptoken: int, nextUrl: Option<string>, atomUpdatedAt: int,
    entities: seq<P.ParsedEntity>)

  datatype Outcome = Outcome(seen: nat, written: nat, deleted: nat, relationsWritten: nat, repeatedScalarsWritten: nat)

  datatype WriteError =
    | UnknownCategory(category: string)
    | CategoryMismatch(entityCategory: string)
    | TypeMismatch(field: string)
    | MissingNonNullValue(column: string)
    | Database(error: DbError)

  // ----- binding values to columns

  function BindFromParsedValue(lexer: P.Lexer, field: string, value: P.ParsedValue, sqlType: S.SqlType):
    Result<BindValue, WriteError>
  {
    match (sqlType, value)
    case (Uuid, Text(text)) =>
      (match lexer.uuid(text) case Some(u) => Ok(BindUuid(Some(u))) case None => Err(TypeMismatch(field)))
    case (Text, Text(text)) => Ok(BindText(Some(text)))
    case (Jsonb, Text(text)) => Ok(BindText(Some(text)))
    case (Boolean, Bool(flag)) => Ok(BindBool(Some(flag)))
    case (Integer, I32(n)) => Ok(BindI32(Some(n)))
    case (Integer, I64(n)) => if P.IsI32(n) then Ok(BindI32(Some(n))) else Err(TypeMismatch(field))
    case (BigInteger, I64(n)) => Ok(BindI64(Some(n)))
    case (BigInteger, I32(n)) => Ok(BindI64(Some(n)))
    case (TimestampTz, DateTime(t)) => Ok(BindDateTime(Some(t)))
    case (Date, Date(d)) => Ok(BindDate(Some(d)))
    case _ => Err(TypeMismatch(field))
  }

  function NullFor(sqlType: S.SqlType): BindValue {
    match sqlType
    case Uuid => BindUuid(None)
    case Text => BindText(None)
    case Jsonb => BindText(None)
    case Boolean => BindBool(None)
    case Integer => BindI32(None)
    case BigInteger => BindI64(None)
    case BigIdentity => BindI64(None)
    case TimestampTz => BindDateTime(None)
    case Date => BindDate(None)
  }

  /** The scalar a column gets: the last one whose name maps to the column's. */
  function ScalarFor(scalars: seq<P.ParsedScalar>, column: string): (scalar: Option<P.ParsedScalar>)
    ensures scalar.Some? ==> scalar.value in scalars && SqlName(scalar.value.name) == column
    ensures scalar.None? ==> forall s :: s in scalars ==> SqlName(s.name) != column
  {
    if scalars == [] then None
    else if SqlName(scalars[|scalars| - 1].name) == column then Some(scalars[|scalars| - 1])
    else ScalarFor(scalars[..|scalars| - 1], column)
  }

  lemma {:induction false} ScalarForIsLast(scalars: seq<P.ParsedScalar>, column: string, i: nat)
    requires i < |scalars| && SqlName(scalars[i].name) == column
    requires forall j :: i < j < |scalars| ==> SqlName(scalars[j].name) != column
    ensures ScalarFor(scalars, column) == Some(scalars[i])
    decreases |scalars|
  {
    if i < |scalars| - 1 {
      ScalarForIsLast(scalars[..|scalars| - 1], column, i);
    }
  }

  /** The value of the columns that are not a field's. */
  function MetadataValue(name: string, entity: P.ParsedEntity, page: Page): Option<BindValue> {
    if name == "source_category" then Some(BindText(Some(entity.category)))
    else if name == "source_id" then Some(BindUuid(Some(entity.sourceId)))
    else if name == "latest_skiptoken" then Some(BindI64(Some(page.latestSkiptoken)))
    else if name == "deleted" then Some(BindBool(Some(false)))
    else if name == "source_updated_at" then Some(BindDateTime(Some(entity.sourceUpdatedAt)))
    else if name == "atom_updated_at" then Some(BindDateTime(Some(page.atomUpdatedAt)))
    else if name == "content_type" then Some(BindText(entity.contentType))
    else if name == "content_length" then Some(BindI32(entity.contentLength))
    else if name == "enclosure_url" then Some(BindText(entity.enclosureUrl))
    else None
  }

  predicate ContentTooLong(entity: P.ParsedEntity) {
    entity.contentLength.Some? && !P.IsI32(entity.contentLength.value)
  }

  function ColumnValue(lexer: P.Lexer, column: S.Column, entity: P.ParsedEntity, page: Page):
    Result<BindValue, WriteError>
  {
    match MetadataValue(column.name, entity, page)
    case Some(value) =>
      if column.name == "content_length" && ContentTooLong(entity) then Err(TypeMismatch("contentLength"))
      else Ok(value)
    case None =>
      match ScalarFor(entity.scalars, column.name)
      case Some(scalar) => BindFromParsedValue(lexer, scalar.name, scalar.value, column.sqlType)
      case None => if column.nullable then Ok(NullFor(column.sqlType)) else Err(MissingNonNullValue(column.name))
  }

  function EntityColumnValues(lexer: P.Lexer, columns: seq<S.Column>, entity: P.ParsedEntity, page: Page):
    Result<seq<(string, BindValue)>, WriteError>
  {
    if columns == [] then Ok([]) else
    match EntityColumnValues(lexer, columns[..|columns| - 1], entity, page)
    case Err(error) => Err(error)
    case Ok(values) =>
      var column := columns[|columns| - 1];
      match ColumnValue(lexer, column, entity, page)
      case Err(error) => Err(error)
      case Ok(value) => Ok(values + [(column.name, value)])
  }

  /** The database refuses NULL in a column that is not nullable. */
  function FirstNull(columns: seq<S.Column>, values: seq<(string, BindValue)>): Option<string>
    requires |columns| == |values|
  {
    if columns == [] then None
    else if !columns[0].nullable && values[0].1.IsNull() then Some(columns[0].name)
    else FirstNull(columns[1..], values[1..])
  }

  lemma {:induction false} ValuesPerColumn(lexer: P.Lexer, columns: seq<S.Column>, entity: P.ParsedEntity, page: Page)
    ensures var r := EntityColumnValues(lexer, columns, entity, page); r.Ok? ==> |r.value| == |columns|
  {
    if columns != [] {
      ValuesPerColumn(lexer, columns[..|columns| - 1], entity, page);
    }
  }

  // ----- one entity

  function EntityKey(entity: P.ParsedEntity): Key {
    Key(entity.category, entity.sourceId)
  }

  function TargetKey(relation: P.ParsedRelation): Key {
    Key(relation.targetCategory, relation.targetId)
  }

  function RegistryRowFor(entity: P.ParsedEntity, page: Page): RegistryRow {
    RegistryRow(page.latestSkiptoken, entity.deleted, entity.sourceUpdatedAt, page.atomUpdatedAt)
  }

  function TargetUpdatedAt(relation: P.ParsedRelation, entity: P.ParsedEntity): int {
    if relation.targetUpdatedAt.Some? then relation.targetUpdatedAt.value else entity.sourceUpdatedAt
  }

  /** The relation targets of an entity, registered in order. */
  function UpsertTargets(db: Db, relations: seq<P.ParsedRelation>, entity: P.ParsedEntity, page: Page): Db {
    if relations == [] then db else
    var last := relations[|relations| - 1];
    UpsertRelationTarget(UpsertTargets(db, relations[..|relations| - 1], entity, page),
      TargetKey(last), page.latestSkiptoken, TargetUpdatedAt(last, entity), page.atomUpdatedAt)
  }

  function BuildEntityRow(
    lexer: P.Lexer, schema: S.EntityType, entity: P.ParsedEntity, page: Page): Result<EntityRow, WriteError>
  {
    match EntityColumnValues(lexer, S.EntityColumns(schema), entity, page)
    case Err(error) => Err(error)
    case Ok(values) =>
      ValuesPerColumn(lexer, S.EntityColumns(schema), entity, page);
      match FirstNull(S.EntityColumns(schema), values)
      case Some(column) => Err(Database(NotNullViolation(column)))
      case None => Ok(EntityRow(page.latestSkiptoken, values))
  }

  /** A relation belongs to the table whose name ends in its own SQL name. */
  predicate BelongsTo(relation: P.ParsedRelation, table: string) {
    match SplitAtDouble(table)
    case Some(parts) => SqlName(relation.name) == parts.1
    case None => SqlName(relation.name) == table
  }

  function RelationRowKey(table: string, entity: P.ParsedEntity, relation: P.ParsedRelation): RelationKey {
    RelationKey(table, EntityKey(entity), relation.name, TargetKey(relation), relation.ordinal)
  }

  /** The rows one relation table gets, inserted in order. */
  function InsertRelationRows(
    db: Db, table: string, single: bool, entity: P.ParsedEntity, relations: seq<P.ParsedRelation>):
    Result<Db, DbError>
  {
    if relations == [] then Ok(db) else
    var last := relations[|relations| - 1];
    match InsertRelationRows(db, table, single, entity, relations[..|relations| - 1])
    case Err(error) => Err(error)
    case Ok(before) =>
      if BelongsTo(last, table)
      then InsertRelation(before, RelationRowKey(table, entity, last), single, entity.sourceUpdatedAt)
      else Ok(before)
  }

  function InsertRelationTables(
    db: Db, schema: S.EntityType, fields: seq<S.Field>, entity: P.ParsedEntity): Result<Db, DbError>
  {
    if fields == [] then Ok(db) else
    var last := fields[|fields| - 1];
    match InsertRelationTables(db, schema, fields[..|fields| - 1], entity)
    case Err(error) => Err(error)
    case Ok(before) =>
      if S.IsRelationTable(last) then
        InsertRelationRows(before, ChildTable(schema.category, last.name), S.HasSingleConstraint(last), entity,
          entity.relations)
      else Ok(before)
  }

  function InsertRepeatedRows(
    lexer: P.Lexer, db: Db, table: string, field: S.Field, entity: P.ParsedEntity, scalars: seq<P.ParsedScalar>):
    Result<Db, WriteError>
  {
    if scalars == [] then Ok(db) else
    var last := scalars[|scalars| - 1];
    match InsertRepeatedRows(lexer, db, table, field, entity, scalars[..|scalars| - 1])
    case Err(error) => Err(error)
    case Ok(before) =>
      if last.name != field.name then Ok(before)
      else match BindFromParsedValue(lexer, last.name, last.value, S.SqlTypeOf(field.xsdType))
        case Err(error) => Err(error)
        case Ok(value) =>
          match InsertRepeated(before, RepeatedKey(table, EntityKey(entity), last.ordinal), value)
          case Err(error) => Err(Database(error))
          case Ok(after) => Ok(after)
  }

  function InsertRepeatedTables(
    lexer: P.Lexer, db: Db, schema: S.EntityType, fields: seq<S.Field>, entity: P.ParsedEntity):
    Result<Db, WriteError>
  {
    if fields == [] then Ok(db) else
    var last := fields[|fields| - 1];
    match InsertRepeatedTables(lexer, db, schema, fields[..|fields| - 1], entity)
    case Err(error) => Err(error)
    case Ok(before) =>
      if S.IsRepeatedScalarTable(last) then
        InsertRepeatedRows(lexer, before, ChildTable(schema.category, last.name), last, entity, entity.scalars)
      else Ok(before)
  }

  function InsertChildRows(
    lexer: P.Lexer, schema: S.EntityType, db: Db, entity: P.ParsedEntity): Result<Db, WriteError>
  {
    match InsertRelationTables(db, schema, schema.fields, entity)
    case Err(error) => Err(Database(error))
    case Ok(related) => InsertRepeatedTables(lexer, related, schema, schema.fields, entity)
  }

  function ApplyEntity(
    lexer: P.Lexer, schema: S.EntityType, db: Db, entity: P.ParsedEntity, page: Page): Result<Db, WriteError>
  {
    var key := EntityKey(entity);
    var cleared := DeleteCurrentRows(UpsertSyncEntity(db, key, RegistryRowFor(entity, page)), key);
    if entity.deleted then Ok(cleared) else
    var registered := UpsertTargets(cleared, entity.relations, entity, page);
    match BuildEntityRow(lexer, schema, entity, page)
    case Err(error) => Err(error)
    case Ok(row) =>
      match InsertEntityRow(registered, key, row)
      case Err(error) => Err(Database(error))
      case Ok(inserted) => InsertChildRows(lexer, schema, inserted, entity)
  }

  function ApplyEntities(lexer: P.Lexer, schema: S.EntityType, db: Db, entities: seq<P.ParsedEntity>, page: Page):
    Result<Db, WriteError>
  {
    if entities == [] then Ok(db) else
    match ApplyEntities(lexer, schema, db, entities[..|entities| - 1], page)
    case Err(error) => Err(error)
    case Ok(before) => ApplyEntity(lexer, schema, before, entities[|entities| - 1], page)
  }

  // ----- one page

  function FirstMismatch(entities: seq<P.ParsedEntity>, category: string): (mismatch: Option<string>)
    ensures mismatch.None? <==> forall e :: e in entities ==> e.category == category
  {
    if entities == [] then None
    else if entities[0].category != category then Some(entities[0].category)
    else FirstMismatch(entities[1..], category)
  }

  /** The database after a page, cursor included, or why the page is refused. */
  function PageResult(lexer: P.Lexer, schemas: seq<S.EntityType>, db: Db, page: Page): Result<Db, WriteError> {
    match S.EntityNamed(schemas, page.category)
    case None => Err(UnknownCategory(page.category))
    case Some(schema) =>
      match FirstMismatch(page.entities, schema.category)
      case Some(category) => Err(CategoryMismatch(category))
      case None =>
        match ApplyEntities(lexer, schema, db, page.entities, page)
        case Err(error) => Err(error)
        case Ok(after) => Ok(after.(cursors := after.cursors[schema.category :=
          CursorRow(page.latestSkiptoken, page.nextUrl, Running, page.atomUpdatedAt)]))
  }
}
