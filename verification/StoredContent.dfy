/** What is stored for an entity, value by value, and that it determines what was parsed. */
module StoredContent {
  import opened Integers
  import opened Wrappers
  import opened SqlNames
  import opened SyncDatabase
  import opened SyncWriter
  import opened SyncWriterTheorems
  import opened ParserWriter
  import S = SyncSchema
  import P = Payload

  // ----- the registry rows

  predicate PointsTo(relation: P.ParsedRelation, key: Key) {
    relation.targetCategory == key.category && relation.targetId == key.sourceId
  }

  /** The relation points to the key and gives it this time; if it gives none, the entity's own counts. */
  predicate Gives(relation: P.ParsedRelation, entity: P.ParsedEntity, key: Key, time: int) {
    && PointsTo(relation, key)
    && relation.targetUpdatedAt in {Some(time), None}
    && (relation.targetUpdatedAt.None? ==> entity.sourceUpdatedAt == time)
  }

  /** The greatest of the time before and the times the relations give to the key. */
  ghost predicate IsLatest(
    time: int, before: Option<RegistryRow>, relations: seq<P.ParsedRelation>, entity: P.ParsedEntity, key: Key)
  {
    && (before.Some? ==> before.value.sourceUpdatedAt <= time)
    && (forall r, t :: r in relations && Gives(r, entity, key, t) ==> t <= time)
    && ((before.Some? && before.value.sourceUpdatedAt == time) || GivenBy(relations, entity, key, time))
  }

  ghost predicate GivenBy(relations: seq<P.ParsedRelation>, entity: P.ParsedEntity, key: Key, time: int) {
    exists r :: r in relations && Gives(r, entity, key, time)
  }

  /** What relations make of a registry row: nothing unless one of them points to its key; else a
      new live row, or the same row with its token and times raised. */
  ghost predicate RaisedBy(
    before: Option<RegistryRow>, after: Option<RegistryRow>, relations: seq<P.ParsedRelation>,
    entity: P.ParsedEntity, page: Page, key: Key)
  {
    if forall r :: r in relations ==> !PointsTo(r, key) then after == before
    else
      && after.Some? && IsLatest(after.value.sourceUpdatedAt, before, relations, entity, key)
      && (if before.None?
          then after.value == RegistryRow(
            page.latestSkiptoken, false, after.value.sourceUpdatedAt, page.atomUpdatedAt)
          else after.value == RegistryRow(
            Max(before.value.latestSkiptoken, page.latestSkiptoken), before.value.deleted,
            after.value.sourceUpdatedAt, Max(before.value.atomUpdatedAt, page.atomUpdatedAt)))
  }

  lemma OneMoreRaise(
    before: Option<RegistryRow>, row: Option<RegistryRow>, front: seq<P.ParsedRelation>, last: P.ParsedRelation,
    entity: P.ParsedEntity, page: Page, key: Key)
    requires RaisedBy(before, row, front, entity, page, key)
    ensures var raise := Raise(page.latestSkiptoken, TargetUpdatedAt(last, entity), page.atomUpdatedAt);
      RaisedBy(before, if TargetKey(last) == key then ApplyEffect(raise, row) else row, front + [last],
        entity, page, key)
  {
    var relations := front + [last];
    assert last in relations && forall r :: r in front ==> r in relations;
    if PointsTo(last, key) {
      LaterOfBoth(row, before, front, last, entity, key);
    }
  }

  lemma LaterOfBoth(
    row: Option<RegistryRow>, before: Option<RegistryRow>, front: seq<P.ParsedRelation>, last: P.ParsedRelation,
    entity: P.ParsedEntity, key: Key)
    requires PointsTo(last, key)
    requires row.Some? ==> IsLatest(row.value.sourceUpdatedAt, before, front, entity, key)
    requires row.None? ==> before.None? && forall r :: r in front ==> !PointsTo(r, key)
    ensures var time := TargetUpdatedAt(last, entity);
      IsLatest(if row.None? then time else Max(row.value.sourceUpdatedAt, time), before, front + [last], entity, key)
  {
    var relations, time := front + [last], TargetUpdatedAt(last, entity);
    assert last in relations && Gives(last, entity, key, time);
    forall r, t | r in relations && Gives(r, entity, key, t)
      ensures t <= (if row.None? then time else Max(row.value.sourceUpdatedAt, time))
    {
      assert r in front || r == last;
    }
    if row.Some? && GivenBy(front, entity, key, row.value.sourceUpdatedAt) {
      var r :| r in front && Gives(r, entity, key, row.value.sourceUpdatedAt);
      assert r in relations;
    }
  }

  lemma {:induction false} TargetsRaise(
    db: Db, relations: seq<P.ParsedRelation>, entity: P.ParsedEntity, page: Page, key: Key)
    ensures RaisedBy(
      Registered(db, key), Registered(UpsertTargets(db, relations, entity, page), key), relations, entity, page, key)
  {
    if relations != [] {
      var front, last := relations[..|relations| - 1], relations[|relations| - 1];
      TargetsRaise(db, front, entity, page, key);
      var before := UpsertTargets(db, front, entity, page);
      OneTargetHasEffect(before, TargetKey(last), page.latestSkiptoken, TargetUpdatedAt(last, entity),
        page.atomUpdatedAt, key);
      OneMoreRaise(Registered(db, key), Registered(before, key), front, last, entity, page, key);
      assert relations == front + [last];
    }
  }

  /** The registry after an entity is written: its own row has the page's token and time, its
      deletion flag and its update time; then, if it is live, its relations raise the rows of their
      targets, its own among them. No other row changes. */
  lemma RegistryAfterEntity(lexer: P.Lexer, schema: S.EntityType, db: Db, entity: P.ParsedEntity, page: Page, key: Key)
    requires ApplyEntity(lexer, schema, db, entity, page).Ok?
    ensures var after := Registered(ApplyEntity(lexer, schema, db, entity, page).value, key);
      var before := if key == Key(entity.category, entity.sourceId)
        then Some(RegistryRow(page.latestSkiptoken, entity.deleted, entity.sourceUpdatedAt, page.atomUpdatedAt))
        else Registered(db, key);
      if entity.deleted then after == before else RaisedBy(before, after, entity.relations, entity, page, key)
  {
    ApplyEntityParts(lexer, schema, db, entity, page);
    var own := EntityKey(entity);
    var cleared := DeleteCurrentRows(UpsertSyncEntity(db, own, RegistryRowFor(entity, page)), own);
    TargetsRaise(cleared, entity.relations, entity, page, key);
  }

  // ----- the columns of an entity table

  /** A column of the content attribute of that name. */
  predicate IsAttributeColumn(schema: S.EntityType, attribute: string, column: S.Column) {
    exists a :: a in schema.baseAttributes && a.name == attribute && column.nullable == !a.required
  }

  /** The column of a field that occurs once and is no relation. */
  predicate IsFieldColumn(field: S.Field, column: S.Column) {
    && field.kind == S.Attribute && field.maxOccurs == S.Exactly(1)
    && column == S.Column(SqlName(field.name), S.SqlTypeOf(field.xsdType), field.minOccurs == 0 || field.nillable)
  }

  lemma AttributeColumns(schema: S.EntityType, column: S.Column)
    requires S.WellFormedEntity(schema)
    ensures column in S.BaseColumns(schema.baseAttributes) <==>
      || (column.name == "content_type" && column.sqlType == S.Text && IsAttributeColumn(schema, "contentType", column))
      || (column.name == "content_length" && column.sqlType == S.Integer
          && IsAttributeColumn(schema, "contentLength", column))
  {
    BaseColumnsAre(schema.baseAttributes);
    forall a | a in schema.baseAttributes && a.name !in ["id", "verwijderd", "bijgewerkt"]
      ensures BaseColumn(a) == ContentColumn(a) && a.name in ["contentType", "contentLength"]
    {
      ContentColumnIs(a);
    }
  }

  function ContentColumn(a: S.BaseAttribute): S.Column {
    if a.name == "contentType" then S.Column("content_type", S.Text, !a.required)
    else S.Column("content_length", S.Integer, !a.required)
  }

  lemma ContentColumnIs(a: S.BaseAttribute)
    requires IsModeledBase(a) && a.name !in ["id", "verwijderd", "bijgewerkt"]
    ensures BaseColumn(a) == ContentColumn(a) && a.name in ["contentType", "contentLength"]
  {
    ContentTypeName();
    ContentLengthName();
    ContentTypes();
  }

  lemma ColumnsOfFields(fields: seq<S.Field>, column: S.Column)
    ensures column in S.FieldColumns(fields) <==> exists f :: f in fields && IsFieldColumn(f, column)
  {
    forall f | f in fields
      ensures IsFieldColumn(f, column) <==> S.IsScalarColumn(f) && column == S.FieldColumn(f) {}
  }

  lemma ColumnParts(schema: S.EntityType, column: S.Column)
    ensures column in S.EntityColumns(schema) <==>
      || column in S.METADATA_COLUMNS || column in S.BaseColumns(schema.baseAttributes)
      || (column == S.Column("enclosure_url", S.Text, true) && schema.base == "downloadEntiteitType")
      || column in S.FieldColumns(schema.fields)
  {}

  /** The columns of an entity table: six of its own, the content attributes of its type, the enclosure
      of a download entity, and one for each field that occurs once and is no relation. */
  lemma EntityColumnsAre(schema: S.EntityType, column: S.Column)
    requires S.WellFormedEntity(schema)
    ensures column in S.EntityColumns(schema) <==>
      || column in {S.Column("source_category", S.Text, false), S.Column("source_id", S.Uuid, false),
                    S.Column("latest_skiptoken", S.BigInteger, false), S.Column("deleted", S.Boolean, false),
                    S.Column("source_updated_at", S.TimestampTz, false),
                    S.Column("atom_updated_at", S.TimestampTz, false)}
      || (column.name == "content_type" && column.sqlType == S.Text && IsAttributeColumn(schema, "contentType", column))
      || (column.name == "content_length" && column.sqlType == S.Integer
          && IsAttributeColumn(schema, "contentLength", column))
      || (column == S.Column("enclosure_url", S.Text, true) && schema.base == "downloadEntiteitType")
      || exists f :: f in schema.fields && IsFieldColumn(f, column)
  {
    ColumnParts(schema, column);
    AttributeColumns(schema, column);
    ColumnsOfFields(schema.fields, column);
  }

  // ----- the entity row

  /** What a value is stored as in a column of an XSD type: text as it is or as the UUID it spells,
      a flag, a date and a time as they are, and a number in the column's width. */
  predicate Stores(lexer: P.Lexer, value: P.ParsedValue, xsdType: string, bound: BindValue) {
    match value
    case Text(text) =>
      if xsdType in ["idType", "referentieLiteral", "referentieType"]
      then lexer.uuid(text).Some? && bound == BindUuid(lexer.uuid(text))
      else bound == BindText(Some(text))
    case Bool(flag) => bound == BindBool(Some(flag))
    case I32(n) => bound == if xsdType == "xs:long" then BindI64(Some(n)) else BindI32(Some(n))
    case I64(n) => bound == if xsdType == "xs:long" then BindI64(Some(n)) else BindI32(Some(n))
    case Date(date) => bound == BindDate(Some(date))
    case DateTime(time) => bound == BindDateTime(Some(time))
  }

  lemma BindStores(lexer: P.Lexer, field: string, value: P.ParsedValue, xsdType: string)
    ensures var bound := BindFromParsedValue(lexer, field, value, S.SqlTypeOf(xsdType));
      bound.Ok? ==> Stores(lexer, value, xsdType, bound.value)
  {}

  /** A single field's column holds its scalar, or NULL if there is none. */
  ghost predicate HoldsField(lexer: P.Lexer, entity: P.ParsedEntity, field: S.Field, value: BindValue) {
    || (exists s :: s in entity.scalars && s.name == field.name && Stores(lexer, s.value, field.xsdType, value))
    || ((forall s :: s in entity.scalars ==> s.name != field.name) && value.IsNull())
  }

  lemma RowCell(lexer: P.Lexer, schema: S.EntityType, entity: P.ParsedEntity, page: Page, i: nat)
    requires BuildEntityRow(lexer, schema, entity, page).Ok? && i < |S.EntityColumns(schema)|
    ensures var columns, row := S.EntityColumns(schema), BuildEntityRow(lexer, schema, entity, page).value;
      && row.latestSkiptoken == page.latestSkiptoken && |row.values| == |columns|
      && row.values[i].0 == columns[i].name && ColumnValue(lexer, columns[i], entity, page) == Ok(row.values[i].1)
  {
    ValuesAreCells(lexer, S.EntityColumns(schema), entity, page);
  }

  /** The six columns every entity row begins with, and the content columns where the table has them. */
  ghost predicate HoldsMetadata(values: seq<(string, BindValue)>, entity: P.ParsedEntity, page: Page) {
    && |values| >= 6 && values[..6] == [
         ("source_category", BindText(Some(entity.category))),
         ("source_id", BindUuid(Some(entity.sourceId))),
         ("latest_skiptoken", BindI64(Some(page.latestSkiptoken))),
         ("deleted", BindBool(Some(false))),
         ("source_updated_at", BindDateTime(Some(entity.sourceUpdatedAt))),
         ("atom_updated_at", BindDateTime(Some(page.atomUpdatedAt)))]
    && forall i :: 0 <= i < |values| ==>
         && (values[i].0 == "content_type" ==> values[i].1 == BindText(entity.contentType))
         && (values[i].0 == "content_length" ==> values[i].1 == BindI32(entity.contentLength))
         && (values[i].0 == "enclosure_url" ==> values[i].1 == BindText(entity.enclosureUrl))
  }

  lemma RowHoldsMetadata(lexer: P.Lexer, schema: S.EntityType, entity: P.ParsedEntity, page: Page)
    requires BuildEntityRow(lexer, schema, entity, page).Ok?
    ensures var row := BuildEntityRow(lexer, schema, entity, page).value;
      row.latestSkiptoken == page.latestSkiptoken && HoldsMetadata(row.values, entity, page)
  {
    var columns, values := S.EntityColumns(schema), BuildEntityRow(lexer, schema, entity, page).value.values;
    assert columns[..6] == S.METADATA_COLUMNS;
    forall i: nat | i < |columns|
      ensures i < |values| && values[i].0 == columns[i].name
      ensures ColumnValue(lexer, columns[i], entity, page) == Ok(values[i].1)
    {
      RowCell(lexer, schema, entity, page, i);
    }
    RowCell(lexer, schema, entity, page, 0);
    OwnCells(lexer, columns, values, entity, page);
  }

  lemma OwnCells(
    lexer: P.Lexer, columns: seq<S.Column>, values: seq<(string, BindValue)>, entity: P.ParsedEntity, page: Page)
    requires |columns| >= 6 && columns[..6] == S.METADATA_COLUMNS && |values| == |columns|
    requires forall i :: 0 <= i < |columns| ==>
      values[i].0 == columns[i].name && ColumnValue(lexer, columns[i], entity, page) == Ok(values[i].1)
    ensures HoldsMetadata(values, entity, page)
  {
    forall i | 0 <= i < 6 ensures values[..6][i].0 == S.METADATA_COLUMNS[i].name {
      assert columns[..6][i] == columns[i];
    }
  }

  ghost predicate HasColumn(schema: S.EntityType, name: string) {
    exists i :: 0 <= i < |S.EntityColumns(schema)| && S.EntityColumns(schema)[i].name == name
  }

  /** Equal rows come from entities and pages that agree on all the row keeps beside the scalars. */
  ghost predicate SameMetadata(schema: S.EntityType, a: P.ParsedEntity, b: P.ParsedEntity, pa: Page, pb: Page) {
    && EntityKey(a) == EntityKey(b) && a.sourceUpdatedAt == b.sourceUpdatedAt
    && pa.latestSkiptoken == pb.latestSkiptoken && pa.atomUpdatedAt == pb.atomUpdatedAt
    && (HasColumn(schema, "content_type") ==> a.contentType == b.contentType)
    && (HasColumn(schema, "content_length") ==> a.contentLength == b.contentLength)
    && (HasColumn(schema, "enclosure_url") ==> a.enclosureUrl == b.enclosureUrl)
  }

  lemma RowDeterminesMetadata(
    lexer: P.Lexer, schema: S.EntityType, a: P.ParsedEntity, b: P.ParsedEntity, pa: Page, pb: Page)
    requires BuildEntityRow(lexer, schema, a, pa).Ok?
    requires BuildEntityRow(lexer, schema, b, pb) == BuildEntityRow(lexer, schema, a, pa)
    ensures SameMetadata(schema, a, b, pa, pb)
  {
    RowHoldsMetadata(lexer, schema, a, pa);
    RowHoldsMetadata(lexer, schema, b, pb);
    var values := BuildEntityRow(lexer, schema, a, pa).value.values;
    forall i: nat | i < |S.EntityColumns(schema)|
      ensures i < |values| && values[i].0 == S.EntityColumns(schema)[i].name
    {
      RowCell(lexer, schema, a, pa, i);
    }
    assert forall i :: 0 <= i < 6 ==> values[..6][i] == values[i];
  }

  lemma FieldCells(lexer: P.Lexer, schema: S.EntityType, entity: P.ParsedEntity, page: Page, field: S.Field, i: nat)
    requires Parsed(lexer, schema, entity) && field in schema.fields && S.IsScalarColumn(field)
    requires BuildEntityRow(lexer, schema, entity, page).Ok? && i < |S.EntityColumns(schema)|
    requires S.EntityColumns(schema)[i] == S.FieldColumn(field)
    ensures var values := BuildEntityRow(lexer, schema, entity, page).value.values;
      && i < |values| && values[i].0 == SqlName(field.name) && HoldsField(lexer, entity, field, values[i].1)
      && (field.minOccurs > 0 && !field.nillable ==> !values[i].1.IsNull())
  {
    RowCell(lexer, schema, entity, page, i);
    NotReserved(lexer, S.FieldColumn(field), entity, page);
    FieldCell(lexer, schema, entity, page, field);
    FieldNamedIsField(schema, field);
    var picked := ScalarFor(entity.scalars, SqlName(field.name));
    if picked.Some? {
      BindStores(lexer, picked.value.name, picked.value.value, field.xsdType);
    } else {
      NullIsNull(S.SqlTypeOf(field.xsdType));
    }
  }

  // ----- repeated scalars

  function RowOf(schema: S.EntityType, entity: P.ParsedEntity, scalar: P.ParsedScalar): RepeatedKey {
    RepeatedKey(ChildTable(schema.category, scalar.name), EntityKey(entity), scalar.ordinal)
  }

  ghost predicate KeepsRepeated(before: Db, after: Db) {
    forall k :: k in before.repeated ==> k in after.repeated && after.repeated[k] == before.repeated[k]
  }

  /** Inserting never overwrites, and each scalar of the field gets its own value. */
  lemma {:induction false} RepeatedRowsHold(
    lexer: P.Lexer, db: Db, table: string, field: S.Field, entity: P.ParsedEntity, scalars: seq<P.ParsedScalar>)
    requires InsertRepeatedRows(lexer, db, table, field, entity, scalars).Ok?
    ensures var after := InsertRepeatedRows(lexer, db, table, field, entity, scalars).value;
      && KeepsRepeated(db, after)
      && forall s :: s in scalars && s.name == field.name ==>
        HoldsScalar(lexer, after, RepeatedKey(table, EntityKey(entity), s.ordinal), field, s)
  {
    if scalars != [] {
      var front, last := scalars[..|scalars| - 1], scalars[|scalars| - 1];
      assert scalars == front + [last];
      RepeatedRowsHold(lexer, db, table, field, entity, front);
      var before := InsertRepeatedRows(lexer, db, table, field, entity, front).value;
      var after := InsertRepeatedRows(lexer, db, table, field, entity, scalars).value;
      assert KeepsRepeated(before, after);
      forall s | s in scalars && s.name == field.name
        ensures HoldsScalar(lexer, after, RepeatedKey(table, EntityKey(entity), s.ordinal), field, s)
      {
        if s in front {
          assert HoldsScalar(lexer, before, RepeatedKey(table, EntityKey(entity), s.ordinal), field, s);
        } else {
          BindStores(lexer, last.name, last.value, field.xsdType);
        }
      }
    }
  }

  ghost predicate HoldsScalar(lexer: P.Lexer, db: Db, k: RepeatedKey, field: S.Field, scalar: P.ParsedScalar) {
    k in db.repeated && Stores(lexer, scalar.value, field.xsdType, db.repeated[k])
  }

  ghost predicate HoldsScalarsOf(lexer: P.Lexer, schema: S.EntityType, db: Db, entity: P.ParsedEntity, field: S.Field) {
    forall s :: s in entity.scalars && s.name == field.name ==>
      HoldsScalar(lexer, db, RowOf(schema, entity, s), field, s)
  }

  lemma {:induction false} RepeatedTablesHold(
    lexer: P.Lexer, db: Db, schema: S.EntityType, fields: seq<S.Field>, entity: P.ParsedEntity)
    requires InsertRepeatedTables(lexer, db, schema, fields, entity).Ok?
    ensures var after := InsertRepeatedTables(lexer, db, schema, fields, entity).value;
      && KeepsRepeated(db, after)
      && forall f :: f in fields && S.IsRepeatedScalarTable(f) ==> HoldsScalarsOf(lexer, schema, after, entity, f)
  {
    if fields != [] {
      var front, last := fields[..|fields| - 1], fields[|fields| - 1];
      assert fields == front + [last];
      RepeatedTablesHold(lexer, db, schema, front, entity);
      var before := InsertRepeatedTables(lexer, db, schema, front, entity).value;
      var after := InsertRepeatedTables(lexer, db, schema, fields, entity).value;
      if S.IsRepeatedScalarTable(last) {
        RepeatedRowsHold(lexer, before, ChildTable(schema.category, last.name), last, entity, entity.scalars);
        assert HoldsScalarsOf(lexer, schema, after, entity, last);
      }
      forall f | f in front && S.IsRepeatedScalarTable(f) ensures HoldsScalarsOf(lexer, schema, after, entity, f) {
        StillHolds(lexer, schema, before, after, entity, f);
      }
    }
  }

  lemma StillHolds(lexer: P.Lexer, schema: S.EntityType, before: Db, after: Db, entity: P.ParsedEntity, field: S.Field)
    requires KeepsRepeated(before, after) && HoldsScalarsOf(lexer, schema, before, entity, field)
    ensures HoldsScalarsOf(lexer, schema, after, entity, field)
  {
    forall s | s in entity.scalars && s.name == field.name
      ensures HoldsScalar(lexer, after, RowOf(schema, entity, s), field, s)
    {
      assert HoldsScalar(lexer, before, RowOf(schema, entity, s), field, s);
    }
  }

  /** After an entity is written, each scalar of a repeated field is in that field's table under
      its ordinal. */
  lemma RepeatedScalarsAreStored(
    lexer: P.Lexer, schema: S.EntityType, db: Db, entity: P.ParsedEntity, page: Page, field: S.Field)
    requires ApplyEntity(lexer, schema, db, entity, page).Ok? && !entity.deleted
    requires field in schema.fields && S.IsRepeatedScalarTable(field)
    ensures HoldsScalarsOf(lexer, schema, ApplyEntity(lexer, schema, db, entity, page).value, entity, field)
  {
    var key := EntityKey(entity);
    var cleared := DeleteCurrentRows(UpsertSyncEntity(db, key, RegistryRowFor(entity, page)), key);
    var registered := UpsertTargets(cleared, entity.relations, entity, page);
    var inserted := InsertEntityRow(registered, key, BuildEntityRow(lexer, schema, entity, page).value).value;
    RepeatedTablesHold(lexer, InsertRelationTables(inserted, schema, schema.fields, entity).value, schema,
      schema.fields, entity);
  }

  /** The row is that of a scalar of a repeated field, under its ordinal and with its value. */
  ghost predicate IsScalarsRow(
    lexer: P.Lexer, schema: S.EntityType, entity: P.ParsedEntity, f: S.Field, s: P.ParsedScalar, k: RepeatedKey,
    value: BindValue)
  {
    && f in schema.fields && f.kind == S.Attribute && f.maxOccurs != S.Exactly(1)
    && s in entity.scalars && s.name == f.name && s.ordinal == k.ordinal
    && k.table == ChildTable(entity.category, f.name) && Stores(lexer, s.value, f.xsdType, value)
  }

  /** A written entity's repeated-scalar rows are those of its scalars of repeated fields, each in
      its field's table. */
  lemma RepeatedRowsAfterEntity(
    lexer: P.Lexer, schema: S.EntityType, db: Db, entity: P.ParsedEntity, page: Page, k: RepeatedKey)
    requires RegistryInvariant(db) && Parsed(lexer, schema, entity) && P.IsI64(page.latestSkiptoken)
    requires ApplyEntity(lexer, schema, db, entity, page).Ok? && k.source == Key(entity.category, entity.sourceId)
    ensures var rows := ApplyEntity(lexer, schema, db, entity, page).value.repeated;
      && (k in rows ==> exists f, s :: IsScalarsRow(lexer, schema, entity, f, s, k, rows[k]))
      && (forall f, s, value :: IsScalarsRow(lexer, schema, entity, f, s, k, value) ==> k in rows && rows[k] == value)
  {
    EntityAcceptedIffStorable(lexer, schema, db, entity, page);
    var after := ApplyEntity(lexer, schema, db, entity, page).value;
    if k in after.repeated {
      assert ScalarLandsAmong(schema, schema.fields, entity, k);
      var f :| f in schema.fields && S.IsRepeatedScalarTable(f) &&
        ScalarLandsIn(entity, entity.scalars, f, ChildTable(schema.category, f.name), k);
      var s :| s in entity.scalars && s.name == f.name && k.ordinal == s.ordinal;
      RepeatedScalarsAreStored(lexer, schema, db, entity, page, f);
      assert HoldsScalar(lexer, after, RowOf(schema, entity, s), f, s);
      assert IsScalarsRow(lexer, schema, entity, f, s, k, after.repeated[k]);
    }
    forall f, s, value | IsScalarsRow(lexer, schema, entity, f, s, k, value)
      ensures k in after.repeated && after.repeated[k] == value
    {
      RepeatedScalarsAreStored(lexer, schema, db, entity, page, f);
      assert HoldsScalar(lexer, after, RowOf(schema, entity, s), f, s);
      assert k == RowOf(schema, entity, s);
    }
  }

  // ----- relation rows

  /** Every row is an earlier one, or has the given time. */
  ghost predicate Dated(before: map<RelationKey, int>, after: map<RelationKey, int>, time: int) {
    forall k :: k in after ==> after[k] == time || (k in before && after[k] == before[k])
  }

  lemma {:induction false} RelationRowsDated(
    db: Db, table: string, single: bool, entity: P.ParsedEntity, relations: seq<P.ParsedRelation>)
    requires InsertRelationRows(db, table, single, entity, relations).Ok?
    ensures Dated(db.relations, InsertRelationRows(db, table, single, entity, relations).value.relations,
      entity.sourceUpdatedAt)
  {
    if relations != [] {
      RelationRowsDated(db, table, single, entity, relations[..|relations| - 1]);
    }
  }

  lemma {:induction false} RelationTablesDated(
    db: Db, schema: S.EntityType, fields: seq<S.Field>, entity: P.ParsedEntity)
    requires InsertRelationTables(db, schema, fields, entity).Ok?
    ensures Dated(db.relations, InsertRelationTables(db, schema, fields, entity).value.relations,
      entity.sourceUpdatedAt)
  {
    if fields != [] {
      var last := fields[|fields| - 1];
      RelationTablesDated(db, schema, fields[..|fields| - 1], entity);
      if S.IsRelationTable(last) {
        RelationRowsDated(InsertRelationTables(db, schema, fields[..|fields| - 1], entity).value,
          ChildTable(schema.category, last.name), S.HasSingleConstraint(last), entity, entity.relations);
      }
    }
  }

  /** A relation with this name, target and ordinal. */
  ghost predicate HasRelationLike(entity: P.ParsedEntity, k: RelationKey) {
    exists r :: r in entity.relations && r.name == k.name && PointsTo(r, k.target) && r.ordinal == k.ordinal
  }

  /** A written entity has one relation row per relation, with its name, target and ordinal, in the
      table of the entity's category and that name, and with the entity's time. */
  lemma RelationRowsAfterEntity(
    lexer: P.Lexer, schema: S.EntityType, db: Db, entity: P.ParsedEntity, page: Page, k: RelationKey)
    requires RegistryInvariant(db) && Parsed(lexer, schema, entity) && P.IsI64(page.latestSkiptoken)
    requires ApplyEntity(lexer, schema, db, entity, page).Ok? && k.source == Key(entity.category, entity.sourceId)
    ensures var rows := ApplyEntity(lexer, schema, db, entity, page).value.relations;
      && (k in rows <==> HasRelationLike(entity, k) && k.table == ChildTable(entity.category, k.name))
      && (k in rows ==> rows[k] == entity.sourceUpdatedAt)
  {
    EntityAcceptedIffStorable(lexer, schema, db, entity, page);
    var key, row := EntityKey(entity), RegistryRowFor(entity, page);
    var cleared := DeleteCurrentRows(UpsertSyncEntity(db, key, row), key);
    ClearedTables(db, key, row);
    TargetsHaveEffect(cleared, entity.relations, entity, page, key, Nothing, Registered(cleared, key));
    var inserted := InsertEntityRow(UpsertTargets(cleared, entity.relations, entity, page), key,
      BuildEntityRow(lexer, schema, entity, page).value).value;
    var related := InsertRelationTables(inserted, schema, schema.fields, entity).value;
    RelationTablesDated(inserted, schema, schema.fields, entity);
    RepeatedTablesOnly(lexer, related, schema, schema.fields, entity);
    assert k !in inserted.relations;
  }

  // ----- nothing is lost

  /** Equal values, or two spellings of one UUID. */
  predicate SameValue(lexer: P.Lexer, a: P.ParsedValue, b: P.ParsedValue) {
    a == b || (a.Text? && b.Text? && lexer.uuid(a.text).Some? && lexer.uuid(a.text) == lexer.uuid(b.text))
  }

  lemma StoredDeterminesValue(
    lexer: P.Lexer, schema: S.EntityType, a: P.ParsedScalar, b: P.ParsedScalar, xsdType: string, stored: BindValue)
    requires P.ScalarOk(schema, a) && P.ScalarOk(schema, b) && a.name == b.name
    requires Stores(lexer, a.value, xsdType, stored) && Stores(lexer, b.value, xsdType, stored)
    ensures SameValue(lexer, a.value, b.value)
  {}

  ghost predicate HasAlike(lexer: P.Lexer, scalars: seq<P.ParsedScalar>, scalar: P.ParsedScalar) {
    exists s :: s in scalars && s.name == scalar.name && s.ordinal == scalar.ordinal &&
      SameValue(lexer, scalar.value, s.value)
  }

  lemma SingleIsAlike(
    lexer: P.Lexer, schema: S.EntityType, a: P.ParsedEntity, b: P.ParsedEntity, pa: Page, pb: Page,
    scalar: P.ParsedScalar)
    requires Parsed(lexer, schema, a) && Parsed(lexer, schema, b) && scalar in a.scalars
    requires S.IsScalarColumn(schema.FieldNamed(scalar.name).value)
    requires BuildEntityRow(lexer, schema, a, pa).Ok?
    requires BuildEntityRow(lexer, schema, b, pb) == BuildEntityRow(lexer, schema, a, pa)
    ensures HasAlike(lexer, b.scalars, scalar)
  {
    assert P.ScalarOk(schema, scalar);
    var field := schema.FieldNamed(scalar.name).value;
    var i := FieldHasColumn(schema, field);
    FieldCells(lexer, schema, a, pa, field, i);
    FieldCells(lexer, schema, b, pb, field, i);
    SameCellIsAlike(lexer, schema, a, b, field, scalar, BuildEntityRow(lexer, schema, a, pa).value.values[i].1);
  }

  lemma FieldHasColumn(schema: S.EntityType, field: S.Field) returns (i: nat)
    requires field in schema.fields && S.IsScalarColumn(field)
    ensures i < |S.EntityColumns(schema)| && S.EntityColumns(schema)[i] == S.FieldColumn(field)
  {
    var columns, own := S.EntityColumns(schema), S.FieldColumns(schema.fields);
    assert S.FieldColumn(field) in own;
    var j :| 0 <= j < |own| && own[j] == S.FieldColumn(field);
    i := |columns| - |own| + j;
    assert columns[|columns| - |own|..] == own;
    assert columns[i] == columns[|columns| - |own|..][j];
  }

  lemma SameCellIsAlike(
    lexer: P.Lexer, schema: S.EntityType, a: P.ParsedEntity, b: P.ParsedEntity, field: S.Field, scalar: P.ParsedScalar,
    value: BindValue)
    requires Parsed(lexer, schema, a) && Parsed(lexer, schema, b) && scalar in a.scalars && scalar.name == field.name
    requires field in schema.fields && S.IsScalarColumn(field)
    requires HoldsField(lexer, a, field, value) && HoldsField(lexer, b, field, value)
    ensures HasAlike(lexer, b.scalars, scalar)
  {
    FieldNamedIsField(schema, field);
    assert P.ScalarOk(schema, scalar);
    assert !value.IsNull();
    var own :| own in a.scalars && own.name == field.name && Stores(lexer, own.value, field.xsdType, value);
    SingleScalar(lexer, schema, a, field, scalar, own);
    var other :| other in b.scalars && other.name == field.name && Stores(lexer, other.value, field.xsdType, value);
    assert P.ScalarOk(schema, other);
    StoredDeterminesValue(lexer, schema, scalar, other, field.xsdType, value);
  }

  lemma NullIsNull(sqlType: S.SqlType)
    ensures NullFor(sqlType).IsNull()
  {}

  lemma RepeatedIsAlike(
    lexer: P.Lexer, schema: S.EntityType, a: P.ParsedEntity, b: P.ParsedEntity, da: Db, db: Db, scalar: P.ParsedScalar)
    requires Parsed(lexer, schema, a) && Parsed(lexer, schema, b) && scalar in a.scalars && EntityKey(a) == EntityKey(b)
    requires S.IsRepeatedScalarTable(schema.FieldNamed(scalar.name).value)
    requires forall f :: f in schema.fields && S.IsRepeatedScalarTable(f) ==>
      HoldsScalarsOf(lexer, schema, da, a, f) && HoldsScalarsOf(lexer, schema, db, b, f)
    requires RepeatedRowsExact(schema, b, db) && SameCurrent(da, db, EntityKey(a))
    ensures HasAlike(lexer, b.scalars, scalar)
  {
    assert P.ScalarOk(schema, scalar);
    var field := schema.FieldNamed(scalar.name).value;
    var k := RowOf(schema, a, scalar);
    assert HoldsScalarsOf(lexer, schema, da, a, field) && HoldsScalar(lexer, da, k, field, scalar);
    assert RepeatedAt(da, k) == RepeatedAt(db, k);
    assert ScalarLandsAmong(schema, schema.fields, b, k);
    var f :| f in schema.fields && S.IsRepeatedScalarTable(f) &&
      ScalarLandsIn(b, b.scalars, f, ChildTable(schema.category, f.name), k);
    var s :| s in b.scalars && s.name == f.name &&
      k == RepeatedKey(ChildTable(schema.category, f.name), EntityKey(b), s.ordinal);
    ChildTablesDistinct(schema.category, f.name, schema.category, field.name);
    S.SameNameSameField(schema, f, field);
    assert HoldsScalarsOf(lexer, schema, db, b, field) && HoldsScalar(lexer, db, RowOf(schema, b, s), field, s);
    assert P.ScalarOk(schema, s);
    StoredDeterminesValue(lexer, schema, scalar, s, field.xsdType, da.repeated[k]);
  }

  ghost predicate HasSameRelation(relations: seq<P.ParsedRelation>, relation: P.ParsedRelation) {
    exists r :: r in relations && r.name == relation.name && TargetKey(r) == TargetKey(relation) &&
      r.ordinal == relation.ordinal
  }

  /** Every scalar and every relation of one entity is in the other. */
  ghost predicate Within(lexer: P.Lexer, a: P.ParsedEntity, b: P.ParsedEntity) {
    && (forall s :: s in a.scalars ==> HasAlike(lexer, b.scalars, s))
    && (forall r :: r in a.relations ==> HasSameRelation(b.relations, r))
  }

  lemma StoredWithin(
    lexer: P.Lexer, schema: S.EntityType, da: Db, db: Db, a: P.ParsedEntity, b: P.ParsedEntity, pa: Page, pb: Page)
    requires RegistryInvariant(da) && RegistryInvariant(db) && Parsed(lexer, schema, a) && Parsed(lexer, schema, b)
    requires P.IsI64(pa.latestSkiptoken) && P.IsI64(pb.latestSkiptoken) && EntityKey(a) == EntityKey(b)
    requires ApplyEntity(lexer, schema, da, a, pa).Ok? && ApplyEntity(lexer, schema, db, b, pb).Ok?
    requires SameCurrent(
      ApplyEntity(lexer, schema, da, a, pa).value, ApplyEntity(lexer, schema, db, b, pb).value, EntityKey(a))
    ensures Within(lexer, a, b)
  {
    var da', db' := ApplyEntity(lexer, schema, da, a, pa).value, ApplyEntity(lexer, schema, db, b, pb).value;
    ApplyEntityParts(lexer, schema, da, a, pa);
    ApplyEntityParts(lexer, schema, db, b, pb);
    EntityAcceptedIffStorable(lexer, schema, da, a, pa);
    EntityAcceptedIffStorable(lexer, schema, db, b, pb);
    assert EntityAt(da', EntityKey(a)) == EntityAt(db', EntityKey(a));
    forall f | f in schema.fields && S.IsRepeatedScalarTable(f)
      ensures HoldsScalarsOf(lexer, schema, da', a, f) && HoldsScalarsOf(lexer, schema, db', b, f)
    {
      RepeatedScalarsAreStored(lexer, schema, da, a, pa, f);
      RepeatedScalarsAreStored(lexer, schema, db, b, pb, f);
    }
    forall s | s in a.scalars ensures HasAlike(lexer, b.scalars, s) {
      assert P.ScalarOk(schema, s);
      if S.IsScalarColumn(schema.FieldNamed(s.name).value) {
        SingleIsAlike(lexer, schema, a, b, pa, pb, s);
      } else {
        RepeatedIsAlike(lexer, schema, a, b, da', db', s);
      }
    }
    forall r | r in a.relations ensures HasSameRelation(b.relations, r) {
      var k := RelationRowKey(ChildTable(schema.category, r.name), a, r);
      assert k in da'.relations;
      assert RelationAt(da', k) == RelationAt(db', k);
    }
  }

  lemma SameRowsSameMetadata(
    lexer: P.Lexer, schema: S.EntityType, da: Db, db: Db, a: P.ParsedEntity, b: P.ParsedEntity, pa: Page, pb: Page)
    requires !a.deleted && !b.deleted && EntityKey(a) == EntityKey(b)
    requires ApplyEntity(lexer, schema, da, a, pa).Ok? && ApplyEntity(lexer, schema, db, b, pb).Ok?
    requires SameCurrent(
      ApplyEntity(lexer, schema, da, a, pa).value, ApplyEntity(lexer, schema, db, b, pb).value, EntityKey(a))
    ensures SameMetadata(schema, a, b, pa, pb)
  {
    ApplyEntityParts(lexer, schema, da, a, pa);
    ApplyEntityParts(lexer, schema, db, b, pb);
    var da', db' := ApplyEntity(lexer, schema, da, a, pa).value, ApplyEntity(lexer, schema, db, b, pb).value;
    assert EntityAt(da', EntityKey(a)) == EntityAt(db', EntityKey(a));
    RowDeterminesMetadata(lexer, schema, a, b, pa, pb);
  }

  /** Two parsed live entities that leave the same rows have the same metadata, the same scalars, up
      to the spelling of UUIDs, and the same relations: the generated tables lose nothing else. */
  lemma StoredRowsDetermineContent(
    lexer: P.Lexer, schema: S.EntityType, da: Db, db: Db, a: P.ParsedEntity, b: P.ParsedEntity, pa: Page, pb: Page)
    requires RegistryInvariant(da) && RegistryInvariant(db) && Parsed(lexer, schema, a) && Parsed(lexer, schema, b)
    requires P.IsI64(pa.latestSkiptoken) && P.IsI64(pb.latestSkiptoken) && EntityKey(a) == EntityKey(b)
    requires ApplyEntity(lexer, schema, da, a, pa).Ok? && ApplyEntity(lexer, schema, db, b, pb).Ok?
    requires SameCurrent(
      ApplyEntity(lexer, schema, da, a, pa).value, ApplyEntity(lexer, schema, db, b, pb).value, EntityKey(a))
    ensures Within(lexer, a, b) && Within(lexer, b, a) && SameMetadata(schema, a, b, pa, pb)
  {
    SameRowsSameMetadata(lexer, schema, da, db, a, b, pa, pb);
    StoredWithin(lexer, schema, da, db, a, b, pa, pb);
    SameCurrentIsSymmetric(
      ApplyEntity(lexer, schema, da, a, pa).value, ApplyEntity(lexer, schema, db, b, pb).value, EntityKey(a));
    StoredWithin(lexer, schema, db, da, b, a, pb, pa);
  }

  // ----- where relation rows are

  /** The schema has a relation of that name for that category. */
  ghost predicate HasRelation(schemas: seq<S.EntityType>, category: string, name: string) {
    exists s, f :: s in schemas && f in s.fields && s.category == category && S.IsRelationTable(f) && f.name == name
  }

  /** A relation row is in the table of its source category and its name, a relation of the schema. */
  ghost predicate Placed(schemas: seq<S.EntityType>, db: Db) {
    forall k :: k in db.relations ==>
      k.table == ChildTable(k.source.category, k.name) && HasRelation(schemas, k.source.category, k.name)
  }

  lemma EntityKeepsPlaced(
    lexer: P.Lexer, schemas: seq<S.EntityType>, schema: S.EntityType, db: Db, entity: P.ParsedEntity, page: Page)
    requires RegistryInvariant(db) && Placed(schemas, db) && P.WellParsed(lexer, schema, entity)
    requires schema in schemas && S.WellFormedEntity(schema)
    requires P.IsI64(page.latestSkiptoken) && ApplyEntity(lexer, schema, db, entity, page).Ok?
    ensures Placed(schemas, ApplyEntity(lexer, schema, db, entity, page).value)
  {
    var after := ApplyEntity(lexer, schema, db, entity, page).value;
    EntityWrittenAlike(lexer, schema, db, db, entity, page);
    if entity.deleted {
      ClearedTables(db, EntityKey(entity), RegistryRowFor(entity, page));
    } else {
      EntityAcceptedIffStorable(lexer, schema, db, entity, page);
    }
    forall k | k in after.relations
      ensures k.table == ChildTable(k.source.category, k.name) && HasRelation(schemas, k.source.category, k.name)
    {
      if k.source != EntityKey(entity) {
        assert SameCurrent(db, after, k.source);
        assert RelationAt(db, k) == RelationAt(after, k);
      } else {
        var r :| r in entity.relations && k == RelationRowKey(ChildTable(schema.category, r.name), entity, r);
        assert P.RelationOk(lexer, schema, r);
        assert schema.FieldNamed(r.name).value in schema.fields;
      }
    }
  }

  lemma {:induction false} EntitiesKeepPlaced(
    lexer: P.Lexer, schemas: seq<S.EntityType>, schema: S.EntityType, db: Db, entities: seq<P.ParsedEntity>, page: Page)
    requires RegistryInvariant(db) && Placed(schemas, db) && schema in schemas && ParsedPage(lexer, schema, entities)
    requires P.IsI64(page.latestSkiptoken) && ApplyEntities(lexer, schema, db, entities, page).Ok?
    ensures Placed(schemas, ApplyEntities(lexer, schema, db, entities, page).value)
  {
    if entities != [] {
      var front, last := entities[..|entities| - 1], entities[|entities| - 1];
      assert last in entities && forall e :: e in front ==> e in entities;
      EntitiesKeepPlaced(lexer, schemas, schema, db, front, page);
      ApplyEntitiesKeepInvariant(lexer, schema, db, front, page);
      EntityKeepsPlaced(lexer, schemas, schema, ApplyEntities(lexer, schema, db, front, page).value, last, page);
    }
  }

  /** Every page is one the parser produced for its category. */
  ghost predicate AllParsed(lexer: P.Lexer, schemas: seq<S.EntityType>, pages: seq<Page>) {
    && (forall p :: p in pages ==> P.IsI64(p.latestSkiptoken))
    && (forall p :: p in pages && S.EntityNamed(schemas, p.category).Some? ==>
          ParsedPage(lexer, S.EntityNamed(schemas, p.category).value, p.entities))
  }

  /** After any pages of parsed entities every relation row is in its own table, so rows that agree
      in everything but the table are one row. */
  lemma {:induction false} PagesKeepPlaced(lexer: P.Lexer, schemas: seq<S.EntityType>, pages: seq<Page>)
    requires AllParsed(lexer, schemas, pages)
    ensures Placed(schemas, AfterPages(lexer, schemas, EMPTY_DB, pages))
    ensures var db := AfterPages(lexer, schemas, EMPTY_DB, pages);
      forall j, k :: j in db.relations && k in db.relations && j == k.(table := j.table) ==> j == k
  {
    if pages != [] {
      var front, last := pages[..|pages| - 1], pages[|pages| - 1];
      assert last in pages && forall p :: p in front ==> p in pages;
      PagesKeepPlaced(lexer, schemas, front);
      PagesKeepRegistryInvariant(lexer, schemas, EMPTY_DB, front);
      var before := AfterPages(lexer, schemas, EMPTY_DB, front);
      if PageResult(lexer, schemas, before, last).Ok? {
        EntitiesKeepPlaced(
          lexer, schemas, S.EntityNamed(schemas, last.category).value, before, last.entities, last);
      }
    }
  }
}
