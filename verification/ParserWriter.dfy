/** Parser, generated schema and writer agree: what the parser accepts, the writer can store. */
module ParserWriter {
  import opened Wrappers
  import opened SqlNames
  import opened SyncDatabase
  import opened SyncWriter
  import opened SyncWriterTheorems
  import PageStore
  import S = SyncSchema
  import P = Payload

  /** A live entity as the parser hands it over, for a schema whose names do not clash. */
  ghost predicate Parsed(lexer: P.Lexer, schema: S.EntityType, entity: P.ParsedEntity) {
    S.WellFormedEntity(schema) && P.WellParsed(lexer, schema, entity) && !entity.deleted
  }

  // ----- the only values a writer refuses

  function TypeOfScalar(schema: S.EntityType, scalar: P.ParsedScalar): S.SqlType {
    match schema.FieldNamed(scalar.name)
    case Some(field) => S.SqlTypeOf(field.xsdType)
    case None => S.Text
  }

  /** Text that a UUID column cannot hold. */
  predicate IsBadUuid(lexer: P.Lexer, schema: S.EntityType, scalar: P.ParsedScalar) {
    TypeOfScalar(schema, scalar) == S.Uuid && !(scalar.value.Text? && lexer.uuid(scalar.value.text).Some?)
  }

  predicate HasContentLength(schema: S.EntityType) {
    exists a :: a in schema.baseAttributes && a.name == "contentLength"
  }

  /** What a caller can check beforehand: UUID texts parse, and the content length is 32 bits wide. */
  predicate Storable(lexer: P.Lexer, schema: S.EntityType, entity: P.ParsedEntity) {
    && (forall s :: s in entity.scalars ==> !IsBadUuid(lexer, schema, s))
    && (HasContentLength(schema) && entity.contentLength.Some? ==> P.IsI32(entity.contentLength.value))
  }

  /** A bound value is of the column's type and in its range. */
  predicate Fits(value: BindValue, sqlType: S.SqlType) {
    match sqlType
    case Uuid => value.BindUuid?
    case Text => value.BindText?
    case Jsonb => value.BindText?
    case Boolean => value.BindBool?
    case Integer => value.BindI32? && (value.i32.Some? ==> P.IsI32(value.i32.value))
    case BigInteger => value.BindI64? && (value.i64.Some? ==> P.IsI64(value.i64.value))
    case BigIdentity => value.BindI64?
    case TimestampTz => value.BindDateTime?
    case Date => value.BindDate?
  }

  lemma BindsUnlessBadUuid(lexer: P.Lexer, schema: S.EntityType, scalar: P.ParsedScalar)
    requires P.ScalarOk(schema, scalar)
    ensures var r := BindFromParsedValue(lexer, scalar.name, scalar.value, TypeOfScalar(schema, scalar));
      && (r.Ok? <==> !IsBadUuid(lexer, schema, scalar))
      && (r.Ok? ==> !r.value.IsNull() && Fits(r.value, TypeOfScalar(schema, scalar)))
      && (r.Err? ==> r.error.TypeMismatch?)
  {}

  // ----- names

  lemma FieldNamedIsField(schema: S.EntityType, field: S.Field)
    requires S.WellFormedEntity(schema) && field in schema.fields
    ensures schema.FieldNamed(field.name) == Some(field)
  {
    S.SameNameSameField(schema, field, schema.FieldNamed(field.name).value);
  }

  /** Scalars and relations with a field's SQL name are the field's. */
  lemma SqlNameIsTheField(schema: S.EntityType, field: S.Field, name: string)
    requires S.WellFormedEntity(schema) && field in schema.fields
    requires schema.FieldNamed(name).Some? && SqlName(name) == SqlName(field.name)
    ensures schema.FieldNamed(name) == Some(field) && name == field.name
  {
    S.SameNameSameField(schema, field, schema.FieldNamed(name).value);
  }

  lemma NamedNext(before: string, c: char)
    ensures Named(before + [c]) == Next(Named(before), c)
  {
    assert (before + [c])[..|before + [c]| - 1] == before;
  }

  lemma NextLower(state: Naming, c: char)
    requires IsLower(c)
    ensures Next(state, c) == Naming(state.output + [c], true)
  {
    assert state.output + "" + [c] == state.output + [c];
  }

  /** Lower-case letters are named as they are. */
  lemma {:induction false} LowerCaseStays(before: string, word: string)
    requires forall c :: c in word ==> IsLower(c)
    ensures Named(before + word).output == Named(before).output + word
    ensures word != "" ==> Named(before + word).previousWasLowerOrDigit
  {
    if word == "" {
      assert before + word == before;
    } else {
      var front, last := word[..|word| - 1], word[|word| - 1];
      assert last in word;
      LowerCaseStays(before, front);
      OneMoreLower(before + front, last, before + word);
      assert (Named(before).output + front) + [last] == Named(before).output + word;
    }
  }

  lemma OneMoreLower(s: string, c: char, longer: string)
    requires IsLower(c) && longer == s + [c]
    ensures Named(longer) == Naming(Named(s).output + [c], true)
  {
    NamedNext(s, c);
    NextLower(Named(s), c);
  }

  /** A name without leading or trailing underscores is kept by the trimming. */
  lemma NothingToTrim(s: string)
    requires s != "" && s[0] != '_' && s[|s| - 1] != '_'
    ensures TrimEnd(TrimStart(s)) == s
  {}

  /** Two words in camel case are joined by an underscore. */
  lemma CamelCase(first: string, initial: char, rest: string)
    requires first != "" && (forall c :: c in first ==> IsLower(c)) && IsUpper(initial)
    requires rest != "" && (forall c :: c in rest ==> IsLower(c))
    ensures SqlName(first + [initial] + rest) == first + "_" + [ToLower(initial)] + rest
  {
    LowerCaseStays("", first);
    assert "" + first == first;
    NamedNext(first, initial);
    LowerCaseStays(first + [initial], rest);
    var name := first + "_" + [ToLower(initial)] + rest;
    assert Named(first + [initial] + rest).output == name;
    assert name[0] == first[0] && first[0] in first;
    assert name[|name| - 1] == rest[|rest| - 1] && rest[|rest| - 1] in rest;
    NothingToTrim(name);
  }

  lemma ContentTypeName()
    ensures SqlName("contentType") == "content_type"
  {
    CamelCase("content", 'T', "ype");
    assert "content" + ['T'] + "ype" == "contentType";
    assert "content" + "_" + ['t'] + "ype" == "content_type";
  }

  lemma ContentLengthName()
    ensures SqlName("contentLength") == "content_length"
  {
    CamelCase("content", 'L', "ength");
    assert "content" + ['L'] + "ength" == "contentLength";
    assert "content" + "_" + ['l'] + "ength" == "content_length";
  }

  lemma ContentTypes()
    ensures S.SqlTypeOf("xs:string") == S.Text && S.SqlTypeOf("xs:int") == S.Integer
  {}

  predicate IsRequired(base: seq<S.BaseAttribute>, name: string) {
    exists a :: a in base && a.name == name && a.required
  }

  predicate IsPresent(base: seq<S.BaseAttribute>, name: string) {
    exists a :: a in base && a.name == name
  }

  /** A column of one of the two content attributes. */
  predicate IsContentColumn(base: seq<S.BaseAttribute>, column: S.Column) {
    || (column.name == "content_type" && column.sqlType == S.Text
        && (column.nullable || IsRequired(base, "contentType")))
    || (column.name == "content_length" && column.sqlType == S.Integer && IsPresent(base, "contentLength")
        && (column.nullable || IsRequired(base, "contentLength")))
  }

  predicate IsModeledBase(a: S.BaseAttribute) {
    || a.name in ["id", "verwijderd", "bijgewerkt"]
    || (a.name == "contentType" && a.xsdType == "xs:string")
    || (a.name == "contentLength" && a.xsdType == "xs:int")
  }

  function BaseColumn(a: S.BaseAttribute): S.Column {
    S.Column(SqlName(a.name), S.SqlTypeOf(a.xsdType), !a.required)
  }

  lemma OwnColumnIsContent(base: seq<S.BaseAttribute>, a: S.BaseAttribute)
    requires a in base && IsModeledBase(a) && a.name !in ["id", "verwijderd", "bijgewerkt"]
    ensures IsContentColumn(base, BaseColumn(a))
    ensures a.name == "contentLength" ==> BaseColumn(a).name == "content_length"
  {
    ContentTypeName();
    ContentLengthName();
    ContentTypes();
    if a.name == "contentType" {
      assert a.required ==> IsRequired(base, "contentType");
    } else {
      assert IsPresent(base, "contentLength") && (a.required ==> IsRequired(base, "contentLength"));
    }
  }

  lemma {:induction false} BaseColumnsAre(base: seq<S.BaseAttribute>)
    requires forall a :: a in base ==> IsModeledBase(a)
    ensures forall c :: c in S.BaseColumns(base) ==>
      exists a :: a in base && a.name !in ["id", "verwijderd", "bijgewerkt"] && c == BaseColumn(a)
    ensures forall a :: a in base && a.name !in ["id", "verwijderd", "bijgewerkt"] ==>
      BaseColumn(a) in S.BaseColumns(base)
  {
    if base != [] {
      BaseColumnsAre(base[1..]);
      assert base == [base[0]] + base[1..];
    }
  }

  lemma ContentColumns(schema: S.EntityType, column: S.Column)
    requires S.WellFormedEntity(schema) && column in S.BaseColumns(schema.baseAttributes)
    ensures IsContentColumn(schema.baseAttributes, column)
  {
    BaseColumnsAre(schema.baseAttributes);
    var a :| a in schema.baseAttributes && a.name !in ["id", "verwijderd", "bijgewerkt"] && column == BaseColumn(a);
    OwnColumnIsContent(schema.baseAttributes, a);
  }

  lemma ContentLengthColumn(schema: S.EntityType) returns (column: S.Column)
    requires S.WellFormedEntity(schema) && HasContentLength(schema)
    ensures column in S.EntityColumns(schema) && column.name == "content_length"
  {
    BaseColumnsAre(schema.baseAttributes);
    var a :| a in schema.baseAttributes && a.name == "contentLength";
    OwnColumnIsContent(schema.baseAttributes, a);
    column := BaseColumn(a);
  }

  // ----- one column

  /** The value stored in a column: present unless nullable, of its type, under its name. */
  ghost predicate GoodCell(column: S.Column, cell: Result<BindValue, WriteError>) {
    cell.Ok? && Fits(cell.value, column.sqlType) && (cell.value.IsNull() ==> column.nullable)
  }

  /** Either a good cell, or a type mismatch where the entity is not storable. */
  ghost predicate CellOk(
    lexer: P.Lexer, schema: S.EntityType, entity: P.ParsedEntity, column: S.Column,
    cell: Result<BindValue, WriteError>)
  {
    GoodCell(column, cell) || (cell.Err? && cell.error.TypeMismatch? && !Storable(lexer, schema, entity))
  }

  lemma MetadataCell(lexer: P.Lexer, schema: S.EntityType, entity: P.ParsedEntity, page: Page, column: S.Column)
    requires column in S.METADATA_COLUMNS || column == S.Column("enclosure_url", S.Text, true)
    requires P.IsI64(page.latestSkiptoken)
    ensures GoodCell(column, ColumnValue(lexer, column, entity, page))
  {}

  lemma ContentCell(lexer: P.Lexer, schema: S.EntityType, entity: P.ParsedEntity, page: Page, column: S.Column)
    requires Parsed(lexer, schema, entity) && IsContentColumn(schema.baseAttributes, column)
    ensures CellOk(lexer, schema, entity, column, ColumnValue(lexer, column, entity, page))
  {}

  lemma NotReserved(lexer: P.Lexer, column: S.Column, entity: P.ParsedEntity, page: Page)
    requires column.name !in S.RESERVED_COLUMNS
    ensures ColumnValue(lexer, column, entity, page) ==
      match ScalarFor(entity.scalars, column.name) {
        case Some(scalar) => BindFromParsedValue(lexer, scalar.name, scalar.value, column.sqlType)
        case None => if column.nullable then Ok(NullFor(column.sqlType)) else Err(MissingNonNullValue(column.name))
      }
  {}

  lemma FieldCell(lexer: P.Lexer, schema: S.EntityType, entity: P.ParsedEntity, page: Page, field: S.Field)
    requires Parsed(lexer, schema, entity) && field in schema.fields && S.IsScalarColumn(field)
    ensures CellOk(lexer, schema, entity, S.FieldColumn(field), ColumnValue(lexer, S.FieldColumn(field), entity, page))
    ensures ScalarFor(entity.scalars, SqlName(field.name)).Some? ==>
      ScalarFor(entity.scalars, SqlName(field.name)).value.name == field.name
  {
    var column := S.FieldColumn(field);
    assert column.name !in S.RESERVED_COLUMNS;
    FieldNamedIsField(schema, field);
    NotReserved(lexer, column, entity, page);
    match ScalarFor(entity.scalars, column.name)
    case Some(scalar) =>
      assert P.ScalarOk(schema, scalar);
      SqlNameIsTheField(schema, field, scalar.name);
      BindsUnlessBadUuid(lexer, schema, scalar);
    case None =>
      if P.MustHaveValue(field) {
        RequiredHasScalar(lexer, schema, entity, field);
        assert false;
      }
  }

  /** A required, non-nillable attribute that occurs once has its scalar. */
  lemma RequiredHasScalar(lexer: P.Lexer, schema: S.EntityType, entity: P.ParsedEntity, field: S.Field)
    requires Parsed(lexer, schema, entity) && field in schema.fields && P.MustHaveValue(field)
    ensures ScalarFor(entity.scalars, SqlName(field.name)).Some?
  {
    FieldNamedIsField(schema, field);
    assert P.HasScalar(entity.scalars, field.name);
  }

  lemma EveryCellOk(lexer: P.Lexer, schema: S.EntityType, entity: P.ParsedEntity, page: Page, column: S.Column)
    requires Parsed(lexer, schema, entity) && column in S.EntityColumns(schema) && P.IsI64(page.latestSkiptoken)
    ensures CellOk(lexer, schema, entity, column, ColumnValue(lexer, column, entity, page))
  {
    if column in S.METADATA_COLUMNS || column == S.Column("enclosure_url", S.Text, true) {
      MetadataCell(lexer, schema, entity, page, column);
    } else if column in S.BaseColumns(schema.baseAttributes) {
      ContentColumns(schema, column);
      ContentCell(lexer, schema, entity, page, column);
    } else {
      assert column in S.FieldColumns(schema.fields);
      var field :| field in schema.fields && S.IsScalarColumn(field) && column == S.FieldColumn(field);
      FieldCell(lexer, schema, entity, page, field);
    }
  }

  // ----- the entity row

  /** Column by column, up to the first cell refused. */
  lemma {:induction false} ValuesAreCells(lexer: P.Lexer, columns: seq<S.Column>, entity: P.ParsedEntity, page: Page)
    ensures var r := EntityColumnValues(lexer, columns, entity, page);
      && (r.Ok? <==> forall c :: c in columns ==> ColumnValue(lexer, c, entity, page).Ok?)
      && (r.Err? ==> exists c :: c in columns && ColumnValue(lexer, c, entity, page) == Err(r.error))
      && (r.Ok? ==> |r.value| == |columns| && forall i :: 0 <= i < |columns| ==>
            r.value[i].0 == columns[i].name && ColumnValue(lexer, columns[i], entity, page) == Ok(r.value[i].1))
  {
    if columns != [] {
      var front, last := columns[..|columns| - 1], columns[|columns| - 1];
      assert columns == front + [last];
      ValuesAreCells(lexer, front, entity, page);
    }
  }

  lemma {:induction false} NoNulls(columns: seq<S.Column>, values: seq<(string, BindValue)>)
    requires |columns| == |values|
    ensures FirstNull(columns, values).None? <==>
      forall i :: 0 <= i < |columns| && values[i].1.IsNull() ==> columns[i].nullable
  {
    if columns != [] {
      NoNulls(columns[1..], values[1..]);
      assert forall i :: 0 <= i < |columns| - 1 ==>
        columns[1..][i] == columns[i + 1] && values[1..][i] == values[i + 1];
      assert forall i :: 0 < i < |columns| ==> columns[i] == columns[1..][i - 1] && values[i] == values[1..][i - 1];
    }
  }

  /** A row with every value in its column's type, and NULL only where the column allows it. */
  ghost predicate GoodRow(columns: seq<S.Column>, values: seq<(string, BindValue)>) {
    && |values| == |columns|
    && forall i :: 0 <= i < |columns| ==>
         && values[i].0 == columns[i].name && Fits(values[i].1, columns[i].sqlType)
         && (values[i].1.IsNull() ==> columns[i].nullable)
  }

  /** The entity row of a parsed entity is refused only for a type mismatch of an entity that is
      not storable; MissingNonNullValue and NOT NULL violations never arise. */
  lemma EntityRowIsGood(lexer: P.Lexer, schema: S.EntityType, entity: P.ParsedEntity, page: Page)
    requires Parsed(lexer, schema, entity) && P.IsI64(page.latestSkiptoken)
    ensures var r := BuildEntityRow(lexer, schema, entity, page);
      && (r.Ok? ==> GoodRow(S.EntityColumns(schema), r.value.values))
      && (r.Err? ==> r.error.TypeMismatch? && !Storable(lexer, schema, entity))
  {
    var columns := S.EntityColumns(schema);
    forall c | c in columns ensures CellOk(lexer, schema, entity, c, ColumnValue(lexer, c, entity, page)) {
      EveryCellOk(lexer, schema, entity, page, c);
    }
    ValuesAreCells(lexer, columns, entity, page);
    var values := EntityColumnValues(lexer, columns, entity, page);
    if values.Ok? {
      forall i | 0 <= i < |columns| ensures GoodCell(columns[i], Ok(values.value[i].1)) {
        assert columns[i] in columns;
      }
      NoNulls(columns, values.value);
    }
  }

  // ----- relation tables

  /** The row a relation of the list puts into a table. */
  ghost predicate LandsIn(entity: P.ParsedEntity, relations: seq<P.ParsedRelation>, table: string, k: RelationKey) {
    exists r :: r in relations && BelongsTo(r, table) && k == RelationRowKey(table, entity, r)
  }

  lemma {:induction false} RelationRowsLand(
    db: Db, table: string, single: bool, entity: P.ParsedEntity, relations: seq<P.ParsedRelation>)
    requires InsertRelationRows(db, table, single, entity, relations).Ok?
    ensures var after := InsertRelationRows(db, table, single, entity, relations).value;
      forall k :: k in after.relations <==> k in db.relations || LandsIn(entity, relations, table, k)
  {
    if relations != [] {
      var front, last := relations[..|relations| - 1], relations[|relations| - 1];
      assert relations == front + [last];
      RelationRowsLand(db, table, single, entity, front);
      forall k ensures LandsIn(entity, relations, table, k) <==>
        LandsIn(entity, front, table, k) || (BelongsTo(last, table) && k == RelationRowKey(table, entity, last))
      {
        assert last in relations;
        forall r | r in front ensures r in relations {}
      }
    }
  }

  /** A relation belongs to its own field's table and to no other. */
  lemma BelongsToItsField(
    lexer: P.Lexer, schema: S.EntityType, entity: P.ParsedEntity, field: S.Field, relation: P.ParsedRelation)
    requires Parsed(lexer, schema, entity) && field in schema.fields && relation in entity.relations
    ensures BelongsTo(relation, ChildTable(schema.category, field.name)) <==> relation.name == field.name
    ensures relation.name == field.name ==>
      S.IsRelationTable(field) && (S.HasSingleConstraint(field) ==> relation.ordinal == 1)
  {
    ChildTableSplits(schema.category, field.name);
    assert P.RelationOk(lexer, schema, relation);
    if SqlName(relation.name) == SqlName(field.name) {
      SqlNameIsTheField(schema, field, relation.name);
    }
  }

  /** No row of the entity is in the table yet. */
  ghost predicate NoneIn(db: Db, key: Key, table: string) {
    forall k :: k in db.relations ==> !(k.source == key && k.table == table)
  }

  ghost predicate HasParents(db: Db, entity: P.ParsedEntity) {
    EntityKey(entity) in db.entities && forall r :: r in entity.relations ==> TargetKey(r) in db.registry
  }

  /** A relation's row is free: earlier rows of its name have smaller ordinals. */
  lemma RelationIsFree(
    lexer: P.Lexer, schema: S.EntityType, entity: P.ParsedEntity, field: S.Field, n: nat, db: Db, before: Db)
    requires Parsed(lexer, schema, entity) && field in schema.fields && n < |entity.relations|
    requires var table := ChildTable(schema.category, field.name);
      && NoneIn(db, EntityKey(entity), table) && BelongsTo(entity.relations[n], table)
      && (forall k :: k in before.relations <==> k in db.relations || LandsIn(entity, entity.relations[..n], table, k))
    ensures !RelationTaken(before.relations,
      RelationRowKey(ChildTable(schema.category, field.name), entity, entity.relations[n]),
      S.HasSingleConstraint(field))
  {
    var table, last := ChildTable(schema.category, field.name), entity.relations[n];
    BelongsToItsField(lexer, schema, entity, field, last);
    forall k | k in before.relations && k.source == EntityKey(entity) && k.table == table && k.name == last.name
      ensures k.ordinal < last.ordinal && !S.HasSingleConstraint(field)
    {
      assert LandsIn(entity, entity.relations[..n], table, k);
      var r :| r in entity.relations[..n] && BelongsTo(r, table) && k == RelationRowKey(table, entity, r);
      var i :| 0 <= i < n && entity.relations[i] == r;
      BelongsToItsField(lexer, schema, entity, field, r);
    }
  }

  lemma {:induction false} RelationRowsAccepted(
    lexer: P.Lexer, schema: S.EntityType, entity: P.ParsedEntity, field: S.Field, n: nat, db: Db)
    requires Parsed(lexer, schema, entity) && field in schema.fields && n <= |entity.relations|
    requires NoneIn(db, EntityKey(entity), ChildTable(schema.category, field.name)) && HasParents(db, entity)
    ensures InsertRelationRows(db, ChildTable(schema.category, field.name), S.HasSingleConstraint(field), entity,
      entity.relations[..n]).Ok?
  {
    if n > 0 {
      var table, single := ChildTable(schema.category, field.name), S.HasSingleConstraint(field);
      assert entity.relations[..n][..n - 1] == entity.relations[..n - 1];
      RelationRowsAccepted(lexer, schema, entity, field, n - 1, db);
      RelationRowsLand(db, table, single, entity, entity.relations[..n - 1]);
      RelationRowsOnly(db, table, single, entity, entity.relations[..n - 1]);
      var before := InsertRelationRows(db, table, single, entity, entity.relations[..n - 1]).value;
      if BelongsTo(entity.relations[n - 1], table) {
        RelationIsFree(lexer, schema, entity, field, n - 1, db, before);
      }
    }
  }

  /** The row of a relation in the table of its own field, if that is among the fields. */
  ghost predicate LandsAmong(schema: S.EntityType, fields: seq<S.Field>, entity: P.ParsedEntity, k: RelationKey) {
    exists f :: f in fields && S.IsRelationTable(f) &&
      LandsIn(entity, entity.relations, ChildTable(schema.category, f.name), k)
  }

  lemma LandsAmongMore(
    schema: S.EntityType, fields: seq<S.Field>, last: S.Field, entity: P.ParsedEntity, k: RelationKey)
    ensures LandsAmong(schema, fields + [last], entity, k) <==>
      || LandsAmong(schema, fields, entity, k)
      || (S.IsRelationTable(last) && LandsIn(entity, entity.relations, ChildTable(schema.category, last.name), k))
  {
    assert last in fields + [last];
    forall f | f in fields ensures f in fields + [last] {}
  }

  lemma {:induction false} RelationTablesAccepted(
    lexer: P.Lexer, schema: S.EntityType, entity: P.ParsedEntity, n: nat, db: Db)
    requires Parsed(lexer, schema, entity) && n <= |schema.fields| && HasParents(db, entity)
    requires forall k :: k in db.relations ==> k.source != EntityKey(entity)
    ensures var r := InsertRelationTables(db, schema, schema.fields[..n], entity);
      r.Ok? && forall k :: k in r.value.relations <==>
        k in db.relations || LandsAmong(schema, schema.fields[..n], entity, k)
  {
    if n > 0 {
      var front, last := schema.fields[..n - 1], schema.fields[n - 1];
      assert schema.fields[..n][..n - 1] == front && schema.fields[..n] == front + [last];
      RelationTablesAccepted(lexer, schema, entity, n - 1, db);
      RelationTablesOnly(db, schema, front, entity);
      var before := InsertRelationTables(db, schema, front, entity).value;
      if S.IsRelationTable(last) {
        var table, single := ChildTable(schema.category, last.name), S.HasSingleConstraint(last);
        NoneInNextTable(schema, entity, n - 1, db, before);
        assert entity.relations[..|entity.relations|] == entity.relations;
        RelationRowsAccepted(lexer, schema, entity, last, |entity.relations|, before);
        RelationRowsLand(before, table, single, entity, entity.relations);
      }
      forall k ensures LandsAmong(schema, schema.fields[..n], entity, k) <==>
        LandsAmong(schema, front, entity, k)
        || (S.IsRelationTable(last) && LandsIn(entity, entity.relations, ChildTable(schema.category, last.name), k))
      {
        LandsAmongMore(schema, front, last, entity, k);
      }
    }
  }

  /** The table of a field is empty when its turn comes: tables of distinct fields are distinct. */
  lemma NoneInNextTable(schema: S.EntityType, entity: P.ParsedEntity, n: nat, db: Db, before: Db)
    requires S.WellFormedEntity(schema) && n < |schema.fields|
    requires forall k :: k in db.relations ==> k.source != EntityKey(entity)
    requires forall k :: k in before.relations <==>
      k in db.relations || LandsAmong(schema, schema.fields[..n], entity, k)
    ensures NoneIn(before, EntityKey(entity), ChildTable(schema.category, schema.fields[n].name))
  {
    var table := ChildTable(schema.category, schema.fields[n].name);
    forall k | k in before.relations && k.source == EntityKey(entity) ensures k.table != table {
      assert LandsAmong(schema, schema.fields[..n], entity, k);
      var f :| f in schema.fields[..n] && S.IsRelationTable(f) &&
        LandsIn(entity, entity.relations, ChildTable(schema.category, f.name), k);
      var i :| 0 <= i < n && schema.fields[i] == f;
      ChildTablesDistinct(schema.category, f.name, schema.category, schema.fields[n].name);
    }
  }

  // ----- repeated-scalar tables

  ghost predicate ScalarLandsIn(
    entity: P.ParsedEntity, scalars: seq<P.ParsedScalar>, field: S.Field, table: string, k: RepeatedKey)
  {
    exists s :: s in scalars && s.name == field.name && k == RepeatedKey(table, EntityKey(entity), s.ordinal)
  }

  lemma {:induction false} RepeatedRowsLand(
    lexer: P.Lexer, db: Db, table: string, field: S.Field, entity: P.ParsedEntity, scalars: seq<P.ParsedScalar>)
    requires InsertRepeatedRows(lexer, db, table, field, entity, scalars).Ok?
    ensures var after := InsertRepeatedRows(lexer, db, table, field, entity, scalars).value;
      forall k :: k in after.repeated <==> k in db.repeated || ScalarLandsIn(entity, scalars, field, table, k)
  {
    if scalars != [] {
      var front, last := scalars[..|scalars| - 1], scalars[|scalars| - 1];
      assert scalars == front + [last];
      RepeatedRowsLand(lexer, db, table, field, entity, front);
      forall k ensures ScalarLandsIn(entity, scalars, field, table, k) <==>
        ScalarLandsIn(entity, front, field, table, k)
        || (last.name == field.name && k == RepeatedKey(table, EntityKey(entity), last.ordinal))
      {
        assert last in scalars;
        forall s | s in front ensures s in scalars {}
      }
    }
  }

  ghost predicate NoneRepeatedIn(db: Db, key: Key, table: string) {
    forall k :: k in db.repeated ==> !(k.source == key && k.table == table)
  }

  /** Refused only for text that is no UUID. */
  lemma {:induction false} RepeatedRowsAccepted(
    lexer: P.Lexer, schema: S.EntityType, entity: P.ParsedEntity, field: S.Field, n: nat, db: Db)
    requires Parsed(lexer, schema, entity) && field in schema.fields && n <= |entity.scalars|
    requires NoneRepeatedIn(db, EntityKey(entity), ChildTable(schema.category, field.name))
    requires EntityKey(entity) in db.entities
    ensures var r := InsertRepeatedRows(lexer, db, ChildTable(schema.category, field.name), field, entity,
      entity.scalars[..n]);
      && (r.Ok? <==> forall s :: s in entity.scalars[..n] && s.name == field.name ==> !IsBadUuid(lexer, schema, s))
      && (r.Err? ==> r.error.TypeMismatch?)
  {
    if n > 0 {
      var table, last := ChildTable(schema.category, field.name), entity.scalars[n - 1];
      assert entity.scalars[..n][..n - 1] == entity.scalars[..n - 1];
      assert entity.scalars[..n] == entity.scalars[..n - 1] + [last];
      RepeatedRowsAccepted(lexer, schema, entity, field, n - 1, db);
      var before := InsertRepeatedRows(lexer, db, table, field, entity, entity.scalars[..n - 1]);
      if before.Ok? && last.name == field.name {
        RepeatedRowsLand(lexer, db, table, field, entity, entity.scalars[..n - 1]);
        RepeatedRowsOnly(lexer, db, table, field, entity, entity.scalars[..n - 1]);
        FieldNamedIsField(schema, field);
        assert P.ScalarOk(schema, last);
        BindsUnlessBadUuid(lexer, schema, last);
        RepeatedIsFree(lexer, schema, entity, field, n - 1, db, before.value);
      }
    }
  }

  lemma RepeatedIsFree(
    lexer: P.Lexer, schema: S.EntityType, entity: P.ParsedEntity, field: S.Field, n: nat, db: Db, before: Db)
    requires Parsed(lexer, schema, entity) && n < |entity.scalars| && entity.scalars[n].name == field.name
    requires var table := ChildTable(schema.category, field.name);
      && NoneRepeatedIn(db, EntityKey(entity), table)
      && (forall k :: k in before.repeated <==>
            k in db.repeated || ScalarLandsIn(entity, entity.scalars[..n], field, table, k))
    ensures var table := ChildTable(schema.category, field.name);
      RepeatedKey(table, EntityKey(entity), entity.scalars[n].ordinal) !in before.repeated
  {
    var table, key := ChildTable(schema.category, field.name), EntityKey(entity);
    forall s | s in entity.scalars[..n] && s.name == field.name ensures s.ordinal < entity.scalars[n].ordinal {
      var i :| 0 <= i < n && entity.scalars[i] == s;
    }
    assert !ScalarLandsIn(entity, entity.scalars[..n], field, table,
      RepeatedKey(table, key, entity.scalars[n].ordinal));
  }

  ghost predicate ScalarLandsAmong(schema: S.EntityType, fields: seq<S.Field>, entity: P.ParsedEntity, k: RepeatedKey) {
    exists f :: f in fields && S.IsRepeatedScalarTable(f)
      && ScalarLandsIn(entity, entity.scalars, f, ChildTable(schema.category, f.name), k)
  }

  lemma ScalarLandsAmongMore(
    schema: S.EntityType, fields: seq<S.Field>, last: S.Field, entity: P.ParsedEntity, k: RepeatedKey)
    ensures ScalarLandsAmong(schema, fields + [last], entity, k) <==>
      || ScalarLandsAmong(schema, fields, entity, k)
      || (S.IsRepeatedScalarTable(last) &&
        ScalarLandsIn(entity, entity.scalars, last, ChildTable(schema.category, last.name), k))
  {
    assert last in fields + [last];
    forall f | f in fields ensures f in fields + [last] {}
  }

  lemma NoneRepeatedInNextTable(schema: S.EntityType, entity: P.ParsedEntity, n: nat, db: Db, before: Db)
    requires S.WellFormedEntity(schema) && n < |schema.fields|
    requires forall k :: k in db.repeated ==> k.source != EntityKey(entity)
    requires forall k :: k in before.repeated <==>
      k in db.repeated || ScalarLandsAmong(schema, schema.fields[..n], entity, k)
    ensures NoneRepeatedIn(before, EntityKey(entity), ChildTable(schema.category, schema.fields[n].name))
  {
    var table := ChildTable(schema.category, schema.fields[n].name);
    forall k | k in before.repeated && k.source == EntityKey(entity) ensures k.table != table {
      assert ScalarLandsAmong(schema, schema.fields[..n], entity, k);
      var f :| f in schema.fields[..n] && S.IsRepeatedScalarTable(f)
        && ScalarLandsIn(entity, entity.scalars, f, ChildTable(schema.category, f.name), k);
      var i :| 0 <= i < n && schema.fields[i] == f;
      ChildTablesDistinct(schema.category, f.name, schema.category, schema.fields[n].name);
    }
  }

  /** No scalar with a table of its own among these fields is bad. */
  ghost predicate RepeatedGood(lexer: P.Lexer, schema: S.EntityType, fields: seq<S.Field>, entity: P.ParsedEntity) {
    forall f, s :: f in fields && S.IsRepeatedScalarTable(f) && s in entity.scalars && s.name == f.name
      ==> !IsBadUuid(lexer, schema, s)
  }

  lemma {:induction false} RepeatedTablesAccepted(
    lexer: P.Lexer, schema: S.EntityType, entity: P.ParsedEntity, n: nat, db: Db)
    requires Parsed(lexer, schema, entity) && n <= |schema.fields| && EntityKey(entity) in db.entities
    requires forall k :: k in db.repeated ==> k.source != EntityKey(entity)
    ensures var r := InsertRepeatedTables(lexer, db, schema, schema.fields[..n], entity);
      && (r.Ok? <==> RepeatedGood(lexer, schema, schema.fields[..n], entity))
      && (r.Err? ==> r.error.TypeMismatch?)
      && (r.Ok? ==> forall k :: k in r.value.repeated <==>
            k in db.repeated || ScalarLandsAmong(schema, schema.fields[..n], entity, k))
  {
    if n > 0 {
      var front, last := schema.fields[..n - 1], schema.fields[n - 1];
      assert schema.fields[..n][..n - 1] == front && schema.fields[..n] == front + [last];
      RepeatedTablesAccepted(lexer, schema, entity, n - 1, db);
      RepeatedTablesOnly(lexer, db, schema, front, entity);
      var before := InsertRepeatedTables(lexer, db, schema, front, entity);
      if before.Ok? && S.IsRepeatedScalarTable(last) {
        var table := ChildTable(schema.category, last.name);
        NoneRepeatedInNextTable(schema, entity, n - 1, db, before.value);
        assert entity.scalars[..|entity.scalars|] == entity.scalars;
        RepeatedRowsAccepted(lexer, schema, entity, last, |entity.scalars|, before.value);
        if InsertRepeatedRows(lexer, before.value, table, last, entity, entity.scalars).Ok? {
          RepeatedRowsLand(lexer, before.value, table, last, entity, entity.scalars);
        }
      }
      forall k ensures ScalarLandsAmong(schema, schema.fields[..n], entity, k) <==>
        ScalarLandsAmong(schema, front, entity, k)
        || (S.IsRepeatedScalarTable(last) &&
          ScalarLandsIn(entity, entity.scalars, last, ChildTable(schema.category, last.name), k))
      {
        ScalarLandsAmongMore(schema, front, last, entity, k);
      }
    }
  }

  // ----- what the writer refuses, exactly

  /** A field that occurs once has at most one scalar. */
  lemma SingleScalar(
    lexer: P.Lexer, schema: S.EntityType, entity: P.ParsedEntity, field: S.Field, a: P.ParsedScalar, b: P.ParsedScalar)
    requires Parsed(lexer, schema, entity) && field in schema.fields && S.IsScalarColumn(field)
    requires a in entity.scalars && b in entity.scalars && a.name == field.name && b.name == field.name
    ensures a == b
  {
    FieldNamedIsField(schema, field);
    assert P.ScalarOk(schema, a) && P.ScalarOk(schema, b);
    var i :| 0 <= i < |entity.scalars| && entity.scalars[i] == a;
    var j :| 0 <= j < |entity.scalars| && entity.scalars[j] == b;
  }

  lemma BadScalarRefused(
    lexer: P.Lexer, schema: S.EntityType, entity: P.ParsedEntity, page: Page, scalar: P.ParsedScalar)
    requires Parsed(lexer, schema, entity) && scalar in entity.scalars && IsBadUuid(lexer, schema, scalar)
    ensures BuildEntityRow(lexer, schema, entity, page).Err? || !RepeatedGood(lexer, schema, schema.fields, entity)
  {
    assert P.ScalarOk(schema, scalar);
    var field := schema.FieldNamed(scalar.name).value;
    if S.IsScalarColumn(field) {
      var column := S.FieldColumn(field);
      var picked := ScalarFor(entity.scalars, column.name);
      FieldCell(lexer, schema, entity, page, field);
      assert picked.Some?;
      SingleScalar(lexer, schema, entity, field, scalar, picked.value);
      NotReserved(lexer, column, entity, page);
      BindsUnlessBadUuid(lexer, schema, scalar);
      assert column in S.EntityColumns(schema);
      ValuesAreCells(lexer, S.EntityColumns(schema), entity, page);
    }
  }

  lemma LongContentRefused(lexer: P.Lexer, schema: S.EntityType, entity: P.ParsedEntity, page: Page)
    requires Parsed(lexer, schema, entity) && HasContentLength(schema)
    requires entity.contentLength.Some? && !P.IsI32(entity.contentLength.value)
    ensures BuildEntityRow(lexer, schema, entity, page).Err?
  {
    var column := ContentLengthColumn(schema);
    assert ColumnValue(lexer, column, entity, page).Err?;
    ValuesAreCells(lexer, S.EntityColumns(schema), entity, page);
  }

  lemma RowsAcceptedIffStorable(lexer: P.Lexer, schema: S.EntityType, entity: P.ParsedEntity, page: Page)
    requires Parsed(lexer, schema, entity) && P.IsI64(page.latestSkiptoken)
    ensures BuildEntityRow(lexer, schema, entity, page).Ok? && RepeatedGood(lexer, schema, schema.fields, entity)
      <==> Storable(lexer, schema, entity)
  {
    EntityRowIsGood(lexer, schema, entity, page);
    if HasContentLength(schema) && entity.contentLength.Some? && !P.IsI32(entity.contentLength.value) {
      LongContentRefused(lexer, schema, entity, page);
    } else if !Storable(lexer, schema, entity) {
      var scalar :| scalar in entity.scalars && IsBadUuid(lexer, schema, scalar);
      BadScalarRefused(lexer, schema, entity, page, scalar);
    }
  }

  /** The relation rows of an entity: one per relation, in the table of its own field. */
  ghost predicate RelationRowsExact(schema: S.EntityType, entity: P.ParsedEntity, db: Db) {
    forall k: RelationKey :: k.source == EntityKey(entity) ==>
      (k in db.relations <==>
        exists r :: r in entity.relations && k == RelationRowKey(ChildTable(schema.category, r.name), entity, r))
  }

  /** The repeated-scalar rows of an entity: one per scalar of a repeated field, in its table. */
  ghost predicate RepeatedRowsExact(schema: S.EntityType, entity: P.ParsedEntity, db: Db) {
    forall k: RepeatedKey :: k.source == EntityKey(entity) ==>
      (k in db.repeated <==> ScalarLandsAmong(schema, schema.fields, entity, k))
  }

  lemma LandsInOwnTable(lexer: P.Lexer, schema: S.EntityType, entity: P.ParsedEntity, k: RelationKey)
    requires Parsed(lexer, schema, entity)
    ensures LandsAmong(schema, schema.fields, entity, k) <==>
      exists r :: r in entity.relations && k == RelationRowKey(ChildTable(schema.category, r.name), entity, r)
  {
    if LandsAmong(schema, schema.fields, entity, k) {
      var f :| f in schema.fields && S.IsRelationTable(f) &&
        LandsIn(entity, entity.relations, ChildTable(schema.category, f.name), k);
      var r :| r in entity.relations && BelongsTo(r, ChildTable(schema.category, f.name))
        && k == RelationRowKey(ChildTable(schema.category, f.name), entity, r);
      BelongsToItsField(lexer, schema, entity, f, r);
    }
    forall r | r in entity.relations && k == RelationRowKey(ChildTable(schema.category, r.name), entity, r)
      ensures LandsAmong(schema, schema.fields, entity, k)
    {
      assert P.RelationOk(lexer, schema, r);
      var f := schema.FieldNamed(r.name).value;
      BelongsToItsField(lexer, schema, entity, f, r);
      assert LandsIn(entity, entity.relations, ChildTable(schema.category, f.name), k);
    }
  }

  lemma NothingUnderKey(db: Db, key: Key, row: EntityRow)
    requires JustTheRow(db, key, row)
    ensures forall k :: k in db.relations ==> k.source != key
    ensures forall k :: k in db.repeated ==> k.source != key
  {
    var just := EMPTY_DB.(entities := map[key := row]);
    forall k | k in db.relations ensures k.source != key {
      assert k.source == key ==> RelationAt(just, k) == RelationAt(db, k);
    }
    forall k | k in db.repeated ensures k.source != key {
      assert k.source == key ==> RepeatedAt(just, k) == RepeatedAt(db, k);
    }
  }

  lemma ChildRowsAccepted(lexer: P.Lexer, schema: S.EntityType, entity: P.ParsedEntity, db: Db)
    requires Parsed(lexer, schema, entity) && HasParents(db, entity)
    requires forall k :: k in db.relations ==> k.source != EntityKey(entity)
    requires forall k :: k in db.repeated ==> k.source != EntityKey(entity)
    ensures var r := InsertChildRows(lexer, schema, db, entity);
      && (r.Ok? <==> RepeatedGood(lexer, schema, schema.fields, entity))
      && (r.Err? ==> r.error.TypeMismatch?)
      && (r.Ok? ==> RelationRowsExact(schema, entity, r.value) && RepeatedRowsExact(schema, entity, r.value))
  {
    assert schema.fields[..|schema.fields|] == schema.fields;
    RelationTablesAccepted(lexer, schema, entity, |schema.fields|, db);
    RelationTablesOnly(db, schema, schema.fields, entity);
    var related := InsertRelationTables(db, schema, schema.fields, entity).value;
    RepeatedTablesAccepted(lexer, schema, entity, |schema.fields|, related);
    RepeatedTablesOnly(lexer, related, schema, schema.fields, entity);
    forall k: RelationKey | k.source == EntityKey(entity)
      ensures k in related.relations <==>
        exists r :: r in entity.relations && k == RelationRowKey(ChildTable(schema.category, r.name), entity, r)
    {
      LandsInOwnTable(lexer, schema, entity, k);
    }
  }

  /** A live entity from the parser is written if and only if it is storable, whatever the
      database held. No NULL, key, uniqueness or foreign-key violation can happen: a refusal is
      a type mismatch. Each relation lands in exactly the table of its own field. */
  lemma EntityAcceptedIffStorable(lexer: P.Lexer, schema: S.EntityType, db: Db, entity: P.ParsedEntity, page: Page)
    requires RegistryInvariant(db) && Parsed(lexer, schema, entity) && P.IsI64(page.latestSkiptoken)
    ensures var r := ApplyEntity(lexer, schema, db, entity, page);
      && (r.Ok? <==> Storable(lexer, schema, entity))
      && (r.Err? ==> r.error.TypeMismatch?)
      && (r.Ok? ==> RelationRowsExact(schema, entity, r.value) && RepeatedRowsExact(schema, entity, r.value))
  {
    RowsAcceptedIffStorable(lexer, schema, entity, page);
    EntityRowIsGood(lexer, schema, entity, page);
    var row := BuildEntityRow(lexer, schema, entity, page);
    if row.Ok? {
      WithEntityRowParts(lexer, schema, db, entity, page);
      var after := WithEntityRow(lexer, schema, db, entity, page);
      NothingUnderKey(after, EntityKey(entity), row.value);
      ChildRowsAccepted(lexer, schema, entity, after);
    }
  }

  // ----- whole pages

  ghost predicate ParsedPage(lexer: P.Lexer, schema: S.EntityType, entities: seq<P.ParsedEntity>) {
    S.WellFormedEntity(schema) && forall e :: e in entities ==> P.WellParsed(lexer, schema, e)
  }

  lemma {:induction false} EntitiesAcceptedIffStorable(
    lexer: P.Lexer, schema: S.EntityType, db: Db, entities: seq<P.ParsedEntity>, page: Page)
    requires RegistryInvariant(db) && ParsedPage(lexer, schema, entities) && P.IsI64(page.latestSkiptoken)
    ensures var r := ApplyEntities(lexer, schema, db, entities, page);
      && (r.Ok? <==> forall e :: e in entities && !e.deleted ==> Storable(lexer, schema, e))
      && (r.Err? ==> r.error.TypeMismatch?)
  {
    if entities != [] {
      var front, last := entities[..|entities| - 1], entities[|entities| - 1];
      assert entities == front + [last];
      EntitiesAcceptedIffStorable(lexer, schema, db, front, page);
      var before := ApplyEntities(lexer, schema, db, front, page);
      if before.Ok? && !last.deleted {
        ApplyEntitiesKeepInvariant(lexer, schema, db, front, page);
        EntityAcceptedIffStorable(lexer, schema, before.value, last, page);
      }
    }
  }

  /** A page of parsed entities is written if and only if its live entities are storable. */
  lemma PageAcceptedIffStorable(lexer: P.Lexer, schemas: seq<S.EntityType>, db: Db, page: Page)
    requires RegistryInvariant(db) && P.IsI64(page.latestSkiptoken) && S.EntityNamed(schemas, page.category).Some?
    requires ParsedPage(lexer, S.EntityNamed(schemas, page.category).value, page.entities)
    ensures var r := PageResult(lexer, schemas, db, page);
      && (r.Ok? <==> forall e :: e in page.entities && !e.deleted ==>
            Storable(lexer, S.EntityNamed(schemas, page.category).value, e))
      && (r.Err? ==> r.error.TypeMismatch?)
  {
    EntitiesAcceptedIffStorable(lexer, S.EntityNamed(schemas, page.category).value, db, page.entities, page);
  }

  // ----- relation counts

  /** The number of relation tables a relation belongs to. */
  function TablesOf(category: string, fields: seq<S.Field>, relation: P.ParsedRelation): nat {
    if fields == [] then 0 else
    var last := fields[|fields| - 1];
    TablesOf(category, fields[..|fields| - 1], relation)
    + (if S.IsRelationTable(last) && BelongsTo(relation, ChildTable(category, last.name)) then 1 else 0)
  }

  lemma {:induction false} OneTable(
    lexer: P.Lexer, schema: S.EntityType, entity: P.ParsedEntity, relation: P.ParsedRelation, own: nat, n: nat)
    requires Parsed(lexer, schema, entity) && relation in entity.relations && own < |schema.fields|
    requires n <= |schema.fields|
    requires schema.fields[own].name == relation.name
    ensures TablesOf(schema.category, schema.fields[..n], relation) == if own < n then 1 else 0
  {
    if n > 0 {
      assert schema.fields[..n][..n - 1] == schema.fields[..n - 1];
      OneTable(lexer, schema, entity, relation, own, n - 1);
      BelongsToItsField(lexer, schema, entity, schema.fields[n - 1], relation);
      if schema.fields[n - 1].name == relation.name {
        assert SqlName(schema.fields[n - 1].name) == SqlName(schema.fields[own].name);
      }
    }
  }

  lemma {:induction false} RowsByRelation(category: string, fields: seq<S.Field>, relations: seq<P.ParsedRelation>)
    requires relations != []
    ensures PageStore.RelationRowsOf(category, fields, relations) ==
      PageStore.RelationRowsOf(category, fields, relations[..|relations| - 1])
      + TablesOf(category, fields, relations[|relations| - 1])
  {
    if fields != [] {
      RowsByRelation(category, fields[..|fields| - 1], relations);
    }
  }

  lemma {:induction false} NoRelationsNoRows(category: string, fields: seq<S.Field>)
    ensures PageStore.RelationRowsOf(category, fields, []) == 0
  {
    if fields != [] {
      NoRelationsNoRows(category, fields[..|fields| - 1]);
    }
  }

  /** The relation counter counts every relation of a live entity exactly once. */
  lemma {:induction false} EveryRelationCountedOnce(
    lexer: P.Lexer, schema: S.EntityType, entity: P.ParsedEntity, n: nat)
    requires Parsed(lexer, schema, entity) && n <= |entity.relations|
    ensures PageStore.RelationRowsOf(schema.category, schema.fields, entity.relations[..n]) == n
  {
    if n == 0 {
      NoRelationsNoRows(schema.category, schema.fields);
    } else {
      var relation := entity.relations[n - 1];
      EveryRelationCountedOnce(lexer, schema, entity, n - 1);
      assert entity.relations[..n][..n - 1] == entity.relations[..n - 1];
      RowsByRelation(schema.category, schema.fields, entity.relations[..n]);
      assert P.RelationOk(lexer, schema, relation);
      var own :| 0 <= own < |schema.fields| && schema.fields[own] == schema.FieldNamed(relation.name).value;
      OneTable(lexer, schema, entity, relation, own, |schema.fields|);
      assert schema.fields[..|schema.fields|] == schema.fields;
    }
  }

  // ----- the counters of a page

  /** The relations of the live entities. */
  function RelationsIn(entities: seq<P.ParsedEntity>): nat {
    if entities == [] then 0 else
    RelationsIn(entities[..|entities| - 1])
    + (if entities[|entities| - 1].deleted then 0 else |entities[|entities| - 1].relations|)
  }

  /** The scalars of the live entities that belong to a field with a table of its own. */
  function RepeatedIn(schema: S.EntityType, entities: seq<P.ParsedEntity>): nat {
    if entities == [] then 0 else
    RepeatedIn(schema, entities[..|entities| - 1])
    + (if entities[|entities| - 1].deleted then 0 else RepeatedAmong(schema, entities[|entities| - 1].scalars))
  }

  function RepeatedAmong(schema: S.EntityType, scalars: seq<P.ParsedScalar>): nat {
    if scalars == [] then 0 else
    RepeatedAmong(schema, scalars[..|scalars| - 1])
    + (if IsRepeatedName(schema, scalars[|scalars| - 1].name) then 1 else 0)
  }

  predicate IsRepeatedName(schema: S.EntityType, name: string) {
    exists f :: f in schema.fields && f.name == name && f.kind == S.Attribute && f.maxOccurs != S.Exactly(1)
  }

  lemma {:induction false} NoScalarsNoRows(fields: seq<S.Field>)
    ensures PageStore.RepeatedRowsOf(fields, []) == 0
  {
    if fields != [] {
      NoScalarsNoRows(fields[..|fields| - 1]);
    }
  }

  /** One more scalar is one more row in each table of its name. */
  lemma {:induction false} OneMoreScalar(fields: seq<S.Field>, front: seq<P.ParsedScalar>, last: P.ParsedScalar)
    ensures PageStore.RepeatedRowsOf(fields, front + [last])
      == PageStore.RepeatedRowsOf(fields, front) + TablesNamed(fields, last.name)
  {
    if fields != [] {
      OneMoreScalar(fields[..|fields| - 1], front, last);
      assert (front + [last])[..|front|] == front;
    }
  }

  function TablesNamed(fields: seq<S.Field>, name: string): nat {
    if fields == [] then 0 else
    TablesNamed(fields[..|fields| - 1], name)
    + (if S.IsRepeatedScalarTable(fields[|fields| - 1]) && fields[|fields| - 1].name == name then 1 else 0)
  }

  lemma {:induction false} OneTableNamed(fields: seq<S.Field>, name: string)
    requires forall i, j :: 0 <= i < j < |fields| ==> fields[i].name != fields[j].name
    ensures TablesNamed(fields, name)
      == if exists f :: f in fields && f.name == name && S.IsRepeatedScalarTable(f) then 1 else 0
  {
    if fields != [] {
      var front, last := fields[..|fields| - 1], fields[|fields| - 1];
      assert fields == front + [last];
      OneTableNamed(front, name);
      if last.name == name {
        assert forall f :: f in front ==> f.name != name;
        assert last in fields;
      }
    }
  }

  lemma {:induction false} RepeatedCounted(schema: S.EntityType, scalars: seq<P.ParsedScalar>)
    requires S.WellFormedEntity(schema)
    ensures PageStore.RepeatedRowsOf(schema.fields, scalars) == RepeatedAmong(schema, scalars)
  {
    if scalars == [] {
      NoScalarsNoRows(schema.fields);
    } else {
      var front, last := scalars[..|scalars| - 1], scalars[|scalars| - 1];
      assert scalars == front + [last];
      RepeatedCounted(schema, front);
      OneMoreScalar(schema.fields, front, last);
      OneTableNamed(schema.fields, last.name);
    }
  }

  /** The counters of a page of parsed entities: those seen, live and deleted, the relations of the live
      ones, and their scalars of repeated fields. */
  lemma {:induction false} PageCounters(
    lexer: P.Lexer, schema: S.EntityType, entities: seq<P.ParsedEntity>, seen: nat)
    requires ParsedPage(lexer, schema, entities)
    ensures var o := PageStore.OutcomeOf(schema, entities, seen);
      && o.seen == seen && o.written == PageStore.LiveCount(entities) && o.written + o.deleted == |entities|
      && o.relationsWritten == RelationsIn(entities) && o.repeatedScalarsWritten == RepeatedIn(schema, entities)
  {
    if entities != [] {
      var front, last := entities[..|entities| - 1], entities[|entities| - 1];
      assert last in entities && forall e :: e in front ==> e in entities;
      PageCounters(lexer, schema, front, seen);
      if !last.deleted {
        EveryRelationCountedOnce(lexer, schema, last, |last.relations|);
        assert last.relations[..|last.relations|] == last.relations;
        RepeatedCounted(schema, last.scalars);
      }
    }
  }

  // ----- a relation that occurs once

  lemma SecondOfSingleIsRefused(
    db: Db, table: string, entity: P.ParsedEntity, relations: seq<P.ParsedRelation>, i: nat, j: nat)
    requires i < j < |relations| && relations[i].name == relations[j].name
    requires BelongsTo(relations[i], table) && BelongsTo(relations[j], table)
    ensures InsertRelationRows(db, table, true, entity, relations).Err?
  {
    if InsertRelationRows(db, table, true, entity, relations[..j]).Ok? {
      RelationRowsLand(db, table, true, entity, relations[..j]);
      var before := InsertRelationRows(db, table, true, entity, relations[..j]).value;
      assert relations[..j][i] in relations[..j];
      assert LandsIn(entity, relations[..j], table, RelationRowKey(table, entity, relations[i]));
      assert RelationTaken(before.relations, RelationRowKey(table, entity, relations[j]), true);
      PageStore.RelationRowsStep(db, table, true, entity, relations, j);
      PageStore.RelationRowsFailure(db, table, true, entity, relations, j + 1);
    } else {
      PageStore.RelationRowsFailure(db, table, true, entity, relations, j);
    }
  }

  /** An entity with two relations of a field that occurs once is refused, whether it was parsed or not. */
  lemma SecondRelationIsRefused(
    lexer: P.Lexer, schema: S.EntityType, db: Db, entity: P.ParsedEntity, page: Page, n: nat, i: nat, j: nat)
    requires n < |schema.fields| && schema.fields[n].kind == S.Relation && schema.fields[n].maxOccurs == S.Exactly(1)
    requires i < j < |entity.relations| && !entity.deleted
    requires entity.relations[i].name == entity.relations[j].name == schema.fields[n].name
    ensures ApplyEntity(lexer, schema, db, entity, page).Err?
  {
    var field, key := schema.fields[n], EntityKey(entity);
    ChildTableSplits(schema.category, field.name);
    var cleared := DeleteCurrentRows(UpsertSyncEntity(db, key, RegistryRowFor(entity, page)), key);
    var registered := UpsertTargets(cleared, entity.relations, entity, page);
    var row := BuildEntityRow(lexer, schema, entity, page);
    if row.Ok? && InsertEntityRow(registered, key, row.value).Ok? {
      TableOfSingleRefuses(schema, InsertEntityRow(registered, key, row.value).value, entity, n, i, j);
    }
  }

  lemma TableOfSingleRefuses(schema: S.EntityType, db: Db, entity: P.ParsedEntity, n: nat, i: nat, j: nat)
    requires n < |schema.fields| && S.IsRelationTable(schema.fields[n]) && S.HasSingleConstraint(schema.fields[n])
    requires i < j < |entity.relations| && entity.relations[i].name == entity.relations[j].name
    requires BelongsTo(entity.relations[i], ChildTable(schema.category, schema.fields[n].name))
    requires BelongsTo(entity.relations[j], ChildTable(schema.category, schema.fields[n].name))
    ensures InsertRelationTables(db, schema, schema.fields, entity).Err?
  {
    var front := InsertRelationTables(db, schema, schema.fields[..n], entity);
    assert schema.fields[..n + 1][..n] == schema.fields[..n];
    if front.Ok? {
      SecondOfSingleIsRefused(
        front.value, ChildTable(schema.category, schema.fields[n].name), entity, entity.relations, i, j);
      PageStore.RelationTablesFailure(db, schema, schema.fields, entity, n + 1);
    } else {
      PageStore.RelationTablesFailure(db, schema, schema.fields, entity, n);
    }
  }
}
