/** The official schema and the tables generated from it. */
module SyncSchema {
  import opened Wrappers
  import opened SqlNames

  datatype FieldKind = Attribute | Relation

  datatype Occurs = Exactly(count: nat) | Unbounded

  datatype Field = Field(
    name: string, kind: FieldKind, minOccurs: nat, maxOccurs: Occurs, nillable: bool, xsdType: string)

  datatype BaseAttribute = BaseAttribute(name: string, xsdType: string, required: bool)

  datatype EntityType = EntityType(
    category: string, xmlElement: string, rustName: string, base: string,
    baseAttributes: seq<BaseAttribute>, fields: seq<Field>)
  {
    /** The first field of that name. */
    function FieldNamed(name: string): Option<Field> {
      FirstNamed(fields, name)
    }
  }

  function FirstNamed(fields: seq<Field>, name: string): (field: Option<Field>)
    ensures field.Some? ==> field.value in fields && field.value.name == name
    ensures field.None? ==> forall f :: f in fields ==> f.name != name
  {
    if fields == [] then None
    else if fields[0].name == name then Some(fields[0])
    else FirstNamed(fields[1..], name)
  }

  datatype SqlType = Uuid | Text | Boolean | Integer | BigInteger | TimestampTz | Date | Jsonb | BigIdentity

  function SqlTypeOf(xsdType: string): SqlType {
    if xsdType in ["idType", "referentieLiteral", "referentieType"] then Uuid
    else if xsdType in ["xs:boolean", "booleanType"] then Boolean
    else if xsdType in ["xs:int", "xs:unsignedInt", "intType"] then Integer
    else if xsdType == "xs:long" then BigInteger
    else if xsdType == "xs:dateTime" then TimestampTz
    else if xsdType == "xs:date" then Date
    else Text
  }

  predicate IsRepeated(occurs: Occurs) {
    occurs != Exactly(1)
  }

  datatype Column = Column(name: string, sqlType: SqlType, nullable: bool)

  const METADATA_COLUMNS: seq<Column> := [
    Column("source_category", Text, false),
    Column("source_id", Uuid, false),
    Column("latest_skiptoken", BigInteger, false),
    Column("deleted", Boolean, false),
    Column("source_updated_at", TimestampTz, false),
    Column("atom_updated_at", TimestampTz, false)]

  function BaseColumns(attributes: seq<BaseAttribute>): seq<Column> {
    if attributes == [] then [] else
    (if attributes[0].name in ["id", "verwijderd", "bijgewerkt"] then []
     else [Column(SqlName(attributes[0].name), SqlTypeOf(attributes[0].xsdType), !attributes[0].required)])
    + BaseColumns(attributes[1..])
  }

  predicate IsScalarColumn(field: Field) {
    field.kind == Attribute && !IsRepeated(field.maxOccurs)
  }

  function FieldColumn(field: Field): Column {
    Column(SqlName(field.name), SqlTypeOf(field.xsdType), field.minOccurs == 0 || field.nillable)
  }

  function FieldColumns(fields: seq<Field>): (columns: seq<Column>)
    ensures forall f :: f in fields && IsScalarColumn(f) ==> FieldColumn(f) in columns
    ensures forall c :: c in columns ==> exists f :: f in fields && IsScalarColumn(f) && c == FieldColumn(f)
  {
    if fields == [] then [] else
    (if IsScalarColumn(fields[0]) then [FieldColumn(fields[0])] else []) + FieldColumns(fields[1..])
  }

  /** The columns of an entity table, in order. */
  function EntityColumns(entity: EntityType): seq<Column> {
    METADATA_COLUMNS
    + BaseColumns(entity.baseAttributes)
    + (if entity.base == "downloadEntiteitType" then [Column("enclosure_url", Text, true)] else [])
    + FieldColumns(entity.fields)
  }

  /** Fields with a table of their own: relations, and attributes that may repeat. */
  predicate IsRelationTable(field: Field) { field.kind == Relation }

  predicate IsRepeatedScalarTable(field: Field) { field.kind == Attribute && IsRepeated(field.maxOccurs) }

  /** A relation table has a uniqueness constraint per relation name when the field occurs once. */
  predicate HasSingleConstraint(field: Field) { field.maxOccurs == Exactly(1) }

  const RESERVED_COLUMNS: seq<string> := [
    "source_category", "source_id", "latest_skiptoken", "deleted", "source_updated_at",
    "atom_updated_at", "content_type", "content_length", "enclosure_url"]

  /** What the official schema satisfies: field names stay distinct as column names, none is
      reserved, and the only other base attributes are the two content attributes. */
  ghost predicate WellFormedEntity(entity: EntityType) {
    && (forall i, j :: 0 <= i < |entity.fields| && 0 <= j < |entity.fields| && i != j ==>
          SqlName(entity.fields[i].name) != SqlName(entity.fields[j].name))
    && (forall f :: f in entity.fields ==> SqlName(f.name) !in RESERVED_COLUMNS)
    && (forall a :: a in entity.baseAttributes ==>
          || a.name in ["id", "verwijderd", "bijgewerkt"]
          || (a.name == "contentType" && a.xsdType == "xs:string")
          || (a.name == "contentLength" && a.xsdType == "xs:int"))
  }

  lemma SameNameSameField(entity: EntityType, f: Field, g: Field)
    requires WellFormedEntity(entity) && f in entity.fields && g in entity.fields
    requires SqlName(f.name) == SqlName(g.name)
    ensures f == g
  {
    var i :| 0 <= i < |entity.fields| && entity.fields[i] == f;
    var j :| 0 <= j < |entity.fields| && entity.fields[j] == g;
  }

  /** One of the three names of an entity type. */
  predicate IsNamed(entity: EntityType, name: string) {
    name in [entity.category, entity.xmlElement, entity.rustName]
  }

  function EntityNamed(entityTypes: seq<EntityType>, name: string): (entity: Option<EntityType>)
    ensures entity.Some? ==> entity.value in entityTypes && IsNamed(entity.value, name)
    ensures entity.None? ==> forall e :: e in entityTypes ==> !IsNamed(e, name)
  {
    if entityTypes == [] then None
    else if entityTypes[0].category == name || entityTypes[0].xmlElement == name || entityTypes[0].rustName == name
      then Some(entityTypes[0])
    else EntityNamed(entityTypes[1..], name)
  }

  /** The first entity type that goes by a name is found. */
  lemma {:induction false} EntityNamedIsFirst(entityTypes: seq<EntityType>, name: string, i: nat)
    requires i < |entityTypes| && IsNamed(entityTypes[i], name)
    requires forall j :: 0 <= j < i ==> !IsNamed(entityTypes[j], name)
    ensures EntityNamed(entityTypes, name) == Some(entityTypes[i])
  {
    if i > 0 {
      assert !IsNamed(entityTypes[0], name);
      EntityNamedIsFirst(entityTypes[1..], name, i - 1);
    }
  }
}
