/** The strict entity parser, over the events of one embedded XML payload. */
module Payload {
  import opened Integers
  import opened Wrappers
  import opened DocumentIds
  import S = SyncSchema

  datatype ParsedValue = Text(text: string) | Bool(flag: bool) | I32(i32: int) | I64(i64: int) | Date(date: int)
    | DateTime(time: int)

  datatype ParsedScalar = ParsedScalar(name: string, value: ParsedValue, ordinal: int)

  datatype ParsedRelation = ParsedRelation(
    name: string, targetCategory: string, targetId: Uuid, targetUpdatedAt: Option<int>, ordinal: int)

  datatype ParsedEntity = ParsedEntity(
    category: string, sourceId: Uuid, deleted: bool, sourceUpdatedAt: int,
    contentType: Option<string>, contentLength: Option<int>,
    scalars: seq<ParsedScalar>, relations: seq<ParsedRelation>, enclosureUrl: Option<string>)

  /** A child element: its local name, nil flag, trimmed text, and the two relation attributes. */
  datatype Child = Child(name: string, nil: bool, text: string, ref: Option<string>, updated: Option<string>)

  /** The events inside the root element; Ignored stands for blank text, comments and CDATA. */
  datatype Event = Element(child: Child) | Ignored | End | Unexpected

  datatype ParseError =
    | MissingAttribute(attribute: string) | InvalidValue(field: string)
    | DuplicateSingleField(field: string) | UnknownField(field: string) | NonNullableNil(field: string)
    | MissingRelationRef(field: string) | MissingRequiredField(field: string) | Malformed

  predicate IsI32(n: int) { -I32_MAX - 1 <= n <= I32_MAX }

  predicate IsI64(n: int) { -I64_MAX - 1 <= n <= I64_MAX }

  /** The library parsers of numbers, dates, times and UUIDs, and the category inferred for a
      relation name; any functions will do. */
  datatype Lexer = Lexer(
    integer: string -> Option<int>, date: string -> Option<int>, time: string -> Option<int>,
    uuid: string -> Option<Uuid>, targetCategory: string -> string)

  function ParseBool(value: string): Option<bool> {
    if value in ["true", "True", "1"] then Some(true)
    else if value in ["false", "False", "0"] then Some(false)
    else None
  }

  /** A number of the given width, if the text is one. */
  function ParseInteger(lexer: Lexer, wide: bool, value: string): Option<int> {
    var n := lexer.integer(value);
    if n.Some? && (if wide then IsI64(n.value) else IsI32(n.value)) then n else None
  }

  function ParseValue(lexer: Lexer, field: string, xsdType: string, value: string): Result<ParsedValue, ParseError> {
    if xsdType in ["xs:boolean", "booleanType"] then
      match ParseBool(value) case Some(b) => Ok(Bool(b)) case None => Err(InvalidValue(field))
    else if xsdType in ["xs:int", "xs:unsignedInt", "intType"] then
      match ParseInteger(lexer, false, value) case Some(n) => Ok(I32(n)) case None => Err(InvalidValue(field))
    else if xsdType == "xs:long" then
      match ParseInteger(lexer, true, value) case Some(n) => Ok(I64(n)) case None => Err(InvalidValue(field))
    else if xsdType == "xs:date" then
      match lexer.date(value) case Some(d) => Ok(Date(d)) case None => Err(InvalidValue(field))
    else if xsdType == "xs:dateTime" then
      match lexer.time(value) case Some(t) => Ok(DateTime(t)) case None => Err(InvalidValue(field))
    else Ok(Text(value))
  }

  /** A relation without a reference is absent if its field is nillable, an error otherwise. */
  function ParseRelation(
    lexer: Lexer, field: S.Field, child: Child, ordinal: int): Result<Option<ParsedRelation>, ParseError>
  {
    match child.ref
    case None => if field.nillable then Ok(None) else Err(MissingRelationRef(field.name))
    case Some(target) =>
      match lexer.uuid(target)
      case None => Err(InvalidValue(field.name))
      case Some(targetId) =>
        if child.updated.None? then
          Ok(Some(ParsedRelation(field.name, lexer.targetCategory(field.name), targetId, None, ordinal)))
        else match lexer.time(child.updated.value)
          case None => Err(InvalidValue(field.name))
          case Some(t) =>
            Ok(Some(ParsedRelation(field.name, lexer.targetCategory(field.name), targetId, Some(t), ordinal)))
  }

  function ParseBaseAttributes(lexer: Lexer, entity: S.EntityType, attributes: map<string, string>):
    Result<ParsedEntity, ParseError>
  {
    if "id" !in attributes then Err(MissingAttribute("id"))
    else if lexer.uuid(attributes["id"]).None? then Err(InvalidValue("id"))
    else if "verwijderd" !in attributes then Err(MissingAttribute("verwijderd"))
    else if ParseBool(attributes["verwijderd"]).None? then Err(InvalidValue("verwijderd"))
    else if "bijgewerkt" !in attributes then Err(MissingAttribute("bijgewerkt"))
    else if lexer.time(attributes["bijgewerkt"]).None? then Err(InvalidValue("bijgewerkt"))
    else if "contentLength" in attributes && ParseInteger(lexer, true, attributes["contentLength"]).None?
      then Err(InvalidValue("contentLength"))
    else match FirstMissing(entity.baseAttributes, attributes)
      case Some(name) => Err(MissingAttribute(name))
      case None => Ok(ParsedEntity(
        entity.category, lexer.uuid(attributes["id"]).value, ParseBool(attributes["verwijderd"]).value,
        lexer.time(attributes["bijgewerkt"]).value,
        if "contentType" in attributes then Some(attributes["contentType"]) else None,
        if "contentLength" in attributes then ParseInteger(lexer, true, attributes["contentLength"]) else None,
        [], [], None))
  }

  function FirstMissing(base: seq<S.BaseAttribute>, attributes: map<string, string>): (name: Option<string>)
    ensures name.None? <==> forall a :: a in base && a.required ==> a.name in attributes
  {
    if base == [] then None
    else if base[0].required && base[0].name !in attributes then Some(base[0].name)
    else FirstMissing(base[1..], attributes)
  }

  function FirstUncounted(fields: seq<S.Field>, counts: map<string, int>): (name: Option<string>)
    ensures name.None? <==> forall f :: f in fields && f.minOccurs > 0 ==> f.name in counts
  {
    if fields == [] then None
    else if fields[0].minOccurs > 0 && fields[0].name !in counts then Some(fields[0].name)
    else FirstUncounted(fields[1..], counts)
  }

  // ----- one child after another

  /** What the parser accumulates. */
  datatype State = State(scalars: seq<ParsedScalar>, relations: seq<ParsedRelation>, counts: map<string, int>)

  function CountOf(counts: map<string, int>, name: string): int {
    if name in counts then counts[name] else 0
  }

  /** The state after a child element, or why it is refused. */
  function AcceptChild(lexer: Lexer, entity: S.EntityType, st: State, child: Child): Result<State, ParseError> {
    match entity.FieldNamed(child.name)
    case None => Err(UnknownField(child.name))
    case Some(field) =>
      var ordinal := CountOf(st.counts, field.name) + 1;
      var counted := st.(counts := st.counts[field.name := ordinal]);
      if field.maxOccurs == S.Exactly(1) && ordinal > 1 then Err(DuplicateSingleField(field.name))
      else if child.nil then if field.nillable then Ok(counted) else Err(NonNullableNil(field.name))
      else if field.kind == S.Attribute then WithScalar(lexer, counted, field, child.text, ordinal)
      else WithReference(lexer, counted, field, child, ordinal)
  }

  function WithScalar(
    lexer: Lexer, counted: State, field: S.Field, text: string, ordinal: int): Result<State, ParseError>
  {
    match ParseValue(lexer, field.name, field.xsdType, text)
    case Err(error) => Err(error)
    case Ok(value) => Ok(counted.(scalars := counted.scalars + [ParsedScalar(field.name, value, ordinal)]))
  }

  function WithReference(
    lexer: Lexer, counted: State, field: S.Field, child: Child, ordinal: int): Result<State, ParseError>
  {
    match ParseRelation(lexer, field, child, ordinal)
    case Err(error) => Err(error)
    case Ok(None) => Ok(counted)
    case Ok(Some(relation)) => Ok(counted.(relations := counted.relations + [relation]))
  }

  class Parser {
    const lexer: Lexer
    const entity: S.EntityType
    var scalars: seq<ParsedScalar>
    var relations: seq<ParsedRelation>
    var counts: map<string, int>

    constructor (lexer: Lexer, entity: S.EntityType)
      ensures this.lexer == lexer && this.entity == entity && Current() == State([], [], map[])
    {
      this.lexer := lexer;
      this.entity := entity;
      scalars, relations, counts := [], [], map[];
    }

    function Current(): State
      reads this
    {
      State(scalars, relations, counts)
    }

    method NextOrdinal(field: S.Field) returns (r: Result<int, ParseError>)
      modifies this`counts
      ensures counts == old(counts)[field.name := CountOf(old(counts), field.name) + 1]
      ensures r == if field.maxOccurs == S.Exactly(1) && CountOf(old(counts), field.name) > 0
        then Err(DuplicateSingleField(field.name)) else Ok(CountOf(old(counts), field.name) + 1)
    {
      if field.name !in counts {
        counts := counts[field.name := 0];
      }
      counts := counts[field.name := counts[field.name] + 1];
      if field.maxOccurs == S.Exactly(1) && counts[field.name] > 1 {
        return Err(DuplicateSingleField(field.name));
      }
      r := Ok(counts[field.name]);
    }

    method ParseChild(child: Child) returns (r: Result<(), ParseError>)
      requires forall name :: name in counts ==> counts[name] >= 0
      modifies this
      ensures match AcceptChild(lexer, entity, old(Current()), child)
        case Ok(after) => r == Ok(()) && Current() == after
        case Err(error) => r == Err(error)
    {
      var named := entity.FieldNamed(child.name);
      if named.None? {
        return Err(UnknownField(child.name));
      }
      var field := named.value;
      var ordinal := NextOrdinal(field);
      if ordinal.Err? {
        return Err(ordinal.error);
      }
      if child.nil {
        return if field.nillable then Ok(()) else Err(NonNullableNil(field.name));
      }
      match field.kind {
      case Attribute =>
        var value := ParseValue(lexer, field.name, field.xsdType, child.text);
        if value.Err? {
          return Err(value.error);
        }
        scalars := scalars + [ParsedScalar(field.name, value.value, ordinal.value)];
      case Relation =>
        var relation := ParseRelation(lexer, field, child, ordinal.value);
        if relation.Err? {
          return Err(relation.error);
        }
        if relation.value.Some? {
          relations := relations + [relation.value.value];
        }
      }
      r := Ok(());
    }
  }

  /** The state after the events up to the end of the root element. */
  function AcceptEvents(lexer: Lexer, entity: S.EntityType, st: State, events: seq<Event>): Result<State, ParseError>
    decreases |events|
  {
    if events == [] then Err(Malformed)
    else match events[0]
      case End => Ok(st)
      case Unexpected => Err(Malformed)
      case Ignored => AcceptEvents(lexer, entity, st, events[1..])
      case Element(child) =>
        match AcceptChild(lexer, entity, st, child)
        case Err(error) => Err(error)
        case Ok(after) => AcceptEvents(lexer, entity, after, events[1..])
  }

  /** The entity a payload stands for, or why the parser refuses it. A deleted entity's children
      are not looked at. */
  function ParsedPayload(lexer: Lexer, entity: S.EntityType, attributes: map<string, string>, events: seq<Event>):
    Result<ParsedEntity, ParseError>
  {
    match ParseBaseAttributes(lexer, entity, attributes)
    case Err(error) => Err(error)
    case Ok(parsed) =>
      if parsed.deleted then Ok(parsed)
      else match AcceptEvents(lexer, entity, State([], [], map[]), events)
        case Err(error) => Err(error)
        case Ok(st) =>
          match FirstUncounted(entity.fields, st.counts)
          case Some(name) => Err(MissingRequiredField(name))
          case None => Ok(parsed.(scalars := st.scalars, relations := st.relations))
  }

  method ParseRoot(lexer: Lexer, entity: S.EntityType, attributes: map<string, string>, events: seq<Event>)
    returns (r: Result<ParsedEntity, ParseError>)
    ensures r == ParsedPayload(lexer, entity, attributes, events)
    ensures r.Ok? ==> WellParsed(lexer, entity, r.value)
  {
    ParserSoundness(lexer, entity, attributes, events);
    var base := ParseBaseAttributes(lexer, entity, attributes);
    if base.Err? {
      return Err(base.error);
    }
    var parsed := base.value;
    if parsed.deleted {
      return Ok(parsed);
    }
    var parser := new Parser(lexer, entity);
    var n := 0;
    while true
      invariant 0 <= n <= |events| && parser.lexer == lexer && parser.entity == entity
      invariant fresh(parser) && StateOk(lexer, entity, parser.Current())
      invariant AcceptEvents(lexer, entity, State([], [], map[]), events)
        == AcceptEvents(lexer, entity, parser.Current(), events[n..])
      decreases |events| - n
    {
      if n == |events| {
        return Err(Malformed);
      }
      match events[n] {
      case End => break;
      case Unexpected => return Err(Malformed);
      case Ignored =>
      case Element(child) =>
        ChildKeepsStateOk(lexer, entity, parser.Current(), child);
        var accepted := parser.ParseChild(child);
        if accepted.Err? {
          return Err(accepted.error);
        }
      }
      assert events[n..][1..] == events[n + 1..];
      n := n + 1;
    }
    match FirstUncounted(entity.fields, parser.counts)
    case Some(name) => r := Err(MissingRequiredField(name));
    case None => r := Ok(parsed.(scalars := parser.scalars, relations := parser.relations));
  }

  // ----- what an accepted entity looks like

  /** A value the parser can produce for a type. */
  predicate HasXsdType(value: ParsedValue, xsdType: string) {
    match S.SqlTypeOf(xsdType)
    case Boolean => value.Bool?
    case Integer => value.I32? && IsI32(value.i32)
    case BigInteger => value.I64? && IsI64(value.i64)
    case Date => value.Date?
    case TimestampTz => value.DateTime?
    case _ => value.Text?
  }

  ghost predicate ScalarOk(entity: S.EntityType, scalar: ParsedScalar) {
    var field := entity.FieldNamed(scalar.name);
    field.Some? && field.value.kind == S.Attribute && HasXsdType(scalar.value, field.value.xsdType)
      && (field.value.maxOccurs == S.Exactly(1) ==> scalar.ordinal == 1)
  }

  ghost predicate RelationOk(lexer: Lexer, entity: S.EntityType, relation: ParsedRelation) {
    var field := entity.FieldNamed(relation.name);
    field.Some? && field.value.kind == S.Relation && relation.targetCategory == lexer.targetCategory(relation.name)
      && (field.value.maxOccurs == S.Exactly(1) ==> relation.ordinal == 1)
  }

  /** Every value belongs to a field of its kind and type, ordinals of a field increase, a
      single-occurrence field occurs once, and a required non-nillable attribute has a value. */
  ghost predicate WellParsed(lexer: Lexer, entity: S.EntityType, parsed: ParsedEntity) {
    && parsed.category == entity.category
    && (forall s :: s in parsed.scalars ==> ScalarOk(entity, s))
    && (forall s :: s in parsed.relations ==> RelationOk(lexer, entity, s))
    && ScalarsAscend(parsed.scalars) && RelationsAscend(parsed.relations)
    && (!parsed.deleted ==> RequiredPresent(entity, parsed.scalars))
    && (forall a :: a in entity.baseAttributes && a.required ==>
          && (a.name == "contentType" ==> parsed.contentType.Some?)
          && (a.name == "contentLength" ==> parsed.contentLength.Some?))
    && (parsed.contentLength.Some? ==> IsI64(parsed.contentLength.value))
  }

  ghost predicate RequiredPresent(entity: S.EntityType, scalars: seq<ParsedScalar>) {
    forall f :: f in entity.fields && entity.FieldNamed(f.name) == Some(f) && MustHaveValue(f) ==>
      HasScalar(scalars, f.name)
  }

  predicate MustHaveValue(field: S.Field) {
    field.kind == S.Attribute && field.minOccurs > 0 && !field.nillable
  }

  ghost predicate HasScalar(scalars: seq<ParsedScalar>, name: string) {
    exists s :: s in scalars && s.name == name
  }

  ghost predicate ScalarsAscend(scalars: seq<ParsedScalar>) {
    forall i, j :: 0 <= i < j < |scalars| && scalars[i].name == scalars[j].name
      ==> scalars[i].ordinal < scalars[j].ordinal
  }

  ghost predicate RelationsAscend(relations: seq<ParsedRelation>) {
    forall i, j :: 0 <= i < j < |relations| && relations[i].name == relations[j].name
      ==> relations[i].ordinal < relations[j].ordinal
  }

  /** The invariant of the accumulated state: counts bound the ordinals given out so far. */
  ghost predicate StateOk(lexer: Lexer, entity: S.EntityType, st: State) {
    && (forall name :: name in st.counts ==> st.counts[name] >= 0)
    && (forall s :: s in st.scalars ==> ScalarOk(entity, s) && 1 <= s.ordinal <= CountOf(st.counts, s.name))
    && (forall s :: s in st.relations ==> RelationOk(lexer, entity, s) && 1 <= s.ordinal <= CountOf(st.counts, s.name))
    && ScalarsAscend(st.scalars) && RelationsAscend(st.relations)
    && (forall name :: name in st.counts ==> CountedOk(entity, st.scalars, name))
  }

  lemma FieldNamedItself(fields: seq<S.Field>, name: string)
    ensures S.FirstNamed(fields, name).Some? ==> S.FirstNamed(fields, name).value.name == name
  {}

  lemma ParsedValueType(lexer: Lexer, field: string, xsdType: string, value: string)
    ensures var r := ParseValue(lexer, field, xsdType, value); r.Ok? ==> HasXsdType(r.value, xsdType)
  {}

  /** The part of the invariant about the fields counted so far. */
  ghost predicate CountedOk(entity: S.EntityType, scalars: seq<ParsedScalar>, name: string) {
    var field := entity.FieldNamed(name);
    field.Some? && (field.value.kind == S.Attribute && !field.value.nillable ==> HasScalar(scalars, name))
  }

  lemma CountedStaysOk(entity: S.EntityType, scalars: seq<ParsedScalar>, more: seq<ParsedScalar>, name: string)
    requires CountedOk(entity, scalars, name)
    ensures CountedOk(entity, scalars + more, name)
  {
    if HasScalar(scalars, name) {
      var s :| s in scalars && s.name == name;
      assert s in scalars + more;
    }
  }

  lemma CountMore(lexer: Lexer, entity: S.EntityType, st: State, field: S.Field, more: seq<ParsedScalar>)
    requires StateOk(lexer, entity, st) && entity.FieldNamed(field.name) == Some(field)
    requires field.kind == S.Attribute && !field.nillable ==> HasScalar(more, field.name)
    ensures var counts := st.counts[field.name := CountOf(st.counts, field.name) + 1];
      && (forall name :: name in counts ==> counts[name] >= 0 && CountedOk(entity, st.scalars + more, name))
      && (forall name :: CountOf(st.counts, name) <= CountOf(counts, name))
  {
    forall name | name in st.counts || name == field.name ensures CountedOk(entity, st.scalars + more, name) {
      if name == field.name {
        if HasScalar(more, name) {
          var s :| s in more && s.name == name;
          assert s in st.scalars + more;
        }
      } else {
        CountedStaysOk(entity, st.scalars, more, name);
      }
    }
  }

  lemma ScalarsStayAscending(st: State, scalar: ParsedScalar)
    requires ScalarsAscend(st.scalars)
    requires forall s :: s in st.scalars && s.name == scalar.name ==> s.ordinal < scalar.ordinal
    ensures ScalarsAscend(st.scalars + [scalar])
  {
    var scalars := st.scalars + [scalar];
    forall i, j | 0 <= i < j < |scalars| && scalars[i].name == scalars[j].name
      ensures scalars[i].ordinal < scalars[j].ordinal
    {
      assert scalars[i] in st.scalars;
    }
  }

  lemma ScalarKeepsStateOk(lexer: Lexer, entity: S.EntityType, st: State, scalar: ParsedScalar)
    requires StateOk(lexer, entity, st) && ScalarOk(entity, scalar)
    requires scalar.ordinal == CountOf(st.counts, scalar.name) + 1
    ensures StateOk(lexer, entity, State(
      st.scalars + [scalar], st.relations, st.counts[scalar.name := scalar.ordinal]))
  {
    assert [scalar][0].name == scalar.name;
    FieldNamedItself(entity.fields, scalar.name);
    CountMore(lexer, entity, st, entity.FieldNamed(scalar.name).value, [scalar]);
    ScalarsStayAscending(st, scalar);
  }

  lemma RelationKeepsStateOk(lexer: Lexer, entity: S.EntityType, st: State, field: S.Field, relation: ParsedRelation)
    requires StateOk(lexer, entity, st) && entity.FieldNamed(field.name) == Some(field)
    requires field.kind == S.Relation && relation.name == field.name
    requires relation.targetCategory == lexer.targetCategory(field.name)
    requires relation.ordinal == CountOf(st.counts, field.name) + 1
    requires field.maxOccurs == S.Exactly(1) ==> CountOf(st.counts, field.name) == 0
    ensures StateOk(lexer, entity, State(
      st.scalars, st.relations + [relation], st.counts[field.name := relation.ordinal]))
  {
    CountMore(lexer, entity, st, field, []);
    assert st.scalars + [] == st.scalars;
    var relations := st.relations + [relation];
    forall i, j | 0 <= i < j < |relations| && relations[i].name == relations[j].name
      ensures relations[i].ordinal < relations[j].ordinal
    {
      assert relations[i] in st.relations;
    }
  }

  lemma CountKeepsStateOk(lexer: Lexer, entity: S.EntityType, st: State, field: S.Field)
    requires StateOk(lexer, entity, st) && entity.FieldNamed(field.name) == Some(field)
    requires field.kind == S.Attribute ==> field.nillable
    ensures StateOk(lexer, entity, st.(counts := st.counts[field.name := CountOf(st.counts, field.name) + 1]))
  {
    CountMore(lexer, entity, st, field, []);
    assert st.scalars + [] == st.scalars;
  }

  lemma AttributeKeepsStateOk(lexer: Lexer, entity: S.EntityType, st: State, field: S.Field, text: string)
    requires StateOk(lexer, entity, st) && entity.FieldNamed(field.name) == Some(field) && field.kind == S.Attribute
    requires field.maxOccurs == S.Exactly(1) ==> CountOf(st.counts, field.name) == 0
    ensures var ordinal := CountOf(st.counts, field.name) + 1;
      var r := WithScalar(lexer, st.(counts := st.counts[field.name := ordinal]), field, text, ordinal);
      r.Ok? ==> StateOk(lexer, entity, r.value)
  {
    ParsedValueType(lexer, field.name, field.xsdType, text);
    var value := ParseValue(lexer, field.name, field.xsdType, text);
    if value.Ok? {
      ScalarKeepsStateOk(lexer, entity, st, ParsedScalar(field.name, value.value, CountOf(st.counts, field.name) + 1));
    }
  }

  lemma ReferenceKeepsStateOk(lexer: Lexer, entity: S.EntityType, st: State, field: S.Field, child: Child)
    requires StateOk(lexer, entity, st) && entity.FieldNamed(field.name) == Some(field) && field.kind == S.Relation
    requires field.maxOccurs == S.Exactly(1) ==> CountOf(st.counts, field.name) == 0
    ensures var ordinal := CountOf(st.counts, field.name) + 1;
      var r := WithReference(lexer, st.(counts := st.counts[field.name := ordinal]), field, child, ordinal);
      r.Ok? ==> StateOk(lexer, entity, r.value)
  {
    var relation := ParseRelation(lexer, field, child, CountOf(st.counts, field.name) + 1);
    if relation.Ok? {
      if relation.value.Some? {
        RelationKeepsStateOk(lexer, entity, st, field, relation.value.value);
      } else {
        CountKeepsStateOk(lexer, entity, st, field);
      }
    }
  }

  /** The field of an accepted child, and that a single field is not yet counted. */
  lemma AcceptedField(lexer: Lexer, entity: S.EntityType, st: State, child: Child) returns (field: S.Field)
    requires AcceptChild(lexer, entity, st, child).Ok? && (forall name :: name in st.counts ==> st.counts[name] >= 0)
    ensures entity.FieldNamed(child.name) == Some(field) && entity.FieldNamed(field.name) == Some(field)
    ensures field.maxOccurs == S.Exactly(1) ==> CountOf(st.counts, field.name) == 0
  {
    field := entity.FieldNamed(child.name).value;
  }

  lemma NilKeepsStateOk(lexer: Lexer, entity: S.EntityType, st: State, child: Child)
    requires StateOk(lexer, entity, st) && AcceptChild(lexer, entity, st, child).Ok? && child.nil
    ensures StateOk(lexer, entity, AcceptChild(lexer, entity, st, child).value)
  {
    var field := AcceptedField(lexer, entity, st, child);
    CountKeepsStateOk(lexer, entity, st, field);
  }

  lemma ChildKeepsStateOk(lexer: Lexer, entity: S.EntityType, st: State, child: Child)
    requires StateOk(lexer, entity, st)
    ensures var r := AcceptChild(lexer, entity, st, child); r.Ok? ==> StateOk(lexer, entity, r.value)
  {
    if AcceptChild(lexer, entity, st, child).Ok? {
      if child.nil {
        NilKeepsStateOk(lexer, entity, st, child);
      } else {
        var field := AcceptedField(lexer, entity, st, child);
        if field.kind == S.Attribute {
          AttributeKeepsStateOk(lexer, entity, st, field, child.text);
        } else {
          ReferenceKeepsStateOk(lexer, entity, st, field, child);
        }
      }
    }
  }

  lemma {:induction false} EventsKeepStateOk(lexer: Lexer, entity: S.EntityType, st: State, events: seq<Event>)
    requires StateOk(lexer, entity, st)
    ensures var r := AcceptEvents(lexer, entity, st, events); r.Ok? ==> StateOk(lexer, entity, r.value)
    decreases |events|
  {
    if events != [] && events[0].Element? {
      ChildKeepsStateOk(lexer, entity, st, events[0].child);
      var after := AcceptChild(lexer, entity, st, events[0].child);
      if after.Ok? {
        EventsKeepStateOk(lexer, entity, after.value, events[1..]);
      }
    } else if events != [] && events[0].Ignored? {
      EventsKeepStateOk(lexer, entity, st, events[1..]);
    }
  }

  /** Whatever the payload, an accepted entity is well parsed. */
  lemma ParserSoundness(lexer: Lexer, entity: S.EntityType, attributes: map<string, string>, events: seq<Event>)
    ensures var r := ParsedPayload(lexer, entity, attributes, events); r.Ok? ==> WellParsed(lexer, entity, r.value)
  {
    EventsKeepStateOk(lexer, entity, State([], [], map[]), events);
    var r := ParsedPayload(lexer, entity, attributes, events);
    if r.Ok? && !r.value.deleted {
      var st := AcceptEvents(lexer, entity, State([], [], map[]), events).value;
      forall f | f in entity.fields && entity.FieldNamed(f.name) == Some(f) && MustHaveValue(f)
        ensures HasScalar(st.scalars, f.name)
      {
        assert f.name in st.counts && CountedOk(entity, st.scalars, f.name);
      }
    }
  }
}
