/** Which payloads the parser accepts, and what it takes from them, said child by child. */
module ParserMeaning {
  import opened Wrappers
  import opened Payload
  import S = SyncSchema

  /** The child elements up to the end of the root, if it is reached. */
  function Children(events: seq<Event>): Option<seq<Child>>
    decreases |events|
  {
    if events == [] then None
    else match events[0]
      case End => Some([])
      case Unexpected => None
      case Ignored => Children(events[1..])
      case Element(child) =>
        match Children(events[1..])
        case None => None
        case Some(rest) => Some([child] + rest)
  }

  /** How often a name occurs. */
  function Occurrences(children: seq<Child>, name: string): nat {
    if children == [] then 0 else
    Occurrences(children[..|children| - 1], name) + (if children[|children| - 1].name == name then 1 else 0)
  }

  /** Which occurrence of its name a child is, counted from one. */
  function OrdinalOf(children: seq<Child>, i: nat): nat
    requires i < |children|
  {
    Occurrences(children[..i], children[i].name) + 1
  }

  // ----- what texts and children stand for

  predicate SpellsFlag(text: string, flag: bool) {
    text in (if flag then ["true", "True", "1"] else ["false", "False", "0"])
  }

  /** The value a text spells in an XSD type. */
  predicate Spells(lexer: Lexer, xsdType: string, text: string, value: ParsedValue) {
    if xsdType in ["xs:boolean", "booleanType"] then value.Bool? && SpellsFlag(text, value.flag)
    else if xsdType in ["xs:int", "xs:unsignedInt", "intType"] then
      value.I32? && lexer.integer(text) == Some(value.i32) && -0x8000_0000 <= value.i32 < 0x8000_0000
    else if xsdType == "xs:long" then
      value.I64? && lexer.integer(text) == Some(value.i64)
        && -0x8000_0000_0000_0000 <= value.i64 < 0x8000_0000_0000_0000
    else if xsdType == "xs:date" then value.Date? && lexer.date(text) == Some(value.date)
    else if xsdType == "xs:dateTime" then value.DateTime? && lexer.time(text) == Some(value.time)
    else value == Text(text)
  }

  lemma ValueIsSpelled(lexer: Lexer, field: string, xsdType: string, text: string, value: ParsedValue)
    ensures ParseValue(lexer, field, xsdType, text) == Ok(value) <==> Spells(lexer, xsdType, text, value)
  {}

  ghost predicate HasValue(lexer: Lexer, xsdType: string, text: string) {
    exists value :: Spells(lexer, xsdType, text, value)
  }

  predicate HasTarget(lexer: Lexer, child: Child) {
    && child.ref.Some? && lexer.uuid(child.ref.value).Some?
    && (child.updated.Some? ==> lexer.time(child.updated.value).Some?)
  }

  /** A child is valid: its field is known, single fields come once, nil only where allowed, and
      its value or reference is readable; a nillable relation may do without a reference. */
  ghost predicate IsValid(lexer: Lexer, entity: S.EntityType, children: seq<Child>, i: nat)
    requires i < |children|
  {
    var child := children[i];
    match entity.FieldNamed(child.name)
    case None => false
    case Some(field) =>
      && (field.maxOccurs == S.Exactly(1) ==> OrdinalOf(children, i) == 1)
      && (if child.nil then field.nillable
          else if field.kind == S.Attribute then HasValue(lexer, field.xsdType, child.text)
          else HasTarget(lexer, child) || (child.ref.None? && field.nillable))
  }

  /** A child that stands for a scalar, and one that stands for a relation. */
  predicate OfKind(entity: S.EntityType, child: Child, kind: S.FieldKind) {
    && entity.FieldNamed(child.name).Some? && entity.FieldNamed(child.name).value.kind == kind
    && !child.nil && (kind == S.Relation ==> child.ref.Some?)
  }

  predicate IsScalarOf(lexer: Lexer, entity: S.EntityType, child: Child, ordinal: nat, scalar: ParsedScalar) {
    && entity.FieldNamed(child.name).Some?
    && scalar.name == child.name && scalar.ordinal == ordinal
    && Spells(lexer, entity.FieldNamed(child.name).value.xsdType, child.text, scalar.value)
  }

  predicate IsRelationOf(lexer: Lexer, child: Child, ordinal: nat, relation: ParsedRelation) {
    && relation.name == child.name && relation.ordinal == ordinal
    && relation.targetCategory == lexer.targetCategory(child.name)
    && child.ref.Some? && lexer.uuid(child.ref.value) == Some(relation.targetId)
    && (if child.updated.None? then relation.targetUpdatedAt == None
        else relation.targetUpdatedAt.Some? && lexer.time(child.updated.value) == relation.targetUpdatedAt)
  }

  /** The scalars of the first n children, in order, each under its own occurrence number. */
  ghost predicate AreScalars(
    lexer: Lexer, entity: S.EntityType, children: seq<Child>, n: nat, scalars: seq<ParsedScalar>)
    requires n <= |children|
  {
    if n == 0 then scalars == []
    else if OfKind(entity, children[n - 1], S.Attribute) then
      && scalars != [] && AreScalars(lexer, entity, children, n - 1, scalars[..|scalars| - 1])
      && IsScalarOf(lexer, entity, children[n - 1], OrdinalOf(children, n - 1), scalars[|scalars| - 1])
    else AreScalars(lexer, entity, children, n - 1, scalars)
  }

  /** The relations of the first n children, likewise. */
  ghost predicate AreRelations(
    lexer: Lexer, entity: S.EntityType, children: seq<Child>, n: nat, relations: seq<ParsedRelation>)
    requires n <= |children|
  {
    if n == 0 then relations == []
    else if OfKind(entity, children[n - 1], S.Relation) then
      && relations != [] && AreRelations(lexer, entity, children, n - 1, relations[..|relations| - 1])
      && IsRelationOf(lexer, children[n - 1], OrdinalOf(children, n - 1), relations[|relations| - 1])
    else AreRelations(lexer, entity, children, n - 1, relations)
  }

  lemma {:induction false} ScalarsAreDetermined(
    lexer: Lexer, entity: S.EntityType, children: seq<Child>, n: nat, s: seq<ParsedScalar>, t: seq<ParsedScalar>)
    requires n <= |children|
    requires AreScalars(lexer, entity, children, n, s) && AreScalars(lexer, entity, children, n, t)
    ensures s == t
  {
    if n > 0 {
      if OfKind(entity, children[n - 1], S.Attribute) {
        ScalarsAreDetermined(lexer, entity, children, n - 1, s[..|s| - 1], t[..|t| - 1]);
        assert s == s[..|s| - 1] + [s[|s| - 1]] && t == t[..|t| - 1] + [t[|t| - 1]];
      } else {
        ScalarsAreDetermined(lexer, entity, children, n - 1, s, t);
      }
    }
  }

  lemma {:induction false} RelationsAreDetermined(
    lexer: Lexer, entity: S.EntityType, children: seq<Child>, n: nat, q: seq<ParsedRelation>, r: seq<ParsedRelation>)
    requires n <= |children|
    requires AreRelations(lexer, entity, children, n, q) && AreRelations(lexer, entity, children, n, r)
    ensures q == r
  {
    if n > 0 {
      if OfKind(entity, children[n - 1], S.Relation) {
        RelationsAreDetermined(lexer, entity, children, n - 1, q[..|q| - 1], r[..|r| - 1]);
        assert q == q[..|q| - 1] + [q[|q| - 1]] && r == r[..|r| - 1] + [r[|r| - 1]];
      } else {
        RelationsAreDetermined(lexer, entity, children, n - 1, q, r);
      }
    }
  }

  // ----- the parser's fold over the children

  function Fold(lexer: Lexer, entity: S.EntityType, st: State, children: seq<Child>): Result<State, ParseError>
    decreases |children|
  {
    if children == [] then Ok(st)
    else match AcceptChild(lexer, entity, st, children[0])
      case Err(error) => Err(error)
      case Ok(after) => Fold(lexer, entity, after, children[1..])
  }

  function AcceptAfter(
    lexer: Lexer, entity: S.EntityType, before: Result<State, ParseError>, child: Child): Result<State, ParseError>
  {
    match before
    case Err(error) => Err(error)
    case Ok(st) => AcceptChild(lexer, entity, st, child)
  }

  lemma {:induction false} EventsAreChildren(lexer: Lexer, entity: S.EntityType, st: State, events: seq<Event>)
    ensures Children(events).None? ==> AcceptEvents(lexer, entity, st, events).Err?
    ensures Children(events).Some? ==>
      AcceptEvents(lexer, entity, st, events) == Fold(lexer, entity, st, Children(events).value)
    decreases |events|
  {
    if events != [] {
      match events[0]
      case Ignored => EventsAreChildren(lexer, entity, st, events[1..]);
      case Element(child) =>
        var after := AcceptChild(lexer, entity, st, child);
        if after.Ok? {
          EventsAreChildren(lexer, entity, after.value, events[1..]);
        }
        if Children(events[1..]).Some? {
          assert ([child] + Children(events[1..]).value)[1..] == Children(events[1..]).value;
        }
      case _ =>
    }
  }

  lemma {:induction false} FoldSnoc(lexer: Lexer, entity: S.EntityType, st: State, front: seq<Child>, last: Child)
    ensures Fold(lexer, entity, st, front + [last]) == AcceptAfter(lexer, entity, Fold(lexer, entity, st, front), last)
    decreases |front|
  {
    if front == [] {
      assert front + [last] == [last] && [last][1..] == [];
    } else {
      assert (front + [last])[0] == front[0] && (front + [last])[1..] == front[1..] + [last];
      var after := AcceptChild(lexer, entity, st, front[0]);
      if after.Ok? {
        FoldSnoc(lexer, entity, after.value, front[1..], last);
      }
    }
  }

  /** What the parser has accumulated after the first n children. */
  ghost predicate Accumulates(lexer: Lexer, entity: S.EntityType, children: seq<Child>, n: nat, st: State)
    requires n <= |children|
  {
    && AreScalars(lexer, entity, children, n, st.scalars) && AreRelations(lexer, entity, children, n, st.relations)
    && (forall name :: CountOf(st.counts, name) == Occurrences(children[..n], name))
    && (forall name :: name in st.counts ==> st.counts[name] > 0)
  }

  lemma OneMoreChild(lexer: Lexer, entity: S.EntityType, children: seq<Child>, n: nat, st: State)
    requires n < |children| && Accumulates(lexer, entity, children, n, st)
    ensures AcceptChild(lexer, entity, st, children[n]).Ok? <==> IsValid(lexer, entity, children, n)
    ensures AcceptChild(lexer, entity, st, children[n]).Ok? ==>
      Accumulates(lexer, entity, children, n + 1, AcceptChild(lexer, entity, st, children[n]).value)
  {
    var child := children[n];
    assert children[..n + 1][..n] == children[..n];
    assert CountOf(st.counts, child.name) + 1 == OrdinalOf(children, n);
    AcceptedIffValid(lexer, entity, children, n, st);
    if AcceptChild(lexer, entity, st, child).Ok? {
      CountsAfter(lexer, entity, children, n, st);
      ScalarsAfter(lexer, entity, children, n, st);
      RelationsAfter(lexer, entity, children, n, st);
    }
  }

  lemma AcceptedIffValid(lexer: Lexer, entity: S.EntityType, children: seq<Child>, n: nat, st: State)
    requires n < |children| && CountOf(st.counts, children[n].name) + 1 == OrdinalOf(children, n)
    ensures AcceptChild(lexer, entity, st, children[n]).Ok? <==> IsValid(lexer, entity, children, n)
  {
    var child := children[n];
    var named := entity.FieldNamed(child.name);
    if named.Some? {
      var field := named.value;
      var value := ParseValue(lexer, field.name, field.xsdType, child.text);
      if value.Ok? {
        ValueIsSpelled(lexer, field.name, field.xsdType, child.text, value.value);
      } else {
        forall v ensures !Spells(lexer, field.xsdType, child.text, v) {
          ValueIsSpelled(lexer, field.name, field.xsdType, child.text, v);
        }
      }
    }
  }

  lemma CountsAfter(lexer: Lexer, entity: S.EntityType, children: seq<Child>, n: nat, st: State)
    requires n < |children| && AcceptChild(lexer, entity, st, children[n]).Ok?
    requires forall name :: CountOf(st.counts, name) == Occurrences(children[..n], name)
    requires forall name :: name in st.counts ==> st.counts[name] > 0
    ensures var counts := AcceptChild(lexer, entity, st, children[n]).value.counts;
      && (forall name :: CountOf(counts, name) == Occurrences(children[..n + 1], name))
      && (forall name :: name in counts ==> counts[name] > 0)
  {
    assert children[..n + 1][..n] == children[..n];
    var name := children[n].name;
    assert AcceptChild(lexer, entity, st, children[n]).value.counts == st.counts[name := CountOf(st.counts, name) + 1];
    assert CountOf(st.counts, name) == Occurrences(children[..n], name) >= 0;
  }

  lemma ScalarsAfter(lexer: Lexer, entity: S.EntityType, children: seq<Child>, n: nat, st: State)
    requires n < |children| && AcceptChild(lexer, entity, st, children[n]).Ok?
    requires CountOf(st.counts, children[n].name) + 1 == OrdinalOf(children, n)
    requires AreScalars(lexer, entity, children, n, st.scalars)
    ensures AreScalars(lexer, entity, children, n + 1, AcceptChild(lexer, entity, st, children[n]).value.scalars)
  {
    var child, after := children[n], AcceptChild(lexer, entity, st, children[n]).value.scalars;
    if OfKind(entity, child, S.Attribute) {
      var field := entity.FieldNamed(child.name).value;
      var value := ParseValue(lexer, field.name, field.xsdType, child.text).value;
      ValueIsSpelled(lexer, field.name, field.xsdType, child.text, value);
      assert after == st.scalars + [ParsedScalar(child.name, value, OrdinalOf(children, n))];
      assert after[..|after| - 1] == st.scalars;
    }
  }

  lemma RelationsAfter(lexer: Lexer, entity: S.EntityType, children: seq<Child>, n: nat, st: State)
    requires n < |children| && AcceptChild(lexer, entity, st, children[n]).Ok?
    requires CountOf(st.counts, children[n].name) + 1 == OrdinalOf(children, n)
    requires AreRelations(lexer, entity, children, n, st.relations)
    ensures AreRelations(lexer, entity, children, n + 1, AcceptChild(lexer, entity, st, children[n]).value.relations)
  {
    var child, after := children[n], AcceptChild(lexer, entity, st, children[n]).value.relations;
    if OfKind(entity, child, S.Relation) {
      var field := entity.FieldNamed(child.name).value;
      var relation := ParseRelation(lexer, field, child, OrdinalOf(children, n)).value.value;
      assert after == st.relations + [relation];
      assert after[..|after| - 1] == st.relations;
    }
  }

  ghost predicate AllValid(lexer: Lexer, entity: S.EntityType, children: seq<Child>, n: nat)
    requires n <= |children|
  {
    forall i: nat :: i < n ==> IsValid(lexer, entity, children, i)
  }

  lemma {:induction false} FoldAccumulates(lexer: Lexer, entity: S.EntityType, children: seq<Child>, n: nat)
    requires n <= |children|
    ensures var r := Fold(lexer, entity, State([], [], map[]), children[..n]);
      && (r.Ok? <==> AllValid(lexer, entity, children, n))
      && (r.Ok? ==> Accumulates(lexer, entity, children, n, r.value))
  {
    if n > 0 {
      FoldAccumulates(lexer, entity, children, n - 1);
      FoldNext(lexer, entity, children, n - 1);
      OneMoreValid(lexer, entity, children, n - 1);
      var before := Fold(lexer, entity, State([], [], map[]), children[..n - 1]);
      if before.Ok? {
        OneMoreChild(lexer, entity, children, n - 1, before.value);
      }
    }
  }

  lemma FoldNext(lexer: Lexer, entity: S.EntityType, children: seq<Child>, n: nat)
    requires n < |children|
    ensures Fold(lexer, entity, State([], [], map[]), children[..n + 1])
      == AcceptAfter(lexer, entity, Fold(lexer, entity, State([], [], map[]), children[..n]), children[n])
  {
    assert children[..n + 1] == children[..n] + [children[n]];
    FoldSnoc(lexer, entity, State([], [], map[]), children[..n], children[n]);
  }

  lemma OneMoreValid(lexer: Lexer, entity: S.EntityType, children: seq<Child>, n: nat)
    requires n < |children|
    ensures AllValid(lexer, entity, children, n + 1) <==>
      AllValid(lexer, entity, children, n) && IsValid(lexer, entity, children, n)
  {}

  // ----- the parser as a whole

  /** What a live payload must look like, without reference to parsing order or counters. */
  ghost predicate IsAcceptable(lexer: Lexer, entity: S.EntityType, events: seq<Event>) {
    && Children(events).Some?
    && AllValid(lexer, entity, Children(events).value, |Children(events).value|)
    && (forall f :: f in entity.fields && f.minOccurs > 0 ==> Occurrences(Children(events).value, f.name) > 0)
  }

  /** The attributes an entity cannot do without can be read. */
  ghost predicate HasBase(lexer: Lexer, entity: S.EntityType, attributes: map<string, string>) {
    && "id" in attributes && lexer.uuid(attributes["id"]).Some?
    && "verwijderd" in attributes && (exists flag :: SpellsFlag(attributes["verwijderd"], flag))
    && "bijgewerkt" in attributes && lexer.time(attributes["bijgewerkt"]).Some?
    && ("contentLength" in attributes ==> HasValue(lexer, "xs:long", attributes["contentLength"]))
    && (forall a :: a in entity.baseAttributes && a.required ==> a.name in attributes)
  }

  /** What an entity has from the attributes of its root element. */
  ghost predicate FromBase(
    lexer: Lexer, entity: S.EntityType, attributes: map<string, string>, parsed: ParsedEntity)
  {
    && HasBase(lexer, entity, attributes)
    && parsed.category == entity.category && parsed.enclosureUrl == None
    && lexer.uuid(attributes["id"]) == Some(parsed.sourceId)
    && SpellsFlag(attributes["verwijderd"], parsed.deleted)
    && lexer.time(attributes["bijgewerkt"]) == Some(parsed.sourceUpdatedAt)
    && parsed.contentType == (if "contentType" in attributes then Some(attributes["contentType"]) else None)
    && (if "contentLength" in attributes
        then parsed.contentLength.Some? && lexer.integer(attributes["contentLength"]) == parsed.contentLength
        else parsed.contentLength == None)
  }

  lemma BaseIsRead(lexer: Lexer, entity: S.EntityType, attributes: map<string, string>)
    ensures var base := ParseBaseAttributes(lexer, entity, attributes);
      && (base.Ok? <==> HasBase(lexer, entity, attributes))
      && (base.Ok? ==>
            FromBase(lexer, entity, attributes, base.value) && base.value.scalars == [] && base.value.relations == [])
  {
    if "verwijderd" in attributes {
      assert SpellsFlag(attributes["verwijderd"], true) || SpellsFlag(attributes["verwijderd"], false) <==>
        ParseBool(attributes["verwijderd"]).Some?;
    }
    if "contentLength" in attributes {
      var n := lexer.integer(attributes["contentLength"]);
      assert n.Some? && IsI64(n.value) ==> Spells(lexer, "xs:long", attributes["contentLength"], I64(n.value));
    }
  }

  /** What a payload says: the attributes give the metadata, and unless it says deleted, every child
      gives its scalar or relation, in order, under its occurrence number. */
  ghost predicate ReadAs(
    lexer: Lexer, entity: S.EntityType, attributes: map<string, string>, events: seq<Event>, parsed: ParsedEntity)
  {
    && FromBase(lexer, entity, attributes, parsed)
    && (if parsed.deleted then parsed.scalars == [] && parsed.relations == []
        else
          && IsAcceptable(lexer, entity, events)
          && var children := Children(events).value;
             && AreScalars(lexer, entity, children, |children|, parsed.scalars)
             && AreRelations(lexer, entity, children, |children|, parsed.relations))
  }

  lemma OneReading(
    lexer: Lexer, entity: S.EntityType, attributes: map<string, string>, events: seq<Event>,
    a: ParsedEntity, b: ParsedEntity)
    requires ReadAs(lexer, entity, attributes, events, a) && ReadAs(lexer, entity, attributes, events, b)
    ensures a == b
  {
    if !a.deleted {
      var children := Children(events).value;
      ScalarsAreDetermined(lexer, entity, children, |children|, a.scalars, b.scalars);
      RelationsAreDetermined(lexer, entity, children, |children|, a.relations, b.relations);
    }
  }

  /** The parser gives an entity exactly when the payload says it, and refuses a payload exactly when
      the attributes cannot be read, or it is not deleted and not acceptable. */
  lemma AcceptsExactly(
    lexer: Lexer, entity: S.EntityType, attributes: map<string, string>, events: seq<Event>, parsed: ParsedEntity)
    ensures var r := ParsedPayload(lexer, entity, attributes, events);
      && (r == Ok(parsed) <==> ReadAs(lexer, entity, attributes, events, parsed))
      && (r.Ok? <==> (
            && HasBase(lexer, entity, attributes)
            && (attributes["verwijderd"] in ["true", "True", "1"] || IsAcceptable(lexer, entity, events))))
  {
    BaseIsRead(lexer, entity, attributes);
    ChildrenAreRead(lexer, entity, events);
    var r := ParsedPayload(lexer, entity, attributes, events);
    if r.Ok? && ReadAs(lexer, entity, attributes, events, parsed) {
      OneReading(lexer, entity, attributes, events, parsed, r.value);
    }
  }

  /** The children of a live payload, one after another. */
  lemma ChildrenAreRead(lexer: Lexer, entity: S.EntityType, events: seq<Event>)
    ensures var st := AcceptEvents(lexer, entity, State([], [], map[]), events);
      && (st.Ok? && FirstUncounted(entity.fields, st.value.counts).None? <==> IsAcceptable(lexer, entity, events))
      && (st.Ok? ==>
            var children := Children(events);
            && children.Some?
            && AreScalars(lexer, entity, children.value, |children.value|, st.value.scalars)
            && AreRelations(lexer, entity, children.value, |children.value|, st.value.relations))
  {
    var start := State([], [], map[]);
    EventsAreChildren(lexer, entity, start, events);
    if Children(events).Some? {
      var children := Children(events).value;
      assert children[..|children|] == children;
      FoldAccumulates(lexer, entity, children, |children|);
      var st := Fold(lexer, entity, start, children);
      if st.Ok? {
        forall f | f in entity.fields ensures f.name in st.value.counts <==> Occurrences(children, f.name) > 0 {
          assert CountOf(st.value.counts, f.name) == Occurrences(children[..|children|], f.name);
        }
      }
    }
  }

  // ----- why a payload is refused

  /** What is wrong with a child that is not valid. */
  predicate IsReason(entity: S.EntityType, children: seq<Child>, i: nat, error: ParseError)
    requires i < |children|
  {
    var child := children[i];
    match entity.FieldNamed(child.name)
    case None => error == UnknownField(child.name)
    case Some(field) =>
      if field.maxOccurs == S.Exactly(1) && OrdinalOf(children, i) > 1 then error == DuplicateSingleField(child.name)
      else if child.nil then error == NonNullableNil(child.name)
      else if field.kind == S.Relation && child.ref.None? then error == MissingRelationRef(child.name)
      else error == InvalidValue(child.name)
  }

  /** The children before it are valid, this one is not. */
  ghost predicate IsFirstInvalid(lexer: Lexer, entity: S.EntityType, children: seq<Child>, i: nat) {
    i < |children| && AllValid(lexer, entity, children, i) && !IsValid(lexer, entity, children, i)
  }

  lemma {:induction false} FoldRefuses(lexer: Lexer, entity: S.EntityType, children: seq<Child>, n: nat, i: nat)
    requires i < n <= |children| && IsFirstInvalid(lexer, entity, children, i)
    ensures Fold(lexer, entity, State([], [], map[]), children[..n]).Err?
    ensures IsReason(entity, children, i, Fold(lexer, entity, State([], [], map[]), children[..n]).error)
    decreases n
  {
    if i < n - 1 {
      FoldRefuses(lexer, entity, children, n - 1, i);
      FoldNext(lexer, entity, children, n - 1);
    } else {
      FoldRefusedAt(lexer, entity, children, i);
    }
  }

  lemma FoldRefusedAt(lexer: Lexer, entity: S.EntityType, children: seq<Child>, i: nat)
    requires IsFirstInvalid(lexer, entity, children, i)
    ensures var r := Fold(lexer, entity, State([], [], map[]), children[..i + 1]);
      r.Err? && IsReason(entity, children, i, r.error)
  {
    FoldNext(lexer, entity, children, i);
    FoldAccumulates(lexer, entity, children, i);
    ChildRefused(lexer, entity, children, i, Fold(lexer, entity, State([], [], map[]), children[..i]).value);
  }

  lemma ChildRefused(lexer: Lexer, entity: S.EntityType, children: seq<Child>, i: nat, st: State)
    requires i < |children| && Accumulates(lexer, entity, children, i, st) && !IsValid(lexer, entity, children, i)
    ensures var r := AcceptChild(lexer, entity, st, children[i]); r.Err? && IsReason(entity, children, i, r.error)
  {
    assert CountOf(st.counts, children[i].name) + 1 == OrdinalOf(children, i);
    AcceptedIffValid(lexer, entity, children, i, st);
    RefusalReason(lexer, entity, children, i, st);
  }

  lemma RefusalReason(lexer: Lexer, entity: S.EntityType, children: seq<Child>, i: nat, st: State)
    requires i < |children| && CountOf(st.counts, children[i].name) + 1 == OrdinalOf(children, i)
    ensures var r := AcceptChild(lexer, entity, st, children[i]); r.Err? ==> IsReason(entity, children, i, r.error)
  {}

  /** A live payload is refused for its first child that is not valid; if all are valid, for the
      first required field that does not occur. */
  lemma RefusedFor(lexer: Lexer, entity: S.EntityType, attributes: map<string, string>, events: seq<Event>, i: nat)
    requires HasBase(lexer, entity, attributes) && attributes["verwijderd"] in ["false", "False", "0"]
    requires Children(events).Some?
    ensures var children, r := Children(events).value, ParsedPayload(lexer, entity, attributes, events);
      && (IsFirstInvalid(lexer, entity, children, i) ==> r.Err? && IsReason(entity, children, i, r.error))
      && (AllValid(lexer, entity, children, |children|) && IsFirstAbsent(entity, children, i) ==>
            r == Err(MissingRequiredField(entity.fields[i].name)))
  {
    var children, start := Children(events).value, State([], [], map[]);
    BaseIsRead(lexer, entity, attributes);
    EventsAreChildren(lexer, entity, start, events);
    assert children[..|children|] == children;
    if IsFirstInvalid(lexer, entity, children, i) {
      FoldRefuses(lexer, entity, children, |children|, i);
    }
    if AllValid(lexer, entity, children, |children|) && IsFirstAbsent(entity, children, i) {
      FoldAccumulates(lexer, entity, children, |children|);
      var counts := Fold(lexer, entity, start, children).value.counts;
      forall f | f in entity.fields ensures f.name in counts <==> Occurrences(children, f.name) > 0 {
        assert CountOf(counts, f.name) == Occurrences(children[..|children|], f.name);
      }
      AbsentIsFirstUncounted(entity.fields, counts, i);
    }
  }

  ghost predicate IsFirstAbsent(entity: S.EntityType, children: seq<Child>, i: nat) {
    && i < |entity.fields| && entity.fields[i].minOccurs > 0 && Occurrences(children, entity.fields[i].name) == 0
    && forall j :: 0 <= j < i && entity.fields[j].minOccurs > 0 ==> Occurrences(children, entity.fields[j].name) > 0
  }

  lemma {:induction false} AbsentIsFirstUncounted(fields: seq<S.Field>, counts: map<string, int>, i: nat)
    requires i < |fields| && fields[i].minOccurs > 0 && fields[i].name !in counts
    requires forall j :: 0 <= j < i && fields[j].minOccurs > 0 ==> fields[j].name in counts
    ensures FirstUncounted(fields, counts) == Some(fields[i].name)
    decreases i
  {
    if i > 0 {
      AbsentIsFirstUncounted(fields[1..], counts, i - 1);
    }
  }
}
