/** The transaction of one page write, statement by statement. */
module PageStore {
  import opened Wrappers
  import opened SqlNames
  import opened SyncDatabase
  import W = SyncWriter
  import opened SyncWriter
  import L = WriterLocks
  import S = SyncSchema
  import P = Payload

  function LiveCount(entities: seq<P.ParsedEntity>): nat {
    if entities == [] then 0 else
    LiveCount(entities[..|entities| - 1]) + (if entities[|entities| - 1].deleted then 0 else 1)
  }

  /** Rows sent to one relation table. */
  function RelationRows(table: string, relations: seq<P.ParsedRelation>): nat {
    if relations == [] then 0 else
    RelationRows(table, relations[..|relations| - 1]) + (if BelongsTo(relations[|relations| - 1], table) then 1 else 0)
  }

  function RelationRowsOf(category: string, fields: seq<S.Field>, relations: seq<P.ParsedRelation>): nat {
    if fields == [] then 0 else
    var last := fields[|fields| - 1];
    RelationRowsOf(category, fields[..|fields| - 1], relations)
    + (if S.IsRelationTable(last) then RelationRows(ChildTable(category, last.name), relations) else 0)
  }

  function RepeatedRows(field: string, scalars: seq<P.ParsedScalar>): nat {
    if scalars == [] then 0 else
    RepeatedRows(field, scalars[..|scalars| - 1]) + (if scalars[|scalars| - 1].name == field then 1 else 0)
  }

  function RepeatedRowsOf(fields: seq<S.Field>, scalars: seq<P.ParsedScalar>): nat {
    if fields == [] then 0 else
    var last := fields[|fields| - 1];
    RepeatedRowsOf(fields[..|fields| - 1], scalars)
    + (if S.IsRepeatedScalarTable(last) then RepeatedRows(last.name, scalars) else 0)
  }

  /** What the counters of a page write come to. */
  function OutcomeOf(schema: S.EntityType, entities: seq<P.ParsedEntity>, seen: nat): Outcome {
    if entities == [] then Outcome(seen, 0, 0, 0, 0) else
    Counted(schema, OutcomeOf(schema, entities[..|entities| - 1], seen), entities[|entities| - 1])
  }

  /** One more entity, deleted or written with all its rows. */
  function Counted(schema: S.EntityType, before: Outcome, entity: P.ParsedEntity): Outcome {
    if entity.deleted then before.(deleted := before.deleted + 1)
    else before.(
      written := before.written + 1,
      relationsWritten := before.relationsWritten + RelationRowsOf(schema.category, schema.fields, entity.relations),
      repeatedScalarsWritten := before.repeatedScalarsWritten + RepeatedRowsOf(schema.fields, entity.scalars))
  }

  lemma {:induction false} EverySeenIsWrittenOrDeleted(schema: S.EntityType, entities: seq<P.ParsedEntity>, seen: nat)
    ensures var o := OutcomeOf(schema, entities, seen);
      o.seen == seen && o.written == LiveCount(entities) && o.written + o.deleted == |entities|
  {
    if entities != [] { EverySeenIsWrittenOrDeleted(schema, entities[..|entities| - 1], seen); }
  }

  /** One open transaction: the tables as its own statements see them. */
  class Transaction {
    var db: Db

    constructor (committed: Db)
      ensures db == committed
    {
      db := committed;
    }

    method UpsertRelationTargets(entity: P.ParsedEntity, page: Page)
      modifies this
      ensures db == UpsertTargets(old(db), entity.relations, entity, page)
    {
      var i := 0;
      while i < |entity.relations|
        invariant 0 <= i <= |entity.relations|
        invariant db == UpsertTargets(old(db), entity.relations[..i], entity, page)
      {
        var relation := entity.relations[i];
        assert entity.relations[..i + 1][..i] == entity.relations[..i];
        db := UpsertRelationTarget(db, TargetKey(relation), page.latestSkiptoken, TargetUpdatedAt(relation, entity),
          page.atomUpdatedAt);
        i := i + 1;
      }
      assert entity.relations[..i] == entity.relations;
    }

    /** One INSERT per relation table, with the relations that belong to it. */
    method InsertRelationRows(table: string, single: bool, entity: P.ParsedEntity) returns (r: Result<nat, WriteError>)
      modifies this
      ensures var spec := W.InsertRelationRows(old(db), table, single, entity, entity.relations);
        match r
        case Ok(count) => spec == Ok(db) && count == RelationRows(table, entity.relations)
        case Err(error) => spec.Err? && error == Database(spec.error)
    {
      var i, count := 0, 0;
      while i < |entity.relations|
        invariant 0 <= i <= |entity.relations|
        invariant W.InsertRelationRows(old(db), table, single, entity, entity.relations[..i]) == Ok(db)
        invariant count == RelationRows(table, entity.relations[..i])
      {
        var relation := entity.relations[i];
        RelationRowsStep(old(db), table, single, entity, entity.relations, i);
        if BelongsTo(relation, table) {
          var inserted := InsertRelation(db, RelationRowKey(table, entity, relation), single, entity.sourceUpdatedAt);
          if inserted.Err? {
            RelationRowsFailure(old(db), table, single, entity, entity.relations, i + 1);
            return Err(Database(inserted.error));
          }
          db := inserted.value;
          count := count + 1;
        }
        i := i + 1;
      }
      assert entity.relations[..i] == entity.relations;
      return Ok(count);
    }

    method InsertRepeatedScalarRows(
      lexer: P.Lexer, table: string, field: S.Field, entity: P.ParsedEntity) returns (r: Result<nat, WriteError>)
      modifies this
      ensures var spec := W.InsertRepeatedRows(lexer, old(db), table, field, entity, entity.scalars);
        match r
        case Ok(count) => spec == Ok(db) && count == RepeatedRows(field.name, entity.scalars)
        case Err(error) => spec == Err(error)
    {
      var i, count := 0, 0;
      while i < |entity.scalars|
        invariant 0 <= i <= |entity.scalars|
        invariant W.InsertRepeatedRows(lexer, old(db), table, field, entity, entity.scalars[..i]) == Ok(db)
        invariant count == RepeatedRows(field.name, entity.scalars[..i])
      {
        var scalar := entity.scalars[i];
        assert entity.scalars[..i + 1][..i] == entity.scalars[..i];
        if scalar.name == field.name {
          var value := BindFromParsedValue(lexer, scalar.name, scalar.value, S.SqlTypeOf(field.xsdType));
          if value.Err? {
            RepeatedRowsFailure(lexer, old(db), table, field, entity, entity.scalars, i + 1);
            return Err(value.error);
          }
          var inserted := InsertRepeated(db, RepeatedKey(table, EntityKey(entity), scalar.ordinal), value.value);
          if inserted.Err? {
            RepeatedRowsFailure(lexer, old(db), table, field, entity, entity.scalars, i + 1);
            return Err(Database(inserted.error));
          }
          db := inserted.value;
          count := count + 1;
        }
        i := i + 1;
      }
      assert entity.scalars[..i] == entity.scalars;
      return Ok(count);
    }

    method InsertRelationTables(schema: S.EntityType, entity: P.ParsedEntity) returns (r: Result<nat, WriteError>)
      modifies this
      ensures var spec := W.InsertRelationTables(old(db), schema, schema.fields, entity);
        match r
        case Ok(count) => spec == Ok(db) && count == RelationRowsOf(schema.category, schema.fields, entity.relations)
        case Err(error) => spec.Err? && error == Database(spec.error)
    {
      var i, count := 0, 0;
      while i < |schema.fields|
        invariant 0 <= i <= |schema.fields|
        invariant W.InsertRelationTables(old(db), schema, schema.fields[..i], entity) == Ok(db)
        invariant count == RelationRowsOf(schema.category, schema.fields[..i], entity.relations)
      {
        var field := schema.fields[i];
        assert schema.fields[..i + 1][..i] == schema.fields[..i];
        if S.IsRelationTable(field) {
          var rows := InsertRelationRows(ChildTable(schema.category, field.name), S.HasSingleConstraint(field), entity);
          if rows.Err? {
            RelationTablesFailure(old(db), schema, schema.fields, entity, i + 1);
            return rows;
          }
          count := count + rows.value;
        }
        i := i + 1;
      }
      assert schema.fields[..i] == schema.fields;
      return Ok(count);
    }

    method InsertRepeatedTables(
      lexer: P.Lexer, schema: S.EntityType, entity: P.ParsedEntity) returns (r: Result<nat, WriteError>)
      modifies this
      ensures var spec := W.InsertRepeatedTables(lexer, old(db), schema, schema.fields, entity);
        match r
        case Ok(count) => spec == Ok(db) && count == RepeatedRowsOf(schema.fields, entity.scalars)
        case Err(error) => spec == Err(error)
    {
      var i, count := 0, 0;
      while i < |schema.fields|
        invariant 0 <= i <= |schema.fields|
        invariant W.InsertRepeatedTables(lexer, old(db), schema, schema.fields[..i], entity) == Ok(db)
        invariant count == RepeatedRowsOf(schema.fields[..i], entity.scalars)
      {
        var field := schema.fields[i];
        assert schema.fields[..i + 1][..i] == schema.fields[..i];
        if S.IsRepeatedScalarTable(field) {
          var rows := InsertRepeatedScalarRows(lexer, ChildTable(schema.category, field.name), field, entity);
          if rows.Err? {
            RepeatedTablesFailure(lexer, old(db), schema, schema.fields, entity, i + 1);
            return rows;
          }
          count := count + rows.value;
        }
        i := i + 1;
      }
      assert schema.fields[..i] == schema.fields;
      return Ok(count);
    }

    /** The body of the loop over a page's entities. */
    method WriteEntity(lexer: P.Lexer, schema: S.EntityType, entity: P.ParsedEntity, page: Page, before: Outcome)
      returns (r: Result<Outcome, WriteError>)
      modifies this
      ensures var spec := ApplyEntity(lexer, schema, old(db), entity, page);
        match r
        case Err(error) => spec == Err(error)
        case Ok(after) =>
          spec == Ok(db) && after == Counted(schema, before, entity)
    {
      var key := EntityKey(entity);
      db := UpsertSyncEntity(db, key, RegistryRowFor(entity, page));
      db := DeleteCurrentRows(db, key);
      if entity.deleted {
        return Ok(before.(deleted := before.deleted + 1));
      }
      UpsertRelationTargets(entity, page);
      var row := BuildEntityRow(lexer, schema, entity, page);
      if row.Err? { return Err(row.error); }
      var inserted := InsertEntityRow(db, key, row.value);
      if inserted.Err? { return Err(Database(inserted.error)); }
      db := inserted.value;
      var relations := InsertRelationTables(schema, entity);
      if relations.Err? { return Err(relations.error); }
      var scalars := InsertRepeatedTables(lexer, schema, entity);
      if scalars.Err? { return Err(scalars.error); }
      return Ok(before.(
        written := before.written + 1,
        relationsWritten := before.relationsWritten + relations.value,
        repeatedScalarsWritten := before.repeatedScalarsWritten + scalars.value));
    }

    method WriteEntities(lexer: P.Lexer, schema: S.EntityType, page: Page) returns (r: Result<Outcome, WriteError>)
      modifies this
      ensures var spec := ApplyEntities(lexer, schema, old(db), page.entities, page);
        match r
        case Ok(outcome) => spec == Ok(db) && outcome == OutcomeOf(schema, page.entities, |page.entities|)
        case Err(error) => spec == Err(error)
    {
      var outcome := Outcome(|page.entities|, 0, 0, 0, 0);
      var i := 0;
      while i < |page.entities|
        invariant 0 <= i <= |page.entities|
        invariant ApplyEntities(lexer, schema, old(db), page.entities[..i], page) == Ok(db)
        invariant outcome == OutcomeOf(schema, page.entities[..i], |page.entities|)
      {
        EntitiesStep(lexer, schema, old(db), page.entities, page, i);
        CountedStep(schema, page.entities, |page.entities|, i);
        var step := WriteEntity(lexer, schema, page.entities[i], page, outcome);
        if step.Err? {
          EntitiesFailure(lexer, schema, old(db), page.entities, page, i + 1);
          return step;
        }
        outcome := step.value;
        i := i + 1;
      }
      assert page.entities[..i] == page.entities;
      return Ok(outcome);
    }
  }

  // ----- once a prefix is refused, so is the whole

  lemma RelationRowsStep(
    db: Db, table: string, single: bool, entity: P.ParsedEntity, relations: seq<P.ParsedRelation>, i: nat)
    requires i < |relations| && W.InsertRelationRows(db, table, single, entity, relations[..i]).Ok?
    ensures var before := W.InsertRelationRows(db, table, single, entity, relations[..i]).value;
      W.InsertRelationRows(db, table, single, entity, relations[..i + 1]) ==
        if BelongsTo(relations[i], table)
        then InsertRelation(before, RelationRowKey(table, entity, relations[i]), single, entity.sourceUpdatedAt)
        else Ok(before)
    ensures RelationRows(table, relations[..i + 1])
      == RelationRows(table, relations[..i]) + (if BelongsTo(relations[i], table) then 1 else 0)
  {
    assert relations[..i + 1][..i] == relations[..i];
  }

  lemma EntitiesStep(lexer: P.Lexer, schema: S.EntityType, db: Db, entities: seq<P.ParsedEntity>, page: Page, i: nat)
    requires i < |entities| && ApplyEntities(lexer, schema, db, entities[..i], page).Ok?
    ensures ApplyEntities(lexer, schema, db, entities[..i + 1], page)
      == ApplyEntity(lexer, schema, ApplyEntities(lexer, schema, db, entities[..i], page).value, entities[i], page)
  {
    assert entities[..i + 1][..i] == entities[..i];
  }

  lemma CountedStep(schema: S.EntityType, entities: seq<P.ParsedEntity>, seen: nat, i: nat)
    requires i < |entities|
    ensures OutcomeOf(schema, entities[..i + 1], seen)
      == Counted(schema, OutcomeOf(schema, entities[..i], seen), entities[i])
  {
    assert entities[..i + 1][..i] == entities[..i];
  }

  lemma {:induction false} RelationRowsFailure(
    db: Db, table: string, single: bool, entity: P.ParsedEntity, relations: seq<P.ParsedRelation>, n: nat)
    requires n <= |relations| && W.InsertRelationRows(db, table, single, entity, relations[..n]).Err?
    ensures W.InsertRelationRows(db, table, single, entity, relations)
      == W.InsertRelationRows(db, table, single, entity, relations[..n])
    decreases |relations|
  {
    var front := relations[..|relations| - 1];
    if n < |relations| {
      assert front[..n] == relations[..n];
      RelationRowsFailure(db, table, single, entity, front, n);
    } else {
      assert relations[..n] == relations;
    }
  }

  lemma {:induction false} RelationTablesFailure(
    db: Db, schema: S.EntityType, fields: seq<S.Field>, entity: P.ParsedEntity, n: nat)
    requires n <= |fields| && W.InsertRelationTables(db, schema, fields[..n], entity).Err?
    ensures W.InsertRelationTables(db, schema, fields, entity)
      == W.InsertRelationTables(db, schema, fields[..n], entity)
    decreases |fields|
  {
    if n < |fields| {
      var front := fields[..|fields| - 1];
      assert front[..n] == fields[..n];
      RelationTablesFailure(db, schema, front, entity, n);
    } else {
      assert fields[..n] == fields;
    }
  }

  lemma {:induction false} RepeatedRowsFailure(
    lexer: P.Lexer, db: Db, table: string, field: S.Field, entity: P.ParsedEntity, scalars: seq<P.ParsedScalar>, n: nat)
    requires n <= |scalars| && W.InsertRepeatedRows(lexer, db, table, field, entity, scalars[..n]).Err?
    ensures W.InsertRepeatedRows(lexer, db, table, field, entity, scalars)
      == W.InsertRepeatedRows(lexer, db, table, field, entity, scalars[..n])
    decreases |scalars|
  {
    if n < |scalars| {
      var front := scalars[..|scalars| - 1];
      assert front[..n] == scalars[..n];
      RepeatedRowsFailure(lexer, db, table, field, entity, front, n);
    } else {
      assert scalars[..n] == scalars;
    }
  }

  lemma {:induction false} RepeatedTablesFailure(
    lexer: P.Lexer, db: Db, schema: S.EntityType, fields: seq<S.Field>, entity: P.ParsedEntity, n: nat)
    requires n <= |fields| && W.InsertRepeatedTables(lexer, db, schema, fields[..n], entity).Err?
    ensures W.InsertRepeatedTables(lexer, db, schema, fields, entity)
      == W.InsertRepeatedTables(lexer, db, schema, fields[..n], entity)
    decreases |fields|
  {
    if n < |fields| {
      var front := fields[..|fields| - 1];
      assert front[..n] == fields[..n];
      RepeatedTablesFailure(lexer, db, schema, front, entity, n);
    } else {
      assert fields[..n] == fields;
    }
  }

  lemma {:induction false} EntitiesFailure(
    lexer: P.Lexer, schema: S.EntityType, db: Db, entities: seq<P.ParsedEntity>, page: Page, n: nat)
    requires n <= |entities| && ApplyEntities(lexer, schema, db, entities[..n], page).Err?
    ensures ApplyEntities(lexer, schema, db, entities, page) == ApplyEntities(lexer, schema, db, entities[..n], page)
    decreases |entities|
  {
    if n < |entities| {
      var front := entities[..|entities| - 1];
      assert front[..n] == entities[..n];
      EntitiesFailure(lexer, schema, db, front, page, n);
    } else {
      assert entities[..n] == entities;
    }
  }

  lemma PageIsItsEntities(lexer: P.Lexer, schemas: seq<S.EntityType>, db: Db, page: Page)
    requires S.EntityNamed(schemas, page.category).Some?
    requires FirstMismatch(page.entities, S.EntityNamed(schemas, page.category).value.category).None?
    ensures var schema := S.EntityNamed(schemas, page.category).value;
      var after, r := ApplyEntities(lexer, schema, db, page.entities, page), PageResult(lexer, schemas, db, page);
      && (after.Err? ==> r == Err(after.error))
      && (after.Ok? ==> r == Ok(after.value.(cursors := after.value.cursors[schema.category :=
            CursorRow(page.latestSkiptoken, page.nextUrl, Running, page.atomUpdatedAt)])))
  {}

  /** The committed database; a page write either commits whole or leaves it as it was. */
  class Store {
    var committed: Db

    constructor (db: Db)
      ensures committed == db
    {
      committed := db;
    }

    method WriteSyncPage(
      lexer: P.Lexer, schemas: seq<S.EntityType>, page: Page) returns (r: Result<Outcome, WriteError>)
      modifies this
      ensures r.Err? ==> committed == old(committed) && PageResult(lexer, schemas, old(committed), page) == Err(r.error)
      ensures r.Ok? ==> PageResult(lexer, schemas, old(committed), page) == Ok(committed)
      ensures r.Ok? ==> (
        && r.value == OutcomeOf(S.EntityNamed(schemas, page.category).value, page.entities, |page.entities|)
        && r.value.seen == |page.entities| == r.value.written + r.value.deleted
        && r.value.written == LiveCount(page.entities))
    {
      var found := S.EntityNamed(schemas, page.category);
      if found.None? { return Err(UnknownCategory(page.category)); }
      var schema := found.value;
      var keys := L.CollectSyncEntityKeys(page, schema.category);
      if keys.Err? { return Err(keys.error); }
      var tx := new Transaction(committed);
      var outcome := tx.WriteEntities(lexer, schema, page);
      PageIsItsEntities(lexer, schemas, committed, page);
      if outcome.Err? { return outcome; }
      EverySeenIsWrittenOrDeleted(schema, page.entities, |page.entities|);
      committed := tx.db.(cursors := tx.db.cursors[schema.category :=
        CursorRow(page.latestSkiptoken, page.nextUrl, Running, page.atomUpdatedAt)]);
      return outcome;
    }
  }
}
