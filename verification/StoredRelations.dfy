/** What relation reads find is what the page writer stored. */
module StoredRelations {
  import opened DocumentIds
  import opened SqlNames
  import opened StoredContent
  import opened SyncDatabase
  import opened SyncWriter
  import opened SyncWriterTheorems
  import P = Payload
  import R = RelationReads
  import S = SyncSchema

  // ----- the relation tables of the schema

  datatype RelationTable = RelationTable(category: string, field: string) {
    function Name(): string {
      ChildTable(category, field)
    }
  }

  function TablesOfFields(category: string, fields: seq<S.Field>): seq<RelationTable> {
    if fields == [] then [] else
    var last := fields[|fields| - 1];
    TablesOfFields(category, fields[..|fields| - 1])
    + (if S.IsRelationTable(last) then [RelationTable(category, last.name)] else [])
  }

  /** One table per relation field of each entity type, in schema order. */
  function RelationTables(schemas: seq<S.EntityType>): seq<RelationTable> {
    if schemas == [] then [] else
    var last := schemas[|schemas| - 1];
    RelationTables(schemas[..|schemas| - 1]) + TablesOfFields(last.category, last.fields)
  }

  /** What the official schema satisfies: well-formed entity types whose SQL names differ. */
  ghost predicate WellFormedSchemas(schemas: seq<S.EntityType>) {
    && (forall s :: s in schemas ==> S.WellFormedEntity(s))
    && (forall i, j :: 0 <= i < j < |schemas| ==> SqlName(schemas[i].category) != SqlName(schemas[j].category))
  }

  lemma {:induction false} TablesOfFieldsAre(category: string, fields: seq<S.Field>)
    ensures forall t :: t in TablesOfFields(category, fields) <==>
      t.category == category && exists f :: f in fields && S.IsRelationTable(f) && f.name == t.field
  {
    if fields != [] {
      var front, last := fields[..|fields| - 1], fields[|fields| - 1];
      assert fields == front + [last];
      TablesOfFieldsAre(category, front);
      assert RelationTable(category, last.name).field == last.name;
    }
  }

  lemma {:induction false} RelationTablesAre(schemas: seq<S.EntityType>)
    ensures forall t :: t in RelationTables(schemas) <==> HasRelation(schemas, t.category, t.field)
  {
    if schemas != [] {
      var front, last := schemas[..|schemas| - 1], schemas[|schemas| - 1];
      assert schemas == front + [last];
      RelationTablesAre(front);
      TablesOfFieldsAre(last.category, last.fields);
      forall t ensures t in RelationTables(schemas) <==> HasRelation(schemas, t.category, t.field) {
        assert HasRelation(schemas, t.category, t.field) <==>
          HasRelation(front, t.category, t.field) || t in TablesOfFields(last.category, last.fields);
      }
    }
  }

  /** No two tables have the same name. */
  ghost predicate DistinctNames(tables: seq<RelationTable>) {
    forall i, j :: 0 <= i < j < |tables| ==> tables[i].Name() != tables[j].Name()
  }

  lemma DistinctAppend(a: seq<RelationTable>, b: seq<RelationTable>)
    requires DistinctNames(a) && DistinctNames(b)
    requires forall t, u :: t in a && u in b ==> t.Name() != u.Name()
    ensures DistinctNames(a + b)
  {
    var all := a + b;
    forall i, j | 0 <= i < j < |all| ensures all[i].Name() != all[j].Name() {
      if i < |a| <= j {
        assert all[i] in a && all[j] in b;
      }
    }
  }

  lemma {:induction false} FieldTablesDistinct(category: string, fields: seq<S.Field>)
    requires forall i, j :: 0 <= i < j < |fields| ==> SqlName(fields[i].name) != SqlName(fields[j].name)
    ensures DistinctNames(TablesOfFields(category, fields))
  {
    if fields != [] {
      var front, last := fields[..|fields| - 1], fields[|fields| - 1];
      FieldTablesDistinct(category, front);
      TablesOfFieldsAre(category, front);
      if S.IsRelationTable(last) {
        forall t | t in TablesOfFields(category, front) ensures t.Name() != ChildTable(category, last.name) {
          var f :| f in front && S.IsRelationTable(f) && f.name == t.field;
          ChildTablesDistinct(category, f.name, category, last.name);
        }
        DistinctAppend(TablesOfFields(category, front), [RelationTable(category, last.name)]);
      } else {
        assert TablesOfFields(category, fields) == TablesOfFields(category, front);
      }
    }
  }

  lemma {:induction false} RelationTablesDistinct(schemas: seq<S.EntityType>)
    requires WellFormedSchemas(schemas)
    ensures DistinctNames(RelationTables(schemas))
  {
    if schemas != [] {
      var front, last := schemas[..|schemas| - 1], schemas[|schemas| - 1];
      assert last in schemas && forall s :: s in front ==> s in schemas;
      RelationTablesDistinct(front);
      FieldTablesDistinct(last.category, last.fields);
      RelationTablesAre(front);
      TablesOfFieldsAre(last.category, last.fields);
      forall t, u | t in RelationTables(front) && u in TablesOfFields(last.category, last.fields)
        ensures t.Name() != u.Name()
      {
        assert HasRelation(front, t.category, t.field);
        ChildTablesDistinct(t.category, t.field, u.category, u.field);
      }
      DistinctAppend(RelationTables(front), TablesOfFields(last.category, last.fields));
    }
  }

  // ----- the tables of a database, as a read sees them

  function KeyOf(table: string, row: R.Row): RelationKey {
    RelationKey(table, Key(row.sourceCategory, row.sourceId), row.name, Key(row.targetCategory, row.targetId),
      row.ordinal)
  }

  predicate InTable(db: Db, table: string, row: R.Row) {
    KeyOf(table, row) in db.relations && db.relations[KeyOf(table, row)] == row.updatedAt
  }

  /** The table a row belongs to. */
  function Home(row: R.Row): string {
    ChildTable(row.sourceCategory, row.name)
  }

  /** A row the writer stored, in the table it belongs to. */
  predicate IsStored(db: Db, row: R.Row) {
    InTable(db, Home(row), row)
  }

  /** Each table gives its rows of the database once, in any order. */
  ghost predicate Gives(db: Db, name: RelationTable, table: R.Table) {
    && table.sourceCategory == name.category
    && forall row :: R.Count(table.rows, row) == if InTable(db, name.Name(), row) then 1 else 0
  }

  ghost predicate AreTablesOf(db: Db, names: seq<RelationTable>, tables: seq<R.Table>) {
    |tables| == |names| && forall n :: 0 <= n < |names| ==> Gives(db, names[n], tables[n])
  }

  /** A row given by a table is a stored row of that table's own category and field. */
  lemma GivenIsStored(schemas: seq<S.EntityType>, db: Db, name: RelationTable, row: R.Row)
    requires WellFormedSchemas(schemas) && Placed(schemas, db)
    requires HasRelation(schemas, name.category, name.field) && InTable(db, name.Name(), row)
    ensures IsStored(db, row) && row.sourceCategory == name.category
    ensures name.Name() == Home(row)
  {
    assert HasRelation(schemas, row.sourceCategory, row.name);
    ChildTablesDistinct(name.category, name.field, row.sourceCategory, row.name);
    SameNameSameCategory(schemas, name.category, name.field, row.sourceCategory, row.name);
  }

  lemma SameNameSameCategory(schemas: seq<S.EntityType>, a: string, x: string, b: string, y: string)
    requires WellFormedSchemas(schemas) && HasRelation(schemas, a, x) && HasRelation(schemas, b, y)
    requires SqlName(a) == SqlName(b)
    ensures a == b
  {
    var s, f :| s in schemas && f in s.fields && s.category == a && S.IsRelationTable(f) && f.name == x;
    var u, g :| u in schemas && g in u.fields && u.category == b && S.IsRelationTable(g) && g.name == y;
    var i :| 0 <= i < |schemas| && schemas[i] == s;
    var j :| 0 <= j < |schemas| && schemas[j] == u;
    assert i == j;
  }

  lemma TablesAreWellPlaced(schemas: seq<S.EntityType>, db: Db, tables: seq<R.Table>)
    requires WellFormedSchemas(schemas) && Placed(schemas, db) && AreTablesOf(db, RelationTables(schemas), tables)
    ensures R.WellPlaced(tables)
  {
    var names := RelationTables(schemas);
    RelationTablesAre(schemas);
    forall t, row | t in tables && row in t.rows ensures row.sourceCategory == t.sourceCategory {
      var n :| 0 <= n < |tables| && tables[n] == t;
      assert Gives(db, names[n], t) && names[n] in names;
      R.CountedIffIn(t.rows, row);
      GivenIsStored(schemas, db, names[n], row);
    }
  }

  /** A table gives a row if the row is stored and this is its own table. */
  lemma GivenAtHome(schemas: seq<S.EntityType>, db: Db, tables: seq<R.Table>, row: R.Row, m: nat)
    requires WellFormedSchemas(schemas) && Placed(schemas, db) && AreTablesOf(db, RelationTables(schemas), tables)
    requires m < |tables|
    ensures R.Count(tables[m].rows, row)
      == if IsStored(db, row) && RelationTables(schemas)[m].Name() == Home(row) then 1 else 0
  {
    var name := RelationTables(schemas)[m];
    RelationTablesAre(schemas);
    assert Gives(db, name, tables[m]) && name in RelationTables(schemas);
    if InTable(db, name.Name(), row) {
      GivenIsStored(schemas, db, name, row);
    }
  }

  /** A row given by one table at most, over the first n tables. */
  lemma {:induction false} StoredAmong(
    names: seq<RelationTable>, tables: seq<R.Table>, row: R.Row, stored: bool, home: string, n: nat)
    requires DistinctNames(names) && n <= |tables| == |names|
    requires forall m :: 0 <= m < |names| ==>
      R.Count(tables[m].rows, row) == if stored && names[m].Name() == home then 1 else 0
    ensures R.Stored(tables[..n], row)
      == if stored && exists m :: 0 <= m < n && names[m].Name() == home then 1 else 0
  {
    if n > 0 {
      StoredAmong(names, tables, row, stored, home, n - 1);
      assert tables[..n][..n - 1] == tables[..n - 1];
    }
  }

  /** Every stored row is given by exactly one table, once; nothing else is given. */
  lemma StoredOnce(schemas: seq<S.EntityType>, db: Db, tables: seq<R.Table>, row: R.Row)
    requires WellFormedSchemas(schemas) && Placed(schemas, db) && AreTablesOf(db, RelationTables(schemas), tables)
    ensures R.Stored(tables, row) == if IsStored(db, row) then 1 else 0
  {
    assert tables[..|tables|] == tables;
    forall m | 0 <= m < |tables|
      ensures R.Count(tables[m].rows, row)
        == if IsStored(db, row) && RelationTables(schemas)[m].Name() == Home(row) then 1 else 0
    {
      GivenAtHome(schemas, db, tables, row, m);
    }
    RelationTablesDistinct(schemas);
    StoredAmong(RelationTables(schemas), tables, row, IsStored(db, row), Home(row), |tables|);
    if IsStored(db, row) {
      assert HasRelation(schemas, row.sourceCategory, row.name);
      RelationTablesAre(schemas);
      var own := RelationTable(row.sourceCategory, row.name);
      assert own in RelationTables(schemas);
      var m :| 0 <= m < |tables| && RelationTables(schemas)[m] == own;
    }
  }

  lemma TablesHoldOnePerKey(schemas: seq<S.EntityType>, db: Db, tables: seq<R.Table>)
    requires WellFormedSchemas(schemas) && Placed(schemas, db) && AreTablesOf(db, RelationTables(schemas), tables)
    ensures R.OneStoredPerKey(tables)
  {
    forall a, b | R.Stored(tables, a) > 0 && R.Stored(tables, b) > 0 && R.SameKey(a, b) ensures a == b {
      StoredOnce(schemas, db, tables, a);
      StoredOnce(schemas, db, tables, b);
    }
  }

  // ----- reads over what the writer stored

  /** After any pages of parsed entities, the read of one entity gives each stored row once for
      each of its ends that is asked for, and nothing else. */
  lemma ReadsGiveWhatWasWritten(
    lexer: P.Lexer, schemas: seq<S.EntityType>, pages: seq<Page>, tables: seq<R.Table>,
    category: string, direction: R.Direction, id: Uuid, row: R.Row)
    requires WellFormedSchemas(schemas) && AllParsed(lexer, schemas, pages)
    requires AreTablesOf(AfterPages(lexer, schemas, EMPTY_DB, pages), RelationTables(schemas), tables)
    ensures var rows := AfterPages(lexer, schemas, EMPTY_DB, pages).relations;
      var key := RelationKey(ChildTable(row.sourceCategory, row.name), Key(row.sourceCategory, row.sourceId),
        row.name, Key(row.targetCategory, row.targetId), row.ordinal);
      var stored: nat := if key in rows && rows[key] == row.updatedAt then 1 else 0;
      R.Count(R.ListRelations(tables, category, direction, id), row)
        == (if direction in {R.Outgoing, R.Both} && row.sourceCategory == category && row.sourceId == id
            then stored else 0)
          + (if direction in {R.Incoming, R.Both} && row.targetCategory == category && row.targetId == id
             then stored else 0)
  {
    var db := AfterPages(lexer, schemas, EMPTY_DB, pages);
    PagesKeepPlaced(lexer, schemas, pages);
    TablesAreWellPlaced(schemas, db, tables);
    StoredOnce(schemas, db, tables, row);
    R.ReadGives(tables, category, direction, id, row);
  }

  /** The tables page writes leave meet what the batched read relies on: in one direction it is
      exact, and in both it is if and only if no stored edge joins two requested entities. */
  lemma BatchReadsOfWrittenPages(
    lexer: P.Lexer, schemas: seq<S.EntityType>, pages: seq<Page>, tables: seq<R.Table>,
    category: string, direction: R.Direction, ids: seq<Uuid>)
    requires WellFormedSchemas(schemas) && AllParsed(lexer, schemas, pages)
    requires AreTablesOf(AfterPages(lexer, schemas, EMPTY_DB, pages), RelationTables(schemas), tables)
    ensures R.WellPlaced(tables) && R.OneStoredPerKey(tables)
    ensures direction != R.Both ==> forall id :: id in ids ==>
      R.Share(R.ListRelationsForEntities(tables, category, direction, ids), category, ids, direction, id)
        == R.ListRelations(tables, category, direction, id)
    ensures (forall id :: id in ids ==> R.ExactFor(tables, category, ids, id))
      <==> (forall row :: !R.IsInternal(tables, category, ids, row))
  {
    var db := AfterPages(lexer, schemas, EMPTY_DB, pages);
    PagesKeepPlaced(lexer, schemas, pages);
    TablesAreWellPlaced(schemas, db, tables);
    TablesHoldOnePerKey(schemas, db, tables);
    if direction != R.Both {
      forall id | id in ids
        ensures R.Share(R.ListRelationsForEntities(tables, category, direction, ids), category, ids, direction, id)
          == R.ListRelations(tables, category, direction, id)
      {
        R.BatchRefinesSingleReads(tables, category, direction, ids, id);
      }
    }
    R.BatchOfBothIsExactIff(tables, category, ids);
  }
}
