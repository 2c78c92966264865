/** Reading relations: the batched read against the read of one entity. */
module RelationReads {
  import opened DocumentIds
  import opened TextOrders

  datatype Direction = Outgoing | Incoming | Both

  datatype Row = Row(
    sourceCategory: string, sourceId: Uuid, name: string, targetCategory: string, targetId: Uuid,
    ordinal: int, updatedAt: int)

  /** A relation table belongs to one source category; its rows are in any order. */
  datatype Table = Table(sourceCategory: string, rows: seq<Row>)

  // ----- the sort order

  datatype Order = Less | Equal | Greater

  function CompareText(a: string, b: string): Order {
    if a == b then Equal else if TextBefore(a, b) then Less else Greater
  }

  function CompareInt(a: int, b: int): Order {
    if a == b then Equal else if a < b then Less else Greater
  }

  /** Ties are broken by the second order. */
  function Then(first: Order, second: Order): Order {
    if first == Equal then second else first
  }

  function Compare(a: Row, b: Row): Order {
    Then(CompareText(a.sourceCategory, b.sourceCategory), Then(CompareInt(a.sourceId, b.sourceId),
    Then(CompareText(a.name, b.name), Then(CompareText(a.targetCategory, b.targetCategory),
    Then(CompareInt(a.targetId, b.targetId), CompareInt(a.ordinal, b.ordinal))))))
  }

  /** The columns sorted by; with the table they are also the primary key. */
  predicate SameKey(a: Row, b: Row) {
    && a.sourceCategory == b.sourceCategory && a.sourceId == b.sourceId && a.name == b.name
    && a.targetCategory == b.targetCategory && a.targetId == b.targetId && a.ordinal == b.ordinal
  }

  function Flip(o: Order): Order {
    match o case Less => Greater case Equal => Equal case Greater => Less
  }

  /** How three comparisons of an order fit together. */
  predicate Fits(ab: Order, bc: Order, ac: Order) {
    ab != Greater && bc != Greater ==> ac == (if ab == Equal && bc == Equal then Equal else Less)
  }

  lemma TextFits(a: string, b: string, c: string)
    ensures CompareText(b, a) == Flip(CompareText(a, b))
    ensures Fits(CompareText(a, b), CompareText(b, c), CompareText(a, c))
  {
    TextOrder(a, b);
    TextOrder(a, c);
    if TextBefore(a, b) && TextBefore(b, c) { TextTransitive(a, b, c); }
  }

  lemma CompareFlips(a: Row, b: Row)
    ensures Compare(b, a) == Flip(Compare(a, b))
    ensures Compare(a, b) == Equal <==> SameKey(a, b)
  {
    TextFits(a.sourceCategory, b.sourceCategory, a.sourceCategory);
    TextFits(a.name, b.name, a.name);
    TextFits(a.targetCategory, b.targetCategory, a.targetCategory);
  }

  lemma CompareFits(a: Row, b: Row, c: Row)
    ensures Fits(Compare(a, b), Compare(b, c), Compare(a, c))
  {
    TextFits(a.sourceCategory, b.sourceCategory, c.sourceCategory);
    TextFits(a.name, b.name, c.name);
    TextFits(a.targetCategory, b.targetCategory, c.targetCategory);
  }

  ghost predicate Sorted(rows: seq<Row>) {
    forall i, j :: 0 <= i < j < |rows| ==> Compare(rows[i], rows[j]) != Greater
  }

  function Insert(row: Row, rows: seq<Row>): seq<Row>
    decreases |rows|
  {
    if rows == [] then [row]
    else if Compare(row, rows[0]) == Less then [row] + rows
    else [rows[0]] + Insert(row, rows[1..])
  }

  /** A stable sort. */
  function Sort(rows: seq<Row>): seq<Row> {
    if rows == [] then [] else Insert(rows[|rows| - 1], Sort(rows[..|rows| - 1]))
  }

  /** How often a row comes in a sequence. */
  function Count(rows: seq<Row>, row: Row): nat {
    if rows == [] then 0 else Count(rows[..|rows| - 1], row) + (if rows[|rows| - 1] == row then 1 else 0)
  }

  ghost predicate SameRows(a: seq<Row>, b: seq<Row>) {
    forall row :: Count(a, row) == Count(b, row)
  }

  lemma {:induction false} CountAppend(a: seq<Row>, b: seq<Row>, row: Row)
    ensures Count(a + b, row) == Count(a, row) + Count(b, row)
    decreases |b|
  {
    if b == [] {
      assert a + b == a;
    } else {
      CountAppend(a, b[..|b| - 1], row);
      assert (a + b)[..|a + b| - 1] == a + b[..|b| - 1];
    }
  }

  lemma {:induction false} CountedIffIn(rows: seq<Row>, row: Row)
    ensures Count(rows, row) > 0 <==> row in rows
  {
    if rows != [] {
      CountedIffIn(rows[..|rows| - 1], row);
      assert rows == rows[..|rows| - 1] + [rows[|rows| - 1]];
    }
  }

  lemma CountFirst(rows: seq<Row>, row: Row)
    requires rows != []
    ensures Count(rows, row) == (if rows[0] == row then 1 else 0) + Count(rows[1..], row)
  {
    assert rows == [rows[0]] + rows[1..];
    CountAppend([rows[0]], rows[1..], row);
    assert [rows[0]][..0] == [];
    assert Count([rows[0]], row) == if rows[0] == row then 1 else 0;
  }

  lemma {:induction false} InsertCounts(row: Row, rows: seq<Row>, x: Row)
    ensures Count(Insert(row, rows), x) == Count(rows, x) + (if row == x then 1 else 0)
    decreases |rows|
  {
    var inserted := Insert(row, rows);
    CountFirst(inserted, x);
    if rows != [] {
      CountFirst(rows, x);
      if Compare(row, rows[0]) == Less {
        assert inserted[1..] == rows;
      } else {
        InsertCounts(row, rows[1..], x);
        assert inserted[1..] == Insert(row, rows[1..]);
      }
    } else {
      assert inserted[1..] == rows;
    }
  }

  lemma SortedFrom(first: Row, rest: seq<Row>)
    requires Sorted(rest) && (forall row :: row in rest ==> Compare(first, row) != Greater)
    ensures Sorted([first] + rest)
  {
    var rows := [first] + rest;
    forall i, j | 0 <= i < j < |rows| ensures Compare(rows[i], rows[j]) != Greater {
      assert rows[j] == rest[j - 1];
      if i == 0 { assert rest[j - 1] in rest; }
    }
  }

  lemma HeadIsLeast(a: seq<Row>, row: Row)
    requires Sorted(a) && row in a
    ensures Compare(a[0], row) != Greater
  {
    var i :| 0 <= i < |a| && a[i] == row;
    CompareFlips(row, row);
  }

  lemma {:induction false} InsertSorts(row: Row, rows: seq<Row>)
    requires Sorted(rows)
    ensures Sorted(Insert(row, rows))
    decreases |rows|
  {
    if rows != [] {
      var first := rows[0];
      CompareFlips(row, first);
      if Compare(row, first) == Less {
        forall other | other in rows ensures Compare(row, other) != Greater {
          HeadIsLeast(rows, other);
          CompareFits(row, first, other);
        }
        SortedFrom(row, rows);
      } else {
        InsertSorts(row, rows[1..]);
        forall other | other in Insert(row, rows[1..]) ensures Compare(first, other) != Greater {
          CountedIffIn(Insert(row, rows[1..]), other);
          InsertCounts(row, rows[1..], other);
          CountedIffIn(rows[1..], other);
          if other in rows { HeadIsLeast(rows, other); }
        }
        SortedFrom(first, Insert(row, rows[1..]));
      }
    }
  }

  lemma {:induction false} SortSorts(rows: seq<Row>)
    ensures Sorted(Sort(rows)) && SameRows(Sort(rows), rows)
  {
    if rows != [] {
      var front, last := rows[..|rows| - 1], rows[|rows| - 1];
      SortSorts(front);
      InsertSorts(last, Sort(front));
      forall row ensures Count(Sort(rows), row) == Count(rows, row) {
        InsertCounts(last, Sort(front), row);
      }
    }
  }

  /** Rows with the same key are the same row. */
  ghost predicate OnePerKey(rows: seq<Row>) {
    forall a, b :: a in rows && b in rows && SameKey(a, b) ==> a == b
  }

  lemma SameHead(a: seq<Row>, b: seq<Row>)
    requires a != [] && b != [] && Sorted(a) && Sorted(b) && SameRows(a, b) && OnePerKey(a)
    ensures a[0] == b[0]
  {
    CountedIffIn(a, b[0]);
    CountedIffIn(b, b[0]);
    CountedIffIn(a, a[0]);
    CountedIffIn(b, a[0]);
    HeadIsLeast(a, b[0]);
    HeadIsLeast(b, a[0]);
    CompareFlips(a[0], b[0]);
  }

  /** There is one sorted sequence of a bag of rows. */
  lemma {:induction false} SortedIsUnique(a: seq<Row>, b: seq<Row>)
    requires Sorted(a) && Sorted(b) && SameRows(a, b) && OnePerKey(a)
    ensures a == b
    decreases |a|
  {
    if a == [] || b == [] {
      if a != [] { CountedIffIn(a, a[0]); }
      if b != [] { CountedIffIn(b, b[0]); }
    } else {
      SameHead(a, b);
      forall row ensures Count(a[1..], row) == Count(b[1..], row) {
        CountFirst(a, row);
        CountFirst(b, row);
      }
      SortedIsUnique(a[1..], b[1..]);
      assert a == [a[0]] + a[1..] && b == [b[0]] + b[1..];
    }
  }

  // ----- the queries

  /** One SELECT: the rows of a table with the category and one of the ids in the source columns,
      or in the target columns. */
  datatype Lookup = Lookup(table: Table, byTarget: bool)

  predicate Wants(direction: Direction, byTarget: bool) {
    direction == Both || direction == (if byTarget then Incoming else Outgoing)
  }

  function OutgoingLookups(tables: seq<Table>, category: string): seq<Lookup> {
    if tables == [] then [] else
    OutgoingLookups(tables[..|tables| - 1], category)
    + (if tables[|tables| - 1].sourceCategory == category then [Lookup(tables[|tables| - 1], false)] else [])
  }

  function IncomingLookups(tables: seq<Table>): seq<Lookup> {
    if tables == [] then [] else IncomingLookups(tables[..|tables| - 1]) + [Lookup(tables[|tables| - 1], true)]
  }

  function RelationLookups(tables: seq<Table>, category: string, direction: Direction): seq<Lookup> {
    (if Wants(direction, false) then OutgoingLookups(tables, category) else [])
    + (if Wants(direction, true) then IncomingLookups(tables) else [])
  }

  predicate Hits(row: Row, byTarget: bool, category: string, ids: seq<Uuid>) {
    if byTarget then row.targetCategory == category && row.targetId in ids
    else row.sourceCategory == category && row.sourceId in ids
  }

  function Select(rows: seq<Row>, byTarget: bool, category: string, ids: seq<Uuid>): seq<Row> {
    if rows == [] then [] else
    Select(rows[..|rows| - 1], byTarget, category, ids)
    + (if Hits(rows[|rows| - 1], byTarget, category, ids) then [rows[|rows| - 1]] else [])
  }

  /** UNION ALL of the lookups: a row found by two of them comes twice. */
  function UnionAll(lookups: seq<Lookup>, category: string, ids: seq<Uuid>): seq<Row> {
    if lookups == [] then [] else
    UnionAll(lookups[..|lookups| - 1], category, ids)
    + Select(lookups[|lookups| - 1].table.rows, lookups[|lookups| - 1].byTarget, category, ids)
  }

  /** The read of one entity. */
  function ListRelations(tables: seq<Table>, category: string, direction: Direction, id: Uuid): seq<Row> {
    Sort(UnionAll(RelationLookups(tables, category, direction), category, [id]))
  }

  /** The read of several entities, before grouping. */
  function ListRelationsForEntities(
    tables: seq<Table>, category: string, direction: Direction, ids: seq<Uuid>): seq<Row>
  {
    if ids == [] then [] else Sort(UnionAll(RelationLookups(tables, category, direction), category, ids))
  }

  /** The order in which a query gives its rows does not show. */
  lemma QueryOrderDoesNotMatter(rows: seq<Row>, tables: seq<Table>, category: string, direction: Direction, id: Uuid)
    requires SameRows(rows, UnionAll(RelationLookups(tables, category, direction), category, [id])) && OnePerKey(rows)
    ensures Sort(rows) == ListRelations(tables, category, direction, id)
  {
    SortSorts(rows);
    SortSorts(UnionAll(RelationLookups(tables, category, direction), category, [id]));
    forall row | row in Sort(rows) ensures row in rows {
      CountedIffIn(Sort(rows), row);
      CountedIffIn(rows, row);
    }
    SortedIsUnique(Sort(rows), ListRelations(tables, category, direction, id));
  }

  /** Ascending by source category, source, name, target category, target and ordinal, in this order. */
  predicate Ascends(a: Row, b: Row) {
    if a.sourceCategory != b.sourceCategory then TextBefore(a.sourceCategory, b.sourceCategory)
    else if a.sourceId != b.sourceId then a.sourceId < b.sourceId
    else if a.name != b.name then TextBefore(a.name, b.name)
    else if a.targetCategory != b.targetCategory then TextBefore(a.targetCategory, b.targetCategory)
    else if a.targetId != b.targetId then a.targetId < b.targetId
    else a.ordinal <= b.ordinal
  }

  ghost predicate AllAscend(rows: seq<Row>) {
    forall i, j :: 0 <= i < j < |rows| ==> Ascends(rows[i], rows[j])
  }

  lemma SortedAscends(rows: seq<Row>)
    ensures Sorted(rows) <==> AllAscend(rows)
  {
    forall i, j | 0 <= i < j < |rows| ensures Compare(rows[i], rows[j]) != Greater <==> Ascends(rows[i], rows[j]) {}
  }

  /** Every read, of one entity or of several, and every group of it is in ascending order. */
  lemma ReadsAscend(tables: seq<Table>, category: string, direction: Direction, ids: seq<Uuid>, id: Uuid)
    ensures AllAscend(ListRelations(tables, category, direction, id))
    ensures AllAscend(ListRelationsForEntities(tables, category, direction, ids))
    ensures AllAscend(
      Share(ListRelationsForEntities(tables, category, direction, ids), category, ids, direction, id))
  {
    SortSorts(UnionAll(RelationLookups(tables, category, direction), category, [id]));
    SortSorts(UnionAll(RelationLookups(tables, category, direction), category, ids));
    SortedAscends(ListRelations(tables, category, direction, id));
    var batch := ListRelationsForEntities(tables, category, direction, ids);
    SortedAscends(batch);
    ShareIsSorted(batch, category, ids, direction, id);
    SortedAscends(Share(batch, category, ids, direction, id));
  }

  // ----- grouping

  function GroupOf(groups: map<Uuid, seq<Row>>, id: Uuid): seq<Row> {
    if id in groups then groups[id] else []
  }

  predicate BySource(row: Row, category: string, direction: Direction, ids: seq<Uuid>) {
    Wants(direction, false) && Hits(row, false, category, ids)
  }

  predicate ByTarget(row: Row, category: string, direction: Direction, ids: seq<Uuid>) {
    Wants(direction, true) && Hits(row, true, category, ids)
  }

  /** The rows an id gets: each once for matching by source and once for matching by target. */
  function Share(rows: seq<Row>, category: string, ids: seq<Uuid>, direction: Direction, id: Uuid): seq<Row> {
    if rows == [] then [] else
    var last := rows[|rows| - 1];
    Added(Share(rows[..|rows| - 1], category, ids, direction, id), last,
      BySource(last, category, direction, ids) && last.sourceId == id,
      ByTarget(last, category, direction, ids) && last.targetId == id)
  }

  function Added(rows: seq<Row>, row: Row, source: bool, target: bool): seq<Row> {
    rows + (if source then [row] else []) + (if target then [row] else [])
  }

  ghost predicate Grouped(
    groups: map<Uuid, seq<Row>>, rows: seq<Row>, category: string, ids: seq<Uuid>, direction: Direction)
  {
    forall id :: GroupOf(groups, id) == Share(rows, category, ids, direction, id)
  }

  function Push(groups: map<Uuid, seq<Row>>, holds: bool, id: Uuid, row: Row): map<Uuid, seq<Row>> {
    if holds then groups[id := GroupOf(groups, id) + [row]] else groups
  }

  lemma PushAt(groups: map<Uuid, seq<Row>>, holds: bool, id: Uuid, row: Row, other: Uuid)
    ensures GroupOf(Push(groups, holds, id, row), other)
      == GroupOf(groups, other) + (if holds && id == other then [row] else [])
  {}

  ghost predicate OnlyRequested(groups: map<Uuid, seq<Row>>, ids: seq<Uuid>) {
    forall id :: id in groups ==> id in ids
  }

  /** One row: into the group of its source if that is asked for, then into the group of its target. */
  function GroupNext(
    groups: map<Uuid, seq<Row>>, row: Row, category: string, ids: seq<Uuid>,
    direction: Direction): map<Uuid, seq<Row>>
  {
    Push(Push(groups, BySource(row, category, direction, ids), row.sourceId, row),
      ByTarget(row, category, direction, ids), row.targetId, row)
  }

  lemma GroupedStep(
    groups: map<Uuid, seq<Row>>, rows: seq<Row>, n: nat, category: string, ids: seq<Uuid>, direction: Direction)
    requires n < |rows| && Grouped(groups, rows[..n], category, ids, direction) && OnlyRequested(groups, ids)
    ensures var next := GroupNext(groups, rows[n], category, ids, direction);
      Grouped(next, rows[..n + 1], category, ids, direction) && OnlyRequested(next, ids)
  {
    var row := rows[n];
    var bySource := Push(groups, BySource(row, category, direction, ids), row.sourceId, row);
    assert rows[..n + 1][..n] == rows[..n];
    forall id
      ensures GroupOf(GroupNext(groups, row, category, ids, direction), id)
        == Share(rows[..n + 1], category, ids, direction, id)
    {
      PushAt(groups, BySource(row, category, direction, ids), row.sourceId, row, id);
      PushAt(bySource, ByTarget(row, category, direction, ids), row.targetId, row, id);
    }
  }

  lemma NothingGrouped(groups: map<Uuid, seq<Row>>, category: string, ids: seq<Uuid>, direction: Direction)
    requires groups == map[]
    ensures Grouped(groups, [], category, ids, direction) && OnlyRequested(groups, ids)
  {}

  method GroupRelationsByEntity(category: string, ids: seq<Uuid>, direction: Direction, rows: seq<Row>)
    returns (groups: map<Uuid, seq<Row>>)
    ensures Grouped(groups, rows, category, ids, direction) && OnlyRequested(groups, ids)
  {
    groups := map[];
    var n := 0;
    NothingGrouped(groups, category, ids, direction);
    while n < |rows|
      invariant 0 <= n <= |rows|
      invariant Grouped(groups, rows[..n], category, ids, direction) && OnlyRequested(groups, ids)
    {
      var row := rows[n];
      GroupedStep(groups, rows, n, category, ids, direction);
      groups := GroupNext(groups, row, category, ids, direction);
      n := n + 1;
    }
    assert rows[..n] == rows;
  }

  // ----- how often a row comes

  /** How often a row is stored, over all tables. */
  function Stored(tables: seq<Table>, row: Row): nat {
    if tables == [] then 0 else Stored(tables[..|tables| - 1], row) + Count(tables[|tables| - 1].rows, row)
  }

  /** Writers put a row into a table of its own source category. */
  ghost predicate WellPlaced(tables: seq<Table>) {
    forall t, row :: t in tables && row in t.rows ==> row.sourceCategory == t.sourceCategory
  }

  lemma {:induction false} SelectCounts(rows: seq<Row>, byTarget: bool, category: string, ids: seq<Uuid>, row: Row)
    ensures Count(Select(rows, byTarget, category, ids), row)
      == if Hits(row, byTarget, category, ids) then Count(rows, row) else 0
  {
    if rows != [] {
      var front, last := rows[..|rows| - 1], rows[|rows| - 1];
      SelectCounts(front, byTarget, category, ids, row);
      if Hits(last, byTarget, category, ids) {
        OneMore(Select(front, byTarget, category, ids), last, row);
      } else {
        assert Select(rows, byTarget, category, ids) == Select(front, byTarget, category, ids);
      }
    }
  }

  lemma OneMore(rows: seq<Row>, last: Row, row: Row)
    ensures Count(rows + [last], row) == Count(rows, row) + (if last == row then 1 else 0)
  {
    assert (rows + [last])[..|rows + [last]| - 1] == rows;
  }

  lemma UnionSnoc(lookups: seq<Lookup>, last: Lookup, category: string, ids: seq<Uuid>)
    ensures UnionAll(lookups + [last], category, ids)
      == UnionAll(lookups, category, ids) + Select(last.table.rows, last.byTarget, category, ids)
  {
    assert (lookups + [last])[..|lookups + [last]| - 1] == lookups;
  }

  lemma {:induction false} UnionSplits(a: seq<Lookup>, b: seq<Lookup>, category: string, ids: seq<Uuid>)
    ensures UnionAll(a + b, category, ids) == UnionAll(a, category, ids) + UnionAll(b, category, ids)
    decreases |b|
  {
    if b == [] {
      assert a + b == a;
    } else {
      var front, last := b[..|b| - 1], b[|b| - 1];
      assert a + b == (a + front) + [last] && b == front + [last];
      UnionSplits(a, front, category, ids);
      UnionSnoc(a + front, last, category, ids);
      UnionSnoc(front, last, category, ids);
    }
  }

  lemma {:induction false} OutgoingCounts(tables: seq<Table>, category: string, ids: seq<Uuid>, row: Row)
    requires WellPlaced(tables)
    ensures Count(UnionAll(OutgoingLookups(tables, category), category, ids), row)
      == if Hits(row, false, category, ids) then Stored(tables, row) else 0
  {
    if tables != [] {
      var front, last := tables[..|tables| - 1], tables[|tables| - 1];
      OutgoingCounts(front, category, ids, row);
      CountedIffIn(last.rows, row);
      assert last in tables;
      if last.sourceCategory == category {
        SelectCounts(last.rows, false, category, ids, row);
        UnionSnoc(OutgoingLookups(front, category), Lookup(last, false), category, ids);
        CountAppend(UnionAll(OutgoingLookups(front, category), category, ids), Select(last.rows, false, category, ids),
          row);
      } else {
        assert OutgoingLookups(tables, category) == OutgoingLookups(front, category);
      }
    }
  }

  lemma {:induction false} IncomingCounts(tables: seq<Table>, category: string, ids: seq<Uuid>, row: Row)
    ensures Count(UnionAll(IncomingLookups(tables), category, ids), row)
      == if Hits(row, true, category, ids) then Stored(tables, row) else 0
  {
    if tables != [] {
      var front, last := tables[..|tables| - 1], tables[|tables| - 1];
      IncomingCounts(front, category, ids, row);
      SelectCounts(last.rows, true, category, ids, row);
      UnionSnoc(IncomingLookups(front), Lookup(last, true), category, ids);
      CountAppend(UnionAll(IncomingLookups(front), category, ids), Select(last.rows, true, category, ids), row);
    }
  }

  /** Once for each of two conditions. */
  function Each(first: bool, second: bool, n: nat): nat {
    (if first then n else 0) + (if second then n else 0)
  }

  /** A query gives a stored row once for each of its ends that is asked for. */
  lemma UnionCounts(tables: seq<Table>, category: string, direction: Direction, ids: seq<Uuid>, row: Row)
    requires WellPlaced(tables)
    ensures Count(UnionAll(RelationLookups(tables, category, direction), category, ids), row)
      == Each(BySource(row, category, direction, ids), ByTarget(row, category, direction, ids), Stored(tables, row))
  {
    OutgoingCounts(tables, category, ids, row);
    IncomingCounts(tables, category, ids, row);
    var outgoing := if Wants(direction, false) then OutgoingLookups(tables, category) else [];
    var incoming := if Wants(direction, true) then IncomingLookups(tables) else [];
    UnionSplits(outgoing, incoming, category, ids);
    CountAppend(UnionAll(outgoing, category, ids), UnionAll(incoming, category, ids), row);
  }

  lemma {:induction false} ShareCounts(
    rows: seq<Row>, category: string, ids: seq<Uuid>, direction: Direction, id: Uuid, row: Row)
    requires id in ids
    ensures Count(Share(rows, category, ids, direction, id), row)
      == Each(BySource(row, category, direction, [id]), ByTarget(row, category, direction, [id]), Count(rows, row))
  {
    if rows != [] {
      var front, last := rows[..|rows| - 1], rows[|rows| - 1];
      ShareCounts(front, category, ids, direction, id, row);
      NextShare(Share(front, category, ids, direction, id), last, category, ids, direction, id, row, Count(front, row));
    }
  }

  lemma NextShare(
    share: seq<Row>, last: Row, category: string, ids: seq<Uuid>, direction: Direction, id: Uuid, row: Row, n: nat)
    requires id in ids
    requires Count(share, row)
      == Each(BySource(row, category, direction, [id]), ByTarget(row, category, direction, [id]), n)
    ensures Count(Added(share, last, BySource(last, category, direction, ids) && last.sourceId == id,
                        ByTarget(last, category, direction, ids) && last.targetId == id), row)
      == Each(BySource(row, category, direction, [id]), ByTarget(row, category, direction, [id]),
        n + (if last == row then 1 else 0))
  {
    ByEnd(last, category, direction, ids, id);
    AddedCounts(share, last, BySource(last, category, direction, [id]), ByTarget(last, category, direction, [id]), row);
    EachAdds(BySource(row, category, direction, [id]), ByTarget(row, category, direction, [id]), n);
  }

  lemma ByEnd(row: Row, category: string, direction: Direction, ids: seq<Uuid>, id: Uuid)
    requires id in ids
    ensures BySource(row, category, direction, ids) && row.sourceId == id <==> BySource(row, category, direction, [id])
    ensures ByTarget(row, category, direction, ids) && row.targetId == id <==> ByTarget(row, category, direction, [id])
  {}

  lemma EachAdds(first: bool, second: bool, n: nat)
    ensures Each(first, second, n + 1) == Each(first, second, n) + Each(first, second, 1)
  {}

  lemma AddedCounts(before: seq<Row>, last: Row, source: bool, target: bool, row: Row)
    ensures Count(Added(before, last, source, target), row)
      == Count(before, row) + (if last == row then Each(source, target, 1) else 0)
  {
    var between := before + (if source then [last] else []);
    if source { OneMore(before, last, row); } else { assert between == before; }
    if target { OneMore(between, last, row); } else { assert between + [] == between; }
  }

  /** A requested entity gets each of its rows as often as its own read gives it, times the
      number of the row's ends that were asked for. */
  lemma GroupCounts(tables: seq<Table>, category: string, direction: Direction, ids: seq<Uuid>, id: Uuid, row: Row)
    requires WellPlaced(tables) && id in ids
    ensures Count(Share(ListRelationsForEntities(tables, category, direction, ids), category, ids, direction, id), row)
      == Each(BySource(row, category, direction, ids), ByTarget(row, category, direction, ids),
           Count(ListRelations(tables, category, direction, id), row))
    ensures Count(ListRelations(tables, category, direction, id), row)
      == Each(BySource(row, category, direction, [id]), ByTarget(row, category, direction, [id]), Stored(tables, row))
  {
    var all := UnionAll(RelationLookups(tables, category, direction), category, ids);
    var own := UnionAll(RelationLookups(tables, category, direction), category, [id]);
    SortSorts(all);
    SortSorts(own);
    ShareCounts(Sort(all), category, ids, direction, id, row);
    UnionCounts(tables, category, direction, ids, row);
    UnionCounts(tables, category, direction, [id], row);
  }

  lemma EndsAskedFor(direction: Direction, category: string, id: Uuid, row: Row)
    ensures BySource(row, category, direction, [id]) <==>
      direction in {Outgoing, Both} && row.sourceCategory == category && row.sourceId == id
    ensures ByTarget(row, category, direction, [id]) <==>
      direction in {Incoming, Both} && row.targetCategory == category && row.targetId == id
  {}

  /** The read of one entity gives a stored row once if it starts there and outgoing relations are
      asked for, and once if it ends there and incoming ones are; and no other row. */
  lemma ReadGives(tables: seq<Table>, category: string, direction: Direction, id: Uuid, row: Row)
    requires WellPlaced(tables)
    ensures Count(ListRelations(tables, category, direction, id), row)
      == (if direction in {Outgoing, Both} && row.sourceCategory == category && row.sourceId == id
          then Stored(tables, row) else 0)
        + (if direction in {Incoming, Both} && row.targetCategory == category && row.targetId == id
           then Stored(tables, row) else 0)
  {
    EndsAskedFor(direction, category, id, row);
    GroupCounts(tables, category, direction, [id], id, row);
  }

  // ----- the batched read refines the read of one entity

  lemma SortedBefore(front: seq<Row>, last: Row)
    requires Sorted(front) && (forall row :: row in front ==> Compare(row, last) != Greater)
    ensures Sorted(front + [last])
  {
    var rows := front + [last];
    forall i, j | 0 <= i < j < |rows| ensures Compare(rows[i], rows[j]) != Greater {
      assert rows[i] == front[i] && front[i] in front;
    }
  }

  lemma {:induction false} ShareIsSorted(
    rows: seq<Row>, category: string, ids: seq<Uuid>, direction: Direction, id: Uuid)
    requires Sorted(rows)
    ensures Sorted(Share(rows, category, ids, direction, id))
    ensures forall row :: row in Share(rows, category, ids, direction, id) ==> row in rows
  {
    if rows != [] {
      var front, last := rows[..|rows| - 1], rows[|rows| - 1];
      ShareIsSorted(front, category, ids, direction, id);
      var share := Share(front, category, ids, direction, id);
      forall row | row in share ensures Compare(row, last) != Greater {
        var k :| 0 <= k < |front| && front[k] == row;
      }
      CompareFlips(last, last);
      SortedBefore(share, last);
      SortedBefore(share + [last], last);
      var source := if BySource(last, category, direction, ids) && last.sourceId == id then [last] else [];
      assert share + [] == share && share + source + [] == share + source;
    }
  }

  /** The primary keys and the one table per relation name leave no two stored rows with one key. */
  ghost predicate OneStoredPerKey(tables: seq<Table>) {
    forall a, b :: Stored(tables, a) > 0 && Stored(tables, b) > 0 && SameKey(a, b) ==> a == b
  }

  /** If every row comes equally often, the sequences are equal. */
  lemma EqualCountsEqualReads(tables: seq<Table>, category: string, direction: Direction, ids: seq<Uuid>, id: Uuid)
    requires WellPlaced(tables) && OneStoredPerKey(tables) && id in ids
    requires SameRows(ListRelations(tables, category, direction, id),
      Share(ListRelationsForEntities(tables, category, direction, ids), category, ids, direction, id))
    ensures Share(ListRelationsForEntities(tables, category, direction, ids), category, ids, direction, id)
      == ListRelations(tables, category, direction, id)
  {
    var own := ListRelations(tables, category, direction, id);
    SortSorts(UnionAll(RelationLookups(tables, category, direction), category, ids));
    SortSorts(UnionAll(RelationLookups(tables, category, direction), category, [id]));
    ShareIsSorted(ListRelationsForEntities(tables, category, direction, ids), category, ids, direction, id);
    forall row | row in own ensures Stored(tables, row) > 0 {
      CountedIffIn(own, row);
      GroupCounts(tables, category, direction, ids, id, row);
    }
    SortedIsUnique(own, Share(ListRelationsForEntities(tables, category, direction, ids), category, ids, direction,
      id));
  }

  /** In one direction, each requested entity gets exactly the sorted sequence of its own read. */
  lemma BatchRefinesSingleReads(tables: seq<Table>, category: string, direction: Direction, ids: seq<Uuid>, id: Uuid)
    requires WellPlaced(tables) && OneStoredPerKey(tables) && direction != Both && id in ids
    ensures Share(ListRelationsForEntities(tables, category, direction, ids), category, ids, direction, id)
      == ListRelations(tables, category, direction, id)
  {
    forall row ensures Count(ListRelations(tables, category, direction, id), row)
      == Count(Share(ListRelationsForEntities(tables, category, direction, ids), category, ids, direction, id), row)
    {
      GroupCounts(tables, category, direction, ids, id, row);
    }
    EqualCountsEqualReads(tables, category, direction, ids, id);
  }

  /** In both directions, each requested entity gets exactly the rows of its own read, sorted. */
  lemma BatchOfBothGivesSameRows(tables: seq<Table>, category: string, ids: seq<Uuid>, id: Uuid, row: Row)
    requires WellPlaced(tables) && id in ids
    ensures var share := Share(ListRelationsForEntities(tables, category, Both, ids), category, ids, Both, id);
      Sorted(share) && (row in share <==> row in ListRelations(tables, category, Both, id))
  {
    var batch := ListRelationsForEntities(tables, category, Both, ids);
    GroupCounts(tables, category, Both, ids, id, row);
    SortSorts(UnionAll(RelationLookups(tables, category, Both), category, ids));
    ShareIsSorted(batch, category, ids, Both, id);
    CountedIffIn(Share(batch, category, ids, Both, id), row);
    CountedIffIn(ListRelations(tables, category, Both, id), row);
  }

  /** An edge between two requested entities, stored in some table. */
  ghost predicate IsInternal(tables: seq<Table>, category: string, ids: seq<Uuid>, row: Row) {
    Stored(tables, row) > 0 && Hits(row, false, category, ids) && Hits(row, true, category, ids)
  }

  /** An internal edge comes twice as often as in the entity's own read. */
  lemma InternalIsRepeated(tables: seq<Table>, category: string, ids: seq<Uuid>, row: Row)
    requires WellPlaced(tables) && IsInternal(tables, category, ids, row)
    ensures Count(Share(ListRelationsForEntities(tables, category, Both, ids), category, ids, Both, row.sourceId), row)
      == 2 * Count(ListRelations(tables, category, Both, row.sourceId), row) > 0
  {
    GroupCounts(tables, category, Both, ids, row.sourceId, row);
  }

  /** Each requested entity gets the sequence of its own read. */
  ghost predicate ExactFor(tables: seq<Table>, category: string, ids: seq<Uuid>, id: Uuid) {
    Share(ListRelationsForEntities(tables, category, Both, ids), category, ids, Both, id)
      == ListRelations(tables, category, Both, id)
  }

  lemma NoInternalIsExact(tables: seq<Table>, category: string, ids: seq<Uuid>, id: Uuid)
    requires WellPlaced(tables) && OneStoredPerKey(tables) && id in ids
    requires forall row :: !IsInternal(tables, category, ids, row)
    ensures ExactFor(tables, category, ids, id)
  {
    forall row ensures Count(ListRelations(tables, category, Both, id), row)
      == Count(Share(ListRelationsForEntities(tables, category, Both, ids), category, ids, Both, id), row)
    {
      GroupCounts(tables, category, Both, ids, id, row);
      assert !IsInternal(tables, category, ids, row);
    }
    EqualCountsEqualReads(tables, category, Both, ids, id);
  }

  /** In both directions the batched read is exact for every entity if and only if no stored edge
      joins two requested entities. */
  lemma BatchOfBothIsExactIff(tables: seq<Table>, category: string, ids: seq<Uuid>)
    requires WellPlaced(tables) && OneStoredPerKey(tables)
    ensures (forall id :: id in ids ==> ExactFor(tables, category, ids, id))
      <==> (forall row :: !IsInternal(tables, category, ids, row))
  {
    if forall row :: !IsInternal(tables, category, ids, row) {
      forall id | id in ids ensures ExactFor(tables, category, ids, id) {
        NoInternalIsExact(tables, category, ids, id);
      }
    } else {
      var row :| IsInternal(tables, category, ids, row);
      InternalIsRepeated(tables, category, ids, row);
      assert row.sourceId in ids && !ExactFor(tables, category, ids, row.sourceId);
    }
  }
}
