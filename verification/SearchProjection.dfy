/** Which registry rows of a token window become which index operations. */
module SearchProjection {
  import opened Wrappers
  import opened DocumentIds
  import opened ReconcilerModel
  import opened RowOrder
  import opened SearchIndexClient

  function KeysOf(db: Snapshot, ids: set<Uuid>): (keys: set<RowKey>)
    requires ids <= db.Keys
  {
    set u | u in ids :: RowKey(db[u].latestSkiptoken, u)
  }

  /** The rows of a window in the order they are read. */
  function WindowRows(db: Snapshot, after: int, upTo: int): seq<RowKey> {
    Sorted(KeysOf(db, Window(db, after, upTo)))
  }

  /** A deleted row is a delete, a live row with detail an upsert; other rows wait for their detail. */
  function OperationFor(category: string, row: Row, u: Uuid): Option<Operation> {
    if row.deleted then Some(Delete(DocumentId(category, u)))
    else if row.detail.Some? then Some(Upsert(u, row.ToDoc()))
    else None
  }

  ghost predicate RowsOf(db: Snapshot, rows: seq<RowKey>) {
    forall r :: r in rows ==> r.sourceId in db && r.token == db[r.sourceId].latestSkiptoken
  }

  function OperationsFor(db: Snapshot, category: string, rows: seq<RowKey>): (ops: seq<Operation>)
    requires RowsOf(db, rows)
  {
    if rows == [] then [] else
    var last := rows[|rows| - 1].sourceId;
    OperationsFor(db, category, rows[..|rows| - 1])
    + (match OperationFor(category, db[last], last) case Some(op) => [op] case None => [])
  }

  lemma OperationsSnoc(db: Snapshot, category: string, rows: seq<RowKey>, n: nat)
    requires RowsOf(db, rows) && n < |rows|
    ensures RowsOf(db, rows[..n]) && RowsOf(db, rows[..n + 1]) && rows[n].sourceId in db
    ensures OperationsFor(db, category, rows[..n + 1])
      == OperationsFor(db, category, rows[..n])
        + (match OperationFor(category, db[rows[n].sourceId], rows[n].sourceId) case Some(op) => [op] case None => [])
  {
    assert rows[n] in rows;
    assert rows[..n + 1][..n] == rows[..n];
  }

  /** Loads the window and maps each change, in order. */
  method ProjectCategoryWindow(db: Snapshot, category: string, after: int, targetBoundary: int)
    returns (rows: seq<RowKey>, operations: seq<Operation>, skippedCount: nat)
    ensures rows == WindowRows(db, after, targetBoundary) && RowsOf(db, rows)
    ensures operations == OperationsFor(db, category, rows)
    ensures |operations| + skippedCount == |rows|
  {
    rows := WindowRows(db, after, targetBoundary);
    operations, skippedCount := [], 0;
    for n := 0 to |rows|
      invariant RowsOf(db, rows[..n])
      invariant operations == OperationsFor(db, category, rows[..n])
      invariant |operations| + skippedCount == n
    {
      OperationsSnoc(db, category, rows, n);
      var u := rows[n].sourceId;
      match OperationFor(category, db[u], u)
      case Some(op) => operations := operations + [op];
      case None => skippedCount := skippedCount + 1;
    }
    assert rows[..|rows|] == rows;
  }

  function IdsIn(rows: seq<RowKey>): set<Uuid> {
    set r | r in rows :: r.sourceId
  }

  lemma SettleMore(db: Snapshot, index: Index, a: set<Uuid>, b: set<Uuid>)
    ensures Settle(db, Settle(db, index, a), b) == Settle(db, index, a + b)
  {
    var left, right := Settle(db, Settle(db, index, a), b), Settle(db, index, a + b);
    forall u ensures Lookup(left, u) == Lookup(right, u) {
      SettleAt(db, index, a, u);
      SettleAt(db, Settle(db, index, a), b, u);
      SettleAt(db, index, a + b, u);
    }
    SameLookups(left, right);
  }

  lemma SettleOne(db: Snapshot, category: string, index: Index, u: Uuid)
    requires u in db
    ensures Settle(db, index, {u}) == match OperationFor(category, db[u], u)
      case Some(op) => ApplyOne(category, index, op)
      case None => index
  {
    var left := Settle(db, index, {u});
    var right := match OperationFor(category, db[u], u)
      case Some(op) => ApplyOne(category, index, op)
      case None => index;
    forall v ensures Lookup(left, v) == Lookup(right, v) {
      SettleAt(db, index, {u}, v);
      if v in index && DocumentId(category, v) == DocumentId(category, u) {
        DocumentIdInjective(category, v, category, u);
      }
    }
    SameLookups(left, right);
  }

  /** Applying the operations of rows one by one settles those rows. */
  lemma {:induction false} OperationsSettle(db: Snapshot, category: string, index: Index, rows: seq<RowKey>)
    requires RowsOf(db, rows)
    ensures InOrder(category, index, OperationsFor(db, category, rows)) == Settle(db, index, IdsIn(rows))
  {
    if rows == [] {
      assert IdsIn(rows) == {};
      forall u ensures Lookup(Settle(db, index, {}), u) == Lookup(index, u) {
        SettleAt(db, index, {}, u);
      }
      SameLookups(Settle(db, index, {}), index);
    } else {
      var front, last := rows[..|rows| - 1], rows[|rows| - 1];
      OperationsSettle(db, category, index, front);
      var before := Settle(db, index, IdsIn(front));
      SettleOne(db, category, before, last.sourceId);
      SettleMore(db, index, IdsIn(front), {last.sourceId});
      assert rows == front + [last];
      assert IdsIn(rows) == IdsIn(front) + {last.sourceId};
      var ops, tail := OperationsFor(db, category, front), OperationFor(category, db[last.sourceId], last.sourceId);
      if tail.Some? {
        assert (ops + [tail.value])[..|ops|] == ops;
        assert OperationsFor(db, category, rows) == ops + [tail.value];
      } else {
        assert OperationsFor(db, category, rows) == ops;
      }
    }
  }

  lemma {:induction false} OperationsOrigin(db: Snapshot, category: string, rows: seq<RowKey>, op: Operation)
    requires RowsOf(db, rows) && op in OperationsFor(db, category, rows)
    ensures exists r :: r in rows && OperationFor(category, db[r.sourceId], r.sourceId) == Some(op)
  {
    var front, last := rows[..|rows| - 1], rows[|rows| - 1];
    if op in OperationsFor(db, category, front) {
      OperationsOrigin(db, category, front, op);
      var r :| r in front && OperationFor(category, db[r.sourceId], r.sourceId) == Some(op);
      assert r in rows;
    } else {
      assert last in rows;
    }
  }

  /** A row never yields both an upsert and a delete, so the batch may send upserts first. */
  lemma WindowDeletesAreFinal(db: Snapshot, category: string, rows: seq<RowKey>)
    requires RowsOf(db, rows)
    ensures DeletesAreFinal(category, OperationsFor(db, category, rows))
  {
    var ops := OperationsFor(db, category, rows);
    forall u | DeletedSomewhere(category, ops, u) ensures LastFor(category, ops, u).value.Delete? {
      OperationsOrigin(db, category, rows, Delete(DocumentId(category, u)));
      var r :| r in rows && OperationFor(category, db[r.sourceId], r.sourceId) == Some(Delete(DocumentId(category, u)));
      DocumentIdInjective(category, r.sourceId, category, u);
      assert Concerns(category, Delete(DocumentId(category, u)), u);
      var last := LastFor(category, ops, u).value;
      OperationsOrigin(db, category, rows, last);
    }
  }

  /** The batch call on the operations of rows settles those rows. */
  lemma TwoPhaseSettles(db: Snapshot, category: string, index: Index, rows: seq<RowKey>)
    requires RowsOf(db, rows)
    ensures TwoPhase(category, index, OperationsFor(db, category, rows)) == Settle(db, index, IdsIn(rows))
  {
    WindowDeletesAreFinal(db, category, rows);
    TwoPhaseIsInOrderIff(category, index, OperationsFor(db, category, rows));
    OperationsSettle(db, category, index, rows);
  }

  // ----- reading a subset of the rows in the same order

  function Selected(rows: seq<RowKey>, ids: set<Uuid>): (s: seq<RowKey>)
    ensures forall r :: r in s <==> r in rows && r.sourceId in ids
  {
    if rows == [] then [] else
    Selected(rows[..|rows| - 1], ids)
    + (if rows[|rows| - 1].sourceId in ids then [rows[|rows| - 1]] else [])
  }

  lemma {:induction false} SelectedIsSorted(rows: seq<RowKey>, ids: set<Uuid>)
    requires StrictlySorted(rows)
    ensures StrictlySorted(Selected(rows, ids))
  {
    if rows != [] {
      var front, last := rows[..|rows| - 1], rows[|rows| - 1];
      SelectedIsSorted(front, ids);
      forall r | r in Selected(front, ids) ensures Before(r, last) {
        var i :| 0 <= i < |front| && front[i] == r;
        assert Before(rows[i], rows[|rows| - 1]);
      }
    }
  }

  lemma {:induction false} SelectedOperations(db: Snapshot, category: string, rows: seq<RowKey>, ids: set<Uuid>)
    requires RowsOf(db, rows)
    requires forall r :: r in rows && r.sourceId !in ids ==> !db[r.sourceId].Touches()
    ensures RowsOf(db, Selected(rows, ids))
    ensures OperationsFor(db, category, Selected(rows, ids)) == OperationsFor(db, category, rows)
  {
    if rows != [] {
      var front, last := rows[..|rows| - 1], rows[|rows| - 1];
      assert rows == front + [last];
      SelectedOperations(db, category, front, ids);
      if last.sourceId in ids {
        assert Selected(rows, ids) == Selected(front, ids) + [last];
        assert Selected(rows, ids)[..|Selected(rows, ids)| - 1] == Selected(front, ids);
      } else {
        assert Selected(rows, ids) == Selected(front, ids);
        assert last in rows;
      }
    }
  }

  /** Leaving out rows that yield no operation does not change what is sent. */
  lemma TouchingRowsSuffice(db: Snapshot, category: string, all: set<Uuid>, some: set<Uuid>)
    requires some <= all <= db.Keys
    requires forall u :: u in all - some ==> !db[u].Touches()
    ensures RowsOf(db, Sorted(KeysOf(db, all))) && RowsOf(db, Sorted(KeysOf(db, some)))
    ensures OperationsFor(db, category, Sorted(KeysOf(db, some)))
      == OperationsFor(db, category, Sorted(KeysOf(db, all)))
  {
    var rows := Sorted(KeysOf(db, all));
    SelectedOperations(db, category, rows, some);
    SelectedIsSorted(rows, some);
    SortedIsUnique(Selected(rows, some), Sorted(KeysOf(db, some)));
  }

  ghost predicate OperationAt(db: Snapshot, category: string, rows: seq<RowKey>, ops: seq<Operation>, n: nat) {
    && n < |rows| && n < |ops| && rows[n].sourceId in db
    && OperationFor(category, db[rows[n].sourceId], rows[n].sourceId) == Some(ops[n])
  }

  /** Rows that all yield an operation yield exactly one each, in order. */
  lemma {:induction false} OnePerRow(db: Snapshot, category: string, rows: seq<RowKey>)
    requires RowsOf(db, rows) && (forall r :: r in rows ==> db[r.sourceId].Touches())
    ensures |OperationsFor(db, category, rows)| == |rows|
    ensures forall n :: 0 <= n < |rows| ==> OperationAt(db, category, rows, OperationsFor(db, category, rows), n)
  {
    if rows != [] {
      var front, last := rows[..|rows| - 1], rows[|rows| - 1];
      assert forall r :: r in front ==> r in rows;
      OnePerRow(db, category, front);
      assert last in rows;
      forall n | 0 <= n < |rows|
        ensures OperationAt(db, category, rows, OperationsFor(db, category, rows), n)
      {
        assert n < |front| ==> OperationAt(db, category, front, OperationsFor(db, category, front), n);
      }
    }
  }

  /** The upserts of a batch are the operations of its live rows. */
  lemma {:induction false} UpsertsAreLiveRows(db: Snapshot, category: string, rows: seq<RowKey>, live: set<Uuid>)
    requires RowsOf(db, rows)
    requires forall r :: r in rows ==> (r.sourceId in live <==> db[r.sourceId].Live())
    ensures RowsOf(db, Selected(rows, live))
    ensures UpsertsOf(OperationsFor(db, category, rows)) == OperationsFor(db, category, Selected(rows, live))
  {
    if rows != [] {
      var front, last := rows[..|rows| - 1], rows[|rows| - 1];
      assert rows == front + [last] && last in rows;
      UpsertsAreLiveRows(db, category, front, live);
      var before := OperationsFor(db, category, front);
      var tail := OperationFor(category, db[last.sourceId], last.sourceId);
      if tail.Some? {
        assert OperationsFor(db, category, rows) == before + [tail.value];
        assert (before + [tail.value])[..|before|] == before;
      } else {
        assert OperationsFor(db, category, rows) == before;
      }
      if last.sourceId in live {
        assert Selected(rows, live) == Selected(front, live) + [last];
        assert Selected(rows, live)[..|Selected(rows, live)| - 1] == Selected(front, live);
      } else {
        assert Selected(rows, live) == Selected(front, live);
      }
    }
  }
}
