/** The category loop of the search reconciler, with its scratch table. */
module SearchReconciler {
  import opened Integers
  import opened Wrappers
  import opened Powers
  import FiniteSets
  import opened DocumentIds
  import opened JsonChunks
  import opened ReconcilerModel
  import opened RowOrder
  import opened SearchIndexClient
  import opened SearchProjection
  import opened ReconcilerTheorems
  import opened ReconcilerOutcomes
  import opened ReconcilerRun


  datatype ScratchKey = ScratchKey(indexName: string, category: string, documentId: string)

  /** `payload` is present on the rows whose operation is an upsert. */
  datatype ScratchRow = ScratchRow(sourceId: Uuid, latestSkiptoken: int, payload: Option<Doc>)

  datatype ReconcileError = Index(error: ChunkError) | ScratchConflict | RowNotFound

  datatype Report = Report(
    postgresCount: nat, meilisearchCount: nat, highest: Option<int>,
    verifiedPrefixBoundary: int, targetBoundary: Option<int>, stats: ScratchStats)

  /** The boundary of the next window: the greatest token among the next `batchSize` rows. */
  function NextBoundary(db: Snapshot, after: int, batchSize: int): Option<int>
    requires batchSize > 0
  {
    var rows := Sorted(KeysOf(db, RowsAbove(db, after)));
    if rows == [] then None
    else Some(rows[(if batchSize <= |rows| then batchSize else |rows|) - 1].token)
  }

  /** It is the token of a row above `after`, and at least a batch of rows, or all, lie up to it. */
  lemma NextBoundaryAdvances(db: Snapshot, after: int, batchSize: int)
    requires batchSize > 0
    ensures NextBoundary(db, after, batchSize).None? <==> RowsAbove(db, after) == {}
    ensures var next := NextBoundary(db, after, batchSize);
      next.Some? ==>
        && after < next.value
        && (exists u :: u in db && db[u].latestSkiptoken == next.value)
        && (|Window(db, after, next.value)| >= batchSize || RowsAbove(db, next.value) == {})
  {
    var keys := KeysOf(db, RowsAbove(db, after));
    var rows := Sorted(keys);
    forall u | u in RowsAbove(db, after) ensures RowKey(db[u].latestSkiptoken, u) in rows {
      assert RowKey(db[u].latestSkiptoken, u) in keys;
    }
    if rows != [] {
      var k := (if batchSize <= |rows| then batchSize else |rows|) - 1;
      var next := rows[k].token;
      assert rows[k] in rows;
      if batchSize <= |rows| {
        FirstRowsInWindow(db, after, rows, k);
      } else {
        forall u | u in RowsAbove(db, after) ensures db[u].latestSkiptoken <= next {
          var i :| 0 <= i < |rows| && rows[i] == RowKey(db[u].latestSkiptoken, u);
          assert i == k || Before(rows[i], rows[k]);
        }
      }
    }
  }

  /** Rows with a token below that of row k come before it. */
  lemma RowsBelow(db: Snapshot, after: int, rows: seq<RowKey>, k: nat)
    requires rows == Sorted(KeysOf(db, RowsAbove(db, after))) && k < |rows|
    ensures |Window(db, after, rows[k].token - 1)| <= k
  {
    var below := Window(db, after, rows[k].token - 1);
    forall j | k <= j < |rows| ensures rows[k].token <= rows[j].token {
      assert j == k || Before(rows[k], rows[j]);
    }
    forall u | u in below ensures u in IdsIn(rows[..k]) {
      assert RowKey(db[u].latestSkiptoken, u) in KeysOf(db, RowsAbove(db, after));
      var i :| 0 <= i < |rows| && rows[i] == RowKey(db[u].latestSkiptoken, u);
      assert rows[i] in rows[..k];
    }
    DistinctIds(db, rows, k);
    FiniteSets.SubsetCardinality(below, IdsIn(rows[..k]));
  }

  /** The boundary is the token of the last row of a batch, or of all rows. */
  lemma NextBoundaryIsToken(db: Snapshot, after: int, batchSize: int, rows: seq<RowKey>, k: int)
    requires batchSize > 0 && rows == Sorted(KeysOf(db, RowsAbove(db, after)))
    requires k == (if batchSize <= |rows| then batchSize else |rows|) - 1
    ensures NextBoundary(db, after, batchSize) == if rows == [] then None else Some(rows[k].token)
  {}

  /** Fewer than a batch of rows lie below it: no smaller boundary would do. */
  lemma NextBoundaryIsLeast(db: Snapshot, after: int, batchSize: int, next: int)
    requires batchSize > 0 && NextBoundary(db, after, batchSize) == Some(next)
    ensures |Window(db, after, next - 1)| < batchSize
  {
    var rows := Sorted(KeysOf(db, RowsAbove(db, after)));
    var k := (if batchSize <= |rows| then batchSize else |rows|) - 1;
    NextBoundaryIsToken(db, after, batchSize, rows, k);
    RowsBelow(db, after, rows, k);
  }

  lemma FirstRowsInWindow(db: Snapshot, after: int, rows: seq<RowKey>, k: nat)
    requires rows == Sorted(KeysOf(db, RowsAbove(db, after))) && k < |rows|
    ensures |Window(db, after, rows[k].token)| >= k + 1
  {
    var ids := IdsIn(rows[..k + 1]);
    forall u | u in ids ensures u in Window(db, after, rows[k].token) {
      var r :| r in rows[..k + 1] && r.sourceId == u;
      var i :| 0 <= i <= k && rows[i] == r;
      assert rows[i] in rows;
      assert i == k || Before(rows[i], rows[k]);
    }
    DistinctIds(db, rows, k + 1);
    FiniteSets.SubsetCardinality(ids, Window(db, after, rows[k].token));
  }

  lemma {:induction false} DistinctIds(db: Snapshot, rows: seq<RowKey>, n: nat)
    requires StrictlySorted(rows) && RowsOf(db, rows) && n <= |rows|
    ensures |IdsIn(rows[..n])| == n
  {
    if n == 0 {
      assert IdsIn(rows[..0]) == {};
    } else {
      DistinctIds(db, rows, n - 1);
      NextIdIsNew(db, rows, n - 1);
      NextIds(rows, n - 1);
      OneMore(IdsIn(rows[..n - 1]), rows[n - 1].sourceId);
    }
  }

  lemma OneMore(ids: set<Uuid>, id: Uuid)
    requires id !in ids
    ensures |ids + {id}| == |ids| + 1
  {}

  lemma NextIds(rows: seq<RowKey>, n: nat)
    requires n < |rows|
    ensures IdsIn(rows[..n + 1]) == IdsIn(rows[..n]) + {rows[n].sourceId}
  {
    assert rows[..n + 1] == rows[..n] + [rows[n]];
  }

  lemma NextIdIsNew(db: Snapshot, rows: seq<RowKey>, n: nat)
    requires StrictlySorted(rows) && RowsOf(db, rows) && n < |rows|
    ensures rows[n].sourceId !in IdsIn(rows[..n])
  {
    forall r | r in rows[..n] ensures r.sourceId != rows[n].sourceId {
      var i :| 0 <= i < n && rows[i] == r;
      assert Before(rows[i], rows[n]) && rows[i] in rows && rows[n] in rows;
    }
  }

  /** The bounds of consecutive windows: window `i` is (bounds[i], bounds[i + 1]]. */
  ghost predicate WindowBounds(bounds: seq<int>, start: int) {
    && |bounds| > 0 && bounds[0] == start
    && (forall i, j :: 0 <= i < j < |bounds| ==> bounds[i] < bounds[j])
  }

  predicate InWindow(bounds: seq<int>, i: int, token: int) {
    0 <= i < |bounds| - 1 && bounds[i] < token <= bounds[i + 1]
  }

  /** A row above the start and up to the last bound lies in exactly one window. */
  lemma ExactlyOneWindow(bounds: seq<int>, start: int, token: int)
    requires WindowBounds(bounds, start)
    requires start < token <= bounds[|bounds| - 1]
    ensures exists i :: InWindow(bounds, i, token) && forall j :: InWindow(bounds, j, token) ==> j == i
  {
    var i := 0;
    while bounds[i + 1] < token
      invariant 0 <= i < |bounds| - 1 && bounds[i] < token
      decreases |bounds| - i
    {
      i := i + 1;
    }
    assert InWindow(bounds, i, token);
    forall j | 0 <= j < |bounds| - 1 && j != i ensures !InWindow(bounds, j, token) {
      assert j < i ==> bounds[j + 1] <= bounds[i];
      assert i < j ==> bounds[i + 1] <= bounds[j];
    }
  }

  class CategoryReconciler {
    const db: Snapshot
    const indexName: string
    const batchSize: int
    const maxPayloadBytes: nat
    const client: MeiliIndex
    var scratch: map<ScratchKey, ScratchRow>

    /** What validate_config checks, that the server decodes what it is sent, and that no document id
        of the category alone exceeds usize::MAX bytes. */
    ghost predicate Valid() {
      && batchSize > 0 && maxPayloadBytes > 0 && client.Decodes()
      && (forall u :: client.OperationFits(Delete(DocumentId(client.category, u)), U64_MAX))
    }

    predicate Mine(key: ScratchKey) {
      key.indexName == indexName && key.category == client.category
    }

    function KeyFor(u: Uuid): ScratchKey {
      ScratchKey(indexName, client.category, DocumentId(client.category, u))
    }

    function ScratchFor(u: Uuid): ScratchRow
      requires u in db
    {
      ScratchRow(u, db[u].latestSkiptoken, if db[u].deleted then None else Some(db[u].ToDoc()))
    }

    /** The scratch rows of this index and category are those of the given ids. */
    ghost predicate Holds(rows: map<ScratchKey, ScratchRow>, ids: set<Uuid>)
      requires ids <= db.Keys
    {
      && (forall u :: u in ids ==> KeyFor(u) in rows && rows[KeyFor(u)] == ScratchFor(u))
      && (forall key :: key in rows && Mine(key) ==> rows[key].sourceId in ids && key == KeyFor(rows[key].sourceId))
    }

    /** The scratch rows of other indexes and categories are the same. */
    ghost predicate SameOthers(rows: map<ScratchKey, ScratchRow>, before: map<ScratchKey, ScratchRow>) {
      forall key :: !Mine(key) ==>
        (key in rows <==> key in before) && (key in rows ==> rows[key] == before[key])
    }

    constructor (db: Snapshot, indexName: string, batchSize: int, maxPayloadBytes: nat,
                 client: MeiliIndex, scratch: map<ScratchKey, ScratchRow>)
      requires batchSize > 0 && maxPayloadBytes > 0 && client.Decodes()
      requires forall u :: client.OperationFits(Delete(DocumentId(client.category, u)), U64_MAX)
      ensures Valid() && this.db == db && this.client == client && this.scratch == scratch
      ensures this.indexName == indexName
    {
      this.db := db;
      this.indexName := indexName;
      this.batchSize := batchSize;
      this.maxPayloadBytes := maxPayloadBytes;
      this.client := client;
      this.scratch := scratch;
    }

    method ClearScratch()
      modifies this`scratch
      ensures Holds(scratch, {}) && SameOthers(scratch, old(scratch))
    {
      scratch := scratch - (set key | key in scratch && Mine(key));
    }

    /** INSERT without a conflict clause: an existing key is an error. */
    method InsertScratchRow(key: ScratchKey, row: ScratchRow) returns (ok: bool)
      modifies this`scratch
      ensures ok <==> key !in old(scratch)
      ensures scratch == if ok then old(scratch)[key := row] else old(scratch)
    {
      ok := key !in scratch;
      if ok {
        scratch := scratch[key := row];
      }
    }

    /** The rows of a window that reach the scratch table: a delete is dropped when its id does
        not parse back, which happens exactly for categories with an underscore. */
    function Stored(ids: set<Uuid>): set<Uuid>
      requires ids <= db.Keys
    {
      set u | u in ids && (db[u].Live() || (db[u].deleted && '_' !in client.category))
    }

    function LiveIn(ids: set<Uuid>): set<Uuid>
      requires ids <= db.Keys
    {
      set u | u in ids && db[u].Live()
    }

    /** Projects the window and stores its operations; the counts are those of the stored rows. */
    method PopulateScratch(after: int, targetBoundary: int)
      returns (r: Result<(nat, nat), ReconcileError>)
      requires Holds(scratch, {})
      modifies this`scratch
      ensures Holds(scratch, Stored(Window(db, after, targetBoundary))) && SameOthers(scratch, old(scratch))
      ensures r.Ok? && r.value.0 + r.value.1 == |Stored(Window(db, after, targetBoundary))|
      ensures r.value.0 == |LiveIn(Window(db, after, targetBoundary))|
    {
      var rows, operations, _ := ProjectCategoryWindow(db, client.category, after, targetBoundary);
      ghost var touching := set u | u in db && db[u].Touches();
      ghost var touched := Selected(rows, touching);
      SelectedOperations(db, client.category, rows, touching);
      SelectedIsSorted(rows, touching);
      OnePerRow(db, client.category, touched);
      r := StoreOperations(operations, touched);
      TouchedIds(rows, after, targetBoundary, touching);
    }

    method StoreOperations(operations: seq<Operation>, ghost touched: seq<RowKey>)
      returns (r: Result<(nat, nat), ReconcileError>)
      requires Holds(scratch, {})
      requires StrictlySorted(touched) && RowsOf(db, touched) && IdsIn(touched) <= db.Keys
      requires forall row :: row in touched ==> db[row.sourceId].Touches()
      requires |operations| == |touched|
      requires forall n :: 0 <= n < |touched| ==> OperationAt(db, client.category, touched, operations, n)
      modifies this`scratch
      ensures Holds(scratch, Stored(IdsIn(touched))) && SameOthers(scratch, old(scratch))
      ensures r.Ok? && r.value.0 + r.value.1 == |Stored(IdsIn(touched))| && r.value.0 == |LiveIn(IdsIn(touched))|
    {
      var upserts: nat, deletes: nat := 0, 0;
      ghost var ids: set<Uuid> := {};
      for n := 0 to |operations|
        invariant ids == IdsIn(touched[..n]) && ids <= db.Keys
        invariant Holds(scratch, Stored(ids)) && SameOthers(scratch, old(scratch))
        invariant upserts + deletes == |Stored(ids)| && upserts == |LiveIn(ids)|
      {
        assert OperationAt(db, client.category, touched, operations, n);
        NextId(touched, n, ids);
        var added := StoreOperation(operations[n], ids, touched[n].sourceId);
        upserts, deletes := upserts + added.value.0, deletes + added.value.1;
        ids := ids + {touched[n].sourceId};
      }
      assert touched[..|touched|] == touched;
      return Ok((upserts, deletes));
    }

    lemma StoreStep(rows: map<ScratchKey, ScratchRow>, ids: set<Uuid>, u: Uuid)
      requires ids <= db.Keys && u in db && u !in ids
      requires Holds(rows, Stored(ids))
      ensures KeyFor(u) !in rows
      ensures u in Stored({u}) ==> Holds(rows[KeyFor(u) := ScratchFor(u)], Stored(ids + {u}))
      ensures u !in Stored({u}) ==> Holds(rows, Stored(ids + {u}))
    {
      HoldsMore(rows, Stored(ids), u);
      OneMoreId(ids, u);
    }

    lemma OthersMore(rows: map<ScratchKey, ScratchRow>, start: map<ScratchKey, ScratchRow>, u: Uuid)
      requires u in db && SameOthers(rows, start)
      ensures SameOthers(rows[KeyFor(u) := ScratchFor(u)], start)
    {
      assert Mine(KeyFor(u));
    }

    lemma OneMoreId(ids: set<Uuid>, u: Uuid)
      requires ids <= db.Keys && u in db && u !in ids
      ensures LiveIn(ids + {u}) == if db[u].Live() then LiveIn(ids) + {u} else LiveIn(ids)
      ensures Stored(ids + {u}) == if u in Stored({u}) then Stored(ids) + {u} else Stored(ids)
      ensures |LiveIn(ids + {u})| == |LiveIn(ids)| + (if db[u].Live() then 1 else 0)
      ensures |Stored(ids + {u})| == |Stored(ids)| + (if u in Stored({u}) then 1 else 0)
    {
      assert LiveIn(ids + {u}) == if db[u].Live() then LiveIn(ids) + {u} else LiveIn(ids);
      assert Stored(ids + {u}) == if u in Stored({u}) then Stored(ids) + {u} else Stored(ids);
      assert u !in LiveIn(ids) && u !in Stored(ids);
    }

    /** Stores one operation; a delete whose document id does not parse back is dropped. */
    method StoreOperation(op: Operation, ghost ids: set<Uuid>, ghost u: Uuid)
      returns (r: Result<(nat, nat), ReconcileError>)
      requires ids <= db.Keys && u in db && u !in ids && Holds(scratch, Stored(ids))
      requires OperationFor(client.category, db[u], u) == Some(op)
      modifies this`scratch
      ensures r.Ok? && Holds(scratch, Stored(ids + {u})) && SameOthers(scratch, old(scratch))
      ensures |Stored(ids + {u})| == |Stored(ids)| + r.value.0 + r.value.1
      ensures |LiveIn(ids + {u})| == |LiveIn(ids)| + r.value.0
    {
      StoreStep(scratch, ids, u);
      OthersMore(scratch, scratch, u);
      OneMoreId(ids, u);
      DocumentIdRoundTrip(client.category, u);
      match op
      case Upsert(sourceId, doc) =>
        var ok := InsertScratchRow(
          ScratchKey(indexName, client.category, DocumentId(client.category, sourceId)),
          ScratchRow(sourceId, doc.latestSkiptoken, Some(doc)));
        r := if ok then Ok((1, 0)) else Err(ScratchConflict);
      case Delete(documentId) =>
        var parsed := ParseDocumentId(documentId);
        if parsed.None? {
          return Ok((0, 0));
        }
        var (category, sourceId) := parsed.value;
        if sourceId !in db {
          return Err(RowNotFound);
        }
        var ok := InsertScratchRow(
          ScratchKey(indexName, category, documentId),
          ScratchRow(sourceId, db[sourceId].latestSkiptoken, None));
        r := if ok then Ok((0, 1)) else Err(ScratchConflict);
    }

    lemma HoldsMore(rows: map<ScratchKey, ScratchRow>, ids: set<Uuid>, u: Uuid)
      requires ids <= db.Keys && u in db && u !in ids && Holds(rows, ids)
      ensures KeyFor(u) !in rows
      ensures Holds(rows[KeyFor(u) := ScratchFor(u)], ids + {u})
    {
      assert Mine(KeyFor(u));
      if KeyFor(u) in rows {
        DocumentIdInjective(client.category, u, client.category, rows[KeyFor(u)].sourceId);
        assert false;
      }
    }

    lemma NextId(touched: seq<RowKey>, n: nat, ids: set<Uuid>)
      requires StrictlySorted(touched) && RowsOf(db, touched) && n < |touched| && ids == IdsIn(touched[..n])
      ensures touched[n] in touched && touched[n].sourceId in db && touched[n].sourceId !in ids
      ensures IdsIn(touched[..n + 1]) == ids + {touched[n].sourceId}
    {
      assert touched[..n + 1] == touched[..n] + [touched[n]];
      forall r | r in touched[..n] ensures r.sourceId != touched[n].sourceId {
        var i :| 0 <= i < n && touched[i] == r;
        assert Before(touched[i], touched[n]) && touched[i] in touched && touched[n] in touched;
      }
    }

    lemma TouchedIds(rows: seq<RowKey>, after: int, targetBoundary: int, touching: set<Uuid>)
      requires rows == WindowRows(db, after, targetBoundary)
      requires touching == set u | u in db && db[u].Touches()
      ensures IdsIn(Selected(rows, touching)) <= db.Keys
      ensures Stored(IdsIn(Selected(rows, touching))) == Stored(Window(db, after, targetBoundary))
      ensures LiveIn(IdsIn(Selected(rows, touching))) == LiveIn(Window(db, after, targetBoundary))
    {
      var window := Window(db, after, targetBoundary);
      forall u ensures u in IdsIn(Selected(rows, touching)) <==> u in window && db[u].Touches() {
        if u in window && db[u].Touches() {
          assert RowKey(db[u].latestSkiptoken, u) in KeysOf(db, window);
          assert RowKey(db[u].latestSkiptoken, u) in rows;
          assert RowKey(db[u].latestSkiptoken, u) in Selected(rows, touching);
        }
      }
    }

    // ----- one window

    /** SELECT of this index and category, ordered by token and id. */
    method OperationsFromScratch(ghost ids: set<Uuid>) returns (operations: seq<Operation>)
      requires ids <= db.Keys && Holds(scratch, ids) && (forall u :: u in ids ==> db[u].Touches())
      ensures operations == OperationsFor(db, client.category, Sorted(KeysOf(db, ids)))
    {
      var keys := set key | key in scratch && Mine(key) :: RowKey(scratch[key].latestSkiptoken, scratch[key].sourceId);
      SelectedKeys(ids, keys);
      var rows := Sorted(keys);
      operations := [];
      for n := 0 to |rows|
        invariant RowsOf(db, rows[..n]) && operations == OperationsFor(db, client.category, rows[..n])
      {
        OperationsSnoc(db, client.category, rows, n);
        assert rows[n] in rows;
        var u := rows[n].sourceId;
        var row := scratch[KeyFor(u)];
        assert row == ScratchFor(u);
        if row.payload.None? {
          operations := operations + [Delete(DocumentId(client.category, u))];
        } else {
          operations := operations + [Upsert(u, row.payload.value)];
        }
      }
      assert rows[..|rows|] == rows;
    }

    lemma SelectedKeys(ids: set<Uuid>, keys: set<RowKey>)
      requires ids <= db.Keys && Holds(scratch, ids)
      requires keys
        == set key | key in scratch && Mine(key) :: RowKey(scratch[key].latestSkiptoken, scratch[key].sourceId)
      ensures keys == KeysOf(db, ids)
      ensures RowsOf(db, Sorted(keys))
      ensures forall r :: r in keys ==> r.sourceId in ids && KeyFor(r.sourceId) in scratch
    {
      forall r | r in KeysOf(db, ids) ensures r in keys {
        assert KeyFor(r.sourceId) in scratch && Mine(KeyFor(r.sourceId));
      }
    }

    ghost predicate SentFor(ids: set<Uuid>, sent: seq<Operation>)
      requires ids <= db.Keys
    {
      forall op :: op in sent ==> exists u :: u in ids && OperationFor(client.category, db[u], u) == Some(op)
    }

    lemma SentForRows(ids: set<Uuid>)
      requires ids <= db.Keys
      ensures RowsOf(db, Sorted(KeysOf(db, ids)))
      ensures SentFor(ids, OperationsFor(db, client.category, Sorted(KeysOf(db, ids))))
    {
      IdsOfSorted(ids);
      var rows := Sorted(KeysOf(db, ids));
      forall op | op in OperationsFor(db, client.category, rows)
        ensures exists u :: u in ids && OperationFor(client.category, db[u], u) == Some(op)
      {
        OperationsOrigin(db, client.category, rows, op);
        var r :| r in rows && OperationFor(client.category, db[r.sourceId], r.sourceId) == Some(op);
        assert r.sourceId in ids;
      }
    }

    /** As many upserts are sent for stored rows as there are live ones, and a delete for each other. */
    lemma SentCounts(ids: set<Uuid>, live: set<Uuid>)
      requires live <= ids <= db.Keys
      requires forall u :: u in ids ==> db[u].Touches() && (u in live <==> db[u].Live())
      ensures RowsOf(db, Sorted(KeysOf(db, ids)))
      ensures var sent := OperationsFor(db, client.category, Sorted(KeysOf(db, ids)));
        |UpsertsOf(sent)| == |live| && |UpsertsOf(sent)| + |DeletesOf(sent)| == |ids|
    {
      var rows := Sorted(KeysOf(db, ids));
      IdsOfSorted(ids);
      EachIsUpsertOrDelete(OperationsFor(db, client.category, rows));
      SentPerRow(rows, ids);
      UpsertsAreLiveRows(db, client.category, rows, live);
      SelectedIsSorted(rows, live);
      forall u | u in live ensures u in IdsIn(Selected(rows, live)) {
        assert u in IdsIn(rows);
      }
      SentPerRow(Selected(rows, live), live);
    }

    lemma SentPerRow(rows: seq<RowKey>, ids: set<Uuid>)
      requires StrictlySorted(rows) && RowsOf(db, rows) && ids <= db.Keys && IdsIn(rows) == ids
      requires forall u :: u in ids ==> db[u].Touches()
      ensures |OperationsFor(db, client.category, rows)| == |ids|
    {
      forall r | r in rows ensures db[r.sourceId].Touches() {
        assert r.sourceId in IdsIn(rows);
      }
      OnePerRow(db, client.category, rows);
      DistinctIds(db, rows, |rows|);
      assert rows[..|rows|] == rows;
    }

    /** What a window must do to the index: settle its rows, all of them for underscore-free categories. */
    method ApplyWindow(after: int, targetBoundary: int)
      returns (r: Result<(nat, nat), ReconcileError>, ghost sent: seq<Operation>)
      requires Valid()
      modifies this`scratch, client`documents
      ensures SameOthers(scratch, old(scratch))
      ensures r.Ok? ==> Holds(scratch, {})
      ensures r.Ok? ==> client.documents == Settle(db, old(client.documents), Stored(Window(db, after, targetBoundary)))
      ensures r.Ok? ==>
        && r.value.0 == |LiveIn(Window(db, after, targetBoundary))|
        && r.value.0 + r.value.1 == |Stored(Window(db, after, targetBoundary))|
      ensures r.Ok? ==> client.documents == TwoPhase(client.category, old(client.documents), sent)
      ensures r.Ok? ==> r.value.0 == |UpsertsOf(sent)| && r.value.1 == |DeletesOf(sent)|
      ensures RowsOf(db, WindowRows(db, after, targetBoundary))
      ensures SentFor(Stored(Window(db, after, targetBoundary)), sent)
      ensures '_' !in client.category ==>
        sent == OperationsFor(db, client.category, WindowRows(db, after, targetBoundary))
      ensures r.Ok? <==> forall op :: op in sent ==> client.OperationFits(op, maxPayloadBytes)
      ensures r.Err? ==>
        || client.documents == old(client.documents)
        || client.documents == Settle(db, old(client.documents), LiveIn(Window(db, after, targetBoundary)))
    {
      ghost var window := Window(db, after, targetBoundary);
      ghost var stored := Stored(window);
      ClearScratch();
      var counts := PopulateScratch(after, targetBoundary);
      var operations := OperationsFromScratch(stored);
      sent := operations;
      SentForRows(stored);
      SentCounts(stored, LiveIn(window));
      WindowSettles(client.documents, window);
      var applied := client.ApplyBatchWithPayloadLimit(operations, maxPayloadBytes);
      if applied.Err? {
        return Err(Index(applied.error)), sent;
      }
      ClearScratch();
      r := counts;
    }

    lemma WindowSettles(index: Index, window: set<Uuid>)
      requires window <= db.Keys
      ensures var rows := Sorted(KeysOf(db, Stored(window)));
        && RowsOf(db, rows) && RowsOf(db, Sorted(KeysOf(db, window)))
        && TwoPhase(client.category, index, OperationsFor(db, client.category, rows))
          == Settle(db, index, Stored(window))
        && InOrder(client.category, index, UpsertsOf(OperationsFor(db, client.category, rows)))
          == Settle(db, index, LiveIn(window))
        && ('_' !in client.category ==>
              OperationsFor(db, client.category, rows)
                == OperationsFor(db, client.category, Sorted(KeysOf(db, window))))
    {
      IdsOfSorted(window);
      IdsOfSorted(Stored(window));
      TwoPhaseSettles(db, client.category, index, Sorted(KeysOf(db, Stored(window))));
      UpsertsSettle(index, Stored(window), LiveIn(window));
      if '_' !in client.category {
        TouchingRowsSuffice(db, client.category, window, Stored(window));
      }
    }

    lemma UpsertsSettle(index: Index, ids: set<Uuid>, live: set<Uuid>)
      requires live <= ids <= db.Keys
      requires forall u :: u in ids ==> (u in live <==> db[u].Live())
      ensures var rows := Sorted(KeysOf(db, ids));
        && RowsOf(db, rows)
        && InOrder(client.category, index, UpsertsOf(OperationsFor(db, client.category, rows)))
          == Settle(db, index, live)
    {
      var rows := Sorted(KeysOf(db, ids));
      IdsOfSorted(ids);
      UpsertsAreLiveRows(db, client.category, rows, live);
      OperationsSettle(db, client.category, index, Selected(rows, live));
      forall u | u in live ensures u in IdsIn(Selected(rows, live)) {
        assert u in IdsIn(rows);
      }
      assert IdsIn(Selected(rows, live)) == live;
    }

    lemma IdsOfSorted(ids: set<Uuid>)
      requires ids <= db.Keys
      ensures RowsOf(db, Sorted(KeysOf(db, ids))) && IdsIn(Sorted(KeysOf(db, ids))) == ids
    {
      forall u | u in ids ensures u in IdsIn(Sorted(KeysOf(db, ids))) {
        assert RowKey(db[u].latestSkiptoken, u) in KeysOf(db, ids);
        assert RowKey(db[u].latestSkiptoken, u) in Sorted(KeysOf(db, ids));
      }
    }

    // ----- all windows above a boundary

    /** The operation of a row, if it has one, fits a payload of its own. */
    predicate RowFits(u: Uuid)
      requires u in db
    {
      var op := OperationFor(client.category, db[u], u);
      op.Some? ==> client.OperationFits(op.value, maxPayloadBytes)
    }

    ghost predicate AllRowsFit() {
      forall u :: u in db ==> RowFits(u)
    }

    /** The windows so far end at `current` and are at least `batchSize` rows each, but for the last. */
    ghost predicate Windows(bounds: seq<int>, start: int, current: int) {
      && WindowBounds(bounds, start) && bounds[|bounds| - 1] == current
      && BatchesBelow(|bounds| - 2, |Window(db, start, current)|)
      && (RowsAbove(db, current) != {} ==> BatchesUpTo(|bounds| - 1, |Window(db, start, current)|))
    }

    predicate BatchesBelow(windows: int, rows: nat) {
      windows < 0 || windows * batchSize < rows
    }

    predicate BatchesUpTo(windows: int, rows: nat) {
      windows * batchSize <= rows
    }

    /** What stored rows add to the totals. */
    function StatsFor(ids: set<Uuid>): ScratchStats
      requires ids <= db.Keys
    {
      StatsOf(0, |LiveIn(ids)|, |Stored(ids)|)
    }

    lemma LiveAreStored(ids: set<Uuid>)
      requires ids <= db.Keys
      ensures |LiveIn(ids)| <= |Stored(ids)|
    {
      FiniteSets.SubsetCardinality(LiveIn(ids), Stored(ids));
    }

    /** Applies one window after the rows in `done` are settled. */
    method NextWindow(current: int, next: int, ghost first: map<Uuid, Doc>, ghost done: set<Uuid>)
      returns (r: Result<ScratchStats, ReconcileError>, ghost settled: set<Uuid>)
      requires Valid() && done <= db.Keys && client.documents == Settle(db, first, done)
      modifies this`scratch, client`documents
      ensures settled <= db.Keys && client.documents == Settle(db, first, settled)
      ensures r.Ok? ==>
        && settled == done + Stored(Window(db, current, next))
        && r.value == StatsFor(Window(db, current, next))
      ensures AllRowsFit() ==> r.Ok?
    {
      ghost var before := client.documents;
      var counts, sent := ApplyWindow(current, next);
      ghost var live, stored := LiveIn(Window(db, current, next)), Stored(Window(db, current, next));
      if counts.Err? {
        TooLargeRow(stored, sent);
        SettleMore(db, first, done, live);
        settled := if client.documents == before then done else done + live;
        return Err(counts.error), settled;
      }
      SettleMore(db, first, done, stored);
      settled := done + stored;
      r := Ok(ScratchStats(counts.value.0 + counts.value.1, counts.value.0, counts.value.1));
    }

    lemma NextStats(totals: ScratchStats, front: set<Uuid>, window: set<Uuid>)
      requires front !! window && front + window <= db.Keys
      ensures totals.Plus(StatsFor(front)).Clamped().Add(StatsFor(window))
        == totals.Plus(StatsFor(front + window)).Clamped()
    {
      LiveAreStored(front);
      LiveAreStored(window);
      DisjointCounts(front, window);
      ClampedSum(totals.Plus(StatsFor(front)), StatsFor(window));
    }

    /** The windows applied so far, from the start to the current boundary. */
    ghost predicate AppliedTo(
      start: int, current: int, rows: set<Uuid>, bounds: seq<int>, target: Option<int>, settled: set<Uuid>,
      before: ScratchStats, totals: ScratchStats)
    {
      && start <= current && Windows(bounds, start, current) && rows == Window(db, start, current)
      && target == (if |bounds| > 1 then Some(current) else None)
      && (target.Some? ==> exists u :: u in db && db[u].latestSkiptoken == current)
      && settled == Stored(rows) && totals == before.Plus(StatsFor(rows)).Clamped()
    }

    lemma NothingApplied(start: int, before: ScratchStats)
      requires before == before.Clamped()
      ensures AppliedTo(start, start, {}, [start], None, {}, before, before)
    {
      assert Window(db, start, start) == {} && Stored({}) == {} && LiveIn({}) == {};
    }

    lemma OneMoreWindow(
      start: int, current: int, next: int, rows: set<Uuid>, bounds: seq<int>, target: Option<int>, settled: set<Uuid>,
      before: ScratchStats, totals: ScratchStats)
      requires Valid() && AppliedTo(start, current, rows, bounds, target, settled, before, totals)
      requires NextBoundary(db, current, batchSize) == Some(next)
      ensures var window := Window(db, current, next);
        current < next && AppliedTo(start, next, rows + window, bounds + [next], Some(next),
                                    settled + Stored(window), before, totals.Add(StatsFor(window)))
      ensures |RowsAbove(db, next)| < |RowsAbove(db, current)|
    {
      NextBoundaryAdvances(db, current, batchSize);
      WindowSets(start, current, next, rows);
      FewerRowsAbove(current, next);
      WindowCounts(start, current, next, bounds);
      NextStats(before, rows, Window(db, current, next));
    }

    lemma AllWindows(
      start: int, current: int, rows: set<Uuid>, bounds: seq<int>, target: Option<int>, settled: set<Uuid>,
      before: ScratchStats, totals: ScratchStats)
      requires Valid() && AppliedTo(start, current, rows, bounds, target, settled, before, totals)
      requires NextBoundary(db, current, batchSize).None?
      ensures settled == Stored(RowsAbove(db, start)) && totals == before.Plus(StatsFor(RowsAbove(db, start))).Clamped()
      ensures WindowBounds(bounds, start) && RowsAbove(db, bounds[|bounds| - 1]) == {}
      ensures BatchesBelow(|bounds| - 2, |RowsAbove(db, start)|) && IsTarget(db, start, target)
      ensures target == (if |bounds| > 1 then Some(bounds[|bounds| - 1]) else None)
    {
      NextBoundaryAdvances(db, current, batchSize);
      WindowIsAll(start, current);
    }

    /** Applies window after window, so that every row above the start is settled, each once. */
    method ApplyWindows(start: int, before: ScratchStats)
      returns (r: Result<ScratchStats, ReconcileError>, target: Option<int>,
               ghost bounds: seq<int>, ghost settled: set<Uuid>)
      requires Valid() && before == before.Clamped()
      modifies this`scratch, client`documents
      ensures settled <= db.Keys && client.documents == Settle(db, old(client.documents), settled)
      ensures r.Ok? ==>
        && settled == Stored(RowsAbove(db, start))
        && r.value == before.Plus(StatsFor(RowsAbove(db, start))).Clamped()
      ensures r.Ok? ==>
        && WindowBounds(bounds, start) && RowsAbove(db, bounds[|bounds| - 1]) == {}
        && BatchesBelow(|bounds| - 2, |RowsAbove(db, start)|)
        && target == (if |bounds| > 1 then Some(bounds[|bounds| - 1]) else None)
        && IsTarget(db, start, target)
      ensures AllRowsFit() ==> r.Ok?
    {
      var current := start;
      var totals := before;
      bounds, target, settled := [start], None, {};
      ghost var rows: set<Uuid> := {};
      NothingApplied(start, before);
      var next := NextBoundary(db, current, batchSize);
      while next.Some?
        invariant next == NextBoundary(db, current, batchSize)
        invariant AppliedTo(start, current, rows, bounds, target, settled, before, totals)
        invariant settled <= db.Keys && client.documents == Settle(db, old(client.documents), settled)
        decreases |RowsAbove(db, current)|
      {
        ghost var window := Window(db, current, next.value);
        OneMoreWindow(start, current, next.value, rows, bounds, target, settled, before, totals);
        var stats, now := NextWindow(current, next.value, old(client.documents), settled);
        settled := now;
        if stats.Err? {
          return Err(stats.error), target, bounds, settled;
        }
        rows := rows + window;
        totals := totals.Add(stats.value);
        current := next.value;
        target := Some(current);
        bounds := bounds + [current];
        next := NextBoundary(db, current, batchSize);
      }
      AllWindows(start, current, rows, bounds, target, settled, before, totals);
      r := Ok(totals);
    }

    lemma WindowIsAll(start: int, current: int)
      requires start <= current && RowsAbove(db, current) == {}
      ensures Window(db, start, current) == RowsAbove(db, start)
    {
      forall u | u in RowsAbove(db, start) ensures u in Window(db, start, current) {
        assert u !in RowsAbove(db, current);
      }
    }

    lemma TooLargeRow(ids: set<Uuid>, sent: seq<Operation>)
      requires ids <= db.Keys && SentFor(ids, sent)
      requires exists op :: op in sent && !client.OperationFits(op, maxPayloadBytes)
      ensures !AllRowsFit()
    {
      var op :| op in sent && !client.OperationFits(op, maxPayloadBytes);
      var u :| u in ids && OperationFor(client.category, db[u], u) == Some(op);
      assert !RowFits(u);
    }

    lemma WindowSets(start: int, current: int, next: int, front: set<Uuid>)
      requires start <= current < next && front == Window(db, start, current)
      ensures var window := Window(db, current, next);
        && Window(db, start, next) == front + window && |front + window| == |front| + |window|
        && Stored(front + window) == Stored(front) + Stored(window)
        && |Stored(front + window)| == |Stored(front)| + |Stored(window)|
        && |LiveIn(front + window)| == |LiveIn(front)| + |LiveIn(window)|
    {
      var window := Window(db, current, next);
      assert Window(db, start, next) == front + window && front !! window;
      DisjointCounts(front, window);
    }

    lemma DisjointCounts(a: set<Uuid>, b: set<Uuid>)
      requires a !! b && a + b <= db.Keys
      ensures |a + b| == |a| + |b|
      ensures Stored(a + b) == Stored(a) + Stored(b) && |Stored(a + b)| == |Stored(a)| + |Stored(b)|
      ensures |LiveIn(a + b)| == |LiveIn(a)| + |LiveIn(b)|
    {
      assert Stored(a + b) == Stored(a) + Stored(b) && Stored(a) !! Stored(b);
      assert LiveIn(a + b) == LiveIn(a) + LiveIn(b) && LiveIn(a) !! LiveIn(b);
    }

    lemma FewerRowsAbove(current: int, next: int)
      requires current < next && exists u :: u in db && db[u].latestSkiptoken == next
      ensures |Window(db, current, next)| > 0
      ensures |RowsAbove(db, next)| < |RowsAbove(db, current)|
    {
      var window := Window(db, current, next);
      var u :| u in db && db[u].latestSkiptoken == next;
      assert u in window;
      assert RowsAbove(db, current) == RowsAbove(db, next) + window && RowsAbove(db, next) !! window;
    }

    lemma WindowCounts(start: int, current: int, next: int, bounds: seq<int>)
      requires Valid() && start <= current < next
      requires Windows(bounds, start, current) && RowsAbove(db, current) != {}
      requires |Window(db, start, next)| == |Window(db, start, current)| + |Window(db, current, next)|
      requires |Window(db, current, next)| > 0
      requires |Window(db, current, next)| >= batchSize || RowsAbove(db, next) == {}
      ensures Windows(bounds + [next], start, next)
    {
      BatchStep(|bounds| - 1, |Window(db, start, current)|, |Window(db, current, next)|);
    }

    lemma BatchStep(windows: nat, front: nat, window: nat)
      requires Valid() && BatchesUpTo(windows, front) && window > 0
      ensures BatchesBelow(windows, front + window)
      ensures window >= batchSize ==> BatchesUpTo(windows + 1, front + window)
    {
      assert (windows + 1) * batchSize == windows * batchSize + batchSize;
    }

    // ----- verifying a prefix

    lemma ProbeHalves(width: nat, probes: nat)
      requires probes <= 64 && 0 < width < Pow2(64 - probes)
      ensures probes < 64 && width / 2 < Pow2(64 - probes - 1)
    {}

    /** The search from `start` goes on between low and high, in range, with few enough probes left. */
    ghost predicate Searching(index: Index, start: int, low: int, high: int, best: int, probes: nat) {
      && 0 <= low && -1 <= high <= I64_MAX && 0 <= start <= I64_MAX
      && (high == I64_MAX ==> !CountsAgree(db, index, high))
      && (start == I64_MAX ==> !CountsAgree(db, index, start))
      && SearchPrefix(db, index, low, high, best) == SearchPrefix(db, index, 0, start, 0)
      && probes <= 64 && high - low + 1 < Pow2(64 - probes)
    }

    lemma SearchStarts(index: Index, start: int)
      requires 0 <= start <= I64_MAX && (start == I64_MAX ==> !CountsAgree(db, index, start))
      ensures Searching(index, start, 0, start, 0, 0)
    {
      Pow2Of64();
    }

    lemma ProbeStep(index: Index, start: int, low: int, high: int, best: int, probes: nat)
      requires Searching(index, start, low, high, best, probes) && low <= high
      ensures var mid := low + (high - low) / 2;
        if CountsAgree(db, index, mid) then Searching(index, start, SaturatingAdd(mid, 1), high, mid, probes + 1)
        else Searching(index, start, low, mid - 1, best, probes + 1)
    {
      var mid := low + (high - low) / 2;
      SearchStep(db, index, low, high, best);
      ProbeHalves(high - low + 1, probes);
      assert mid - low <= (high - low + 1) / 2 && high - mid <= (high - low + 1) / 2;
    }

    lemma SearchEnds(index: Index, start: int, low: int, high: int, best: int, probes: nat)
      requires Searching(index, start, low, high, best, probes) && low > high
      ensures best == SearchPrefix(db, index, 0, start, 0) && probes <= 64
      ensures best == 0 || (0 <= best <= start && CountsAgree(db, index, best))
    {
      SearchResult(db, index, 0, start, 0);
    }

    /** The binary search over boundaries; each round trip to both stores is a probe. */
    method FindVerifiedPrefix(highest: int) returns (best: int, ghost probes: nat)
      requires highest <= I64_MAX
      requires highest == I64_MAX ==> !CountsAgree(db, client.documents, highest)
      ensures best == SearchPrefix(db, client.documents, 0, if highest >= 0 then highest else 0, 0)
      ensures best == 0 || (0 <= best <= highest && CountsAgree(db, client.documents, best))
      ensures probes <= 64
    {
      var low, high := 0, if highest >= 0 then highest else 0;
      best, probes := 0, 0;
      ghost var start := high;
      SearchStarts(client.documents, start);
      while low <= high
        invariant Searching(client.documents, start, low, high, best, probes)
        decreases high - low
      {
        var mid := low + (high - low) / 2;
        ProbeStep(client.documents, start, low, high, best, probes);
        var postgres := PostgresCount(db, Some(mid));
        var meili := IndexCount(client.documents, Some(mid));
        if postgres == MeiliPrefixI64(meili) {
          best := mid;
          low := SaturatingAdd(mid, 1);
        } else {
          high := mid - 1;
        }
        probes := probes + 1;
      }
      SearchEnds(client.documents, start, low, high, best, probes);
    }

    /** The document ids of the live rows above a boundary. */
    function ExpectedIds(boundary: int): set<string> {
      set u | u in db && db[u].Live() && db[u].latestSkiptoken > boundary :: DocumentId(client.category, u)
    }

    /** One delete for each listed id that is not expected. */
    function Unexpected(indexed: seq<string>, expected: set<string>): seq<Operation> {
      if indexed == [] then [] else
      Unexpected(indexed[..|indexed| - 1], expected)
      + (if indexed[|indexed| - 1] !in expected then [Delete(indexed[|indexed| - 1])] else [])
    }

    lemma NextUnexpected(indexed: seq<string>, n: nat, expected: set<string>)
      requires n < |indexed|
      ensures Unexpected(indexed[..n + 1], expected)
        == Unexpected(indexed[..n], expected) + (if indexed[n] !in expected then [Delete(indexed[n])] else [])
    {
      assert indexed[..n + 1][..n] == indexed[..n];
    }

    lemma {:induction false} UnexpectedAre(indexed: seq<string>, expected: set<string>)
      ensures forall op :: op in Unexpected(indexed, expected) ==>
        op.Delete? && op.documentId in indexed && op.documentId !in expected
      ensures forall i :: 0 <= i < |indexed| && indexed[i] !in expected ==>
        Delete(indexed[i]) in Unexpected(indexed, expected)
    {
      if indexed != [] { UnexpectedAre(indexed[..|indexed| - 1], expected); }
    }

    /** Of rows with distinct ids, those whose document is not expected. */
    function UnexpectedIds(rows: seq<RowKey>, expected: set<string>): set<Uuid> {
      set r | r in rows && DocumentId(client.category, r.sourceId) !in expected :: r.sourceId
    }

    lemma {:induction false} UnexpectedCount(rows: seq<RowKey>, expected: set<string>)
      requires forall i, j :: 0 <= i < j < |rows| ==> rows[i].sourceId != rows[j].sourceId
      ensures |Unexpected(ListedIds(client.category, rows), expected)| == |UnexpectedIds(rows, expected)|
    {
      if rows != [] {
        var front, last := rows[..|rows| - 1], rows[|rows| - 1];
        UnexpectedCount(front, expected);
        var indexed := ListedIds(client.category, rows);
        assert indexed[..|indexed| - 1] == ListedIds(client.category, front);
        assert rows == front + [last];
        var more := if DocumentId(client.category, last.sourceId) !in expected then {last.sourceId} else {};
        assert UnexpectedIds(rows, expected) == UnexpectedIds(front, expected) + more;
        assert last.sourceId !in UnexpectedIds(front, expected);
      }
    }

    /** Without repetition, as many deletes are sent as there are extra documents. */
    lemma ExtraCount(index: Index, boundary: int, expected: set<string>)
      requires expected == ExpectedIds(boundary)
      ensures |Unexpected(Listed(client.category, index, boundary), expected)| == |ExtraIds(db, index, boundary)|
    {
      var keys := set u | u in IdsAbove(index, boundary) :: RowKey(index[u].latestSkiptoken, u);
      var rows := Sorted(keys);
      forall i, j | 0 <= i < j < |rows| ensures rows[i].sourceId != rows[j].sourceId {
        assert rows[i] in keys && rows[j] in keys && Before(rows[i], rows[j]);
      }
      UnexpectedCount(rows, expected);
      forall u ensures u in UnexpectedIds(rows, expected) <==> u in ExtraIds(db, index, boundary) {
        ExpectedIff(boundary, expected, u);
        if u in IdsAbove(index, boundary) {
          assert RowKey(index[u].latestSkiptoken, u) in keys;
          assert RowKey(index[u].latestSkiptoken, u) in rows;
        }
        if u in UnexpectedIds(rows, expected) {
          var r :| r in rows && r.sourceId == u;
          assert r in keys;
        }
      }
      assert UnexpectedIds(rows, expected) == ExtraIds(db, index, boundary);
    }

    lemma ExpectedIff(boundary: int, expected: set<string>, u: Uuid)
      requires expected == ExpectedIds(boundary)
      ensures DocumentId(client.category, u) in expected <==>
        u in db && db[u].Live() && db[u].latestSkiptoken > boundary
    {
      if DocumentId(client.category, u) in expected {
        var v :| v in db && db[v].Live() && db[v].latestSkiptoken > boundary
          && DocumentId(client.category, u) == DocumentId(client.category, v);
        DocumentIdInjective(client.category, u, client.category, v);
      }
    }

    /** What the deletes for the unexpected ids do. */
    ghost predicate DropThem(index: Index, boundary: int, deletes: seq<Operation>) {
      && TwoPhase(client.category, index, deletes) == DropExtras(db, index, boundary)
      && (deletes == [] ==> index == DropExtras(db, index, boundary))
      && (forall op :: op in deletes ==> client.OperationFits(op, U64_MAX))
      && (|IdsAbove(index, boundary)| <= LISTING_ONCE ==> |deletes| == |ExtraIds(db, index, boundary)|)
      && (forall op :: op in deletes ==> op.Delete?)
    }

    lemma UnexpectedDropThem(index: Index, boundary: int, expected: set<string>, indexed: seq<string>)
      requires Valid() && |IdsAbove(index, boundary)| <= LISTING_MAX
      requires expected == ExpectedIds(boundary)
      requires indexed == Fetched(Listed(client.category, index, boundary))
      ensures DropThem(index, boundary, Unexpected(indexed, expected))
    {
      ListedAre(client.category, index, boundary);
      FetchedOnceIff(Listed(client.category, index, boundary));
      UnexpectedAre(indexed, expected);
      var deletes := Unexpected(indexed, expected);
      NoExtras(index, boundary, expected, indexed, deletes);
      DeletesFit(index, boundary, indexed, deletes);
      ExtraCount(index, boundary, expected);
    }

    /** The ids in the index above the boundary that no live row above it expects, as deletes. */
    method ExtraDeletes(boundary: int) returns (deletes: seq<Operation>)
      requires Valid() && |IdsAbove(client.documents, boundary)| <= LISTING_MAX
      ensures DropThem(client.documents, boundary, deletes)
    {
      var expected := ExpectedIds(boundary);
      var indexed := client.DocumentIdsCategoryAfter(boundary);
      deletes := [];
      for n := 0 to |indexed|
        invariant deletes == Unexpected(indexed[..n], expected)
      {
        NextUnexpected(indexed, n, expected);
        if indexed[n] !in expected {
          deletes := deletes + [Delete(indexed[n])];
        }
      }
      assert indexed[..|indexed|] == indexed;
      UnexpectedDropThem(client.documents, boundary, expected, indexed);
    }

    /** Deletes exactly the documents above the boundary that no live row above it expects. */
    method DeleteExtraIndexDocuments(boundary: int)
      returns (r: Result<ScratchStats, ReconcileError>, ghost sent: seq<Operation>)
      requires Valid() && |IdsAbove(client.documents, boundary)| <= LISTING_MAX
      modifies client`documents
      ensures client.documents == TwoPhase(client.category, old(client.documents), sent)
      ensures r.Ok? && Counts(r.value, |UpsertsOf(sent)|, |DeletesOf(sent)|)
      ensures r.Ok? && client.documents == DropExtras(db, old(client.documents), boundary)
      ensures |IdsAbove(old(client.documents), boundary)| <= LISTING_ONCE ==>
        r.value == StatsOf(|ExtraIds(db, old(client.documents), boundary)|, 0, 0).Clamped()
    {
      var deletes := ExtraDeletes(boundary);
      sent := deletes;
      OnlyDeletes(deletes);
      if deletes == [] {
        return Ok(NO_STATS), sent;
      }
      var applied := client.ApplyBatchWithPayloadLimit(deletes, U64_MAX);
      r := Ok(ScratchStats(|deletes|, 0, |deletes|).Clamped());
    }

    lemma DeletesFit(index: Index, boundary: int, indexed: seq<string>, deletes: seq<Operation>)
      requires Valid()
      requires forall id :: id in indexed <==>
        exists u :: u in index && index[u].latestSkiptoken > boundary && id == DocumentId(client.category, u)
      requires forall op :: op in deletes ==> op.Delete? && op.documentId in indexed
      ensures forall op :: op in deletes ==> client.OperationFits(op, U64_MAX)
    {
      forall op | op in deletes ensures client.OperationFits(op, U64_MAX) {
        var u :| u in index && index[u].latestSkiptoken > boundary && op.documentId == DocumentId(client.category, u);
        assert op == Delete(DocumentId(client.category, u));
      }
    }

    lemma NoExtras(index: Index, boundary: int, expected: set<string>, indexed: seq<string>, deletes: seq<Operation>)
      requires expected == ExpectedIds(boundary)
      requires forall id :: id in indexed <==>
        exists u :: u in index && index[u].latestSkiptoken > boundary && id == DocumentId(client.category, u)
      requires forall op :: op in deletes ==> op.Delete? && op.documentId in indexed && op.documentId !in expected
      requires forall i :: 0 <= i < |indexed| && indexed[i] !in expected ==> Delete(indexed[i]) in deletes
      ensures TwoPhase(client.category, index, deletes) == DropExtras(db, index, boundary)
      ensures deletes == [] ==> index == DropExtras(db, index, boundary)
    {
      var c := client.category;
      var left, right := TwoPhase(c, index, deletes), DropExtras(db, index, boundary);
      forall u ensures Lookup(left, u) == Lookup(right, u) {
        TwoPhaseAt(c, index, deletes, u);
        ExtraIsDeleted(index, boundary, expected, indexed, deletes, u);
        var last := LastFor(c, deletes, u);
        if last.Some? {
          assert last.value in deletes;
        }
      }
      SameLookups(left, right);
      if deletes == [] {
        assert TwoPhase(c, index, deletes) == index;
      }
    }

    lemma ExtraIsDeleted(
      index: Index, boundary: int, expected: set<string>, indexed: seq<string>, deletes: seq<Operation>, u: Uuid)
      requires expected == ExpectedIds(boundary)
      requires forall id :: id in indexed <==>
        exists v :: v in index && index[v].latestSkiptoken > boundary && id == DocumentId(client.category, v)
      requires forall op :: op in deletes ==> op.Delete? && op.documentId in indexed && op.documentId !in expected
      requires forall i :: 0 <= i < |indexed| && indexed[i] !in expected ==> Delete(indexed[i]) in deletes
      ensures DeletedSomewhere(client.category, deletes, u) <==> u in ExtraIds(db, index, boundary)
    {
      var c := client.category;
      if DeletedSomewhere(c, deletes, u) {
        var v :| v in index && index[v].latestSkiptoken > boundary && DocumentId(c, u) == DocumentId(c, v);
        DocumentIdInjective(c, u, c, v);
      }
      if u in ExtraIds(db, index, boundary) {
        assert DocumentId(c, u) in indexed;
        if DocumentId(c, u) in expected {
          var v :| v in db && db[v].Live() && db[v].latestSkiptoken > boundary && DocumentId(c, u) == DocumentId(c, v);
          DocumentIdInjective(c, u, c, v);
          assert false;
        }
        var i :| 0 <= i < |indexed| && indexed[i] == DocumentId(c, u);
      }
    }

    // ----- the category loop

    /** The documents of a run can be listed without repetition. */
    ghost predicate Listable(index: Index) {
      |index.Keys + db.Keys| <= LISTING_ONCE
    }

    lemma ListableAbove(index: Index, boundary: int)
      requires Listable(index)
      ensures |IdsAbove(index, boundary)| <= LISTING_ONCE
    {
      FiniteSets.SubsetCardinality(IdsAbove(index, boundary), index.Keys + db.Keys);
    }

    /** One pass: verify a prefix, drop extras on a mismatch, re-apply every window above it. */
    method RunPass(before: ScratchStats, lastTarget: Option<int>) returns (r: Result<Report, ReconcileError>)
      requires Valid() && '_' !in client.category && before == before.Clamped()
      requires Fits(db, client.documents) && Listable(client.documents)
      modifies this`scratch, client`documents
      ensures r.Ok? ==>
        IsReportOf(r.value, old(client.documents), client.documents, before, lastTarget)
      ensures r.Err? ==> Stale(db, client.documents) <= Stale(db, old(client.documents))
      ensures AllRowsFit() ==> r.Ok?
    {
      ghost var start := client.documents;
      var highest, boundary, totals := VerifyPrefix(before);
      ghost var kept := client.documents;
      PassTotals(before, totals, ExtrasDropped(db, start, boundary), boundary);
      var stats, target, _, settled := ApplyWindows(boundary, totals);
      NoNewStale(start, kept, settled);
      if stats.Err? {
        return Err(stats.error);
      }
      SettledIsPass(start, boundary);
      PassReport(start, client.documents, boundary, before, stats.value, target, lastTarget);
      r := Ok(Report(PostgresCount(db, None), IndexCount(client.documents, None), highest,
                     boundary, if target.Some? then target else lastTarget, stats.value));
    }

    /** Settling every row above the boundary makes the pass. */
    lemma SettledIsPass(start: Index, boundary: int)
      requires '_' !in client.category && Fits(db, start) && boundary == Boundary(db, start)
      ensures Settle(db, Kept(db, start, boundary), Stored(RowsAbove(db, boundary))) == Pass(db, start)
      ensures PostgresCount(db, None) == |Projection(db)|
    {
      StoredSettles(Kept(db, start, boundary), RowsAbove(db, boundary));
      LiveCountIsProjectionCount(db, boundary);
    }

    lemma PassReport(
      start: Index, after: Index, boundary: int, before: ScratchStats, stats: ScratchStats, target: Option<int>,
      lastTarget: Option<int>)
      requires IndexInI64(start) && boundary == Boundary(db, start) && after == Pass(db, start)
      requires PostgresCount(db, None) == |Projection(db)| && IsTarget(db, boundary, target)
      requires stats == before.Plus(PassStats(db, start, boundary)).Clamped()
      ensures IsReportOf(Report(PostgresCount(db, None), IndexCount(after, None), Highest(start), boundary,
        if target.Some? then target else lastTarget, stats), start, after, before, lastTarget)
    {
      PassCounts(db, start, boundary, before, stats);
      LastTargetStays(boundary, target);
    }

    lemma LastTargetStays(boundary: int, target: Option<int>)
      requires IsTarget(db, boundary, target)
      ensures target.None? <==> RowsAbove(db, boundary) == {}
    {
      if target.Some? {
        var u :| u in db && db[u].latestSkiptoken == target.value;
        assert u in RowsAbove(db, boundary);
      }
    }

    /** The boundary a pass starts from; on a mismatch below it the extras above it are dropped. */
    method VerifyPrefix(before: ScratchStats) returns (highest: Option<int>, boundary: int, totals: ScratchStats)
      requires Valid() && Fits(db, client.documents) && Listable(client.documents)
      modifies client`documents
      ensures highest == Highest(old(client.documents)) && boundary == Boundary(db, old(client.documents))
      ensures client.documents == Kept(db, old(client.documents), boundary)
      ensures var extras := ExtrasDropped(db, old(client.documents), boundary);
        totals == before.Add(StatsOf(extras, 0, 0).Clamped()) || (extras == 0 && totals == before)
    {
      ghost var start := client.documents;
      highest := client.HighestSkiptoken();
      HighestIsUnique(start, highest, Highest(start));
      var highestBoundary := if highest.Some? then highest.value else 0;
      var postgresPrefix := PostgresCount(db, Some(highestBoundary));
      var meiliPrefix := IndexCount(client.documents, Some(highestBoundary));
      boundary, totals := highestBoundary, before;
      if postgresPrefix != MeiliPrefixI64(meiliPrefix) {
        ghost var probes;
        boundary, probes := FindVerifiedPrefix(highestBoundary);
        ListableAbove(start, boundary);
        var dropped, _ := DeleteExtraIndexDocuments(boundary);
        totals := totals.Add(dropped.value);
      }
    }

    lemma PassTotals(before: ScratchStats, totals: ScratchStats, extras: nat, b: int)
      requires '_' !in client.category && before == before.Clamped()
      requires totals == before.Add(StatsOf(extras, 0, 0).Clamped()) || (extras == 0 && totals == before)
      ensures totals == totals.Clamped()
      ensures totals.Plus(StatsFor(RowsAbove(db, b))).Clamped()
        == before.Plus(StatsOf(extras, |LiveAbove(db, b)|, |Reapplied(db, b)|)).Clamped()
    {
      assert LiveIn(RowsAbove(db, b)) == LiveAbove(db, b);
      assert Stored(RowsAbove(db, b)) == Reapplied(db, b);
      LiveAreStored(RowsAbove(db, b));
      AddInTwo(before, totals, extras, |LiveAbove(db, b)|, |Reapplied(db, b)|);
    }

    lemma AddInTwo(before: ScratchStats, totals: ScratchStats, extras: nat, upserts: nat, rows: nat)
      requires upserts <= rows && before == before.Clamped()
      requires totals == before.Add(StatsOf(extras, 0, 0).Clamped()) || (extras == 0 && totals == before)
      ensures totals == totals.Clamped()
      ensures totals.Plus(StatsOf(0, upserts, rows)).Clamped() == before.Plus(StatsOf(extras, upserts, rows)).Clamped()
    {}

    lemma NoNewStale(start: Index, kept: Index, settled: set<Uuid>)
      requires forall u :: u in kept ==> u in start && kept[u] == start[u]
      ensures Stale(db, Settle(db, kept, settled)) <= Stale(db, start)
    {
      forall u | u in Stale(db, Settle(db, kept, settled)) ensures u in Stale(db, start) {
        SettleAt(db, kept, settled, u);
      }
    }

    lemma StoredSettles(index: Index, rows: set<Uuid>)
      requires '_' !in client.category && rows <= db.Keys
      ensures Settle(db, index, Stored(rows)) == Settle(db, index, rows)
    {
      forall u ensures Lookup(Settle(db, index, Stored(rows)), u) == Lookup(Settle(db, index, rows), u) {
        SettleAt(db, index, Stored(rows), u);
        SettleAt(db, index, rows, u);
      }
      SameLookups(Settle(db, index, Stored(rows)), Settle(db, index, rows));
    }

    /** The index only lacks documents, or only has extra ones. */
    ghost predicate IsOneSided(index: Index) {
      OnlyMissing(db, index) || OnlyExtra(db, index)
    }

    /** A run that goes on has removed a stale document with every pass; `left` are left. */
    ghost predicate OnTheWay(run: seq<Index>, first: Index, now: Index, left: nat) {
      && |run| > 0 && run[0] == first && run[|run| - 1] == now && left == |Stale(db, now)|
      && Stale(db, now) <= Stale(db, first) && |run| - 1 + left <= |Stale(db, first)|
      && (|run| > 1 ==> !IsOneSided(first))
    }

    lemma StillOnTheWay(run: seq<Index>, first: Index, now: Index, after: Index, left: nat) returns (fewer: nat)
      requires OnTheWay(run, first, now, left) && Stale(db, after) <= Stale(db, now)
      requires |Stale(db, after)| < |Stale(db, now)| && !IsOneSided(now)
      ensures fewer < left && OnTheWay(run + [after], first, after, fewer)
    {
      fewer := |Stale(db, after)|;
    }

    /** What the loop has achieved when it returns. */
    ghost predicate IsOutcome(
      r: Result<Report, ReconcileError>, run: seq<Index>, bounds: seq<int>, first: Index, last: Index)
    {
      && Stale(db, last) <= Stale(db, first)
      && (r.Ok? ==>
            && Reports(r.value, run, bounds, first.Keys + db.Keys)
            && run[0] == first && run[|run| - 1] == last && |run| - 1 <= |Stale(db, first)| + 1
            && (IsOneSided(first) ==> |run| == 2 && last == Projection(db)))
    }

    lemma Arrived(
      r: Result<Report, ReconcileError>, soFar: seq<Index>, run: seq<Index>, bounds: seq<int>, ids: set<Uuid>,
      first: Index, before: Index, last: Index, left: nat)
      requires OnTheWay(soFar, first, before, left) && Stale(db, last) <= Stale(db, before)
      requires ids == first.Keys + db.Keys
      requires r.Ok? ==>
        && run == soFar + [last] && Reports(r.value, run, bounds, ids)
        && (IsOneSided(before) ==> last == Projection(db))
      ensures IsOutcome(r, run, bounds, first, last)
      ensures r.Ok? ==> last == Rebuilt(db, first, r.value.verifiedPrefixBoundary)
      ensures r.Ok? ==> (last == Projection(db) <==> KeptPrefixIsRight(db, first, r.value.verifiedPrefixBoundary))
    {
      if r.Ok? { ReportedRebuild(r.value, run, bounds, ids); }
    }

    lemma ReportedRebuild(report: Report, run: seq<Index>, bounds: seq<int>, ids: set<Uuid>)
      requires Reports(report, run, bounds, ids)
      ensures |run| > 1 && var b, last := report.verifiedPrefixBoundary, run[|run| - 1];
        last == Rebuilt(db, run[0], b) && (last == Projection(db) <==> KeptPrefixIsRight(db, run[0], b))
    {}

    /** What the report of a whole run says about it and about the index it started from. */
    ghost predicate Reports(report: Report, run: seq<Index>, bounds: seq<int>, ids: set<Uuid>) {
      && IsWholeRun(db, run, ids) && AreBounds(db, run, bounds)
      && var b, last := report.verifiedPrefixBoundary, run[|run| - 1];
        && b == bounds[|run| - 2] && report.highest == Highest(run[|run| - 2])
        && last == Rebuilt(db, run[0], b) && Suffix(last, b) == Suffix(Projection(db), b)
        && (last == Projection(db) <==> KeptPrefixIsRight(db, run[0], b))
        && |last| == |Projection(db)| == report.postgresCount == report.meilisearchCount
        && Counts(report.stats, UpsertsSent(db, bounds, |run| - 1), DeletesSent(db, run, bounds, |run| - 1))
        && IsTarget(db, b, report.targetBoundary)
    }

    /** The index a reconciliation finds determines its whole report. */
    lemma ReportIsDetermined(
      a: Report, b: Report, run: seq<Index>, other: seq<Index>, bounds: seq<int>, otherBounds: seq<int>, ids: set<Uuid>)
      requires Reports(a, run, bounds, ids) && Reports(b, other, otherBounds, ids) && run[0] == other[0]
      ensures a == b && run == other && bounds == otherBounds
    {
      RunIsDetermined(db, run, other, ids);
      BoundsAreDetermined(db, run, bounds, otherBounds);
      CountsAreDetermined(
        a.stats, b.stats, UpsertsSent(db, bounds, |run| - 1), DeletesSent(db, run, bounds, |run| - 1));
      TargetIsUnique(db, a.verifiedPrefixBoundary, a.targetBoundary, b.targetBoundary);
    }

    /**
     Passes until the totals agree. `run` holds the indexes before and after each pass and is
     determined by the first; all its passes together are one rebuild of the index the call found,
     at the boundary it reports. The result is the projection if and only if the documents found at
     or below that boundary, without those re-applied, are the projection's.
     */
    method ReconcileCategory()
      returns (r: Result<Report, ReconcileError>, ghost run: seq<Index>, ghost bounds: seq<int>)
      requires Valid() && '_' !in client.category
      requires Fits(db, client.documents) && PositiveTokens(db, client.documents) && Listable(client.documents)
      modifies this`scratch, client`documents
      ensures AllRowsFit() ==> r.Ok?
      ensures IsOutcome(r, run, bounds, old(client.documents), client.documents)
      ensures r.Ok? ==>
        client.documents == Rebuilt(db, old(client.documents), r.value.verifiedPrefixBoundary)
      ensures r.Ok? ==>
        var b := r.value.verifiedPrefixBoundary;
        client.documents == Projection(db) <==> KeptPrefixIsRight(db, old(client.documents), b)
    {
      ghost var first, ids := client.documents, client.documents.Keys + db.Keys;
      ghost var left: nat := |Stale(db, first)|;
      var totals, target := NO_STATS, None;
      run, bounds := [first], [];
      StartOfRun(db, first, ids);
      while true
        invariant Running(db, run, bounds, ids, totals, target)
        invariant OnTheWay(run, first, client.documents, left)
        decreases left
      {
        ghost var before, soFar := client.documents, run;
        var completed;
        r, completed, run, bounds := PassOfRun(run, bounds, ids, totals, target);
        if r.Err? || completed {
          Arrived(r, soFar, run, bounds, ids, first, before, client.documents, left);
          return;
        }
        left := StillOnTheWay(soFar, first, before, client.documents, left);
        totals, target := r.value.stats, r.value.targetBoundary;
      }
    }

    /** The next pass of a run that goes on, and whether the totals agree after it. */
    method PassOfRun(
      ghost run: seq<Index>, ghost bounds: seq<int>, ghost ids: set<Uuid>, totals: ScratchStats, target: Option<int>)
      returns (r: Result<Report, ReconcileError>, completed: bool, ghost more: seq<Index>, ghost moreBounds: seq<int>)
      requires Valid() && '_' !in client.category && |ids| <= LISTING_ONCE
      requires Running(db, run, bounds, ids, totals, target) && run[|run| - 1] == client.documents
      modifies this`scratch, client`documents
      ensures AllRowsFit() ==> r.Ok?
      ensures Stale(db, client.documents) <= Stale(db, old(client.documents))
      ensures r.Ok? ==> more == run + [client.documents]
      ensures r.Ok? && completed ==> Reports(r.value, more, moreBounds, ids)
      ensures r.Ok? && !completed ==>
        && |Stale(db, client.documents)| < |Stale(db, old(client.documents))|
        && Running(db, more, moreBounds, ids, r.value.stats, r.value.targetBoundary)
      ensures r.Ok? && IsOneSided(old(client.documents))
        ==> completed && client.documents == Projection(db)
    {
      RunStaysSound(db, run, ids, |run| - 1);
      SoundIsListable(client.documents, ids);
      r := RunPass(totals, target);
      completed, more, moreBounds := false, run, bounds;
      if r.Ok? {
        moreBounds := AfterPass(r.value, run, bounds, ids, totals, target, client.documents);
        more := run + [client.documents];
        completed := r.value.postgresCount == MeiliPrefixI64(r.value.meilisearchCount);
      }
    }

    predicate Completed(report: Report) {
      report.postgresCount == MeiliPrefixI64(report.meilisearchCount)
    }

    /** What the report of a pass says about the run with that pass. */
    ghost predicate IsReportOf(report: Report, before: Index, after: Index, totals: ScratchStats, target: Option<int>) {
      var b := report.verifiedPrefixBoundary;
      && IndexInI64(before) && after == Pass(db, before) && b == Boundary(db, before)
      && report.postgresCount == |Projection(db)| && report.meilisearchCount == |after|
      && report.highest == Highest(before)
      && Added(report.stats, totals, |LiveAbove(db, b)|, ExtrasDropped(db, before, b) + |DeletedAbove(db, b)|)
      && IsTarget(db, b, if RowsAbove(db, b) == {} then None else report.targetBoundary)
      && (RowsAbove(db, b) == {} ==> report.targetBoundary == target)
    }

    lemma AfterPass(
      report: Report, run: seq<Index>, bounds: seq<int>, ids: set<Uuid>, totals: ScratchStats, target: Option<int>,
      after: Index) returns (all: seq<int>)
      requires Running(db, run, bounds, ids, totals, target)
      requires IsReportOf(report, run[|run| - 1], after, totals, target)
      ensures Stale(db, after) <= Stale(db, run[|run| - 1])
      ensures Completed(report) ==> Reports(report, run + [after], all, ids)
      ensures !Completed(report) ==>
        && |Stale(db, after)| < |Stale(db, run[|run| - 1])|
        && Running(db, run + [after], all, ids, report.stats, report.targetBoundary)
      ensures IsOneSided(run[|run| - 1]) ==> Completed(report) && after == Projection(db)
    {
      RunStaysSound(db, run, ids, |run| - 1);
      CompletedIff(report, run[|run| - 1], after, totals, target, ids);
      NextReport(report, run, bounds, ids, totals, target, after);
      all := bounds + [report.verifiedPrefixBoundary];
      if Completed(report) {
        all := LastReport(report, run, all, ids, after);
      }
    }

    lemma LastReport(
      report: Report, run: seq<Index>, bounds: seq<int>, ids: set<Uuid>, after: Index) returns (all: seq<int>)
      requires |run| > 0 && IsRun(db, run + [after], ids) && GoesOn(db, run + [after]) && TotalsAgree(db, after)
      requires |bounds| == |run| && BoundsUpTo(db, run + [after], bounds)
      requires report.verifiedPrefixBoundary == bounds[|run| - 1] && report.highest == Highest(run[|run| - 1])
      requires |after| == |Projection(db)| == report.postgresCount == report.meilisearchCount
      requires report.stats == TotalStats(db, run + [after], bounds, |bounds|).Clamped()
      requires IsTarget(db, report.verifiedPrefixBoundary, report.targetBoundary)
      ensures Reports(report, run + [after], all, ids)
    {
      LastIndexes(run, after);
      all := FinalReport(report, run + [after], bounds, ids);
    }

    lemma LastIndexes(run: seq<Index>, after: Index)
      requires |run| > 0
      ensures (run + [after])[|run|] == after && (run + [after])[|run| - 1] == run[|run| - 1]
    {}

    lemma CompletedIff(
      report: Report, before: Index, after: Index, totals: ScratchStats, target: Option<int>, ids: set<Uuid>)
      requires IsSound(db, before, ids) && IsReportOf(report, before, after, totals, target)
      ensures Completed(report) <==> TotalsAgree(db, after)
      ensures TotalsAgree(db, after) ==> |after| == |Projection(db)| == report.postgresCount == report.meilisearchCount
      ensures Stale(db, after) <= Stale(db, before)
      ensures !TotalsAgree(db, after) ==> |Stale(db, after)| < |Stale(db, before)|
      ensures IsOneSided(before) ==> TotalsAgree(db, after) && after == Projection(db)
    {
      PassResults(before, after);
    }

    lemma NextReport(
      report: Report, run: seq<Index>, bounds: seq<int>, ids: set<Uuid>, totals: ScratchStats, target: Option<int>,
      after: Index)
      requires Running(db, run, bounds, ids, totals, target)
      requires IsReportOf(report, run[|run| - 1], after, totals, target)
      ensures var more, moreBounds := run + [after], bounds + [report.verifiedPrefixBoundary];
        && IsRun(db, more, ids) && GoesOn(db, more) && |moreBounds| == |run| && BoundsUpTo(db, more, moreBounds)
        && report.stats == TotalStats(db, more, moreBounds, |run|).Clamped()
        && IsTarget(db, report.verifiedPrefixBoundary, report.targetBoundary)
        && report.highest == Highest(run[|run| - 1])
        && (!TotalsAgree(db, after) ==> Running(db, more, moreBounds, ids, report.stats, report.targetBoundary))
    {
      PassCounts(db, run[|run| - 1], report.verifiedPrefixBoundary, totals, report.stats);
      NextOfRun(db, run, bounds, ids, totals, target, after, report.verifiedPrefixBoundary,
                report.stats, report.targetBoundary);
    }

    lemma FinalReport(report: Report, run: seq<Index>, bounds: seq<int>, ids: set<Uuid>) returns (all: seq<int>)
      requires IsRun(db, run, ids) && GoesOn(db, run) && |run| > 1 && TotalsAgree(db, run[|run| - 1])
      requires |bounds| == |run| - 1 && BoundsUpTo(db, run, bounds)
      requires report.verifiedPrefixBoundary == bounds[|run| - 2] && report.highest == Highest(run[|run| - 2])
      requires |run[|run| - 1]| == |Projection(db)| == report.postgresCount == report.meilisearchCount
      requires report.stats == TotalStats(db, run, bounds, |bounds|).Clamped()
      requires IsTarget(db, report.verifiedPrefixBoundary, report.targetBoundary)
      ensures Reports(report, run, all, ids)
    {
      all := EndOfRun(db, run, bounds, ids, report.stats);
    }

    lemma SoundIsListable(index: Index, ids: set<Uuid>)
      requires IsSound(db, index, ids) && db.Keys <= ids && |ids| <= LISTING_ONCE
      ensures Fits(db, index) && PositiveTokens(db, index) && Listable(index)
    {
      FiniteSets.SubsetCardinality(index.Keys + db.Keys, ids);
    }

    lemma PassResults(before: Index, after: Index)
      requires Fits(db, before) && PositiveTokens(db, before) && after == Pass(db, before)
      ensures Fits(db, after) && PositiveTokens(db, after)
      ensures Stale(db, after) <= Stale(db, before)
      ensures !TotalsAgree(db, after) ==> |Stale(db, after)| < |Stale(db, before)|
      ensures TotalsAgree(db, after) <==> |Projection(db)| == |after|
      ensures TotalsAgree(db, after) <==> |Projection(db)| == MeiliPrefixI64(|after|)
      ensures OnlyMissing(db, before) || OnlyExtra(db, before)
        ==> after == Projection(db) && TotalsAgree(db, after)
    {
      PassFits(db, before);
      PassShrinksStale(db, before);
      FiniteSets.SubsetCardinality(Stale(db, after), Stale(db, before));
      AgreementIsExact(db, after, 0);
      LiveCountIsProjectionCount(db, 0);
      if OnlyMissing(db, before) || OnlyExtra(db, before) {
        OneSidedErrorsConvergeInOnePass(db, before);
      }
    }
  }
}
