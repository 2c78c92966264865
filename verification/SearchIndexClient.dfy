/** The search index and its batch interface, for the documents of one category. */
module SearchIndexClient {
  import opened Integers
  import opened Wrappers
  import opened DocumentIds
  import opened JsonChunks
  import opened ReconcilerModel
  import opened RowOrder

  /** An upsert carries the document; a delete carries only the text of the document id. */
  datatype Operation = Upsert(sourceId: Uuid, doc: Doc) | Delete(documentId: string)

  function ApplyOne(category: string, index: Index, op: Operation): Index {
    match op
    case Upsert(u, doc) => index[u := doc]
    case Delete(id) => index - (set u | u in index && DocumentId(category, u) == id)
  }

  /** The index after the operations, one by one in order. */
  function InOrder(category: string, index: Index, ops: seq<Operation>): Index {
    if ops == [] then index
    else ApplyOne(category, InOrder(category, index, ops[..|ops| - 1]), ops[|ops| - 1])
  }

  function UpsertsOf(ops: seq<Operation>): (upserts: seq<Operation>)
    ensures forall op :: op in upserts ==> op.Upsert? && op in ops
    ensures forall op :: op in ops && op.Upsert? ==> op in upserts
  {
    if ops == [] then []
    else UpsertsOf(ops[..|ops| - 1]) + (if ops[|ops| - 1].Upsert? then [ops[|ops| - 1]] else [])
  }

  function DeletesOf(ops: seq<Operation>): (deletes: seq<Operation>)
    ensures forall op :: op in deletes ==> op.Delete? && op in ops
    ensures forall op :: op in ops && op.Delete? ==> op in deletes
  {
    if ops == [] then []
    else DeletesOf(ops[..|ops| - 1]) + (if ops[|ops| - 1].Delete? then [ops[|ops| - 1]] else [])
  }

  lemma {:induction false} EachIsUpsertOrDelete(ops: seq<Operation>)
    ensures |UpsertsOf(ops)| + |DeletesOf(ops)| == |ops|
  {
    if ops != [] {
      EachIsUpsertOrDelete(ops[..|ops| - 1]);
    }
  }

  lemma {:induction false} OnlyDeletes(ops: seq<Operation>)
    requires forall op :: op in ops ==> op.Delete?
    ensures |UpsertsOf(ops)| == 0 && |DeletesOf(ops)| == |ops|
  {
    if ops != [] {
      var front, last := ops[..|ops| - 1], ops[|ops| - 1];
      assert last in ops && forall op :: op in front ==> op in ops;
      OnlyDeletes(front);
      assert UpsertsOf(ops) == UpsertsOf(front) + [];
    }
  }

  /** All upserts first, then all deletes: what a batch call sends. */
  function TwoPhase(category: string, index: Index, ops: seq<Operation>): Index {
    InOrder(category, InOrder(category, index, UpsertsOf(ops)), DeletesOf(ops))
  }

  // ----- listing documents page by page

  const PAGE_LIMIT: nat := 1000
  const FULL_PAGES: nat := U32_MAX / PAGE_LIMIT

  /** The longest listing whose pages ever end. */
  const LISTING_MAX: nat := U32_MAX + PAGE_LIMIT

  /** The longest listing fetched without repetition: the pages at exact offsets. */
  const LISTING_ONCE: nat := PAGE_LIMIT * (FULL_PAGES + 1)

  function IdsAbove(index: Index, boundary: int): set<Uuid> {
    set u | u in index && index[u].latestSkiptoken > boundary
  }

  lemma {:induction false} KeysCount(index: Index, ids: set<Uuid>)
    requires ids <= index.Keys
    ensures |set u | u in ids :: RowKey(index[u].latestSkiptoken, u)| == |ids|
    decreases |ids|
  {
    var keys := set v | v in ids :: RowKey(index[v].latestSkiptoken, v);
    if u :| u in ids {
      KeysCount(index, ids - {u});
      var rest := set v | v in ids - {u} :: RowKey(index[v].latestSkiptoken, v);
      assert keys == rest + {RowKey(index[u].latestSkiptoken, u)};
      assert RowKey(index[u].latestSkiptoken, u) !in rest;
    } else {
      assert keys == {};
    }
  }

  /** The documents above a boundary in the order the server lists them; any fixed order will do. */
  function Listed(category: string, index: Index, boundary: int): seq<string> {
    ListedIds(category, Sorted(set u | u in IdsAbove(index, boundary) :: RowKey(index[u].latestSkiptoken, u)))
  }

  lemma ListedAre(category: string, index: Index, boundary: int)
    ensures |Listed(category, index, boundary)| == |IdsAbove(index, boundary)|
    ensures forall id :: id in Listed(category, index, boundary) <==>
      exists u :: u in index && index[u].latestSkiptoken > boundary && id == DocumentId(category, u)
  {
    var above := IdsAbove(index, boundary);
    var keys := set u | u in above :: RowKey(index[u].latestSkiptoken, u);
    var listed := Listed(category, index, boundary);
    KeysCount(index, above);
    forall u | u in above ensures DocumentId(category, u) in listed {
      assert RowKey(index[u].latestSkiptoken, u) in keys;
      var i :| 0 <= i < |Sorted(keys)| && Sorted(keys)[i] == RowKey(index[u].latestSkiptoken, u);
      assert listed[i] == DocumentId(category, u);
    }
    forall id | id in listed ensures exists u :: u in above && id == DocumentId(category, u) {
      var i :| 0 <= i < |listed| && listed[i] == id;
      assert Sorted(keys)[i] in keys;
    }
  }

  function ListedIds(category: string, rows: seq<RowKey>): (ids: seq<string>)
    ensures |ids| == |rows| && forall i :: 0 <= i < |rows| ==> ids[i] == DocumentId(category, rows[i].sourceId)
  {
    seq(|rows|, i requires 0 <= i < |rows| => DocumentId(category, rows[i].sourceId))
  }

  function PageAt(listed: seq<string>, offset: nat, limit: nat): seq<string> {
    if offset >= |listed| then []
    else if offset + limit >= |listed| then listed[offset..] else listed[offset..offset + limit]
  }

  /** The offset of the k-th page: multiples of the page size, up to u32::MAX. */
  function OffsetAt(k: nat): nat {
    if PAGE_LIMIT * k <= U32_MAX then PAGE_LIMIT * k else U32_MAX
  }

  /** The loop stops at a page that reaches the end. */
  predicate StopsAt(k: nat, total: nat) {
    OffsetAt(k) + PAGE_LIMIT >= total
  }

  /** What all pages together hold: past the saturated offset some documents come twice. */
  function Fetched(listed: seq<string>): seq<string> {
    if |listed| <= LISTING_ONCE then listed else listed[..LISTING_ONCE] + listed[U32_MAX..]
  }

  /** The paging loop ends if and only if the listing is not longer than u32::MAX and a page. */
  lemma PagingEndsIff(total: nat)
    ensures (exists k :: StopsAt(k, total)) <==> total <= 0xFFFF_FFFF + 1000
  {
    if total <= LISTING_MAX {
      assert StopsAt(FULL_PAGES + 1, total);
    }
  }

  /** Each listed document is fetched exactly once if and only if the offsets never saturate. */
  lemma FetchedOnceIff(listed: seq<string>)
    requires |listed| <= LISTING_MAX
    ensures Fetched(listed) == listed <==> |listed| <= 4_294_968_000
    ensures forall id :: id in Fetched(listed) <==> id in listed
  {
    if |listed| > LISTING_ONCE {
      assert listed == listed[..LISTING_ONCE] + listed[LISTING_ONCE..];
      assert listed[U32_MAX..] == listed[U32_MAX..LISTING_ONCE] + listed[LISTING_ONCE..];
      assert |Fetched(listed)| > |listed|;
    }
  }

  /** Before page `pages`: the pages so far are the listing up to there, which goes on. */
  ghost predicate Fetching(listed: seq<string>, pages: nat, ids: seq<string>) {
    && |listed| <= LISTING_MAX && pages <= FULL_PAGES + 1
    && (pages > 0 ==> PAGE_LIMIT * pages < |listed|)
    && PAGE_LIMIT * pages <= |listed| && ids == listed[..PAGE_LIMIT * pages]
  }

  lemma FetchedPage(listed: seq<string>, pages: nat, ids: seq<string>)
    requires Fetching(listed, pages, ids)
    ensures var more := ids + PageAt(listed, OffsetAt(pages), PAGE_LIMIT);
      if StopsAt(pages, |listed|) then more == Fetched(listed)
      else pages <= FULL_PAGES && Fetching(listed, pages + 1, more)
  {
    var upTo := PAGE_LIMIT * pages;
    assert listed == listed[..upTo] + listed[upTo..];
    if !StopsAt(pages, |listed|) {
      assert listed[..upTo + PAGE_LIMIT] == listed[..upTo] + listed[upTo..upTo + PAGE_LIMIT];
    }
  }

  // ----- the client

  class MeiliIndex {
    const category: string
    const toJson: Operation -> Bytes
    const decode: Bytes -> seq<Operation>
    var documents: Index

    constructor (category: string, toJson: Operation -> Bytes, decode: Bytes -> seq<Operation>, documents: Index)
      ensures this.category == category && this.toJson == toJson && this.decode == decode
      ensures this.documents == documents
    {
      this.category := category;
      this.toJson := toJson;
      this.decode := decode;
      this.documents := documents;
    }

    /** The server reads from a posted body what was written into it. */
    ghost predicate Decodes() {
      forall items: seq<Operation> :: decode(ArrayBody(Serialized(items, toJson))) == items
    }

    predicate OperationFits(op: Operation, maxPayloadBytes: nat) {
      ItemFits(toJson(op), maxPayloadBytes)
    }

    /** The latest_skiptoken of the first hit sorted descending. */
    method HighestSkiptoken() returns (highest: Option<int>)
      ensures IsHighest(documents, highest)
    {
      highest := None;
      var rest := documents.Keys;
      while rest != {}
        invariant rest <= documents.Keys
        invariant highest.None? ==> rest == documents.Keys
        invariant highest.Some? ==> exists u :: u in documents && documents[u].latestSkiptoken == highest.value
        invariant highest.Some? ==> forall u :: u in documents && u !in rest ==>
          documents[u].latestSkiptoken <= highest.value
        decreases rest
      {
        var u :| u in rest;
        if highest.None? || highest.value < documents[u].latestSkiptoken {
          highest := Some(documents[u].latestSkiptoken);
        }
        rest := rest - {u};
      }
    }

    /** One page of the listing, and how long the listing is. */
    method FetchDocuments(offset: nat, limit: nat, boundary: int) returns (results: seq<string>, total: nat)
      ensures var listed := Listed(category, documents, boundary);
        results == PageAt(listed, offset, limit) && total == |listed|
    {
      var listed := Listed(category, documents, boundary);
      results, total := PageAt(listed, offset, limit), |listed|;
    }

    /** Page after page, with an offset that saturates. */
    method DocumentIdsCategoryAfter(boundary: int) returns (ids: seq<string>)
      requires |IdsAbove(documents, boundary)| <= LISTING_MAX
      ensures ids == Fetched(Listed(category, documents, boundary))
    {
      ghost var listed := Listed(category, documents, boundary);
      ListedAre(category, documents, boundary);
      ghost var pages := 0;
      var offset := 0;
      ids := [];
      while true
        invariant Fetching(listed, pages, ids) && offset == OffsetAt(pages)
        decreases FULL_PAGES + 1 - pages
      {
        var results, total := FetchDocuments(offset, PAGE_LIMIT, boundary);
        FetchedPage(listed, pages, ids);
        ids := ids + results;
        if offset + PAGE_LIMIT >= total {
          return;
        }
        pages := pages + 1;
        offset := if offset + PAGE_LIMIT <= U32_MAX then offset + PAGE_LIMIT else U32_MAX;
      }
    }

    /** One posted payload: the server applies the items it reads from the body. */
    method PostChunk(chunk: Chunk)
      modifies this`documents
      ensures documents == InOrder(category, old(documents), decode(chunk.body))
    {
      var items := decode(chunk.body);
      var n := 0;
      while n < |items|
        invariant 0 <= n <= |items|
        invariant documents == InOrder(category, old(documents), items[..n])
      {
        assert items[..n + 1][..n] == items[..n];
        documents := ApplyOne(category, documents, items[n]);
        n := n + 1;
      }
      assert items[..n] == items;
    }

    /** What the server reads from a chunk is the piece of the items the chunk was made of. */
    lemma ChunkIsItsItems(chunks: seq<Chunk>, items: seq<Operation>, cuts: seq<nat>, k: nat)
      requires Decodes() && ChunkAt(chunks, Serialized(items, toJson), cuts, k)
      ensures cuts[k] <= cuts[k + 1] <= |items| && decode(chunks[k].body) == items[cuts[k]..cuts[k + 1]]
    {
      var piece := items[cuts[k]..cuts[k + 1]];
      assert Serialized(piece, toJson) == Serialized(items, toJson)[cuts[k]..cuts[k + 1]];
      assert decode(ArrayBody(Serialized(piece, toJson))) == piece;
    }

    lemma NextPiece(index: Index, items: seq<Operation>, lo: nat, hi: nat)
      requires lo <= hi <= |items|
      ensures InOrder(category, InOrder(category, index, items[..lo]), items[lo..hi])
        == InOrder(category, index, items[..hi])
    {
      InOrderAppend(category, index, items[..lo], items[lo..hi]);
      assert items[..hi] == items[..lo] + items[lo..hi];
    }

    /** Posts the operations in chunks; nothing is posted when some item cannot fit. */
    method PostAll(items: seq<Operation>, maxPayloadBytes: nat) returns (r: Result<(), ChunkError>)
      requires Decodes()
      modifies this`documents
      ensures r.Ok? <==> forall op :: op in items ==> OperationFits(op, maxPayloadBytes)
      ensures documents == if r.Ok? then InOrder(category, old(documents), items) else old(documents)
    {
      var chunked, cuts := JsonArrayChunks(items, toJson, maxPayloadBytes);
      AllSerializedFit(items, toJson, maxPayloadBytes);
      if chunked.Err? {
        return Err(chunked.error);
      }
      var k := 0;
      while k < |chunked.value|
        invariant 0 <= k <= |chunked.value| && cuts[k] <= |items|
        invariant documents == InOrder(category, old(documents), items[..cuts[k]])
      {
        ChunkIsItsItems(chunked.value, items, cuts, k);
        NextPiece(old(documents), items, cuts[k], cuts[k + 1]);
        PostChunk(chunked.value[k]);
        k := k + 1;
      }
      assert items[..cuts[k]] == items;
      r := Ok(());
    }

    /** Upserts first, then deletes, each in payload-limited chunks. */
    method ApplyBatchWithPayloadLimit(operations: seq<Operation>, maxPayloadBytes: nat)
      returns (r: Result<(), ChunkError>)
      requires Decodes()
      modifies this`documents
      ensures r.Ok? <==> forall op :: op in operations ==> OperationFits(op, maxPayloadBytes)
      ensures r.Ok? ==> documents == TwoPhase(category, old(documents), operations)
      ensures r.Err? ==>
        documents == old(documents) || documents == InOrder(category, old(documents), UpsertsOf(operations))
    {
      r := PostAll(UpsertsOf(operations), maxPayloadBytes);
      if r.Err? {
        return;
      }
      r := PostAll(DeletesOf(operations), maxPayloadBytes);
    }
  }

  lemma {:induction false} InOrderAppend(category: string, index: Index, a: seq<Operation>, b: seq<Operation>)
    ensures InOrder(category, index, a + b) == InOrder(category, InOrder(category, index, a), b)
  {
    if b == [] {
      assert a + b == a;
    } else {
      InOrderAppend(category, index, a, b[..|b| - 1]);
      assert (a + b)[..|a + b| - 1] == a + b[..|b| - 1];
    }
  }

  // ----- upserts then deletes, against one by one

  predicate Concerns(category: string, op: Operation, u: Uuid) {
    match op
    case Upsert(v, _) => v == u
    case Delete(id) => id == DocumentId(category, u)
  }

  /** The last operation that concerns an id. */
  function LastFor(category: string, ops: seq<Operation>, u: Uuid): (last: Option<Operation>)
    ensures last.Some? ==> last.value in ops && Concerns(category, last.value, u)
    ensures last.None? ==> forall op :: op in ops ==> !Concerns(category, op, u)
  {
    if ops == [] then None
    else if Concerns(category, ops[|ops| - 1], u) then Some(ops[|ops| - 1])
    else LastFor(category, ops[..|ops| - 1], u)
  }

  predicate DeletedSomewhere(category: string, ops: seq<Operation>, u: Uuid) {
    Delete(DocumentId(category, u)) in ops
  }

  /** The last operation on every id that is deleted anywhere is a delete. */
  ghost predicate DeletesAreFinal(category: string, ops: seq<Operation>) {
    forall u :: DeletedSomewhere(category, ops, u) ==> LastFor(category, ops, u).value.Delete?
  }

  function Outcome(last: Option<Operation>, before: Option<Doc>): Option<Doc> {
    match last
    case None => before
    case Some(Upsert(_, doc)) => Some(doc)
    case Some(Delete(_)) => None
  }

  lemma {:induction false} InOrderAt(category: string, index: Index, ops: seq<Operation>, u: Uuid)
    ensures Lookup(InOrder(category, index, ops), u) == Outcome(LastFor(category, ops, u), Lookup(index, u))
  {
    if ops != [] {
      InOrderAt(category, index, ops[..|ops| - 1], u);
    }
  }

  lemma LastForSnoc(category: string, front: seq<Operation>, op: Operation, u: Uuid)
    ensures LastFor(category, front + [op], u)
      == if Concerns(category, op, u) then Some(op) else LastFor(category, front, u)
  {
    assert (front + [op])[..|front|] == front;
  }

  lemma {:induction false} LastAmongUpserts(category: string, ops: seq<Operation>, u: Uuid)
    requires !DeletedSomewhere(category, ops, u)
    ensures LastFor(category, UpsertsOf(ops), u) == LastFor(category, ops, u)
  {
    if ops != [] {
      var front, op := ops[..|ops| - 1], ops[|ops| - 1];
      assert ops == front + [op];
      assert !DeletedSomewhere(category, front, u);
      LastAmongUpserts(category, front, u);
      LastForSnoc(category, front, op, u);
      if op.Upsert? {
        LastForSnoc(category, UpsertsOf(front), op, u);
      } else {
        assert op in ops;
        assert UpsertsOf(ops) == UpsertsOf(front);
      }
    }
  }

  /** What the two-phase batch does to one id. */
  lemma TwoPhaseAt(category: string, index: Index, ops: seq<Operation>, u: Uuid)
    ensures Lookup(TwoPhase(category, index, ops), u)
      == if DeletedSomewhere(category, ops, u) then None
         else Outcome(LastFor(category, ops, u), Lookup(index, u))
  {
    InOrderAt(category, InOrder(category, index, UpsertsOf(ops)), DeletesOf(ops), u);
    InOrderAt(category, index, UpsertsOf(ops), u);
    if DeletedSomewhere(category, ops, u) {
      assert Delete(DocumentId(category, u)) in DeletesOf(ops);
      assert Concerns(category, Delete(DocumentId(category, u)), u);
    } else {
      LastAmongUpserts(category, ops, u);
      forall op | op in DeletesOf(ops) ensures !Concerns(category, op, u) {
        assert op in ops;
      }
    }
  }

  /** Whatever the index, sending upserts before deletes equals applying the operations in order
      exactly when every id deleted somewhere has a delete as its last operation. */
  lemma TwoPhaseIsInOrderIff(category: string, index: Index, ops: seq<Operation>)
    ensures TwoPhase(category, index, ops) == InOrder(category, index, ops) <==> DeletesAreFinal(category, ops)
  {
    var sent, wanted := TwoPhase(category, index, ops), InOrder(category, index, ops);
    forall u
      ensures Lookup(sent, u) == Lookup(wanted, u)
         <==> (DeletedSomewhere(category, ops, u) ==> LastFor(category, ops, u).value.Delete?)
    {
      TwoPhaseAt(category, index, ops, u);
      InOrderAt(category, index, ops, u);
      if DeletedSomewhere(category, ops, u) {
        assert Concerns(category, Delete(DocumentId(category, u)), u);
      }
    }
    SameLookups(sent, wanted);
  }
}
