/** Splitting a list of documents into JSON array payloads of limited size. */
module JsonChunks {
  import opened Wrappers

  newtype byte = x: int | 0 <= x < 256

  type Bytes = seq<byte>

  const OPEN_BRACKET: byte := 0x5B
  const CLOSE_BRACKET: byte := 0x5D
  const COMMA: byte := 0x2C

  /** One payload: a JSON array body and the number of items in it. */
  datatype Chunk = Chunk(body: Bytes, itemCount: nat)

  datatype ChunkError = PayloadTooLarge(itemBytes: nat, maxPayloadBytes: nat)

  /** The items with a comma between neighbours. */
  function Joined(items: seq<Bytes>): Bytes {
    if items == [] then []
    else if |items| == 1 then items[0]
    else Joined(items[..|items| - 1]) + [COMMA] + items[|items| - 1]
  }

  function ArrayBody(items: seq<Bytes>): Bytes {
    [OPEN_BRACKET] + Joined(items) + [CLOSE_BRACKET]
  }

  /** Each item and the byte that follows it, a comma or the closing bracket. */
  function ItemBytes(items: seq<Bytes>): nat {
    if items == [] then 0 else ItemBytes(items[..|items| - 1]) + |items[|items| - 1]| + 1
  }

  /** A body is `[`, the items with a `,` between neighbours, and `]`. */
  lemma BodyIsJsonArray(items: seq<Bytes>, item: Bytes)
    ensures ArrayBody([]) == [0x5B, 0x5D] && ArrayBody([item]) == [0x5B] + item + [0x5D]
    ensures var body := ArrayBody(items);
      && |body| >= 2 && body[|body| - 1] == 0x5D
      && (items != [] ==> ArrayBody(items + [item]) == body[..|body| - 1] + [0x2C] + item + [0x5D])
  {
    if items != [] {
      assert (items + [item])[..|items|] == items;
      var body := ArrayBody(items);
      assert body[..|body| - 1] == [OPEN_BRACKET] + Joined(items);
      assert ArrayBody(items + [item]) == [OPEN_BRACKET] + (Joined(items) + [COMMA] + item) + [CLOSE_BRACKET];
    }
  }

  /** A cut list: 0, then strictly increasing positions, up to `n`. */
  ghost predicate IsSplit(cuts: seq<nat>, n: nat) {
    && |cuts| > 0 && cuts[0] == 0 && cuts[|cuts| - 1] == n
    && Increasing(cuts)
  }

  ghost predicate Increasing(cuts: seq<nat>) {
    forall i, j :: 0 <= i < j < |cuts| ==> cuts[i] < cuts[j]
  }

  /** Piece `i` of a split is not empty and its payload respects the limit. */
  ghost predicate FitsAt(items: seq<Bytes>, cuts: seq<nat>, i: nat, maxPayloadBytes: nat) {
    && i + 1 < |cuts| && cuts[i] < cuts[i + 1] <= |items|
    && |ArrayBody(items[cuts[i]..cuts[i + 1]])| <= maxPayloadBytes
  }

  /** Piece `i` could not also have taken the first item of the next piece. */
  ghost predicate FullAt(items: seq<Bytes>, cuts: seq<nat>, i: nat, maxPayloadBytes: nat) {
    && i + 1 < |cuts| && cuts[i] < cuts[i + 1] < |items|
    && |ArrayBody(items[cuts[i]..cuts[i + 1] + 1])| > maxPayloadBytes
  }

  ghost predicate SplitFits(items: seq<Bytes>, cuts: seq<nat>, maxPayloadBytes: nat) {
    && IsSplit(cuts, |items|)
    && (forall i :: 0 <= i < |cuts| - 1 ==> FitsAt(items, cuts, i, maxPayloadBytes))
  }

  ghost predicate Greedy(items: seq<Bytes>, cuts: seq<nat>, maxPayloadBytes: nat) {
    forall i :: 0 <= i < |cuts| - 2 ==> FullAt(items, cuts, i, maxPayloadBytes)
  }

  predicate ItemFits(item: Bytes, maxPayloadBytes: nat) {
    |item| + 2 <= maxPayloadBytes
  }

  /** Chunk `i` is the payload of piece `i`, with its item count. */
  ghost predicate ChunkAt(chunks: seq<Chunk>, items: seq<Bytes>, cuts: seq<nat>, i: nat) {
    && i < |chunks| && i + 1 < |cuts| && cuts[i] <= cuts[i + 1] <= |items|
    && chunks[i] == Chunk(ArrayBody(items[cuts[i]..cuts[i + 1]]), cuts[i + 1] - cuts[i])
  }

  ghost predicate AreChunksOf(chunks: seq<Chunk>, items: seq<Bytes>, cuts: seq<nat>) {
    && |chunks| + 1 == |cuts|
    && (forall i :: 0 <= i < |chunks| ==> ChunkAt(chunks, items, cuts, i))
  }

  /** The chunks closed so far: each fits, and each but an unfinished last one is full. */
  ghost predicate Closed(chunks: seq<Chunk>, items: seq<Bytes>, cuts: seq<nat>, maxPayloadBytes: nat) {
    && |cuts| == |chunks| + 1 && cuts[0] == 0 && Increasing(cuts)
    && AreChunksOf(chunks, items, cuts)
    && (forall i :: 0 <= i < |chunks| ==> FitsAt(items, cuts, i, maxPayloadBytes))
  }

  ghost predicate TooLargeAt(items: seq<Bytes>, i: nat, error: ChunkError, maxPayloadBytes: nat) {
    && i < |items| && !ItemFits(items[i], maxPayloadBytes)
    && error == PayloadTooLarge(|items[i]| + 2, maxPayloadBytes)
    && (forall j :: 0 <= j < i ==> ItemFits(items[j], maxPayloadBytes))
  }

  /** The chunks closed so far, all full, and the open body of the items since the last cut. */
  ghost predicate Filling(
    chunks: seq<Chunk>, items: seq<Bytes>, cuts: seq<nat>, n: nat, body: Bytes, itemCount: nat, maxPayloadBytes: nat)
  {
    && Closed(chunks, items, cuts, maxPayloadBytes)
    && (forall i :: 0 <= i < |chunks| ==> FullAt(items, cuts, i, maxPayloadBytes))
    && cuts[|chunks|] <= n <= |items| && itemCount == n - cuts[|chunks|]
    && body + [CLOSE_BRACKET] == ArrayBody(items[cuts[|chunks|]..n])
    && (itemCount > 0 ==> |body| + 1 <= maxPayloadBytes)
    && (forall i :: 0 <= i < n ==> ItemFits(items[i], maxPayloadBytes))
  }

  method JsonArrayChunks<T>(items: seq<T>, toJson: T -> Bytes, maxPayloadBytes: nat)
    returns (r: Result<seq<Chunk>, ChunkError>, ghost cuts: seq<nat>)
    ensures r.Ok? <==> forall x :: x in Serialized(items, toJson) ==> ItemFits(x, maxPayloadBytes)
    ensures r.Ok? ==>
      && SplitFits(Serialized(items, toJson), cuts, maxPayloadBytes)
      && Greedy(Serialized(items, toJson), cuts, maxPayloadBytes)
      && AreChunksOf(r.value, Serialized(items, toJson), cuts)
    ensures r.Err? ==> exists i :: TooLargeAt(Serialized(items, toJson), i, r.error, maxPayloadBytes)
  {
    ghost var json := Serialized(items, toJson);
    cuts := [0];
    if items == [] {
      return Ok([]), cuts;
    }
    var chunks: seq<Chunk> := [];
    var body, itemCount := [OPEN_BRACKET], 0;
    for n := 0 to |items|
      invariant Filling(chunks, json, cuts, n, body, itemCount, maxPayloadBytes) && (n > 0 ==> itemCount > 0)
    {
      var itemJson := toJson(items[n]);
      var separatorBytes := if itemCount > 0 then 1 else 0;
      var projectedBytes := |body| + separatorBytes + |itemJson| + 1;
      if |itemJson| + 2 > maxPayloadBytes {
        assert TooLargeAt(json, n, PayloadTooLarge(|itemJson| + 2, maxPayloadBytes), maxPayloadBytes);
        assert json[n] in json;
        return Err(PayloadTooLarge(|itemJson| + 2, maxPayloadBytes)), cuts;
      }
      if itemCount > 0 && projectedBytes > maxPayloadBytes {
        NextChunk(chunks, json, cuts, n, body, itemCount, maxPayloadBytes);
        body := body + [CLOSE_BRACKET];
        chunks := chunks + [Chunk(body, itemCount)];
        cuts := cuts + [n];
        body := [OPEN_BRACKET];
        itemCount := 0;
      }
      NextItem(chunks, json, cuts, n, body, itemCount, maxPayloadBytes);
      if itemCount > 0 {
        body := body + [COMMA];
      }
      body := body + itemJson;
      itemCount := itemCount + 1;
    }
    body := body + [CLOSE_BRACKET];
    CloseChunk(chunks, json, cuts, maxPayloadBytes, |items|);
    chunks := chunks + [Chunk(body, itemCount)];
    cuts := cuts + [|items|];
    ClosedIsSplit(chunks, json, cuts, maxPayloadBytes);
    r := Ok(chunks);
  }

  /** A body that would be too long with the next item becomes a full chunk. */
  lemma NextChunk(
    chunks: seq<Chunk>, items: seq<Bytes>, cuts: seq<nat>, n: nat, body: Bytes, itemCount: nat, maxPayloadBytes: nat)
    requires Filling(chunks, items, cuts, n, body, itemCount, maxPayloadBytes)
    requires n < |items| && itemCount > 0 && |body| + 1 + |items[n]| + 1 > maxPayloadBytes
    ensures Filling(chunks + [Chunk(body + [CLOSE_BRACKET], itemCount)], items, cuts + [n], n, [OPEN_BRACKET], 0,
      maxPayloadBytes)
  {
    Extended(items, cuts[|chunks|], n, body);
    CloseChunk(chunks, items, cuts, maxPayloadBytes, n);
    assert FullAt(items, cuts + [n], |chunks|, maxPayloadBytes);
    assert items[n..n] == [];
  }

  lemma NextItem(
    chunks: seq<Chunk>, items: seq<Bytes>, cuts: seq<nat>, n: nat, body: Bytes, itemCount: nat, maxPayloadBytes: nat)
    requires Filling(chunks, items, cuts, n, body, itemCount, maxPayloadBytes)
    requires n < |items| && ItemFits(items[n], maxPayloadBytes)
    requires itemCount > 0 ==> |body| + 1 + |items[n]| + 1 <= maxPayloadBytes
    ensures Filling(chunks, items, cuts, n + 1, (if itemCount > 0 then body + [COMMA] else body) + items[n],
      itemCount + 1, maxPayloadBytes)
  {
    Extended(items, cuts[|chunks|], n, body);
    if itemCount == 0 {
      assert items[cuts[|chunks|]..n] == [];
      assert |body + [CLOSE_BRACKET]| == 2;
    }
  }

  lemma ClosedIsSplit(chunks: seq<Chunk>, items: seq<Bytes>, cuts: seq<nat>, maxPayloadBytes: nat)
    requires Closed(chunks, items, cuts, maxPayloadBytes) && chunks != [] && cuts[|chunks|] == |items|
    requires forall i :: 0 <= i < |chunks| - 1 ==> FullAt(items, cuts, i, maxPayloadBytes)
    ensures SplitFits(items, cuts, maxPayloadBytes) && Greedy(items, cuts, maxPayloadBytes)
  {}

  lemma CloseChunk(chunks: seq<Chunk>, items: seq<Bytes>, cuts: seq<nat>, maxPayloadBytes: nat, n: nat)
    requires Closed(chunks, items, cuts, maxPayloadBytes)
    requires forall i :: 0 <= i < |chunks| ==> FullAt(items, cuts, i, maxPayloadBytes)
    requires cuts[|chunks|] < n <= |items|
    requires |ArrayBody(items[cuts[|chunks|]..n])| <= maxPayloadBytes
    ensures var chunk := Chunk(ArrayBody(items[cuts[|chunks|]..n]), n - cuts[|chunks|]);
      Closed(chunks + [chunk], items, cuts + [n], maxPayloadBytes)
    ensures forall i :: 0 <= i < |chunks| ==> FullAt(items, cuts + [n], i, maxPayloadBytes)
  {
    var chunk := Chunk(ArrayBody(items[cuts[|chunks|]..n]), n - cuts[|chunks|]);
    forall i | 0 <= i < |chunks|
      ensures ChunkAt(chunks + [chunk], items, cuts + [n], i)
      ensures FitsAt(items, cuts + [n], i, maxPayloadBytes) && FullAt(items, cuts + [n], i, maxPayloadBytes)
    {
      assert ChunkAt(chunks, items, cuts, i);
      assert FitsAt(items, cuts, i, maxPayloadBytes) && FullAt(items, cuts, i, maxPayloadBytes);
    }
    assert ChunkAt(chunks + [chunk], items, cuts + [n], |chunks|);
    assert FitsAt(items, cuts + [n], |chunks|, maxPayloadBytes);
  }

  ghost function Serialized<T>(items: seq<T>, toJson: T -> Bytes): (s: seq<Bytes>)
    ensures |s| == |items|
    ensures forall i :: 0 <= i < |s| ==> s[i] == toJson(items[i])
  {
    seq(|items|, i requires 0 <= i < |items| => toJson(items[i]))
  }

  lemma AllSerializedFit<T>(items: seq<T>, toJson: T -> Bytes, maxPayloadBytes: nat)
    ensures (forall x :: x in Serialized(items, toJson) ==> ItemFits(x, maxPayloadBytes))
       <==> (forall item :: item in items ==> ItemFits(toJson(item), maxPayloadBytes))
  {
    var json := Serialized(items, toJson);
    forall item | item in items ensures toJson(item) in json {
      var i :| 0 <= i < |items| && items[i] == item;
      assert json[i] == toJson(item);
    }
  }

  /** The payload of a piece with one more item. */
  lemma Extended(json: seq<Bytes>, start: nat, n: nat, body: Bytes)
    requires start <= n < |json|
    requires body + [CLOSE_BRACKET] == ArrayBody(json[start..n])
    ensures ArrayBody(json[start..n + 1])
      == (if start < n then body + [COMMA] else body) + json[n] + [CLOSE_BRACKET]
  {
    var longer := json[start..n + 1];
    assert longer[..|longer| - 1] == json[start..n];
    assert body == (body + [CLOSE_BRACKET])[..|body|];
    assert body == [OPEN_BRACKET] + Joined(json[start..n]);
    if start == n {
      assert Joined(longer) == json[n];
    }
  }

  // ----- fewest chunks

  lemma {:induction false} BodyBytes(items: seq<Bytes>)
    requires items != []
    ensures |ArrayBody(items)| == 1 + ItemBytes(items)
  {
    if |items| > 1 {
      BodyBytes(items[..|items| - 1]);
    } else {
      assert items[..0] == [];
    }
  }

  lemma {:induction false} ItemBytesAppend(a: seq<Bytes>, b: seq<Bytes>)
    ensures ItemBytes(a + b) == ItemBytes(a) + ItemBytes(b)
  {
    if b == [] {
      assert a + b == a;
    } else {
      ItemBytesAppend(a, b[..|b| - 1]);
      assert (a + b)[..|a + b| - 1] == a + b[..|b| - 1];
    }
  }

  /** A payload is never smaller than that of a part of it. */
  lemma PayloadMonotone(items: seq<Bytes>, a: nat, b: nat, lo: nat, hi: nat)
    requires a <= lo < hi <= b <= |items|
    ensures |ArrayBody(items[lo..hi])| <= |ArrayBody(items[a..b])|
  {
    assert items[a..b] == items[a..lo] + (items[lo..hi] + items[hi..b]);
    ItemBytesAppend(items[a..lo], items[lo..hi] + items[hi..b]);
    ItemBytesAppend(items[lo..hi], items[hi..b]);
    BodyBytes(items[a..b]);
    BodyBytes(items[lo..hi]);
  }

  /** Greedy cuts are never behind the cuts of another split that respects the limit. */
  lemma {:induction false} GreedyStaysAhead(items: seq<Bytes>, cuts: seq<nat>, other: seq<nat>, limit: nat, k: nat)
    requires SplitFits(items, cuts, limit) && Greedy(items, cuts, limit)
    requires SplitFits(items, other, limit)
    requires k < |cuts| && k < |other|
    ensures other[k] <= cuts[k]
  {
    if k > 0 {
      GreedyStaysAhead(items, cuts, other, limit, k - 1);
      var i := k - 1;
      assert FitsAt(items, other, i, limit);
      if cuts[k] < other[k] {
        assert FullAt(items, cuts, i, limit);
        PayloadMonotone(items, other[i], other[k], cuts[i], cuts[k] + 1);
        assert false;
      }
    }
  }

  /** The greedy split has the fewest chunks of all in-order splits that respect the limit. */
  lemma GreedyIsOptimal(items: seq<Bytes>, cuts: seq<nat>, other: seq<nat>, limit: nat)
    requires SplitFits(items, cuts, limit) && Greedy(items, cuts, limit)
    requires SplitFits(items, other, limit)
    ensures |cuts| <= |other|
  {
    if |other| < |cuts| {
      var k := |other| - 1;
      assert cuts[k] < cuts[|cuts| - 1];
      GreedyStaysAhead(items, cuts, other, limit, k);
    }
  }

  /** The pieces before cut `k`, read in order. */
  ghost function Concatenated(items: seq<Bytes>, cuts: seq<nat>, k: nat): seq<Bytes> {
    if k == 0 || k >= |cuts| || !(cuts[k - 1] <= cuts[k] <= |items|) then []
    else Concatenated(items, cuts, k - 1) + items[cuts[k - 1]..cuts[k]]
  }

  /** Reading all pieces in order gives back the items: none is lost, repeated or moved. */
  lemma {:induction false} ChunksKeepItems(items: seq<Bytes>, cuts: seq<nat>, limit: nat, k: nat)
    requires SplitFits(items, cuts, limit) && k < |cuts|
    ensures cuts[k] <= |items| && Concatenated(items, cuts, k) == items[..cuts[k]]
    ensures Concatenated(items, cuts, |cuts| - 1) == items || k < |cuts| - 1
  {
    if k > 0 {
      ChunksKeepItems(items, cuts, limit, k - 1);
      assert FitsAt(items, cuts, k - 1, limit);
    }
  }

  /** A split exists at all exactly when every single item fits. */
  lemma SomeSplitFitsIff(items: seq<Bytes>, limit: nat)
    ensures (exists cuts :: SplitFits(items, cuts, limit)) <==> (forall x :: x in items ==> ItemFits(x, limit))
  {
    if cuts :| SplitFits(items, cuts, limit) {
      forall i | 0 <= i < |items| ensures ItemFits(items[i], limit) {
        var k := PieceOf(cuts, |items|, i);
        assert FitsAt(items, cuts, k, limit);
        PayloadMonotone(items, cuts[k], cuts[k + 1], i, i + 1);
        assert items[i..i + 1] == [items[i]];
      }
    }
    if forall x :: x in items ==> ItemFits(x, limit) {
      var cuts: seq<nat> := seq(|items| + 1, i => i);
      forall i | 0 <= i < |cuts| - 1 ensures FitsAt(items, cuts, i, limit) {
        assert items[cuts[i]..cuts[i + 1]] == [items[i]];
        assert ItemFits(items[i], limit);
      }
      assert SplitFits(items, cuts, limit);
    }
  }

  lemma PieceOf(cuts: seq<nat>, n: nat, i: nat) returns (k: nat)
    requires IsSplit(cuts, n) && i < n
    ensures k + 1 < |cuts| && cuts[k] <= i < cuts[k + 1]
  {
    k := 0;
    while cuts[k + 1] <= i
      invariant k + 1 < |cuts| && cuts[k] <= i
      decreases |cuts| - k
    {
      k := k + 1;
    }
  }
}
