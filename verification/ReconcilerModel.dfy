/**
 What the reconciler observes and changes for one category.

 PostgreSQL is a fixed snapshot of registry rows with an optional detail row; the
 search index is a map of documents. Document ids of a category and UUIDs correspond
 one to one (DocumentIds.DocumentIdInjective), so both maps are keyed by UUID.
 */
module ReconcilerModel {
  import opened Integers
  import opened Wrappers
  import opened DocumentIds
  import FiniteSets
  import opened JsonChunks


  /** A sync_entity row; `detail` is the body its mapped search document gets. */
  datatype Row = Row(latestSkiptoken: int, deleted: bool, detail: Option<Bytes>) {
    predicate Live() { !deleted && detail.Some? }

    /** A deleted row yields a delete, a live one an upsert; a row without detail is skipped. */
    predicate Touches() { deleted || detail.Some? }

    /** The document a live row maps to. */
    function ToDoc(): Doc {
      Doc(latestSkiptoken, if detail.Some? then detail.value else [])
    }
  }

  datatype Doc = Doc(latestSkiptoken: int, body: Bytes)

  type Snapshot = map<Uuid, Row>
  type Index = map<Uuid, Doc>

  /** The index the snapshot calls for. */
  function Projection(db: Snapshot): (docs: Index) {
    map u | u in db && db[u].Live() :: db[u].ToDoc()
  }

  function PrefixIds(index: Index, boundary: int): set<Uuid> {
    set u | u in index && index[u].latestSkiptoken <= boundary
  }

  function Prefix(index: Index, boundary: int): Index {
    index - (set u | u in index && index[u].latestSkiptoken > boundary)
  }

  function Suffix(index: Index, boundary: int): Index {
    index - PrefixIds(index, boundary)
  }

  /** COUNT(*) of live rows joined with their detail row, up to a boundary. */
  function PostgresCount(db: Snapshot, boundary: Option<int>): nat {
    if boundary.Some?
    then |set u | u in db && db[u].Live() && db[u].latestSkiptoken <= boundary.value|
    else |set u | u in db && db[u].Live()|
  }

  function IndexCount(index: Index, boundary: Option<int>): nat {
    if boundary.Some? then |PrefixIds(index, boundary.value)| else |index|
  }

  /** The u64 to i64 conversion of an index count. */
  function MeiliPrefixI64(count: nat): int {
    if count <= I64_MAX then count else I64_MAX
  }

  predicate CountsAgree(db: Snapshot, index: Index, boundary: int) {
    PostgresCount(db, Some(boundary)) == MeiliPrefixI64(IndexCount(index, Some(boundary)))
  }

  predicate TotalsAgree(db: Snapshot, index: Index) {
    PostgresCount(db, None) == MeiliPrefixI64(IndexCount(index, None))
  }

  ghost predicate IsHighest(index: Index, highest: Option<int>) {
    match highest
    case None => index == map[]
    case Some(h) =>
      && (exists u :: u in index && index[u].latestSkiptoken == h)
      && (forall u :: u in index ==> index[u].latestSkiptoken <= h)
  }

  ghost function Highest(index: Index): (highest: Option<int>)
    ensures IsHighest(index, highest)
  {
    HighestExists(index);
    var h :| IsHighest(index, h);
    h
  }

  /** Rows with token in the window (after, upTo]. */
  function Window(db: Snapshot, after: int, upTo: int): set<Uuid> {
    set u | u in db && after < db[u].latestSkiptoken <= upTo
  }

  function RowsAbove(db: Snapshot, after: int): set<Uuid> {
    set u | u in db && after < db[u].latestSkiptoken
  }

  function Lookup(index: Index, u: Uuid): Option<Doc> {
    if u in index then Some(index[u]) else None
  }

  lemma SameLookups(a: Index, b: Index)
    ensures a == b <==> forall u :: Lookup(a, u) == Lookup(b, u)
  {
    if forall u :: Lookup(a, u) == Lookup(b, u) {
      forall u ensures u in a <==> u in b {
        assert Lookup(a, u) == Lookup(b, u);
      }
      forall u | u in a ensures a[u] == b[u] {
        assert Lookup(a, u) == Lookup(b, u);
      }
    }
  }

  /** The index after a row's operation: a delete, an upsert, or nothing while it has no detail. */
  function SettleRow(db: Snapshot, index: Index, u: Uuid): Index {
    if u !in db then index
    else if db[u].deleted then index - {u}
    else if db[u].Live() then index[u := db[u].ToDoc()]
    else index
  }

  /** The index after the operations of the given rows; the order does not matter (see SettleAt). */
  ghost function Settle(db: Snapshot, index: Index, rows: set<Uuid>): Index {
    if rows == {} then index else
    var u :| u in rows;
    SettleRow(db, Settle(db, index, rows - {u}), u)
  }

  lemma SettleRowAt(db: Snapshot, index: Index, v: Uuid, u: Uuid)
    ensures Lookup(SettleRow(db, index, v), u)
      == if u == v && u in db && db[u].deleted then None
         else if u == v && u in db && db[u].Live() then Some(db[u].ToDoc())
         else Lookup(index, u)
  {}

  /** What settling does to one id. */
  lemma {:induction false} SettleAt(db: Snapshot, index: Index, rows: set<Uuid>, u: Uuid)
    ensures Lookup(Settle(db, index, rows), u)
      == if u in rows && u in db && db[u].deleted then None
         else if u in rows && u in db && db[u].Live() then Some(db[u].ToDoc())
         else Lookup(index, u)
    decreases rows
  {
    if rows != {} {
      var v :| v in rows && Settle(db, index, rows) == SettleRow(db, Settle(db, index, rows - {v}), v);
      SettleAt(db, index, rows - {v}, u);
      SettleRowAt(db, Settle(db, index, rows - {v}), v, u);
      assert u in rows <==> u == v || u in rows - {v};
    }
  }

  /** Ids indexed above the boundary that no live row above it expects. */
  function ExtraIds(db: Snapshot, index: Index, boundary: int): set<Uuid> {
    set u | u in index && index[u].latestSkiptoken > boundary
      && !(u in db && db[u].Live() && db[u].latestSkiptoken > boundary)
  }

  function DropExtras(db: Snapshot, index: Index, boundary: int): Index {
    index - ExtraIds(db, index, boundary)
  }

  /**
   The binary search over boundaries. The saturating increment makes it loop at
   i64::MAX only if the counts agree there, which the precondition excludes.
   */
  function SearchPrefix(db: Snapshot, index: Index, low: int, high: int, best: int): int
    requires 0 <= low && high <= I64_MAX
    requires high == I64_MAX ==> !CountsAgree(db, index, high)
    decreases high - low
  {
    if low > high then best else
    var mid := low + (high - low) / 2;
    if CountsAgree(db, index, mid)
    then SearchPrefix(db, index, SaturatingAdd(mid, 1), high, mid)
    else SearchPrefix(db, index, low, mid - 1, best)
  }

  function SaturatingAdd(a: int, b: int): int
    requires 0 <= a && 0 <= b
  {
    Min(a + b, I64_MAX)
  }

  predicate InI64(highest: Option<int>) {
    highest.Some? ==> -I64_MAX - 1 <= highest.value <= I64_MAX
  }

  /** The boundary a pass starts its windows from. */
  function BoundaryFor(db: Snapshot, index: Index, highest: Option<int>): int
    requires InI64(highest)
  {
    var h := if highest.Some? then highest.value else 0;
    if CountsAgree(db, index, h) then h
    else SearchPrefix(db, index, 0, if h >= 0 then h else 0, 0)
  }

  ghost predicate IndexInI64(index: Index) {
    forall u :: u in index ==> -I64_MAX - 1 <= index[u].latestSkiptoken <= I64_MAX
  }

  ghost function Boundary(db: Snapshot, index: Index): int
    requires IndexInI64(index)
  {
    BoundaryFor(db, index, Highest(index))
  }

  /** Whether the prefix up to the highest indexed token is off. */
  ghost predicate NeedsRepair(db: Snapshot, index: Index) {
    var highest := Highest(index);
    !CountsAgree(db, index, if highest.Some? then highest.value else 0)
  }

  /** What a pass keeps of the index before it re-applies rows. */
  ghost function Kept(db: Snapshot, index: Index, boundary: int): Index {
    if NeedsRepair(db, index) then DropExtras(db, index, boundary) else index
  }

  /** One pass of the category loop: verify a prefix, drop extras, re-apply every row above it. */
  ghost function Pass(db: Snapshot, index: Index): Index
    requires IndexInI64(index)
  {
    var boundary := Boundary(db, index);
    Settle(db, Kept(db, index, boundary), RowsAbove(db, boundary))
  }

  lemma HighestExists(index: Index)
    ensures exists h :: IsHighest(index, h)
  {
    if index == map[] {
      assert IsHighest(index, None);
    } else {
      var u :| u in index;
      var tokens := set v | v in index :: index[v].latestSkiptoken;
      assert index[u].latestSkiptoken in tokens;
      FiniteSets.MaximumExists(tokens);
      var m :| m in tokens && forall x :: x in tokens ==> x <= m;
      forall v | v in index ensures index[v].latestSkiptoken <= m {
        assert index[v].latestSkiptoken in tokens;
      }
      assert IsHighest(index, Some(m));
    }
  }

  lemma HighestIsUnique(index: Index, a: Option<int>, b: Option<int>)
    requires IsHighest(index, a) && IsHighest(index, b)
    ensures a == b
  {}
}
