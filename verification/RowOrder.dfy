/** `ORDER BY latest_skiptoken, source_id` over a finite set of rows. */
module RowOrder {
  import opened DocumentIds

  /** A row's sort key. */
  datatype RowKey = RowKey(token: int, sourceId: Uuid)

  predicate Before(a: RowKey, b: RowKey) {
    a.token < b.token || (a.token == b.token && a.sourceId < b.sourceId)
  }

  ghost predicate StrictlySorted(s: seq<RowKey>) {
    forall i, j :: 0 <= i < j < |s| ==> Before(s[i], s[j])
  }

  predicate IsFirst(a: RowKey, rows: set<RowKey>) {
    a in rows && forall b :: b in rows && b != a ==> Before(a, b)
  }

  lemma {:induction false} FirstExists(rows: set<RowKey>)
    requires |rows| > 0
    ensures exists a :: IsFirst(a, rows)
    decreases |rows|
  {
    var x :| x in rows;
    if rows == {x} {
      assert IsFirst(x, rows);
    } else {
      FirstExists(rows - {x});
      var a :| IsFirst(a, rows - {x});
      var first := if Before(a, x) then a else x;
      forall b | b in rows && b != first ensures Before(first, b) {
        assert b == x || b == a || (b in rows - {x} && Before(a, b));
      }
      assert IsFirst(first, rows);
    }
  }

  /** The rows in ascending order. */
  function Sorted(rows: set<RowKey>): (s: seq<RowKey>)
    ensures StrictlySorted(s)
    ensures forall r :: r in s <==> r in rows
    ensures |s| == |rows|
    decreases |rows|
  {
    if |rows| == 0 then [] else
    FirstExists(rows);
    var a :| IsFirst(a, rows);
    [a] + Sorted(rows - {a})
  }

  /** Only one ascending order of a set exists. */
  lemma {:induction false} SortedIsUnique(a: seq<RowKey>, b: seq<RowKey>)
    requires StrictlySorted(a) && StrictlySorted(b)
    requires forall r :: r in a <==> r in b
    ensures a == b
  {
    assert |a| > 0 ==> a[0] in b;
    assert |b| > 0 ==> b[0] in a;
    if |a| > 0 {
      assert a[0] == b[0];
      forall r ensures r in a[1..] <==> r in b[1..] {
        assert r in a <==> r == a[0] || r in a[1..];
        assert r in b <==> r == b[0] || r in b[1..];
        if r in a[1..] { var i :| 1 <= i < |a| && a[i] == r; assert Before(a[0], a[i]); }
        if r in b[1..] { var i :| 1 <= i < |b| && b[i] == r; assert Before(b[0], b[i]); }
      }
      SortedIsUnique(a[1..], b[1..]);
    }
  }
}
