/** The two-row edit distance of the search evaluation, and what it measures. */
module EditDistance {

  import opened Integers

  /** The recursive Levenshtein distance. */
  function Levenshtein(a: string, b: string): nat
    decreases |a| + |b|
  {
    if a == [] then |b|
    else if b == [] then |a|
    else
      var a', b' := a[..|a| - 1], b[..|b| - 1];
      Min(Min(Levenshtein(a', b) + 1, Levenshtein(a, b') + 1),
          Levenshtein(a', b') + (if a[|a| - 1] == b[|b| - 1] then 0 else 1))
  }

  /** A row holds the distances of one prefix of the left string to the prefixes of the right. */
  ghost predicate IsRow(row: seq<nat>, left: string, i: nat, right: string, n: nat)
    requires i <= |left| && n <= |right|
  {
    |row| == n + 1 && forall j: nat :: j <= n ==> row[j] == Levenshtein(left[..i], right[..j])
  }

  lemma FirstRow(left: string, right: string, row: seq<nat>)
    requires |row| == |right| + 1 && forall j :: 0 <= j < |row| ==> row[j] == j
    ensures IsRow(row, left, 0, right, |right|)
  {}

  lemma FirstCell(left: string, i: nat, right: string)
    requires i <= |left|
    ensures IsRow([i], left, i, right, 0)
  {}

  /** The three neighbours of a cell give it. */
  lemma NextCell(previous: seq<nat>, current: seq<nat>, left: string, i: nat, right: string, j: nat)
    requires i < |left| && j < |right| && IsRow(previous, left, i, right, |right|)
    requires IsRow(current, left, i + 1, right, j)
    ensures IsRow(
      current + [Min(Min(previous[j + 1] + 1, current[j] + 1), previous[j] + (if left[i] != right[j] then 1 else 0))],
      left, i + 1, right, j + 1)
  {
    var l, r := left[..i + 1], right[..j + 1];
    assert l[..i] == left[..i] && r[..j] == right[..j] && l[i] == left[i] && r[j] == right[j];
    assert Levenshtein(l, r)
      == Min(Min(previous[j + 1] + 1, current[j] + 1), previous[j] + (if left[i] != right[j] then 1 else 0));
  }

  method EditDistance(left: string, right: string) returns (distance: nat)
    ensures distance == Levenshtein(left, right)
  {
    var previous: seq<nat> := seq(|right| + 1, j requires j >= 0 => j);
    FirstRow(left, right, previous);
    var i := 0;
    while i < |left|
      invariant 0 <= i <= |left| && IsRow(previous, left, i, right, |right|)
    {
      var current: seq<nat> := [i + 1];
      FirstCell(left, i + 1, right);
      var j := 0;
      while j < |right|
        invariant 0 <= j <= |right| && IsRow(current, left, i + 1, right, j)
      {
        NextCell(previous, current, left, i, right, j);
        var substitutionCost := if left[i] != right[j] then 1 else 0;
        current := current + [Min(Min(previous[j + 1] + 1, current[j] + 1), previous[j] + substitutionCost)];
        j := j + 1;
      }
      previous := current;
      i := i + 1;
    }
    assert left[..i] == left && right[..|right|] == right;
    distance := previous[|right|];
  }

  // ----- single-character edits

  datatype Edit = Insert(at: nat, put: char) | Delete(at: nat) | Replace(at: nat, put: char)

  predicate CanApply(edit: Edit, s: string) {
    if edit.Insert? then edit.at <= |s| else edit.at < |s|
  }

  function Apply(edit: Edit, s: string): string
    requires CanApply(edit, s)
  {
    match edit
    case Insert(at, c) => s[..at] + [c] + s[at..]
    case Delete(at) => s[..at] + s[at + 1..]
    case Replace(at, c) => s[..at] + [c] + s[at + 1..]
  }

  /** The edits lead, one after another, from one string to the other. */
  predicate Leads(edits: seq<Edit>, a: string, b: string)
    decreases |edits|
  {
    if edits == [] then a == b
    else CanApply(edits[0], a) && Leads(edits[1..], Apply(edits[0], a), b)
  }

  lemma {:induction false} LeadsOn(first: seq<Edit>, second: seq<Edit>, a: string, b: string, c: string)
    requires Leads(first, a, b) && Leads(second, b, c)
    ensures Leads(first + second, a, c)
    decreases |first|
  {
    if first == [] {
      assert first + second == second;
    } else {
      var all := first + second;
      assert all[0] == first[0] && all[1..] == first[1..] + second;
      LeadsOn(first[1..], second, Apply(first[0], a), b, c);
      assert CanApply(all[0], a) && Leads(all[1..], Apply(all[0], a), c);
    }
  }

  lemma ApplyWithSuffix(edit: Edit, a: string, c: char)
    requires CanApply(edit, a)
    ensures CanApply(edit, a + [c]) && Apply(edit, a + [c]) == Apply(edit, a) + [c]
  {
    var at := edit.at;
    assert (a + [c])[..at] == a[..at] && (a + [c])[at..] == a[at..] + [c];
    if !edit.Insert? {
      assert (a + [c])[at + 1..] == a[at + 1..] + [c];
    }
  }

  /** Edits do not mind a character appended to both sides. */
  lemma {:induction false} LeadsWithSuffix(edits: seq<Edit>, a: string, b: string, c: char)
    requires Leads(edits, a, b)
    ensures Leads(edits, a + [c], b + [c])
    decreases |edits|
  {
    if edits != [] {
      LeadsWithSuffix(edits[1..], Apply(edits[0], a), b, c);
      ApplyWithSuffix(edits[0], a, c);
    }
  }

  lemma OneEditLeads(edit: Edit, a: string)
    requires CanApply(edit, a)
    ensures Leads([edit], a, Apply(edit, a))
  {
    assert [edit][1..] == [];
  }

  // ----- as many edits as the distance are enough

  lemma {:induction false} DeleteAll(a: string) returns (edits: seq<Edit>)
    ensures |edits| == |a| && Leads(edits, a, [])
  {
    edits := [];
    if a != [] {
      var rest := DeleteAll(a[1..]);
      edits := [Delete(0)] + rest;
      assert Apply(Delete(0), a) == a[1..] && edits[1..] == rest;
    }
  }

  lemma {:induction false} InsertAll(b: string) returns (edits: seq<Edit>)
    ensures |edits| == |b| && Leads(edits, [], b)
  {
    edits := [];
    if b != [] {
      var front, last := b[..|b| - 1], b[|b| - 1];
      var rest := InsertAll(front);
      assert Apply(Insert(|front|, last), front) == b;
      OneEditLeads(Insert(|front|, last), front);
      LeadsOn(rest, [Insert(|front|, last)], [], front, b);
      edits := rest + [Insert(|front|, last)];
    }
  }

  lemma ThenEdit(edits: seq<Edit>, a: string, b: string, edit: Edit)
    requires Leads(edits, a, b) && CanApply(edit, b)
    ensures Leads(edits + [edit], a, Apply(edit, b))
  {
    OneEditLeads(edit, b);
    LeadsOn(edits, [edit], a, b, Apply(edit, b));
  }

  lemma FirstDelete(edits: seq<Edit>, a: string, b: string)
    requires a != [] && Leads(edits, a[..|a| - 1], b)
    ensures Leads([Delete(|a| - 1)] + edits, a, b)
  {
    assert Apply(Delete(|a| - 1), a) == a[..|a| - 1];
    OneEditLeads(Delete(|a| - 1), a);
    LeadsOn([Delete(|a| - 1)], edits, a, a[..|a| - 1], b);
  }

  lemma ThenInsert(edits: seq<Edit>, a: string, b: string)
    requires b != [] && Leads(edits, a, b[..|b| - 1])
    ensures Leads(edits + [Insert(|b| - 1, b[|b| - 1])], a, b)
  {
    var edit := Insert(|b| - 1, b[|b| - 1]);
    assert Apply(edit, b[..|b| - 1]) == b;
    ThenEdit(edits, a, b[..|b| - 1], edit);
  }

  lemma LastApart(s: string)
    requires s != []
    ensures s[..|s| - 1] + [s[|s| - 1]] == s
  {}

  lemma KeepLast(edits: seq<Edit>, a: string, b: string, a': string, b': string, last: char)
    requires Leads(edits, a', b') && a == a' + [last] && b == b' + [last]
    ensures Leads(edits, a, b)
  {
    LeadsWithSuffix(edits, a', b', last);
  }

  lemma ReplaceLast(edits: seq<Edit>, a: string, b: string, a': string, b': string, x: char, y: char)
    requires Leads(edits, a', b') && a == a' + [x] && b == b' + [y]
    ensures Leads(edits + [Replace(|b'|, y)], a, b)
  {
    LeadsWithSuffix(edits, a', b', x);
    assert Apply(Replace(|b'|, y), b' + [x]) == b;
    ThenEdit(edits, a, b' + [x], Replace(|b'|, y));
  }

  lemma {:induction false} EnoughEdits(a: string, b: string) returns (edits: seq<Edit>)
    ensures |edits| == Levenshtein(a, b) && Leads(edits, a, b)
    decreases |a| + |b|
  {
    if a == [] {
      edits := InsertAll(b);
    } else if b == [] {
      edits := DeleteAll(a);
    } else {
      var a', b' := a[..|a| - 1], b[..|b| - 1];
      if Levenshtein(a, b) == Levenshtein(a', b) + 1 {
        edits := EnoughEdits(a', b);
        FirstDelete(edits, a, b);
        edits := [Delete(|a| - 1)] + edits;
      } else if Levenshtein(a, b) == Levenshtein(a, b') + 1 {
        edits := EnoughEdits(a, b');
        ThenInsert(edits, a, b);
        edits := edits + [Insert(|b| - 1, b[|b| - 1])];
      } else {
        edits := EnoughEdits(a', b');
        LastApart(a);
        LastApart(b);
        if a[|a| - 1] == b[|b| - 1] {
          KeepLast(edits, a, b, a', b', a[|a| - 1]);
        } else {
          ReplaceLast(edits, a, b, a', b', a[|a| - 1], b[|b| - 1]);
          edits := edits + [Replace(|b| - 1, b[|b| - 1])];
        }
      }
    }
  }

  // ----- fewer edits are not

  /** Appending or dropping one character moves the distance by at most one. */
  lemma {:induction false} LastCharacter(a: string, c: char, b: string)
    ensures Levenshtein(a + [c], b) <= Levenshtein(a, b) + 1
    ensures Levenshtein(a, b) <= Levenshtein(a + [c], b) + 1
    decreases |a| + |b|
  {
    assert (a + [c])[..|a|] == a;
    if b != [] {
      var b' := b[..|b| - 1];
      LastCharacter(a, c, b');
      RightNeighbour(a, b);
    }
  }

  lemma RightNeighbour(a: string, b: string)
    requires b != []
    ensures Levenshtein(a, b) <= Levenshtein(a, b[..|b| - 1]) + 1
  {}

  lemma {:induction false} LastReplaced(a: string, x: char, y: char, b: string)
    ensures Levenshtein(a + [x], b) <= Levenshtein(a + [y], b) + 1
    decreases |b|
  {
    assert (a + [x])[..|a|] == a && (a + [y])[..|a|] == a;
    if b != [] {
      LastReplaced(a, x, y, b[..|b| - 1]);
    }
  }

  /** A difference of one that holds before a common last character holds after it. */
  lemma {:induction false} CommonLast(a: string, m: string, c: char, b: string)
    requires forall p :: p <= b ==> Levenshtein(a, p) <= Levenshtein(m, p) + 1
    requires |a| <= |m| + 1
    ensures Levenshtein(a + [c], b) <= Levenshtein(m + [c], b) + 1
    decreases |b|
  {
    assert (a + [c])[..|a|] == a && (m + [c])[..|m|] == m;
    if b != [] {
      var b' := b[..|b| - 1];
      forall p: string | p <= b' ensures Levenshtein(a, p) <= Levenshtein(m, p) + 1 {
        assert p <= b;
      }
      CommonLast(a, m, c, b');
    }
  }

  /** One edit of the start saves at most one. */
  lemma {:induction false} OneEditSavesOne(edit: Edit, a: string, b: string)
    requires CanApply(edit, a)
    ensures Levenshtein(a, b) <= Levenshtein(Apply(edit, a), b) + 1
    decreases |a|
  {
    var m := Apply(edit, a);
    if edit.Insert? && edit.at == |a| {
      assert m == a + [edit.put];
      LastCharacter(a, edit.put, b);
    } else {
      var a', c := a[..|a| - 1], a[|a| - 1];
      assert a == a' + [c];
      if edit.at == |a| - 1 && !edit.Insert? {
        if edit.Delete? {
          assert m == a';
          LastCharacter(a', c, b);
        } else {
          assert m == a' + [edit.put];
          LastReplaced(a', c, edit.put, b);
        }
      } else {
        assert m == Apply(edit, a') + [c];
        forall p | p <= b ensures Levenshtein(a', p) <= Levenshtein(Apply(edit, a'), p) + 1 {
          OneEditSavesOne(edit, a', p);
        }
        CommonLast(a', Apply(edit, a'), c, b);
      }
    }
  }

  lemma {:induction false} EqualIsZero(a: string)
    ensures Levenshtein(a, a) == 0
  {
    if a != [] { EqualIsZero(a[..|a| - 1]); }
  }

  /** No list of edits shorter than the distance leads from one string to the other. */
  lemma {:induction false} FewerEditsDoNot(edits: seq<Edit>, a: string, b: string)
    requires Leads(edits, a, b)
    ensures Levenshtein(a, b) <= |edits|
    decreases |edits|
  {
    if edits == [] {
      EqualIsZero(a);
    } else {
      FewerEditsDoNot(edits[1..], Apply(edits[0], a), b);
      OneEditSavesOne(edits[0], a, b);
    }
  }

  /** The distance is the least number of single-character edits. */
  lemma LeastNumberOfEdits(a: string, b: string, n: nat)
    ensures (exists edits :: Leads(edits, a, b) && |edits| == n) ==> Levenshtein(a, b) <= n
    ensures exists edits :: Leads(edits, a, b) && |edits| == Levenshtein(a, b)
  {
    forall edits | Leads(edits, a, b) ensures Levenshtein(a, b) <= |edits| {
      FewerEditsDoNot(edits, a, b);
    }
    var enough := EnoughEdits(a, b);
  }

  // ----- a metric

  lemma {:induction false} ZeroIffEqual(a: string, b: string)
    ensures Levenshtein(a, b) == 0 <==> a == b
  {
    EqualIsZero(a);
    var edits := EnoughEdits(a, b);
  }

  lemma {:induction false} Symmetric(a: string, b: string)
    ensures Levenshtein(a, b) == Levenshtein(b, a)
    decreases |a| + |b|
  {
    if a != [] && b != [] {
      Symmetric(a[..|a| - 1], b);
      Symmetric(a, b[..|b| - 1]);
      Symmetric(a[..|a| - 1], b[..|b| - 1]);
    }
  }

  lemma {:induction false} Triangle(a: string, b: string, c: string)
    ensures Levenshtein(a, c) <= Levenshtein(a, b) + Levenshtein(b, c)
  {
    var first := EnoughEdits(a, b);
    var second := EnoughEdits(b, c);
    LeadsOn(first, second, a, b, c);
    FewerEditsDoNot(first + second, a, c);
  }

  // ----- token scores, in hundredths

  predicate Contains(text: string, part: string) {
    exists i :: 0 <= i <= |text| - |part| && part <= text[i..]
  }

  /** A part of a text has something before it and something after it, perhaps nothing. */
  lemma ContainsIff(text: string, part: string)
    ensures Contains(text, part) <==> exists before, after :: text == before + part + after
  {
    if Contains(text, part) {
      var i :| 0 <= i <= |text| - |part| && part <= text[i..];
      assert text == text[..i] + part + text[i + |part|..];
    }
    if before, after :| text == before + part + after {
      assert text[|before|..] == part + after;
    }
  }

  ghost predicate WithinEdits(query: string, document: string, most: nat) {
    exists edits :: Leads(edits, query, document) && |edits| <= most
  }

  /** `length` is the number of bytes of a token. */
  method TokenScore(meilisearch: bool, query: string, document: string, length: string -> nat) returns (score: nat)
    ensures score == 100 <==> query == document
    ensures score == 65 <==> (query != document && Min(length(query), length(document)) >= 4
      && (Contains(document, query) || Contains(query, document)))
    ensures score in {70, 0} <==> query != document && score != 65
    ensures score == 70 ==> meilisearch
    ensures meilisearch && score in {70, 0} ==>
      (score == 70 <==> WithinEdits(query, document, if length(query) <= 5 then 1 else 2))
  {
    if query == document { return 100; }
    if Min(length(query), length(document)) >= 4 && (Contains(document, query) || Contains(query, document)) {
      return 65;
    }
    if meilisearch {
      var distance := EditDistance(query, document);
      ghost var enough := EnoughEdits(query, document);
      forall edits | Leads(edits, query, document) ensures distance <= |edits| {
        FewerEditsDoNot(edits, query, document);
      }
      var tolerance := if length(query) <= 5 then 1 else 2;
      if distance <= tolerance { return 70; }
    }
    return 0;
  }
}
