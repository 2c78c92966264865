/** Names of tables and columns, derived from official names. */
module SqlNames {
  import opened Integers
  import opened Wrappers

  predicate IsLower(c: char) { 'a' <= c <= 'z' }

  predicate IsUpper(c: char) { 'A' <= c <= 'Z' }


  predicate IsAlphanumeric(c: char) { IsLower(c) || IsUpper(c) || IsDigit(c) }

  function ToLower(c: char): char {
    if IsUpper(c) then c - 'A' + 'a' else c
  }

  /** What the naming loop carries: the output so far, and whether the last character
      taken was a lower-case letter or a digit. */
  datatype Naming = Naming(output: string, previousWasLowerOrDigit: bool)

  predicate EndsWithUnderscore(s: string) {
    |s| > 0 && s[|s| - 1] == '_'
  }

  function Next(state: Naming, c: char): Naming {
    if IsAlphanumeric(c) then
      Naming(
        state.output + (if IsUpper(c) && state.previousWasLowerOrDigit then "_" else "") + [ToLower(c)],
        IsLower(c) || IsDigit(c))
    else if !EndsWithUnderscore(state.output) then Naming(state.output + "_", false)
    else state
  }

  function Named(officialName: string): Naming {
    if officialName == "" then Naming("", false)
    else Next(Named(officialName[..|officialName| - 1]), officialName[|officialName| - 1])
  }

  function TrimStart(s: string): string {
    if s != "" && s[0] == '_' then TrimStart(s[1..]) else s
  }

  function TrimEnd(s: string): string {
    if EndsWithUnderscore(s) then TrimEnd(s[..|s| - 1]) else s
  }

  function SqlName(officialName: string): string {
    TrimEnd(TrimStart(Named(officialName).output))
  }

  method ComputeSqlName(officialName: string) returns (name: string)
    ensures name == SqlName(officialName) && IsSqlName(name)
  {
    var output, previousWasLowerOrDigit := "", false;
    for n := 0 to |officialName|
      invariant Named(officialName[..n]) == Naming(output, previousWasLowerOrDigit)
    {
      var c := officialName[n];
      assert officialName[..n + 1][..n] == officialName[..n];
      if IsAlphanumeric(c) {
        if IsUpper(c) && previousWasLowerOrDigit {
          output := output + "_";
        }
        output := output + [ToLower(c)];
        previousWasLowerOrDigit := IsLower(c) || IsDigit(c);
      } else if !EndsWithUnderscore(output) {
        output := output + "_";
        previousWasLowerOrDigit := false;
      }
    }
    assert officialName[..|officialName|] == officialName;
    name := TrimEnd(TrimStart(output));
    SqlNameShape(officialName);
  }

  // ----- the shape of a name

  predicate NameChars(s: string) {
    forall c :: c in s ==> IsLower(c) || IsDigit(c) || c == '_'
  }

  predicate NoDoubleUnderscore(s: string) {
    forall i :: 0 < i < |s| ==> !(s[i - 1] == '_' && s[i] == '_')
  }

  /** Lower-case letters, digits and single underscores between them. */
  predicate IsSqlName(s: string) {
    && NameChars(s) && NoDoubleUnderscore(s)
    && (s == "" || (s[0] != '_' && s[|s| - 1] != '_'))
  }

  lemma {:induction false} NamedShape(officialName: string)
    ensures NameChars(Named(officialName).output) && NoDoubleUnderscore(Named(officialName).output)
    ensures Named(officialName).previousWasLowerOrDigit
      ==> Named(officialName).output != "" && !EndsWithUnderscore(Named(officialName).output)
  {
    if officialName != "" {
      var front, c := officialName[..|officialName| - 1], officialName[|officialName| - 1];
      NamedShape(front);
      var before, after := Named(front), Next(Named(front), c);
      assert IsAlphanumeric(c) ==> ToLower(c) != '_' && (IsLower(ToLower(c)) || IsDigit(ToLower(c)));
      forall i | 0 < i < |after.output| ensures !(after.output[i - 1] == '_' && after.output[i] == '_') {
        if i < |before.output| {
          assert !(before.output[i - 1] == '_' && before.output[i] == '_');
        }
      }
    }
  }

  lemma {:induction false} TrimStartShape(s: string)
    requires NameChars(s) && NoDoubleUnderscore(s)
    ensures NameChars(TrimStart(s)) && NoDoubleUnderscore(TrimStart(s))
    ensures TrimStart(s) == "" || TrimStart(s)[0] != '_'
  {
    if s != "" && s[0] == '_' {
      forall i | 0 < i < |s[1..]| ensures !(s[1..][i - 1] == '_' && s[1..][i] == '_') {
        assert !(s[i] == '_' && s[i + 1] == '_');
      }
      TrimStartShape(s[1..]);
    }
  }

  lemma {:induction false} TrimEndShape(s: string)
    requires NameChars(s) && NoDoubleUnderscore(s) && (s == "" || s[0] != '_')
    ensures IsSqlName(TrimEnd(s))
  {
    if EndsWithUnderscore(s) {
      TrimEndShape(s[..|s| - 1]);
    }
  }

  lemma SqlNameShape(officialName: string)
    ensures IsSqlName(SqlName(officialName))
  {
    NamedShape(officialName);
    TrimStartShape(Named(officialName).output);
    TrimEndShape(TrimStart(Named(officialName).output));
  }

  lemma {:induction false} NamedIsIdentity(s: string)
    requires NameChars(s) && NoDoubleUnderscore(s) && (s == "" || s[0] != '_')
    ensures Named(s).output == s
  {
    if s != "" {
      var front, c := s[..|s| - 1], s[|s| - 1];
      assert s == front + [c] && c in s;
      NamedIsIdentity(front);
      if c == '_' && front != "" {
        var i := |s| - 1;
        assert s[i] == '_' && s[i - 1] != '_';
      }
    }
  }

  /** The names are exactly the fixed points of the naming, which is therefore idempotent. */
  lemma SqlNameFixedPoints(s: string)
    ensures SqlName(s) == s <==> IsSqlName(s)
    ensures SqlName(SqlName(s)) == SqlName(s)
  {
    SqlNameShape(s);
    forall t | IsSqlName(t) ensures SqlName(t) == t {
      NamedIsIdentity(t);
    }
  }

  // ----- what a name spells

  /** Two neighbouring characters belong to different words. */
  predicate StartsWord(before: char, c: char) {
    !IsAlphanumeric(before) || ((IsLower(before) || IsDigit(before)) && IsUpper(c))
  }

  /** The letters and digits of a name in lower case, its words joined by underscores. */
  function Spelled(officialName: string): string {
    if officialName == "" then "" else
    var front, c := officialName[..|officialName| - 1], officialName[|officialName| - 1];
    if IsAlphanumeric(c) then Spelled(front) + Joint(Spelled(front), front, c) + [ToLower(c)] else Spelled(front)
  }

  /** An underscore between words. */
  function Joint(words: string, front: string, c: char): string {
    if words != "" && front != "" && StartsWord(front[|front| - 1], c) then "_" else ""
  }

  /** The output of the loop: an optional leading underscore, the words, and an underscore while
      the last character was none of a word. */
  ghost predicate Spells(officialName: string, state: Naming, lead: string) {
    lead in ["", "_"] &&
    if officialName == "" then state == Naming("", false) && lead == ""
    else
      var words, last := Spelled(officialName), officialName[|officialName| - 1];
      && state.previousWasLowerOrDigit == (IsLower(last) || IsDigit(last))
      && (if IsAlphanumeric(last) then words != "" && state.output == lead + words
          else if words == "" then state.output == lead && lead == "_"
          else state.output == lead + words + "_")
  }

  lemma {:induction false} SpelledEnds(officialName: string)
    ensures var words := Spelled(officialName); words != "" ==> words[0] != '_' && words[|words| - 1] != '_'
  {
    if officialName != "" {
      SpelledEnds(officialName[..|officialName| - 1]);
    }
  }

  lemma SpelledNext(front: string, c: char)
    ensures Spelled(front + [c])
      == if IsAlphanumeric(c) then Spelled(front) + Joint(Spelled(front), front, c) + [ToLower(c)] else Spelled(front)
  {
    assert (front + [c])[..|front|] == front;
  }

  lemma FirstLetter(front: string, c: char, state: Naming, lead: string)
    requires Spells(front, state, lead) && IsAlphanumeric(c) && Spelled(front) == ""
    ensures Spells(front + [c], Next(state, c), lead)
  {
    SpelledNext(front, c);
    assert state.output == lead && !state.previousWasLowerOrDigit;
    assert lead + "" + [ToLower(c)] == lead + [ToLower(c)];
  }

  lemma LetterAfterLetter(front: string, c: char, state: Naming, lead: string)
    requires Spells(front, state, lead) && IsAlphanumeric(c)
    requires front != "" && IsAlphanumeric(front[|front| - 1])
    ensures Spells(front + [c], Next(state, c), lead)
  {
    SpelledNext(front, c);
    var words, joint := Spelled(front), if IsUpper(c) && state.previousWasLowerOrDigit then "_" else "";
    assert joint == Joint(words, front, c);
    Regroup(lead, words, joint, c);
  }

  lemma LetterAfterOther(front: string, c: char, state: Naming, lead: string)
    requires Spells(front, state, lead) && IsAlphanumeric(c) && Spelled(front) != ""
    requires front != "" && !IsAlphanumeric(front[|front| - 1])
    ensures Spells(front + [c], Next(state, c), lead)
  {
    SpelledNext(front, c);
    var words := Spelled(front);
    assert Joint(words, front, c) == "_" && !state.previousWasLowerOrDigit;
    assert state.output + "" == state.output;
    Regroup(lead, words, "_", c);
  }

  lemma Regroup(lead: string, words: string, joint: string, c: char)
    ensures lead + words + joint + [ToLower(c)] == lead + (words + joint + [ToLower(c)])
  {}

  lemma OtherCharacter(front: string, c: char, state: Naming, lead: string)
    requires Spells(front, state, lead) && !IsAlphanumeric(c)
    ensures Spells(front + [c], Next(state, c), if Spelled(front) == "" then "_" else lead)
  {
    SpelledNext(front, c);
    SpelledEnds(front);
    assert "" + "_" == "_";
  }

  lemma {:induction false} NamedSpells(officialName: string) returns (lead: string)
    ensures Spells(officialName, Named(officialName), lead)
  {
    lead := "";
    if officialName != "" {
      var front, c := officialName[..|officialName| - 1], officialName[|officialName| - 1];
      lead := NamedSpells(front);
      assert front + [c] == officialName;
      if !IsAlphanumeric(c) {
        OtherCharacter(front, c, Named(front), lead);
        lead := if Spelled(front) == "" then "_" else lead;
      } else if Spelled(front) == "" {
        FirstLetter(front, c, Named(front), lead);
      } else if IsAlphanumeric(front[|front| - 1]) {
        LetterAfterLetter(front, c, Named(front), lead);
      } else {
        LetterAfterOther(front, c, Named(front), lead);
      }
    }
  }

  lemma TrimmedWords(words: string, lead: string, tail: string)
    requires lead in ["", "_"] && tail in ["", "_"]
    requires words != "" && words[0] != '_' && words[|words| - 1] != '_'
    ensures TrimEnd(TrimStart(lead + words + tail)) == words
  {
    var s := lead + words + tail;
    if lead == "_" {
      assert s[1..] == words + tail;
      assert TrimStart(s) == TrimStart(s[1..]);
    } else {
      assert s == words + tail;
    }
    assert TrimStart(words + tail) == words + tail;
    if tail == "_" {
      assert (words + tail)[..|words + tail| - 1] == words;
      assert TrimEnd(words + tail) == TrimEnd(words);
    } else {
      assert words + tail == words;
    }
  }

  /** The naming keeps every letter and digit, in lower case, and puts an underscore exactly where
      a word starts: after other characters, and at an upper-case letter after a lower-case letter
      or a digit. */
  lemma SqlNameSpells(officialName: string)
    ensures SqlName(officialName) == Spelled(officialName)
  {
    var lead := NamedSpells(officialName);
    SpelledEnds(officialName);
    var output, words := Named(officialName).output, Spelled(officialName);
    if words == "" {
      assert output in ["", "_"];
      assert "_"[1..] == "";
    } else {
      TrimmedWords(words, lead, "");
      TrimmedWords(words, lead, "_");
      assert lead + words + "" == lead + words;
    }
  }

  // ----- names of relation and repeated-scalar tables

  function ChildTable(category: string, field: string): string {
    SqlName(category) + "__" + SqlName(field)
  }

  /** Splits at the first double underscore. */
  function SplitAtDouble(s: string): Option<(string, string)> {
    if |s| < 2 then None
    else if s[0] == '_' && s[1] == '_' then Some(("", s[2..]))
    else match SplitAtDouble(s[1..])
      case Some(parts) => Some(([s[0]] + parts.0, parts.1))
      case None => None
  }

  lemma {:induction false} SplitAtFirstDouble(front: string, rest: string)
    requires NoDoubleUnderscore(front) && !EndsWithUnderscore(front)
    ensures SplitAtDouble(front + "__" + rest) == Some((front, rest))
  {
    var s := front + "__" + rest;
    if front == "" {
      assert s[2..] == rest;
    } else {
      assert s[1..] == front[1..] + "__" + rest;
      assert |front| > 1 ==> s[1] == front[1] && !(front[0] == '_' && front[1] == '_');
      assert front[1..] != "" ==> front[1..][|front[1..]| - 1] == front[|front| - 1];
      forall i | 0 < i < |front[1..]| ensures !(front[1..][i - 1] == '_' && front[1..][i] == '_') {
        assert !(front[i] == '_' && front[i + 1] == '_');
      }
      SplitAtFirstDouble(front[1..], rest);
      assert front == [front[0]] + front[1..];
    }
  }

  /** The writer recovers both parts of a child table's name. */
  lemma ChildTableSplits(category: string, field: string)
    ensures SplitAtDouble(ChildTable(category, field)) == Some((SqlName(category), SqlName(field)))
  {
    SqlNameShape(category);
    SplitAtFirstDouble(SqlName(category), SqlName(field));
  }

  /** Child tables collide only if both parts do, and never with an entity table. */
  lemma ChildTablesDistinct(c1: string, f1: string, c2: string, f2: string)
    ensures ChildTable(c1, f1) == ChildTable(c2, f2) <==> SqlName(c1) == SqlName(c2) && SqlName(f1) == SqlName(f2)
    ensures ChildTable(c1, f1) != SqlName(c2)
  {
    ChildTableSplits(c1, f1);
    ChildTableSplits(c2, f2);
    SqlNameShape(c2);
    var name := ChildTable(c1, f1);
    var i := |SqlName(c1)| + 1;
    assert name[i - 1] == '_' && name[i] == '_';
  }

  // ----- long identifiers

  const MAX_IDENTIFIER_LEN := 63

  /** The 16 lower-case hexadecimal digits of a 64-bit hash. */
  function HashDigits(hash: nat, width: nat): (s: string)
    ensures |s| == width && forall c :: c in s ==> IsDigit(c) || 'a' <= c <= 'f'
  {
    if width == 0 then ""
    else HashDigits(hash / 16, width - 1) + ["0123456789abcdef"[hash % 16]]
  }

  function ShortenIdentifier(identifier: string, stableHash: string -> nat): (s: string)
    ensures |s| <= 63
    ensures s == identifier <==> |identifier| <= 63
    ensures |identifier| > 63 ==>
      |s| == 63 && s[..46] == identifier[..46] && s[46..] == "_" + HashDigits(stableHash(identifier), 16)
    ensures identifier != "" ==> s != "" && s[0] == identifier[0]
  {
    if |identifier| <= MAX_IDENTIFIER_LEN then identifier else
    var suffix := "_" + HashDigits(stableHash(identifier), 16);
    identifier[..MAX_IDENTIFIER_LEN - |suffix|] + suffix
  }
}
