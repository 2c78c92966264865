/** Normalising extracted text: words, single line breaks and paragraph breaks are all that stays. */
module TextNormalizer {

  /** The Unicode White_Space property. */
  predicate IsWhitespace(c: char) {
    || '\U{0009}' <= c <= '\U{000D}' || c == ' ' || c == '\U{0085}' || c == '\U{00A0}' || c == '\U{1680}'
    || '\U{2000}' <= c <= '\U{200A}' || c == '\U{2028}' || c == '\U{2029}' || c == '\U{202F}'
    || c == '\U{205F}' || c == '\U{3000}'
  }

  /** Its 25 characters. */
  lemma WhitespaceIs(c: char)
    ensures IsWhitespace(c) <==> c as int in {
      0x09, 0x0A, 0x0B, 0x0C, 0x0D, 0x20, 0x85, 0xA0, 0x1680, 0x2000, 0x2001, 0x2002, 0x2003, 0x2004, 0x2005,
      0x2006, 0x2007, 0x2008, 0x2009, 0x200A, 0x2028, 0x2029, 0x202F, 0x205F, 0x3000}
  {}

  // ----- words

  /** The words so far, and whether the last may still grow. */
  datatype Splitting = Splitting(words: seq<string>, open: bool)

  function Grow(words: seq<string>, c: char): seq<string>
    requires words != []
  {
    words[..|words| - 1] + [words[|words| - 1] + [c]]
  }

  function SplitNext(st: Splitting, c: char): Splitting {
    if IsWhitespace(c) then Splitting(st.words, false)
    else if st.open && st.words != [] then Splitting(Grow(st.words, c), true)
    else Splitting(st.words + [[c]], true)
  }

  function SplitOn(st: Splitting, s: string): Splitting
    decreases |s|
  {
    if s == "" then st else SplitOn(SplitNext(st, s[0]), s[1..])
  }

  /** The whitespace-separated words of a text. */
  function Words(s: string): seq<string> {
    SplitOn(Splitting([], false), s).words
  }

  function JoinWords(words: seq<string>): string {
    if words == [] then "" else
    if |words| == 1 then words[0] else JoinWords(words[..|words| - 1]) + " " + words[|words| - 1]
  }

  lemma {:induction false} SplitOnAppend(st: Splitting, a: string, b: string)
    ensures SplitOn(st, a + b) == SplitOn(SplitOn(st, a), b)
    decreases |a|
  {
    if a == "" {
      assert a + b == b;
    } else {
      assert (a + b)[0] == a[0] && (a + b)[1..] == a[1..] + b;
      SplitOnAppend(SplitNext(st, a[0]), a[1..], b);
    }
  }

  // ----- the meaning: one scan over the characters

  /** What has been kept, and the line breaks and other whitespace met since. */
  datatype Scan = Scan(out: string, breaks: nat, spaced: bool)

  /** What stands between two kept characters: a paragraph break for two or more line breaks. */
  function Separator(breaks: nat, spaced: bool): string {
    if breaks >= 2 then "\n\n" else if breaks == 1 then "\n" else if spaced then " " else ""
  }

  function Keep(st: Scan, c: char): string {
    st.out + (if st.out == "" then "" else Separator(st.breaks, st.spaced)) + [c]
  }

  function ScanNext(st: Scan, c: char): Scan {
    if c == '\n' then st.(breaks := st.breaks + 1)
    else if IsWhitespace(c) then st.(spaced := true)
    else Scan(Keep(st, c), 0, false)
  }

  function ScanOn(st: Scan, s: string): Scan
    decreases |s|
  {
    if s == "" then st else ScanOn(ScanNext(st, s[0]), s[1..])
  }

  const START := Scan("", 0, false)

  lemma {:induction false} ScanOnAppend(st: Scan, a: string, b: string)
    ensures ScanOn(st, a + b) == ScanOn(ScanOn(st, a), b)
    decreases |a|
  {
    if a == "" {
      assert a + b == b;
    } else {
      assert (a + b)[0] == a[0] && (a + b)[1..] == a[1..] + b;
      ScanOnAppend(ScanNext(st, a[0]), a[1..], b);
    }
  }

  /** Every "\r\n", then every remaining '\r', becomes a line break. */
  function ReplaceCrLf(s: string): string {
    if s == "" then ""
    else if |s| >= 2 && s[0] == '\r' && s[1] == '\n' then "\n" + ReplaceCrLf(s[2..])
    else [s[0]] + ReplaceCrLf(s[1..])
  }

  function ReplaceCr(s: string): string {
    if s == "" then "" else [if s[0] == '\r' then '\n' else s[0]] + ReplaceCr(s[1..])
  }

  function Unified(text: string): string {
    ReplaceCr(ReplaceCrLf(text))
  }

  function Normalized(text: string): string {
    ScanOn(START, Unified(text)).out
  }

  // ----- the program: line by line

  function TrimStart(s: string): string {
    if s != "" && IsWhitespace(s[0]) then TrimStart(s[1..]) else s
  }

  function TrimEnd(s: string): string {
    if s != "" && IsWhitespace(s[|s| - 1]) then TrimEnd(s[..|s| - 1]) else s
  }

  /** Where the first line ends. */
  function LineEnd(s: string): (n: nat)
    ensures n <= |s| && (n < |s| ==> s[n] == '\n') && '\n' !in s[..n]
  {
    if s == "" || s[0] == '\n' then 0 else
    var n := LineEnd(s[1..]);
    assert s[..n + 1] == [s[0]] + s[1..][..n];
    n + 1
  }

  /** The lines of a text; a final line break does not start another line. */
  function Lines(s: string): seq<string>
    decreases |s|
  {
    if s == "" then [] else
    var n := LineEnd(s);
    [s[..n]] + (if n < |s| then Lines(s[n + 1..]) else [])
  }

  function JoinLines(lines: seq<string>): string {
    if lines == [] then "" else
    if |lines| == 1 then lines[0] else JoinLines(lines[..|lines| - 1]) + "\n" + lines[|lines| - 1]
  }

  datatype Collapsed = Collapsed(lines: seq<string>, blank: nat)

  /** Blank lines in a row become one. */
  function Collapse(lines: seq<string>): Collapsed {
    if lines == [] then Collapsed([], 0) else
    var before := Collapse(lines[..|lines| - 1]);
    var words := Words(lines[|lines| - 1]);
    if words == [] then Collapsed(before.lines + (if before.blank == 0 then [""] else []), before.blank + 1)
    else Collapsed(before.lines + [JoinWords(words)], 0)
  }

  method NormalizeText(text: string) returns (r: string)
    ensures r == Normalized(text)
  {
    var all := Lines(Unified(text));
    var lines: seq<string>, blankCount := [], 0;
    var n := 0;
    while n < |all|
      invariant 0 <= n <= |all|
      invariant Collapse(all[..n]) == Collapsed(lines, blankCount)
    {
      var words := Words(all[n]);
      assert all[..n + 1][..n] == all[..n];
      BlankIffNoWords(all[n]);
      if TrimEnd(TrimStart(all[n])) == "" {
        blankCount := blankCount + 1;
        if blankCount <= 1 {
          lines := lines + [""];
        }
      } else {
        blankCount := 0;
        lines := lines + [JoinWords(words)];
      }
      n := n + 1;
    }
    assert all[..n] == all;
    LinesMatchScan(Unified(text));
    r := TrimEnd(TrimStart(JoinLines(lines)));
  }

  // ----- a line is blank if and only if it has no words

  predicate AllWhitespace(s: string) {
    forall c :: c in s ==> IsWhitespace(c)
  }

  lemma {:induction false} NoWordsIff(s: string, st: Splitting)
    ensures AllWhitespace(s) ==> SplitOn(st, s).words == st.words
    ensures !AllWhitespace(s) ==> SplitOn(st, s).words != []
    ensures st.words != [] ==> SplitOn(st, s).words != []
  {
    if s != "" {
      NoWordsIff(s[1..], SplitNext(st, s[0]));
      assert s == [s[0]] + s[1..];
    }
  }

  lemma {:induction false} TrimStartIs(s: string)
    ensures TrimStart(s) == "" <==> AllWhitespace(s)
    ensures TrimStart(s) != "" ==> !IsWhitespace(TrimStart(s)[0])
  {
    if s != "" {
      assert s == [s[0]] + s[1..];
      TrimStartIs(s[1..]);
    }
  }

  lemma {:induction false} TrimEndKeeps(s: string)
    requires s != "" && !IsWhitespace(s[0])
    ensures TrimEnd(s) != ""
  {
    if IsWhitespace(s[|s| - 1]) {
      TrimEndKeeps(s[..|s| - 1]);
    }
  }

  lemma BlankIffNoWords(line: string)
    ensures TrimEnd(TrimStart(line)) == "" <==> Words(line) == []
  {
    TrimStartIs(line);
    NoWordsIff(line, Splitting([], false));
    if TrimStart(line) != "" {
      TrimEndKeeps(TrimStart(line));
    }
  }

  // ----- the scan of one line

  /** What a line's words are appended to. */
  function LineStart(st: Scan): string {
    if st.out == "" then "" else st.out + Separator(st.breaks, false)
  }

  lemma {:induction false} ScanLine(st: Scan, line: string)
    requires '\n' !in line && (st.out == "" || st.breaks >= 1)
    ensures var s, split := ScanOn(st, line), SplitOn(Splitting([], false), line);
      && (split.words == [] ==> !split.open && s.out == st.out && s.breaks == st.breaks)
      && (split.words != [] ==> (
            && s.out == LineStart(st) + JoinWords(split.words) && JoinWords(split.words) != ""
            && s.out != "" && s.breaks == 0 && s.spaced == !split.open))
    decreases |line|
  {
    if line != "" {
      var front, c := line[..|line| - 1], line[|line| - 1];
      assert line == front + [c];
      ScanLine(st, front);
      ScanOnAppend(st, front, [c]);
      SplitOnAppend(Splitting([], false), front, [c]);
      var s, split := ScanOn(st, front), SplitOn(Splitting([], false), front);
      assert ScanOn(st, line) == ScanNext(s, c) && SplitOn(Splitting([], false), line) == SplitNext(split, c);
      if !IsWhitespace(c) {
        NextWordCharacter(st, s, split, c);
      }
    }
  }

  lemma NextWordCharacter(st: Scan, s: Scan, split: Splitting, c: char)
    requires !IsWhitespace(c) && (st.out == "" || st.breaks >= 1)
    requires split.words == [] ==> !split.open && s.out == st.out && s.breaks == st.breaks
    requires split.words != [] ==>
      s.out == LineStart(st) + JoinWords(split.words) && s.out != "" && s.breaks == 0 && s.spaced == !split.open
    ensures Keep(s, c) == LineStart(st) + JoinWords(SplitNext(split, c).words)
    ensures JoinWords(SplitNext(split, c).words) != ""
  {
    var words := split.words;
    if words == [] {
      assert SplitNext(split, c).words == [[c]];
      assert Separator(s.breaks, s.spaced) == Separator(st.breaks, false) || s.out == "";
    } else if split.open {
      GrowJoins(words, c);
      assert Keep(s, c) == s.out + [c];
      assert LineStart(st) + (JoinWords(words) + [c]) == (LineStart(st) + JoinWords(words)) + [c];
    } else {
      MoreJoins(words, c);
      assert Keep(s, c) == s.out + " " + [c];
      assert LineStart(st) + (JoinWords(words) + " " + [c]) == (LineStart(st) + JoinWords(words)) + " " + [c];
    }
  }

  lemma GrowJoins(words: seq<string>, c: char)
    requires words != []
    ensures JoinWords(Grow(words, c)) == JoinWords(words) + [c]
  {
    var grown := Grow(words, c);
    assert grown[..|grown| - 1] == words[..|words| - 1];
  }

  lemma MoreJoins(words: seq<string>, c: char)
    requires words != []
    ensures JoinWords(words + [[c]]) == JoinWords(words) + " " + [c]
  {
    var more := words + [[c]];
    assert more[..|more| - 1] == words;
  }

  // ----- lines against the scan

  /** The lines make up the text, but for a final line break. */
  ghost predicate MakeUp(lines: seq<string>, s: string) {
    (s == JoinLines(lines) || s == JoinLines(lines) + "\n") && (s == "" <==> lines == [])
  }

  lemma OneLineMakesUp(s: string, n: nat)
    requires s != "" && n == |s|
    ensures MakeUp([s[..n]], s)
  {
    assert s[..n] == s;
  }

  lemma {:induction false} LinesMakeUp(s: string)
    ensures MakeUp(Lines(s), s)
    decreases |s|
  {
    if s != "" {
      var n := LineEnd(s);
      if n == |s| {
        OneLineMakesUp(s, n);
        assert Lines(s) == [s[..n]];
      } else {
        LinesMakeUp(s[n + 1..]);
        FirstLineMakesUp(s[..n], s[n + 1..], Lines(s[n + 1..]));
        assert s == s[..n] + "\n" + s[n + 1..];
      }
    }
  }

  lemma {:induction false} LinesHaveNoBreaks(s: string)
    ensures forall line :: line in Lines(s) ==> '\n' !in line
    decreases |s|
  {
    if s != "" && LineEnd(s) < |s| {
      LinesHaveNoBreaks(s[LineEnd(s) + 1..]);
    }
  }

  lemma FirstLineMakesUp(first: string, rest: string, lines: seq<string>)
    requires MakeUp(lines, rest)
    ensures MakeUp([first] + lines, first + "\n" + rest)
  {
    if lines == [] {
      assert [first] + lines == [first];
    } else {
      JoinLinesFront(first, lines);
    }
  }

  lemma {:induction false} JoinLinesFront(first: string, rest: seq<string>)
    requires rest != []
    ensures JoinLines([first] + rest) == first + "\n" + JoinLines(rest)
  {
    var all := [first] + rest;
    var front := rest[..|rest| - 1];
    assert all[..|all| - 1] == [first] + front;
    if front == [] {
      assert [first] + front == [first];
      assert all[|all| - 1] == rest[0] == JoinLines(rest);
    } else {
      JoinLinesFront(first, front);
      assert JoinLines(all) == first + "\n" + JoinLines(front) + "\n" + rest[|rest| - 1];
    }
  }

  /** Blank lines collapsed so far say what the scan has kept so far, up to leading and trailing breaks. */
  ghost predicate Matches(c: Collapsed, s: Scan) {
    if s.out == "" then JoinLines(c.lines) == "" && |c.lines| <= 1 && (c.lines != [] ==> c.blank > 0)
    else
      && c.lines != [] && s.breaks == c.blank
      && (|| JoinLines(c.lines) == s.out + (if c.blank > 0 then "\n" else "")
          || JoinLines(c.lines) == "\n" + s.out + (if c.blank > 0 then "\n" else ""))
  }

  lemma BlankLineMatches(c: Collapsed, s: Scan, after: Scan)
    requires Matches(c, s) && after.out == s.out && (s.out != "" ==> after.breaks == s.breaks + 1)
    ensures Matches(Collapsed(c.lines + (if c.blank == 0 then [""] else []), c.blank + 1), after)
  {
    var more := c.lines + [""];
    assert more[..|more| - 1] == c.lines;
    assert c.lines + [] == c.lines;
  }

  lemma FullLineMatches(c: Collapsed, s: Scan, after: Scan, line: string)
    requires Matches(c, s) && line != "" && after.breaks == 0
    requires after.out == if s.out == "" then line else s.out + Separator(s.breaks + 1, false) + line
    ensures Matches(Collapsed(c.lines + [line], 0), after)
  {
    var more := c.lines + [line];
    assert more[..|more| - 1] == c.lines;
    if s.out == "" {
      if c.lines == [] {
        assert JoinLines(more) == line;
      } else {
        assert JoinLines(more) == "" + "\n" + line;
      }
    } else {
      var lead := if JoinLines(c.lines) == s.out + (if c.blank > 0 then "\n" else "") then "" else "\n";
      assert JoinLines(c.lines) == lead + s.out + (if c.blank > 0 then "\n" else "");
      assert JoinLines(more) == lead + after.out;
    }
  }

  lemma {:induction false} CollapseMatches(lines: seq<string>)
    requires forall line :: line in lines ==> '\n' !in line
    ensures Matches(Collapse(lines), ScanOn(START, JoinLines(lines)))
  {
    if lines != [] {
      var front, last := lines[..|lines| - 1], lines[|lines| - 1];
      assert last in lines && forall line :: line in front ==> line in lines;
      CollapseMatches(front);
      var s := ScanOn(START, JoinLines(front));
      var start := if front == [] then START else ScanNext(s, '\n');
      if front == [] {
        assert JoinLines(lines) == last;
      } else {
        ScanOnAppend(START, JoinLines(front), "\n");
        ScanOnAppend(START, JoinLines(front) + "\n", last);
        assert ScanOn(s, "\n") == ScanNext(s, '\n');
      }
      ScanLine(start, last);
      var after := ScanOn(start, last);
      assert after == ScanOn(START, JoinLines(lines));
      if Words(last) == [] {
        BlankLineMatches(Collapse(front), s, after);
      } else {
        FullLineMatches(Collapse(front), s, after, JoinWords(Words(last)));
      }
    }
  }

  ghost predicate IsTrimmed(s: string) {
    s != "" ==> !IsWhitespace(s[0]) && !IsWhitespace(s[|s| - 1])
  }

  lemma {:induction false} ScanIsTrimmed(st: Scan, s: string)
    requires IsTrimmed(st.out)
    ensures IsTrimmed(ScanOn(st, s).out)
    decreases |s|
  {
    if s != "" { ScanIsTrimmed(ScanNext(st, s[0]), s[1..]); }
  }

  lemma TrimWrapped(lead: string, core: string, tail: string)
    requires IsTrimmed(core) && core != "" && lead in ["", "\n"] && tail in ["", "\n"]
    ensures TrimEnd(TrimStart(lead + core + tail)) == core
  {
    var s := lead + core + tail;
    if lead == "\n" {
      assert s[1..] == core + tail;
      assert TrimStart(s) == TrimStart(s[1..]);
    } else {
      assert s == core + tail;
    }
    assert TrimStart(core + tail) == core + tail;
    if tail == "\n" {
      assert (core + tail)[..|core + tail| - 1] == core;
      assert TrimEnd(core + tail) == TrimEnd(core);
    } else {
      assert core + tail == core;
    }
  }

  lemma MatchesTrims(c: Collapsed, scan: Scan)
    requires Matches(c, scan) && IsTrimmed(scan.out)
    ensures TrimEnd(TrimStart(JoinLines(c.lines))) == scan.out
  {
    if scan.out != "" {
      var tail := if c.blank > 0 then "\n" else "";
      TrimWrapped("", scan.out, tail);
      TrimWrapped("\n", scan.out, tail);
      assert "" + scan.out + tail == scan.out + tail;
    }
  }

  /** The line-by-line program computes what the scan means. */
  lemma LinesMatchScan(s: string)
    ensures TrimEnd(TrimStart(JoinLines(Collapse(Lines(s)).lines))) == ScanOn(START, s).out
  {
    LinesMakeUp(s);
    LinesHaveNoBreaks(s);
    CollapseMatches(Lines(s));
    var joined := JoinLines(Lines(s));
    ScanOnAppend(START, joined, "\n");
    assert ScanOn(ScanOn(START, joined), "\n") == ScanNext(ScanOn(START, joined), '\n');
    ScanIsTrimmed(START, joined);
    MatchesTrims(Collapse(Lines(s)), ScanOn(START, joined));
  }

  // ----- words are kept

  lemma {:induction false} LineBreaksKeepWords(st: Splitting, s: string)
    ensures SplitOn(st, ReplaceCrLf(s)) == SplitOn(st, s)
    decreases |s|
  {
    if |s| >= 2 && s[0] == '\r' && s[1] == '\n' {
      LineBreaksKeepWords(SplitNext(st, '\n'), s[2..]);
      assert SplitOn(st, s) == SplitOn(SplitNext(st, '\r'), s[1..])
        == SplitOn(SplitNext(SplitNext(st, '\r'), '\n'), s[1..][1..]);
      assert s[1..][1..] == s[2..];
    } else if s != "" {
      LineBreaksKeepWords(SplitNext(st, s[0]), s[1..]);
      assert ReplaceCrLf(s)[1..] == ReplaceCrLf(s[1..]);
    }
  }

  lemma {:induction false} ReturnsKeepWords(st: Splitting, s: string)
    ensures SplitOn(st, ReplaceCr(s)) == SplitOn(st, s)
    decreases |s|
  {
    if s != "" {
      ReturnsKeepWords(SplitNext(st, s[0]), s[1..]);
      assert ReplaceCr(s)[1..] == ReplaceCr(s[1..]);
    }
  }

  /** Splitting the kept text and splitting the text itself agree all along the scan. */
  ghost predicate SameWords(scan: Scan, kept: Splitting, split: Splitting) {
    && kept.words == split.words && (kept.open <==> scan.out != "") && (kept.open ==> kept.words != [])
    && (split.open <==> scan.out != "" && scan.breaks == 0 && !scan.spaced)
  }

  lemma {:induction false} SplitOnBlank(st: Splitting, s: string)
    requires AllWhitespace(s) && s != ""
    ensures SplitOn(st, s) == Splitting(st.words, false)
    decreases |s|
  {
    assert s[0] in s;
    if |s| > 1 {
      assert forall c :: c in s[1..] ==> c in s;
      SplitOnBlank(SplitNext(st, s[0]), s[1..]);
    } else {
      assert s[1..] == "";
    }
  }

  lemma KeepStaysSame(scan: Scan, kept: Splitting, split: Splitting, c: char)
    requires SameWords(scan, kept, split) && !IsWhitespace(c) && kept == SplitOn(Splitting([], false), scan.out)
    ensures SplitOn(Splitting([], false), Keep(scan, c)) == SplitNext(split, c)
  {
    var empty := Splitting([], false);
    var between := if scan.out == "" then "" else Separator(scan.breaks, scan.spaced);
    SplitOnAppend(empty, scan.out, between);
    SplitOnAppend(empty, scan.out + between, [c]);
    if between == "" {
      assert SplitOn(kept, between) == kept;
    } else {
      SplitOnBlank(kept, between);
    }
    assert [c][1..] == "";
  }

  lemma {:induction false} ScanKeepsWords(scan: Scan, kept: Splitting, split: Splitting, s: string)
    requires kept == SplitOn(Splitting([], false), scan.out) && SameWords(scan, kept, split)
    ensures SplitOn(Splitting([], false), ScanOn(scan, s).out).words == SplitOn(split, s).words
    decreases |s|
  {
    if s != "" {
      var c := s[0];
      if !IsWhitespace(c) {
        KeepStaysSame(scan, kept, split, c);
      }
      ScanKeepsWords(ScanNext(scan, c), SplitOn(Splitting([], false), ScanNext(scan, c).out), SplitNext(split, c),
        s[1..]);
    }
  }

  /** Normalising keeps the exact sequence of words. */
  lemma WordsAreKept(text: string)
    ensures Words(Normalized(text)) == Words(text)
  {
    var empty := Splitting([], false);
    ScanKeepsWords(START, empty, empty, Unified(text));
    ReturnsKeepWords(empty, ReplaceCrLf(text));
    LineBreaksKeepWords(empty, text);
  }

  // ----- what stands between two words

  /** The line breaks of a gap: a carriage return with a line feed is one. */
  function Breaks(gap: string): nat
    decreases |gap|
  {
    if gap == "" then 0
    else if |gap| >= 2 && gap[..2] == "\r\n" then 1 + Breaks(gap[2..])
    else (if gap[0] in "\r\n" then 1 else 0) + Breaks(gap[1..])
  }

  lemma {:induction false} ReplacedAppend(a: string, b: string)
    requires !(a != "" && b != "" && a[|a| - 1] == '\r' && b[0] == '\n')
    ensures ReplaceCrLf(a + b) == ReplaceCrLf(a) + ReplaceCrLf(b)
    decreases |a|
  {
    if a == "" {
      assert a + b == b;
    } else if |a| >= 2 && a[0] == '\r' && a[1] == '\n' {
      assert (a + b)[2..] == a[2..] + b;
      ReplacedAppend(a[2..], b);
    } else {
      assert (a + b)[1..] == a[1..] + b;
      ReplacedAppend(a[1..], b);
    }
  }

  lemma {:induction false} ReturnsAppend(a: string, b: string)
    ensures ReplaceCr(a + b) == ReplaceCr(a) + ReplaceCr(b)
    decreases |a|
  {
    if a == "" {
      assert a + b == b;
    } else {
      assert (a + b)[1..] == a[1..] + b;
      ReturnsAppend(a[1..], b);
    }
  }

  lemma UnifiedAppend(a: string, b: string)
    requires !(a != "" && b != "" && a[|a| - 1] == '\r' && b[0] == '\n')
    ensures Unified(a + b) == Unified(a) + Unified(b)
  {
    ReplacedAppend(a, b);
    ReturnsAppend(ReplaceCrLf(a), ReplaceCrLf(b));
  }

  lemma UnifiedLetter(c: char)
    requires !IsWhitespace(c)
    ensures Unified([c]) == [c]
  {
    assert [c][1..] == "";
    assert ReplaceCrLf([c]) == [c] + ReplaceCrLf("") == [c];
    assert ReplaceCr([c]) == [c] + ReplaceCr("") == [c];
  }

  lemma UnifiedStep(gap: string)
    requires gap != ""
    ensures Unified(gap) ==
      if |gap| >= 2 && gap[..2] == "\r\n" then "\n" + Unified(gap[2..])
      else [if gap[0] == '\r' then '\n' else gap[0]] + Unified(gap[1..])
  {
    if |gap| >= 2 && gap[0] == '\r' && gap[1] == '\n' {
      assert gap[..2] == "\r\n";
      assert ReplaceCrLf(gap)[1..] == ReplaceCrLf(gap[2..]);
    } else {
      assert |gap| >= 2 ==> gap[..2][0] == gap[0] && gap[..2][1] == gap[1];
      assert ReplaceCrLf(gap)[1..] == ReplaceCrLf(gap[1..]);
    }
  }

  lemma ScanStep(st: Scan, c: char, rest: string)
    ensures ScanOn(st, [c] + rest) == ScanOn(ScanNext(st, c), rest)
  {
    assert ([c] + rest)[1..] == rest;
  }

  /** Scanning a gap keeps nothing and counts its line breaks. */
  lemma {:induction false} GapIsCounted(st: Scan, gap: string)
    requires AllWhitespace(gap)
    ensures var after := ScanOn(st, Unified(gap));
      && after.out == st.out && after.breaks == st.breaks + Breaks(gap)
      && (gap != "" && Breaks(gap) == 0 ==> after.spaced)
      && (st.spaced ==> after.spaced)
    decreases |gap|
  {
    if gap != "" {
      assert gap[0] in gap;
      UnifiedStep(gap);
      if |gap| >= 2 && gap[..2] == "\r\n" {
        assert forall c :: c in gap[2..] ==> c in gap;
        ScanStep(st, '\n', Unified(gap[2..]));
        GapIsCounted(ScanNext(st, '\n'), gap[2..]);
      } else {
        assert forall c :: c in gap[1..] ==> c in gap;
        var c := if gap[0] == '\r' then '\n' else gap[0];
        ScanStep(st, c, Unified(gap[1..]));
        GapIsCounted(ScanNext(st, c), gap[1..]);
      }
    }
  }

  /** What has been kept before only stands in front. */
  lemma {:induction false} KeptStandsInFront(before: string, st: Scan, s: string)
    requires st.out != ""
    ensures var a, b := ScanOn(st.(out := before + st.out), s), ScanOn(st, s);
      a.out == before + b.out && a.breaks == b.breaks && a.spaced == b.spaced
    decreases |s|
  {
    if s != "" {
      if !IsWhitespace(s[0]) {
        var sep := Separator(st.breaks, st.spaced);
        assert before + st.out + sep + [s[0]] == before + (st.out + sep + [s[0]]);
      }
      KeptStandsInFront(before, ScanNext(st, s[0]), s[1..]);
    }
  }

  lemma EndsKept(a: string)
    requires a != "" && !IsWhitespace(a[|a| - 1])
    ensures var st := ScanOn(START, Unified(a)); st.out != "" && st.breaks == 0 && !st.spaced
  {
    var front, last := a[..|a| - 1], a[|a| - 1];
    assert a == front + [last];
    UnifiedAppend(front, [last]);
    UnifiedLetter(last);
    ScanOnAppend(START, Unified(front), [last]);
    assert [last][1..] == "";
  }

  lemma StartsAfter(st: Scan, b: string)
    requires b != "" && !IsWhitespace(b[0])
    ensures ScanOn(st, Unified(b)).out
      == (if st.out == "" then "" else st.out + Separator(st.breaks, st.spaced)) + Normalized(b)
  {
    var c, rest := b[0], b[1..];
    assert b == [c] + rest;
    UnifiedAppend([c], rest);
    UnifiedLetter(c);
    var u, s := Unified(rest), Unified(b);
    assert s[0] == c && s[1..] == u;
    var before := if st.out == "" then "" else st.out + Separator(st.breaks, st.spaced);
    assert Keep(st, c) == before + [c] && Keep(START, c) == [c];
    KeptStandsInFront(before, Scan([c], 0, false), u);
  }

  /** Between two words stands a paragraph break for two or more line breaks, a line break for one,
      and otherwise one space; the rest of the text is normalised on either side by itself. */
  lemma GapIsNormalized(a: string, gap: string, b: string)
    requires a != "" && !IsWhitespace(a[|a| - 1]) && b != "" && !IsWhitespace(b[0])
    requires gap != "" && AllWhitespace(gap)
    ensures Normalized(a + gap + b) == Normalized(a)
      + (if Breaks(gap) >= 2 then "\n\n" else if Breaks(gap) == 1 then "\n" else " ") + Normalized(b)
  {
    UnifiedAppend(a + gap, b);
    UnifiedAppend(a, gap);
    ScanOnAppend(START, Unified(a) + Unified(gap), Unified(b));
    ScanOnAppend(START, Unified(a), Unified(gap));
    EndsKept(a);
    GapIsCounted(ScanOn(START, Unified(a)), gap);
    StartsAfter(ScanOn(START, Unified(a + gap)), b);
  }

  /** Nothing stands around the text, and a word stays as it is; with the gaps that is everything. */
  lemma EndsAreTrimmed(gap: string, text: string)
    requires AllWhitespace(gap) && text != ""
    ensures !IsWhitespace(text[0]) ==> Normalized(gap + text) == Normalized(text)
    ensures !IsWhitespace(text[|text| - 1]) ==> Normalized(text + gap) == Normalized(text)
    ensures Normalized(gap) == ""
  {
    GapIsCounted(START, gap);
    if !IsWhitespace(text[0]) {
      UnifiedAppend(gap, text);
      ScanOnAppend(START, Unified(gap), Unified(text));
      StartsAfter(ScanOn(START, Unified(gap)), text);
    }
    if !IsWhitespace(text[|text| - 1]) {
      UnifiedAppend(text, gap);
      ScanOnAppend(START, Unified(text), Unified(gap));
      GapIsCounted(ScanOn(START, Unified(text)), gap);
    }
  }

  lemma {:induction false} WordStays(word: string)
    requires forall c :: c in word ==> !IsWhitespace(c)
    ensures Normalized(word) == word
  {
    if word != "" {
      var front, last := word[..|word| - 1], word[|word| - 1];
      assert word == front + [last] && last in word;
      WordStays(front);
      UnifiedAppend(front, [last]);
      UnifiedLetter(last);
      ScanOnAppend(START, Unified(front), [last]);
      assert [last][1..] == "";
      if front != "" { EndsKept(front); }
    }
  }

  // ----- the normal form

  /** The whitespace at a place in a normal text: one space, or at most two line breaks, between words. */
  predicate NormalAt(s: string, i: nat)
    requires i < |s|
  {
    IsWhitespace(s[i]) ==>
      && 0 < i < |s| - 1
      && (|| (s[i] == ' ' && !IsWhitespace(s[i - 1]) && !IsWhitespace(s[i + 1]))
          || (s[i] == '\n' && s[i - 1] != ' ' && s[i + 1] != ' ' && (s[i - 1] == '\n' ==> s[i + 1] != '\n')))
  }

  /** Trimmed, single spaces inside lines, and never two blank lines in a row. */
  ghost predicate IsNormal(s: string) {
    forall i: nat :: i < |s| ==> NormalAt(s, i)
  }

  lemma NormalIsTrimmed(s: string)
    requires IsNormal(s)
    ensures IsTrimmed(s)
  {
    if s != "" {
      assert NormalAt(s, 0) && NormalAt(s, |s| - 1);
    }
  }

  lemma KeepStaysNormal(scan: Scan, c: char)
    requires IsNormal(scan.out) && !IsWhitespace(c)
    ensures IsNormal(Keep(scan, c))
  {
    NormalIsTrimmed(scan.out);
    var between := if scan.out == "" then "" else Separator(scan.breaks, scan.spaced);
    var s := Keep(scan, c);
    assert s == scan.out + between + [c];
    forall i: nat | i < |s| ensures NormalAt(s, i) {
      if i < |scan.out| {
        assert NormalAt(scan.out, i);
      }
    }
  }

  lemma {:induction false} ScanStaysNormal(scan: Scan, s: string)
    requires IsNormal(scan.out)
    ensures IsNormal(ScanOn(scan, s).out)
    decreases |s|
  {
    if s != "" {
      if !IsWhitespace(s[0]) { KeepStaysNormal(scan, s[0]); }
      ScanStaysNormal(ScanNext(scan, s[0]), s[1..]);
    }
  }

  /** Along a normal text the scan keeps everything, the pending whitespace included. */
  lemma {:induction false} NormalIsKept(s: string, n: nat)
    requires IsNormal(s) && n <= |s|
    ensures var scan := ScanOn(START, s[..n]);
      && s[..n] == scan.out + Separator(scan.breaks, scan.spaced) && (n > 0 ==> scan.out != "") && IsTrimmed(scan.out)
      && scan.breaks <= 2 && (scan.spaced ==> scan.breaks == 0)
  {
    if n > 0 {
      var c := s[n - 1];
      NormalIsKept(s, n - 1);
      var before := ScanOn(START, s[..n - 1]);
      assert s[..n] == s[..n - 1] + [c];
      ScanOnAppend(START, s[..n - 1], [c]);
      assert ScanOn(before, [c]) == ScanNext(before, c) by { assert [c][1..] == ""; }
      assert NormalAt(s, n - 1);
      if n > 1 {
        assert s[..n - 1][n - 2] == s[n - 2] && NormalAt(s, n - 2);
      }
    }
  }

  lemma {:induction false} NothingToUnify(s: string)
    requires '\r' !in s
    ensures Unified(s) == s
  {
    if s != "" {
      NothingToUnify(s[1..]);
      assert s == [s[0]] + s[1..];
      assert ReplaceCrLf(s) == [s[0]] + ReplaceCrLf(s[1..]);
    }
  }

  /** Exactly the normal texts are left as they are, and every result is one. */
  lemma NormalFormsAreFixed(text: string)
    ensures IsNormal(Normalized(text))
    ensures Normalized(text) == text <==> IsNormal(text)
    ensures Normalized(Normalized(text)) == Normalized(text)
  {
    ScanStaysNormal(START, Unified(text));
    if IsNormal(text) { NormalIsFixed(text); }
    NormalIsFixed(Normalized(text));
  }

  lemma NormalIsFixed(s: string)
    requires IsNormal(s)
    ensures Normalized(s) == s
  {
    forall i: nat | i < |s| ensures s[i] != '\r' {
      assert NormalAt(s, i);
    }
    NothingToUnify(s);
    NormalIsKept(s, |s|);
    NormalIsTrimmed(s);
    assert s[..|s|] == s;
  }

  // ----- inline text

  function AllWords(parts: seq<string>): seq<string> {
    if parts == [] then [] else AllWords(parts[..|parts| - 1]) + Words(parts[|parts| - 1])
  }

  method NormalizeInlineText(parts: seq<string>) returns (r: string)
    ensures r == JoinWords(AllWords(parts))
  {
    var words: seq<string> := [];
    for n := 0 to |parts|
      invariant words == AllWords(parts[..n])
    {
      assert parts[..n + 1][..n] == parts[..n];
      words := words + Words(parts[n]);
    }
    assert parts[..|parts|] == parts;
    r := JoinWords(words);
  }

  ghost predicate IsWord(w: string) {
    w != "" && forall c :: c in w ==> !IsWhitespace(c)
  }

  lemma {:induction false} WordsAreWords(st: Splitting, s: string)
    requires forall w :: w in st.words ==> IsWord(w)
    ensures forall w :: w in SplitOn(st, s).words ==> IsWord(w)
    decreases |s|
  {
    if s != "" {
      var next := SplitNext(st, s[0]);
      forall w | w in next.words ensures IsWord(w) {
        if st.open && st.words != [] && !IsWhitespace(s[0]) {
          assert st.words[|st.words| - 1] in st.words;
          assert w in st.words[..|st.words| - 1] || w == st.words[|st.words| - 1] + [s[0]];
        }
      }
      WordsAreWords(next, s[1..]);
    }
  }

  lemma {:induction false} AllWordsAreWords(parts: seq<string>)
    ensures forall w :: w in AllWords(parts) ==> IsWord(w)
  {
    if parts != [] {
      AllWordsAreWords(parts[..|parts| - 1]);
      WordsAreWords(Splitting([], false), parts[|parts| - 1]);
    }
  }

  lemma {:induction false} SplitWord(st: Splitting, w: string)
    requires IsWord(w) && !st.open
    ensures SplitOn(st, w) == Splitting(st.words + [w], true)
    decreases |w|
  {
    var front, c := w[..|w| - 1], w[|w| - 1];
    assert w == front + [c] && c in w;
    SplitOnAppend(st, front, [c]);
    if front == "" {
      assert w[1..] == "";
    } else {
      assert forall d :: d in front ==> d in w;
      SplitWord(st, front);
      var before := SplitOn(st, front);
      assert SplitOn(before, [c]) == SplitNext(before, c) by { assert [c][1..] == ""; }
      assert Grow(before.words, c) == st.words + [w];
    }
  }

  lemma {:induction false} WordsOfJoined(words: seq<string>)
    requires forall w :: w in words ==> IsWord(w)
    ensures SplitOn(Splitting([], false), JoinWords(words)) == Splitting(words, words != [])
  {
    var empty := Splitting([], false);
    if |words| == 1 {
      SplitWord(empty, words[0]);
    } else if words != [] {
      var front, last := words[..|words| - 1], words[|words| - 1];
      WordsOfJoined(front);
      SplitOnAppend(empty, JoinWords(front), " ");
      SplitOnAppend(empty, JoinWords(front) + " ", last);
      assert SplitOn(Splitting(front, true), " ") == Splitting(front, false) by { assert " "[1..] == ""; }
      SplitWord(Splitting(front, false), last);
      assert words == front + [last];
    }
  }

  /** The inline form has the words of all parts in order, and depends on nothing else. */
  lemma InlineKeepsWords(parts: seq<string>)
    ensures Words(JoinWords(AllWords(parts))) == AllWords(parts)
  {
    AllWordsAreWords(parts);
    WordsOfJoined(AllWords(parts));
  }
}
