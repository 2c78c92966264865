/** Cursors of the feed: URLs checked against the configured origin, path, category and content mode. */
module CursorUrls {
  import opened Integers
  import opened Wrappers

  datatype Url = Url(
    scheme: string, host: Option<string>, port: Option<nat>, path: string, pairs: seq<(string, string)>)

  /** What a client is configured for. */
  datatype Client = Client(base: Url, category: string, contentMode: string)

  datatype CursorError = MalformedCursorUrl | MissingCursorState | CategoryMismatch(actual: string)

  const SYNCFEED_PATH := "/SyncFeed/2.0/Feed"

  function AsciiLower(s: string): string {
    if s == "" then ""
    else [if 'A' <= s[0] <= 'Z' then s[0] - 'A' + 'a' else s[0]] + AsciiLower(s[1..])
  }

  predicate CategoriesMatch(actual: string, expected: string) {
    AsciiLower(actual) == AsciiLower(expected)
  }

  function LastValue(pairs: seq<(string, string)>, key: string): Option<string> {
    if pairs == [] then None
    else if pairs[|pairs| - 1].0 == key then Some(pairs[|pairs| - 1].1)
    else LastValue(pairs[..|pairs| - 1], key)
  }

  function FirstValue(pairs: seq<(string, string)>, key: string): Option<string> {
    if pairs == [] then None
    else if pairs[0].0 == key then Some(pairs[0].1)
    else FirstValue(pairs[1..], key)
  }

  // ----- the text of a 64-bit integer

  function Digit(c: char): nat {
    if IsDigit(c) then (c - '0') as int else 0
  }

  /** The value of a run of decimal digits; leading zeros are allowed. */
  function DecimalValue(digits: string): nat {
    if digits == "" then 0 else 10 * DecimalValue(digits[..|digits| - 1]) + Digit(digits[|digits| - 1])
  }

  /** The value under its sign. */
  function Signed(negative: bool, value: nat): int {
    if negative then 0 - value else value
  }

  function Unsigned(text: string): string {
    if text != "" && (text[0] == '+' || text[0] == '-') then text[1..] else text
  }

  /** An optional sign, then at least one digit, for a value in range. */
  predicate IsI64Text(text: string) {
    var digits := Unsigned(text);
    && digits != "" && (forall c :: c in digits ==> IsDigit(c))
    && DecimalValue(digits) <= (if text[0] == '-' then I64_MAX + 1 else I64_MAX)
  }

  /** The parser's loop: digit by digit, giving up at the first other character and as soon as the
      value leaves the range, which it extends downwards for a minus sign. */
  method ParseI64(text: string) returns (n: Option<int>)
    ensures n == I64Of(text)
  {
    var digits := Unsigned(text);
    if digits == "" { return None; }
    var negative := text[0] == '-';
    var value := 0;
    for i := 0 to |digits|
      invariant forall c :: c in digits[..i] ==> IsDigit(c)
      invariant value == Signed(negative, DecimalValue(digits[..i]))
      invariant -I64_MAX - 1 <= value <= I64_MAX
    {
      NextDigit(digits, i, negative);
      if !IsDigit(digits[i]) {
        assert digits[i] in digits;
        return None;
      }
      var digit := Digit(digits[i]);
      value := if negative then 10 * value - digit else 10 * value + digit;
      if !(-I64_MAX - 1 <= value <= I64_MAX) {
        MoreDigitsAreMore(digits, i + 1);
        return None;
      }
    }
    assert digits[..|digits|] == digits;
    n := Some(value);
  }

  lemma NextDigit(digits: string, i: nat, negative: bool)
    requires i < |digits|
    ensures forall c :: c in digits[..i + 1] <==> c in digits[..i] || c == digits[i]
    ensures Signed(negative, DecimalValue(digits[..i + 1]))
      == 10 * Signed(negative, DecimalValue(digits[..i])) + Signed(negative, Digit(digits[i]))
  {
    assert digits[..i + 1] == digits[..i] + [digits[i]];
    assert digits[..i + 1][..i] == digits[..i];
  }

  lemma {:induction false} MoreDigitsAreMore(digits: string, n: nat)
    requires n <= |digits|
    ensures DecimalValue(digits[..n]) <= DecimalValue(digits)
    decreases |digits|
  {
    if n == |digits| {
      assert digits[..n] == digits;
    } else {
      var front := digits[..|digits| - 1];
      assert front[..n] == digits[..n];
      MoreDigitsAreMore(front, n);
    }
  }

  function I64Of(text: string): Option<int> {
    if !IsI64Text(text) then None
    else Some(Signed(text[0] == '-', DecimalValue(Unsigned(text))))
  }

  /** The texts of integers: digits in range, alone or after a plus, or after a minus; nothing else. */
  lemma IntegerTextsAre(digits: string, text: string)
    requires digits != "" && forall c :: c in digits ==> IsDigit(c)
    ensures I64Of(digits) == I64Of("+" + digits)
      == (if DecimalValue(digits) <= I64_MAX then Some(DecimalValue(digits)) else None)
    ensures I64Of("-" + digits)
      == (if DecimalValue(digits) <= I64_MAX + 1 then Some(0 - DecimalValue(digits)) else None)
    ensures I64Of(text).Some? ==>
      text != "" && (text[0] in "+-" || IsDigit(text[0])) && forall c :: c in text[1..] ==> IsDigit(c)
  {
    assert digits[0] in digits;
    assert ("+" + digits)[1..] == digits && ("-" + digits)[1..] == digits;
    if I64Of(text).Some? {
      assert text[0] in "+-" || (text[0] in text && Unsigned(text) == text);
      assert forall c :: c in text[1..] ==> c in text;
    }
  }

  function NatText(n: nat): (text: string)
    ensures text != "" && forall c :: c in text ==> IsDigit(c)
  {
    var last := ['0' + (n % 10) as char];
    if n < 10 then last else NatText(n / 10) + last
  }

  function IntText(n: int): string {
    if n < 0 then "-" + NatText(-n) else NatText(n)
  }

  lemma {:induction false} NatTextValue(n: nat)
    ensures DecimalValue(NatText(n)) == n
  {
    var text := NatText(n);
    if n >= 10 {
      NatTextValue(n / 10);
      assert text[..|text| - 1] == NatText(n / 10);
    } else {
      assert text[..0] == "";
    }
  }

  lemma SignOf(n: int)
    ensures IntText(n) != "" && (IntText(n)[0] == '-' <==> n < 0)
    ensures Unsigned(IntText(n)) == NatText(if n < 0 then -n else n)
  {
    var digits := NatText(if n < 0 then -n else n);
    assert digits[0] in digits;
    assert n < 0 ==> IntText(n)[1..] == digits;
  }

  /** Reading back a printed integer gives it if and only if it is 64 bits wide. */
  lemma I64RoundTrip(n: int)
    ensures I64Of(IntText(n)) == if -I64_MAX - 1 <= n <= I64_MAX then Some(n) else None
  {
    var magnitude := if n < 0 then -n else n;
    SignOf(n);
    NatTextValue(magnitude);
    assert forall c :: c in NatText(magnitude) ==> IsDigit(c);
  }

  /** The token of a URL: of its first skiptoken pair. */
  function SkiptokenFromUrl(url: Url): Option<int> {
    match FirstValue(url.pairs, "skiptoken")
    case Some(value) => I64Of(value)
    case None => None
  }

  predicate SameOrigin(a: Url, b: Url) {
    a.scheme == b.scheme && a.host == b.host && a.port == b.port
  }

  /** The URLs the client will request: right origin, path and category, some skiptoken, and no
      other content mode. Of repeated keys the last counts. */
  predicate IsCursor(client: Client, url: Url) {
    && SameOrigin(url, client.base) && url.path == SYNCFEED_PATH
    && LastValue(url.pairs, "category").Some? &&
      CategoriesMatch(LastValue(url.pairs, "category").value, client.category)
    && LastValue(url.pairs, "skiptoken").Some?
    && (LastValue(url.pairs, "content").Some? ==> LastValue(url.pairs, "content").value == client.contentMode)
  }

  method ValidateCursorUrl(client: Client, url: Url) returns (r: Result<(), CursorError>)
    ensures r.Ok? <==> IsCursor(client, url)
    ensures r.Err? && r.error.CategoryMismatch? <==> (
      && SameOrigin(url, client.base) && url.path == SYNCFEED_PATH
      && LastValue(url.pairs, "category").Some? &&
        !CategoriesMatch(LastValue(url.pairs, "category").value, client.category))
    ensures r.Err? && r.error.CategoryMismatch? ==> LastValue(url.pairs, "category") == Some(r.error.actual)
    ensures r == Err(MissingCursorState) <==> (
      && SameOrigin(url, client.base) && url.path == SYNCFEED_PATH
      && (|| LastValue(url.pairs, "category").None?
          || (CategoriesMatch(LastValue(url.pairs, "category").value, client.category)
              && LastValue(url.pairs, "skiptoken").None?)))
  {
    if !SameOrigin(url, client.base) { return Err(MalformedCursorUrl); }
    if url.path != SYNCFEED_PATH { return Err(MalformedCursorUrl); }
    var category, skiptoken, content: Option<string> := None, None, None;
    var n := 0;
    while n < |url.pairs|
      invariant 0 <= n <= |url.pairs|
      invariant category == LastValue(url.pairs[..n], "category")
      invariant skiptoken == LastValue(url.pairs[..n], "skiptoken")
      invariant content == LastValue(url.pairs[..n], "content")
    {
      var (key, value) := url.pairs[n];
      assert url.pairs[..n + 1][..n] == url.pairs[..n];
      if key == "category" { category := Some(value); }
      else if key == "skiptoken" { skiptoken := Some(value); }
      else if key == "content" { content := Some(value); }
      n := n + 1;
    }
    assert url.pairs[..n] == url.pairs;
    if category.None? { return Err(MissingCursorState); }
    if !CategoriesMatch(category.value, client.category) { return Err(CategoryMismatch(category.value)); }
    if skiptoken.None? { return Err(MissingCursorState); }
    if content.Some? && content.value != client.contentMode { return Err(MalformedCursorUrl); }
    return Ok(());
  }

  /** The cursor of a category never synced before: no skiptoken. */
  function FirstPage(client: Client): Url {
    client.base.(path := SYNCFEED_PATH, pairs := [("category", client.category), ("content", client.contentMode)])
  }

  /** Keys occur at most once in a query. */
  ghost predicate DistinctKeys(pairs: seq<(string, string)>) {
    forall i, j :: 0 <= i < j < |pairs| ==> pairs[i].0 != pairs[j].0
  }

  /** The first pair of a key, and the last. */
  ghost predicate IsFirst(pairs: seq<(string, string)>, key: string, i: int) {
    0 <= i < |pairs| && pairs[i].0 == key && forall j :: 0 <= j < i ==> pairs[j].0 != key
  }

  ghost predicate IsLast(pairs: seq<(string, string)>, key: string, i: int) {
    0 <= i < |pairs| && pairs[i].0 == key && forall j :: i < j < |pairs| ==> pairs[j].0 != key
  }

  lemma {:induction false} FirstValueIs(pairs: seq<(string, string)>, key: string)
    ensures FirstValue(pairs, key).None? <==> forall i :: 0 <= i < |pairs| ==> pairs[i].0 != key
    ensures forall i :: IsFirst(pairs, key, i) ==> FirstValue(pairs, key) == Some(pairs[i].1)
    ensures FirstValue(pairs, key).Some? ==> exists i :: IsFirst(pairs, key, i)
  {
    if pairs != [] && pairs[0].0 != key {
      FirstValueIs(pairs[1..], key);
      assert forall i :: 0 < i < |pairs| ==> pairs[i] == pairs[1..][i - 1];
      forall i | IsFirst(pairs, key, i) ensures FirstValue(pairs, key) == Some(pairs[i].1) {
        assert IsFirst(pairs[1..], key, i - 1);
      }
      if FirstValue(pairs, key).Some? {
        var i :| IsFirst(pairs[1..], key, i);
        assert IsFirst(pairs, key, i + 1);
      }
    } else if pairs != [] {
      assert IsFirst(pairs, key, 0);
    }
  }

  lemma {:induction false} LastValueIs(pairs: seq<(string, string)>, key: string)
    ensures LastValue(pairs, key).None? <==> forall i :: 0 <= i < |pairs| ==> pairs[i].0 != key
    ensures forall i :: IsLast(pairs, key, i) ==> LastValue(pairs, key) == Some(pairs[i].1)
    ensures LastValue(pairs, key).Some? ==> exists i :: IsLast(pairs, key, i)
  {
    if pairs != [] && pairs[|pairs| - 1].0 != key {
      var front := pairs[..|pairs| - 1];
      LastValueIs(front, key);
      forall i | IsLast(pairs, key, i) ensures LastValue(pairs, key) == Some(pairs[i].1) {
        assert IsLast(front, key, i);
      }
      if LastValue(pairs, key).Some? {
        var i :| IsLast(front, key, i);
        assert IsLast(pairs, key, i);
      }
    } else if pairs != [] {
      assert IsLast(pairs, key, |pairs| - 1);
    }
  }

  /** The same letter, but for the case of an ASCII letter. */
  predicate SameLetter(a: char, b: char) {
    a == b || ('A' <= a <= 'Z' && b == a - 'A' + 'a') || ('A' <= b <= 'Z' && a == b - 'A' + 'a')
  }

  lemma {:induction false} MatchIsLetterByLetter(a: string, b: string)
    ensures CategoriesMatch(a, b) <==> |a| == |b| && forall i :: 0 <= i < |a| ==> SameLetter(a[i], b[i])
  {
    if a != "" && b != "" {
      MatchIsLetterByLetter(a[1..], b[1..]);
      var la, lb := AsciiLower(a), AsciiLower(b);
      assert la[1..] == AsciiLower(a[1..]) && lb[1..] == AsciiLower(b[1..]);
      assert la == lb <==> la[0] == lb[0] && la[1..] == lb[1..];
      assert la[0] == lb[0] <==> SameLetter(a[0], b[0]);
      assert forall i :: 0 < i < |a| ==> a[i] == a[1..][i - 1];
      assert forall i :: 0 < i < |b| ==> b[i] == b[1..][i - 1];
    }
  }

  lemma CursorByLastValues(client: Client, url: Url, category: Option<string>, content: Option<string>)
    requires category == LastValue(url.pairs, "category") && content == LastValue(url.pairs, "content")
    ensures IsCursor(client, url) <==> (
      && url.scheme == client.base.scheme && url.host == client.base.host && url.port == client.base.port
      && url.path == "/SyncFeed/2.0/Feed" && category.Some? && CategoriesMatch(category.value, client.category)
      && LastValue(url.pairs, "skiptoken").Some? && content in {None, Some(client.contentMode)})
  {}

  /** The cursors a client accepts: its own origin, the feed's path, a last category pair that names its
      category in any case, some skiptoken pair, and a last content pair, if any, with its own mode. */
  lemma AcceptedCursorsAre(client: Client, url: Url)
    ensures IsCursor(client, url) <==> (
      && url.scheme == client.base.scheme && url.host == client.base.host && url.port == client.base.port
      && url.path == "/SyncFeed/2.0/Feed"
      && (exists i :: IsLast(url.pairs, "category", i) && CategoriesMatch(url.pairs[i].1, client.category))
      && (exists i :: 0 <= i < |url.pairs| && url.pairs[i].0 == "skiptoken")
      && (forall i :: IsLast(url.pairs, "content", i) ==> url.pairs[i].1 == client.contentMode))
  {
    LastValueIs(url.pairs, "category");
    LastValueIs(url.pairs, "skiptoken");
    LastValueIs(url.pairs, "content");
    CursorByLastValues(client, url, LastValue(url.pairs, "category"), LastValue(url.pairs, "content"));
  }

  /** Without repeated keys, the validated token is the one that is read later. */
  lemma DistinctKeysAgree(pairs: seq<(string, string)>, key: string)
    requires DistinctKeys(pairs)
    ensures FirstValue(pairs, key) == LastValue(pairs, key)
  {
    FirstValueIs(pairs, key);
    LastValueIs(pairs, key);
  }

  // ----- which accepted cursors have a token

  /** The first skiptoken of a query, as text. */
  predicate HasTokenText(url: Url) {
    FirstValue(url.pairs, "skiptoken").Some? && IsI64Text(FirstValue(url.pairs, "skiptoken").value)
  }

  /** An accepted cursor always has a first skiptoken, and has a token if and only if the value of
      that first one is the text of a 64-bit integer; no other part of the URL matters. */
  lemma AcceptedHasTokenIff(client: Client, url: Url)
    requires IsCursor(client, url)
    ensures FirstValue(url.pairs, "skiptoken").Some?
    ensures SkiptokenFromUrl(url).Some? <==> HasTokenText(url)
  {
    FirstValueIs(url.pairs, "skiptoken");
    LastValueIs(url.pairs, "skiptoken");
  }

  /** A cursor with the given skiptoken values, first to last. */
  function WithTokens(client: Client, texts: seq<string>): Url {
    client.base.(path := SYNCFEED_PATH, pairs := [("category", client.category)] + TokenPairs(texts))
  }

  function TokenPairs(texts: seq<string>): seq<(string, string)> {
    if texts == [] then [] else [("skiptoken", texts[0])] + TokenPairs(texts[1..])
  }

  lemma {:induction false} TokenPairsAre(texts: seq<string>)
    ensures |TokenPairs(texts)| == |texts|
    ensures forall i :: 0 <= i < |texts| ==> TokenPairs(texts)[i] == ("skiptoken", texts[i])
  {
    if texts != [] { TokenPairsAre(texts[1..]); }
  }

  /** Such a cursor is accepted whatever the values, and its token depends on the first alone: one
      value that is no number is enough to lose the token, and a later one neither harms nor helps. */
  lemma TokenIsTheFirst(client: Client, texts: seq<string>)
    requires texts != []
    ensures IsCursor(client, WithTokens(client, texts))
    ensures SkiptokenFromUrl(WithTokens(client, texts)) == I64Of(texts[0])
    ensures |texts| == 1 ==> DistinctKeys(WithTokens(client, texts).pairs)
  {
    var pairs := WithTokens(client, texts).pairs;
    TokenPairsAre(texts);
    FirstValueIs(pairs, "category");
    LastValueIs(pairs, "category");
    LastValueIs(pairs, "skiptoken");
    LastValueIs(pairs, "content");
    assert |"category"| == 8 && |"skiptoken"| == 9 && |"content"| == 7;
    assert forall i :: 0 < i < |pairs| ==> pairs[i] == TokenPairs(texts)[i - 1];
    assert pairs[1] == ("skiptoken", texts[0]);
    assert pairs[1..][0] == pairs[1];
    assert FirstValue(pairs, "skiptoken") == FirstValue(pairs[1..], "skiptoken") == Some(texts[0]);
  }

  /** Texts that are accepted as a skiptoken and are no token: no digits, and out of range. */
  lemma BadTokenTexts(n: int)
    requires n < -I64_MAX - 1 || n > I64_MAX
    ensures !IsI64Text("") && !IsI64Text("-") && !IsI64Text("abc") && !IsI64Text(IntText(n))
  {
    assert "abc"[0] == 'a' && 'a' in "abc" && !IsDigit('a');
    I64RoundTrip(n);
  }
}
