/**
 Document ids of the search index: `category_uuid`, and the parser the reconciler
 uses to get the category and the UUID back.
 */
module DocumentIds {
  import opened Wrappers

  /** A UUID is its 128-bit number; PostgreSQL orders UUIDs by that number. */
  type Uuid = n: int | 0 <= n < 0x1_0000_0000_0000_0000_0000_0000_0000_0000

  const HEX_DIGITS := "0123456789abcdef"

  /** 16 to the number of hexadecimal digits in the first `length` characters of a UUID text. */
  function Capacity(length: nat): (p: nat)
    ensures p > 0
  {
    if length == 0 then 1 else if IsHyphen(length) then Capacity(length - 1) else 16 * Capacity(length - 1)
  }

  /** The 9th, 14th, 19th and 24th character of the 8-4-4-4-12 form are hyphens. */
  predicate IsHyphen(position: nat) {
    position == 9 || position == 14 || position == 19 || position == 24
  }

  function DigitValue(c: char): Option<nat> {
    if '0' <= c <= '9' then Some((c - '0') as int)
    else if 'a' <= c <= 'f' then Some((c - 'a') as int + 10)
    else if 'A' <= c <= 'F' then Some((c - 'A') as int + 10)
    else None
  }

  /** The first `length` characters of the UUID text whose digits there make up `n`. */
  function Hyphenated(n: nat, length: nat): (s: string)
    ensures |s| == length
  {
    if length == 0 then ""
    else if IsHyphen(length) then Hyphenated(n, length - 1) + "-"
    else Hyphenated(n / 16, length - 1) + [HEX_DIGITS[n % 16]]
  }

  function ParseHyphenated(s: string): (n: Option<nat>)
    ensures n.Some? ==> n.value < Capacity(|s|)
  {
    if s == "" then Some(0) else
    var front, last := ParseHyphenated(s[..|s| - 1]), s[|s| - 1];
    if front.None? then None
    else if IsHyphen(|s|) then (if last == '-' then front else None)
    else match DigitValue(last)
      case Some(digit) => Some(16 * front.value + digit)
      case None => None
  }

  /** The canonical 8-4-4-4-12 text of a UUID. */
  function UuidText(u: Uuid): (s: string)
    ensures |s| == 36
  {
    Hyphenated(u, 36)
  }

  function ParseUuid(s: string): Option<Uuid> {
    FullCapacity();
    if |s| == 36 && ParseHyphenated(s).Some? then Some(ParseHyphenated(s).value) else None
  }

  function DocumentId(category: string, sourceId: Uuid): string {
    category + "_" + UuidText(sourceId)
  }

  /** Splits at the first underscore; neither part contains that underscore. */
  function SplitOnce(s: string): Option<(string, string)> {
    if s == "" then None
    else if s[0] == '_' then Some(("", s[1..]))
    else match SplitOnce(s[1..])
      case Some(parts) => Some(([s[0]] + parts.0, parts.1))
      case None => None
  }

  function ParseDocumentId(documentId: string): Option<(string, Uuid)> {
    match SplitOnce(documentId)
    case None => None
    case Some(parts) =>
      match ParseUuid(parts.1)
      case Some(sourceId) => Some((parts.0, sourceId))
      case None => None
  }

  lemma FullCapacity()
    ensures Capacity(36) == 0x1_0000_0000_0000_0000_0000_0000_0000_0000
  {
    assert Capacity(2) == 0x1_00;
    assert Capacity(4) == 0x1_0000;
    assert Capacity(6) == 0x1_0000_00;
    assert Capacity(8) == 0x1_0000_0000;
    assert Capacity(10) == 0x1_0000_0000_0;
    assert Capacity(12) == 0x1_0000_0000_000;
    assert Capacity(14) == 0x1_0000_0000_0000;
    assert Capacity(16) == 0x1_0000_0000_0000_00;
    assert Capacity(18) == 0x1_0000_0000_0000_0000;
    assert Capacity(20) == 0x1_0000_0000_0000_0000_0;
    assert Capacity(22) == 0x1_0000_0000_0000_0000_000;
    assert Capacity(24) == 0x1_0000_0000_0000_0000_0000;
    assert Capacity(26) == 0x1_0000_0000_0000_0000_0000_00;
    assert Capacity(28) == 0x1_0000_0000_0000_0000_0000_0000;
    assert Capacity(30) == 0x1_0000_0000_0000_0000_0000_0000_00;
    assert Capacity(32) == 0x1_0000_0000_0000_0000_0000_0000_0000;
    assert Capacity(34) == 0x1_0000_0000_0000_0000_0000_0000_0000_00;
  }

  lemma DigitRoundTrip(d: nat)
    requires d < 16
    ensures DigitValue(HEX_DIGITS[d]) == Some(d)
  {}

  lemma {:induction false} ParseOfHyphenated(n: nat, length: nat)
    requires n < Capacity(length)
    ensures ParseHyphenated(Hyphenated(n, length)) == Some(n)
  {
    if length > 0 {
      var s := Hyphenated(n, length);
      if IsHyphen(length) {
        assert s[..length - 1] == Hyphenated(n, length - 1);
        ParseOfHyphenated(n, length - 1);
      } else {
        assert s[..length - 1] == Hyphenated(n / 16, length - 1);
        DigitRoundTrip(n % 16);
        ParseOfHyphenated(n / 16, length - 1);
      }
    }
  }

  /** Printing and parsing a UUID is the identity. */
  lemma UuidRoundTrip(u: Uuid)
    ensures ParseUuid(UuidText(u)) == Some(u)
  {
    FullCapacity();
    ParseOfHyphenated(u, 36);
  }

  /** Hyphens at the 9th, 14th, 19th and 24th place, and lower-case hexadecimal digits elsewhere, the
      last of them for the lowest four bits. */
  lemma {:induction false} HyphenatedShape(n: nat, length: nat, i: nat)
    requires i < length
    ensures var c := Hyphenated(n, length)[i];
      if i in {8, 13, 18, 23} then c == '-' else '0' <= c <= '9' || 'a' <= c <= 'f'
  {
    if i < length - 1 {
      HyphenatedShape(if IsHyphen(length) then n else n / 16, length - 1, i);
    }
  }

  lemma UuidTextShape(u: Uuid, i: nat)
    requires i < 36
    ensures var c := UuidText(u)[i];
      if i in {8, 13, 18, 23} then c == '-' else '0' <= c <= '9' || 'a' <= c <= 'f'
    ensures UuidText(u)[35] == if u % 16 < 10 then '0' + (u % 16) as char else 'a' + (u % 16 - 10) as char
  {
    HyphenatedShape(u, 36, i);
  }

  lemma {:induction false} UnderscoreIsNoDigit(s: string)
    requires '_' in s
    ensures ParseHyphenated(s) == None
  {
    if s[|s| - 1] != '_' {
      assert s == s[..|s| - 1] + [s[|s| - 1]];
      UnderscoreIsNoDigit(s[..|s| - 1]);
    }
  }

  lemma {:induction false} SplitOnceAtFirst(front: string, rest: string)
    ensures '_' !in front ==> SplitOnce(front + "_" + rest) == Some((front, rest))
    ensures '_' in front ==>
      var parts := SplitOnce(front + "_" + rest);
      parts.Some? && '_' in parts.value.1
  {
    var s := front + "_" + rest;
    if front == "" {
      assert s[1..] == rest;
    } else {
      assert s[1..] == front[1..] + "_" + rest;
      if front[0] == '_' {
        assert s[1..][|front| - 1] == '_';
      } else {
        assert front == [front[0]] + front[1..];
        SplitOnceAtFirst(front[1..], rest);
      }
    }
  }

  /** The round trip the delete path relies on holds exactly for underscore-free categories. */
  lemma DocumentIdRoundTrip(category: string, sourceId: Uuid)
    ensures ParseDocumentId(DocumentId(category, sourceId)) == Some((category, sourceId)) <==> '_' !in category
    ensures '_' in category ==> ParseDocumentId(DocumentId(category, sourceId)) == None
  {
    SplitOnceAtFirst(category, UuidText(sourceId));
    if '_' in category {
      UnderscoreIsNoDigit(SplitOnce(DocumentId(category, sourceId)).value.1);
    } else {
      UuidRoundTrip(sourceId);
    }
  }

  /** Distinct rows, of any categories, never share a document id. */
  lemma DocumentIdInjective(c1: string, u1: Uuid, c2: string, u2: Uuid)
    requires DocumentId(c1, u1) == DocumentId(c2, u2)
    ensures c1 == c2 && u1 == u2
  {
    var s1, s2 := DocumentId(c1, u1), DocumentId(c2, u2);
    assert |c1| == |c2|;
    assert s1[..|c1|] == c1 && s2[..|c2|] == c2;
    assert s1[|c1| + 1..] == UuidText(u1) && s2[|c2| + 1..] == UuidText(u2);
    UuidRoundTrip(u1);
    UuidRoundTrip(u2);
  }
}
