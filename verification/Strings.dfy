/** JSON strings and key order: the quoting loop of RFC 8785 section 3.2.2.2 with the
    reader that inverts it, and the UTF-16 order of section 3.2.3. */
module Strings {
  import opened Wrappers
  import opened Decimals
  import opened Sorting

  const QUOTE: CodePoint := 0x22
  const BACKSLASH: CodePoint := 0x5C
  const LOWER_U: CodePoint := 0x75

  predicate IsSurrogate(c: CodePoint) {
    0xD800 <= c <= 0xDFFF
  }

  predicate NoSurrogates(s: Text) {
    forall i :: 0 <= i < |s| ==> !IsSurrogate(s[i])
  }

  /** Lower-case hexadecimal digit. */
  function HexDigit(d: nat): CodePoint
    requires d < 16
  {
    if d < 10 then 0x30 + d else 0x61 + (d - 10)
  }

  function HexValue(c: CodePoint): Option<nat> {
    if 0x30 <= c <= 0x39 then Some(c - 0x30)
    else if 0x61 <= c <= 0x66 then Some(c - 0x61 + 10)
    else if 0x41 <= c <= 0x46 then Some(c - 0x41 + 10)
    else None
  }

  /** The letter of a two-character escape, None when c has none. */
  function ShortEscape(c: CodePoint): Option<CodePoint> {
    if c == QUOTE then Some(QUOTE)
    else if c == BACKSLASH then Some(BACKSLASH)
    else if c == 0x08 then Some(0x62)
    else if c == 0x0C then Some(0x66)
    else if c == 0x0A then Some(0x6E)
    else if c == 0x0D then Some(0x72)
    else if c == 0x09 then Some(0x74)
    else None
  }

  function Unescape(letter: CodePoint): Option<CodePoint> {
    if letter == QUOTE then Some(QUOTE)
    else if letter == BACKSLASH then Some(BACKSLASH)
    else if letter == 0x2F then Some(0x2F)
    else if letter == 0x62 then Some(0x08)
    else if letter == 0x66 then Some(0x0C)
    else if letter == 0x6E then Some(0x0A)
    else if letter == 0x72 then Some(0x0D)
    else if letter == 0x74 then Some(0x09)
    else None
  }

  function EscapeChar(c: CodePoint): (t: Text) {
    if ShortEscape(c).Some? then [BACKSLASH, ShortEscape(c).value]
    else if c <= 0x1F then [BACKSLASH, LOWER_U, 0x30, 0x30, HexDigit(c / 16), HexDigit(c % 16)]
    else [c]
  }

  /** The text between the quotes. */
  function EscapeText(s: Text): Text {
    if s == [] then [] else EscapeChar(s[0]) + EscapeText(s[1..])
  }

  function QuotedText(s: Text): Text {
    [QUOTE] + EscapeText(s) + [QUOTE]
  }

  lemma EscapeStep(buf: Text, s: Text, i: nat)
    requires i < |s|
    ensures buf + EscapeText(s[i..]) == buf + EscapeChar(s[i]) + EscapeText(s[i + 1..])
  {
  }

  /** `_quote`; None stands for the ValueError on a lone surrogate. */
  method Quote(s: Text) returns (r: Option<Text>)
    ensures r == if NoSurrogates(s) then Some(QuotedText(s)) else None
  {
    var buf: Text := [QUOTE];
    for i := 0 to |s|
      invariant NoSurrogates(s[..i])
      invariant buf + EscapeText(s[i..]) == [QUOTE] + EscapeText(s)
    {
      var ch := s[i];
      ghost var before := buf;
      EscapeStep(before, s, i);
      if 0xD800 <= ch <= 0xDFFF {
        return None;
      }
      if ch == QUOTE {
        buf := buf + [BACKSLASH, QUOTE];
      } else if ch == BACKSLASH {
        buf := buf + [BACKSLASH, BACKSLASH];
      } else if ch == 0x08 {
        buf := buf + [BACKSLASH, 0x62];
      } else if ch == 0x0C {
        buf := buf + [BACKSLASH, 0x66];
      } else if ch == 0x0A {
        buf := buf + [BACKSLASH, 0x6E];
      } else if ch == 0x0D {
        buf := buf + [BACKSLASH, 0x72];
      } else if ch == 0x09 {
        buf := buf + [BACKSLASH, 0x74];
      } else if ch <= 0x1F {
        buf := buf + [BACKSLASH, LOWER_U, 0x30, 0x30, HexDigit(ch / 16), HexDigit(ch % 16)];
      } else {
        buf := buf + [ch];
      }
      assert buf == before + EscapeChar(ch);
    }
    assert s[..|s|] == s && buf + EscapeText([]) == buf;
    return Some(buf + [QUOTE]);
  }

  /** Reads one character of a JSON string: the character and how much text it took. */
  function ReadChar(t: Text): (r: Option<(CodePoint, nat)>)
    ensures r.Some? ==> 0 < r.value.1 <= |t|
  {
    if t == [] || t[0] == QUOTE || t[0] <= 0x1F then None
    else if t[0] != BACKSLASH then Some((t[0], 1))
    else if |t| < 2 then None
    else if t[1] == LOWER_U then
      if |t| < 6 then None
      else
        var a, b, c, d := HexValue(t[2]), HexValue(t[3]), HexValue(t[4]), HexValue(t[5]);
        if a.None? || b.None? || c.None? || d.None? then None
        else Some((((a.value * 16 + b.value) * 16 + c.value) * 16 + d.value, 6))
    else
      var u := Unescape(t[1]);
      if u.None? then None else Some((u.value, 2))
  }

  /** Reads characters up to the closing quote: the string and the text after the quote. */
  function ReadChars(t: Text): (r: Option<(Text, Text)>)
    ensures r.Some? ==> |r.value.1| < |t|
    decreases |t|
  {
    if t == [] then None
    else if t[0] == QUOTE then Some(([], t[1..]))
    else
      var c := ReadChar(t);
      if c.None? then None
      else
        var r := ReadChars(t[c.value.1..]);
        if r.None? then None else Some(([c.value.0] + r.value.0, r.value.1))
  }

  lemma EscapeReadsBack(c: CodePoint, rest: Text)
    ensures ReadChar(EscapeChar(c) + rest) == Some((c, |EscapeChar(c)|)) && EscapeChar(c)[0] != QUOTE
  {
  }

  /** Quoting reads back to the string it quoted, and takes exactly its text. */
  lemma {:induction false} QuoteReadsBack(s: Text, rest: Text)
    ensures ReadChars(EscapeText(s) + [QUOTE] + rest) == Some((s, rest))
    decreases |s|
  {
    if s == [] {
      assert EscapeText(s) + [QUOTE] + rest == [QUOTE] + rest;
    } else {
      var e, after := EscapeChar(s[0]), EscapeText(s[1..]) + [QUOTE] + rest;
      EscapeReadsBack(s[0], after);
      QuoteReadsBack(s[1..], rest);
      assert EscapeText(s) + [QUOTE] + rest == e + after;
      assert (e + after)[|e|..] == after && (e + after)[0] == e[0];
      assert [s[0]] + s[1..] == s;
    }
  }

  // ----- UTF-16

  /** Code units of one code point; a surrogate, which has no encoding, stands for a unit
      outside the 16-bit range and never reaches the encoder. */
  function Utf16Char(c: CodePoint): (u: seq<nat>)
    ensures 1 <= |u| <= 2
  {
    if IsSurrogate(c) then [0x10000 + c]
    else if c <= 0xFFFF then [c]
    else [0xD800 + (c - 0x10000) / 0x400, 0xDC00 + (c - 0x10000) % 0x400]
  }

  function Utf16(s: Text): seq<nat> {
    if s == [] then [] else Utf16Char(s[0]) + Utf16(s[1..])
  }

  /** Big-endian bytes of code units. */
  function BigEndian(units: seq<nat>): (bytes: seq<nat>)
    ensures |bytes| == 2 * |units|
  {
    if units == [] then [] else [units[0] / 0x100, units[0] % 0x100] + BigEndian(units[1..])
  }

  /** Python's order on byte strings. */
  predicate LexLeq(a: seq<nat>, b: seq<nat>) {
    if a == [] then true
    else if b == [] then false
    else a[0] < b[0] || (a[0] == b[0] && LexLeq(a[1..], b[1..]))
  }

  /** The order of `sorted(keys, key=lambda k: k.encode("utf-16-be"))`. */
  predicate KeyLeq(a: Text, b: Text) {
    LexLeq(BigEndian(Utf16(a)), BigEndian(Utf16(b)))
  }

  lemma {:induction false} LexTotal(a: seq<nat>, b: seq<nat>)
    ensures LexLeq(a, b) || LexLeq(b, a)
    ensures LexLeq(a, b) && LexLeq(b, a) ==> a == b
  {
    if a != [] && b != [] && a[0] == b[0] {
      LexTotal(a[1..], b[1..]);
      assert a == [a[0]] + a[1..] && b == [b[0]] + b[1..];
    }
  }

  /** a is a proper or improper prefix of b, or smaller where they first differ. */
  ghost predicate Precedes(a: seq<nat>, b: seq<nat>) {
    exists i: nat :: i <= |a| && i <= |b| && a[..i] == b[..i] && (i == |a| || (i < |b| && a[i] < b[i]))
  }

  lemma {:induction false} LexExactly(a: seq<nat>, b: seq<nat>)
    ensures LexLeq(a, b) <==> Precedes(a, b)
  {
    if a == [] {
      assert a[..0] == b[..0];
    } else if b != [] && a[0] < b[0] {
      assert a[..0] == b[..0];
    } else if b != [] && a[0] == b[0] {
      var c, d := a[1..], b[1..];
      LexExactly(c, d);
      if Precedes(c, d) {
        var i: nat :| i <= |c| && i <= |d| && c[..i] == d[..i] && (i == |c| || (i < |d| && c[i] < d[i]));
        assert a[..i + 1] == [a[0]] + c[..i] && b[..i + 1] == [b[0]] + d[..i];
      }
      if Precedes(a, b) {
        var i: nat :| i <= |a| && i <= |b| && a[..i] == b[..i] && (i == |a| || (i < |b| && a[i] < b[i]));
        assert c[..i - 1] == a[..i][1..] && d[..i - 1] == b[..i][1..];
      }
    } else if Precedes(a, b) {
      var i: nat :| i <= |a| && i <= |b| && a[..i] == b[..i] && (i == |a| || (i < |b| && a[i] < b[i]));
      SameStart(a, b, i);
      assert false;
    }
  }

  lemma SameStart(a: seq<nat>, b: seq<nat>, i: nat)
    requires i <= |a| && i <= |b| && a[..i] == b[..i]
    ensures i > 0 ==> a[0] == b[0]
  {
    if i > 0 {
      assert a[..i][0] == a[0] && b[..i][0] == b[0];
    }
  }

  lemma {:induction false} LexTransitive(a: seq<nat>, b: seq<nat>, c: seq<nat>)
    requires LexLeq(a, b) && LexLeq(b, c)
    ensures LexLeq(a, c)
  {
    if a != [] && b != [] && c != [] && a[0] == b[0] == c[0] {
      LexTransitive(a[1..], b[1..], c[1..]);
    }
  }

  /** Comparing the big-endian bytes compares the code units. */
  lemma {:induction false} ByteOrderIsUnitOrder(a: seq<nat>, b: seq<nat>)
    ensures LexLeq(BigEndian(a), BigEndian(b)) <==> LexLeq(a, b)
  {
    if a != [] && b != [] {
      ByteOrderIsUnitOrder(a[1..], b[1..]);
      var x, y := BigEndian(a), BigEndian(b);
      assert x[1..][1..] == BigEndian(a[1..]) && y[1..][1..] == BigEndian(b[1..]);
    }
  }

  /** One code point is determined by the units it starts, and so is where it ends. */
  lemma Utf16CharPrefix(c: CodePoint, d: CodePoint, x: seq<nat>, y: seq<nat>)
    requires Utf16Char(c) + x == Utf16Char(d) + y
    ensures c == d && x == y
  {
    var u, v := Utf16Char(c), Utf16Char(d);
    assert (u + x)[0] == u[0] && (v + y)[0] == v[0];
    if |u| == 2 && |v| == 2 {
      assert (u + x)[1] == u[1] && (v + y)[1] == v[1];
    }
    assert u == v;
    assert (u + x)[|u|..] == x && (v + y)[|v|..] == y;
  }

  lemma {:induction false} Utf16Injective(a: Text, b: Text)
    requires Utf16(a) == Utf16(b)
    ensures a == b
  {
    if a != [] && b != [] {
      Utf16CharPrefix(a[0], b[0], Utf16(a[1..]), Utf16(b[1..]));
      Utf16Injective(a[1..], b[1..]);
      assert a == [a[0]] + a[1..] && b == [b[0]] + b[1..];
    }
  }

  /** Keys are totally ordered: distinct keys never tie. */
  lemma KeyOrderTotal()
    ensures TotalOrder(KeyLeq)
  {
    forall a, b
      ensures KeyLeq(a, b) || KeyLeq(b, a)
      ensures KeyLeq(a, b) && KeyLeq(b, a) ==> a == b
    {
      LexTotal(Utf16(a), Utf16(b));
      ByteOrderIsUnitOrder(Utf16(a), Utf16(b));
      ByteOrderIsUnitOrder(Utf16(b), Utf16(a));
      if Utf16(a) == Utf16(b) {
        Utf16Injective(a, b);
      }
    }
    forall a, b, c | KeyLeq(a, b) && KeyLeq(b, c)
      ensures KeyLeq(a, c)
    {
      LexTransitive(BigEndian(Utf16(a)), BigEndian(Utf16(b)), BigEndian(Utf16(c)));
    }
  }
}
