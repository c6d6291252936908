/** The UTF-8 encoding that turns canonical text into the bytes that are signed and hashed. */
module Utf8 {
  import opened Decimals
  import opened Hashing
  import opened Primitives

  function Utf8Char(c: CodePoint): (b: seq<Octet>)
    ensures 1 <= |b| <= 4
  {
    if c < 0x80 then [c]
    else if c < 0x800 then [0xC0 + c / 0x40, 0x80 + c % 0x40]
    else if c < 0x10000 then [0xE0 + c / 0x1000, 0x80 + c / 0x40 % 0x40, 0x80 + c % 0x40]
    else [0xF0 + c / 0x40000, 0x80 + c / 0x1000 % 0x40, 0x80 + c / 0x40 % 0x40, 0x80 + c % 0x40]
  }

  function Utf8Octets(t: Text): seq<Octet> {
    if t == [] then [] else Utf8Char(t[0]) + Utf8Octets(t[1..])
  }

  function Literal(octets: seq<Octet>): (b: Bytes)
    ensures |b| == |octets| && forall i :: 0 <= i < |octets| ==> b[i] == Lit(octets[i])
  {
    seq(|octets|, i requires 0 <= i < |octets| => Lit(octets[i]))
  }

  /** `text.encode("utf-8")` */
  function Encode(t: Text): Bytes {
    Literal(Utf8Octets(t))
  }

  /** The first octet of a character tells how many it takes. */
  lemma Utf8Lead(c: CodePoint, d: CodePoint)
    requires Utf8Char(c)[0] == Utf8Char(d)[0]
    ensures |Utf8Char(c)| == |Utf8Char(d)|
  {
  }

  /** The character that one to four octets spell. */
  function CharOf(b: seq<int>): int
    requires 1 <= |b| <= 4
  {
    if |b| == 1 then b[0]
    else if |b| == 2 then (b[0] - 0xC0) * 0x40 + (b[1] - 0x80)
    else if |b| == 3 then (b[0] - 0xE0) * 0x1000 + (b[1] - 0x80) * 0x40 + (b[2] - 0x80)
    else (b[0] - 0xF0) * 0x40000 + (b[1] - 0x80) * 0x1000 + (b[2] - 0x80) * 0x40 + (b[3] - 0x80)
  }

  lemma FourOctets(c: nat)
    ensures c / 0x40000 * 0x40000 + c / 0x1000 % 0x40 * 0x1000 + c / 0x40 % 0x40 * 0x40 + c % 0x40 == c
  {
    assert c / 0x1000 == c / 0x40 / 0x40 && c / 0x40000 == c / 0x1000 / 0x40;
  }

  lemma CharOfOctets(c: CodePoint)
    ensures CharOf(Utf8Char(c)) == c
  {
    if c >= 0x10000 {
      FourOctets(c);
    } else if c >= 0x800 {
      assert c / 0x1000 == c / 0x40 / 0x40;
    }
  }

  lemma {:induction false} Utf8Injective(s: Text, t: Text)
    requires Utf8Octets(s) == Utf8Octets(t)
    ensures s == t
  {
    if s != [] && t != [] {
      var u, v, x, y := Utf8Char(s[0]), Utf8Char(t[0]), Utf8Octets(s[1..]), Utf8Octets(t[1..]);
      assert (u + x)[0] == u[0] && (v + y)[0] == v[0];
      Utf8Lead(s[0], t[0]);
      assert (u + x)[..|u|] == u && (v + y)[..|v|] == v;
      assert (u + x)[|u|..] == x && (v + y)[|v|..] == y;
      CharOfOctets(s[0]);
      CharOfOctets(t[0]);
      Utf8Injective(s[1..], t[1..]);
      assert s == [s[0]] + s[1..] && t == [t[0]] + t[1..];
    }
  }

  lemma EncodeInjective(s: Text, t: Text)
    ensures Encode(s) == Encode(t) <==> s == t
  {
    if Encode(s) == Encode(t) {
      var a, b := Utf8Octets(s), Utf8Octets(t);
      assert |a| == |Encode(s)| == |Encode(t)| == |b|;
      forall i | 0 <= i < |a|
        ensures a[i] == b[i]
      {
        assert Encode(s)[i] == Lit(a[i]) && Encode(t)[i] == Lit(b[i]);
      }
      Utf8Injective(s, t);
    }
  }
}
