/** Number formatting of RFC 8785 section 3.2.2.3: Python's repr taken apart into digits
    and an exponent, the four ECMAScript placements, and the reader that inverts them. */
module Numerals {
  import opened Wrappers
  import opened Primitives
  import opened Decimals

  const MINUS: CodePoint := 0x2D
  const PLUS: CodePoint := 0x2B
  const POINT: CodePoint := 0x2E
  const EXP: CodePoint := 0x65

  // ----- splitting text

  /** Index of the first c, or the length when there is none. */
  function IndexOf(t: Text, c: CodePoint): (i: nat)
    ensures i <= |t| && (i < |t| ==> t[i] == c) && c !in t[..i]
  {
    if t == [] || t[0] == c then 0
    else
      var j := IndexOf(t[1..], c);
      assert t[..j + 1] == [t[0]] + t[1..][..j];
      j + 1
  }

  lemma IndexOfSplit(a: Text, c: CodePoint, b: Text)
    requires c !in a
    ensures IndexOf(a + [c] + b, c) == |a| && (a + [c] + b)[..|a|] == a && (a + [c] + b)[|a| + 1..] == b
  {
    var t := a + [c] + b;
    var i := IndexOf(t, c);
    assert t[|a|] == c;
    assert forall j :: 0 <= j < |a| ==> t[j] == a[j];
    assert forall j :: 0 <= j < i ==> t[j] == t[..i][j];
  }

  lemma IndexOfNone(t: Text, c: CodePoint)
    requires c !in t
    ensures IndexOf(t, c) == |t|
  {
  }

  /** `t.partition(c)`: before, and after; the whole and nothing when c is absent. */
  function Partition(t: Text, c: CodePoint): (Text, Text) {
    var i := IndexOf(t, c);
    if i < |t| then (t[..i], t[i + 1..]) else (t, [])
  }

  /** `t.lstrip("0")` */
  function StripLeading(t: Text): (r: Text)
    ensures |r| <= |t|
  {
    if t != [] && t[0] == ZERO then StripLeading(t[1..]) else t
  }

  /** `t.rstrip("0")` */
  function StripTrailing(t: Text): (r: Text)
    ensures |r| <= |t|
  {
    if t != [] && t[|t| - 1] == ZERO then StripTrailing(t[..|t| - 1]) else t
  }

  lemma {:induction false} StripLeadingSplits(t: Text, r: Text)
    requires r == StripLeading(t)
    ensures t == Zeros(|t| - |r|) + r && (r != [] ==> r[0] != ZERO) && (AllDigits(t) ==> AllDigits(r))
  {
    if t != [] && t[0] == ZERO {
      StripLeadingSplits(t[1..], r);
      assert t == [ZERO] + t[1..];
      assert Zeros(|t| - |r|) == [ZERO] + Zeros(|t| - 1 - |r|);
    } else {
      assert t == Zeros(0) + t;
    }
  }

  lemma {:induction false} StripTrailingSplits(t: Text, r: Text)
    requires r == StripTrailing(t)
    ensures t == r + Zeros(|t| - |r|) && (r != [] ==> r[|r| - 1] != ZERO) && (AllDigits(t) ==> AllDigits(r))
  {
    if t != [] && t[|t| - 1] == ZERO {
      StripTrailingSplits(t[..|t| - 1], r);
      assert t == t[..|t| - 1] + [ZERO];
      assert Zeros(|t| - |r|) == Zeros(|t| - 1 - |r|) + [ZERO];
    } else {
      assert t == t + Zeros(0);
    }
  }

  // ----- repr of a float

  /** The two shapes `repr` gives a finite non-negative float. */
  datatype Repr = Fixed(whole: Text, frac: Text) | Scientific(lead: CodePoint, frac: Text, exp: int)

  predicate ReprShaped(r: Repr) {
    match r
    case Fixed(w, f) => w != [] && AllDigits(w) && (|w| > 1 ==> w[0] != ZERO) && f != [] && AllDigits(f)
    case Scientific(l, f, e) => IsDigit(l) && l != ZERO && AllDigits(f)
  }

  function IntText(n: int): (t: Text)
    ensures |t| > 0
  {
    if n < 0 then [MINUS] + DigitsOf(-n) else DigitsOf(n)
  }

  /** Exponents are signed and have at least two digits. */
  function ExponentText(e: int): Text {
    var digits := DigitsOf(if e < 0 then -e else e);
    [if e < 0 then MINUS else PLUS] + (if |digits| == 1 then [ZERO] + digits else digits)
  }

  function ReprText(r: Repr): Text {
    match r
    case Fixed(w, f) => w + [POINT] + f
    case Scientific(l, f, e) => ([l] + (if f == [] then [] else [POINT] + f)) + [EXP] + ExponentText(e)
  }

  /** The exact value of the digits repr shows. */
  ghost function ReprValue(r: Repr): real
    requires ReprShaped(r)
  {
    match r
    case Fixed(w, f) => Magnitude(w + f, |w|)
    case Scientific(l, f, e) => Magnitude([l] + f, 1 + e)
  }

  /** `int(text)` for an optionally signed digit string. */
  function ParseInt(t: Text): (n: int)
    requires AllDigits(Unsigned(t))
  {
    if t != [] && t[0] == MINUS then -(NatOf(t[1..]) as int) else NatOf(Unsigned(t))
  }

  function Unsigned(t: Text): Text {
    if t != [] && (t[0] == MINUS || t[0] == PLUS) then t[1..] else t
  }

  lemma ParseExponent(e: int)
    ensures AllDigits(Unsigned(ExponentText(e))) && ParseInt(ExponentText(e)) == e
  {
    var n := if e < 0 then -e else e;
    var digits := DigitsOf(n);
    NatOfDigits(n);
    assert Zeros(1) == [ZERO];
    NatOfZerosBefore(1, digits);
    assert ExponentText(e)[1..] == (if |digits| == 1 then Zeros(1) + digits else digits);
  }

  /** Digits and exponent of `whole.frac` times ten to exp. */
  function Significant(whole: Text, frac: Text, exp: int): (Text, int) {
    if StripLeading(StripTrailing(whole)) != [] then
      var stripped := StripTrailing(whole + frac);
      (if stripped == [] then [ZERO] else stripped, |whole| + exp)
    else
      var stripped := StripLeading(frac);
      if stripped == [] then ([ZERO], 1)
      else
        var digits := StripTrailing(stripped);
        (if digits == [] then [ZERO] else digits, exp - (|frac| - |stripped|))
  }

  /** `_digits_and_exponent`; None stands for an `int()` that would raise. */
  function DigitsAndExponent(t: Text): Option<(Text, int)> {
    var (mantissa, expText) := Partition(t, EXP);
    var hasExp := IndexOf(t, EXP) < |t|;
    if hasExp && (Unsigned(expText) == [] || !AllDigits(Unsigned(expText))) then None
    else
      var (whole, frac) := Partition(mantissa, POINT);
      Some(Significant(whole, frac, if hasExp then ParseInt(expText) else 0))
  }

  // ----- exactness of the decomposition

  function ReprDigits(r: Repr): Text {
    match r
    case Fixed(w, f) => w + f
    case Scientific(l, f, e) => [l] + f
  }

  /** `f == 0.0` */
  predicate IsZero(r: Repr) {
    StripLeading(ReprDigits(r)) == []
  }

  /** Dropping trailing zeros after a non-zero first digit leaves normal digits of the same magnitude. */
  lemma TrimTrailing(t: Text, r: Text, exp: int)
    requires AllDigits(t) && t != [] && t[0] != ZERO && r == StripTrailing(t)
    ensures NormalDigits(r) && Magnitude(r, exp) == Magnitude(t, exp)
  {
    StripTrailingSplits(t, r);
    var k := |t| - |r|;
    assert t[0] == (r + Zeros(k))[0];
    TrailingZerosKeepMagnitude(r, k, exp);
  }

  lemma TrimLeading(t: Text, s: Text, exp: int, exp': int)
    requires s == StripLeading(t) && exp' == exp - (|t| - |s|)
    ensures (AllDigits(t) ==> AllDigits(s)) && (s != [] ==> s[0] != ZERO) && Magnitude(s, exp') == Magnitude(t, exp)
  {
    StripLeadingSplits(t, s);
    LeadingZerosKeepMagnitude(|t| - |s|, s, exp');
  }

  ghost predicate Exact(d: (Text, int), value: real) {
    NormalDigits(d.0) && Magnitude(d.0, d.1) == value
  }

  /** The whole part is all zeros only when it is a single one. */
  lemma FirstNonzero(w: Text, r: Text, l: Text)
    requires w != [] && (|w| > 1 ==> w[0] != ZERO) && r == StripTrailing(w) && l == StripLeading(r)
    ensures if l != [] then w[0] != ZERO else w == [ZERO]
  {
  }

  /** Stripping both ends keeps the magnitude. */
  lemma TrimBoth(t: Text, s: Text, digits: Text, n: int, n': int, v: real)
    requires AllDigits(t) && s == StripLeading(t) && s != [] && digits == StripTrailing(s)
    requires n' == n - (|t| - |s|) && v == Magnitude(t, n)
    ensures digits != [] && Exact((digits, n'), v)
  {
    TrimLeading(t, s, n, n');
    TrimTrailing(s, digits, n');
  }

  lemma StripOneMore(w: Text, f: Text)
    requires w == [ZERO]
    ensures StripLeading(w + f) == StripLeading(f) && |w + f| == 1 + |f|
  {
  }

  /** The strips of `_digits_and_exponent` keep the value. */
  lemma SignificantExact(w: Text, f: Text, t: Text, exp: int, n: int, v: real)
    requires w != [] && (|w| > 1 ==> w[0] != ZERO) && t == w + f && AllDigits(t) && StripLeading(t) != []
    requires n == |w| + exp && v == Magnitude(t, n)
    ensures Exact(Significant(w, f, exp), v)
  {
    FirstNonzero(w, StripTrailing(w), StripLeading(StripTrailing(w)));
    if w[0] != ZERO {
      TrimTrailing(t, StripTrailing(t), n);
    } else {
      StripOneMore(w, f);
      var s := StripLeading(f);
      TrimBoth(t, s, StripTrailing(s), n, exp - (|f| - |s|), v);
    }
  }

  lemma SplitFixed(w: Text, f: Text)
    requires ReprShaped(Fixed(w, f))
    ensures DigitsAndExponent(ReprText(Fixed(w, f))) == Some(Significant(w, f, 0))
  {
    var t := w + [POINT] + f;
    assert EXP !in t && POINT !in w;
    IndexOfNone(t, EXP);
    IndexOfSplit(w, POINT, f);
  }

  lemma SplitMantissa(l: CodePoint, f: Text)
    requires IsDigit(l)
    ensures Partition([l] + (if f == [] then [] else [POINT] + f), POINT) == ([l], f)
  {
    assert POINT !in [l];
    if f == [] {
      IndexOfNone([l], POINT);
      assert [l] + [] == [l];
    } else {
      IndexOfSplit([l], POINT, f);
      assert [l] + ([POINT] + f) == [l] + [POINT] + f;
    }
  }

  lemma SplitScientific(l: CodePoint, f: Text, e: int)
    requires ReprShaped(Scientific(l, f, e))
    ensures DigitsAndExponent(ReprText(Scientific(l, f, e))) == Some(Significant([l], f, e))
  {
    var mantissa, expText := [l] + (if f == [] then [] else [POINT] + f), ExponentText(e);
    assert EXP !in mantissa;
    IndexOfSplit(mantissa, EXP, expText);
    ParseExponent(e);
    SplitMantissa(l, f);
  }

  /** `_digits_and_exponent` on the repr of a non-zero float: digits without leading or
      trailing zeros, and exactly the value repr shows. */
  lemma DigitsAndExponentExact(r: Repr)
    requires ReprShaped(r) && !IsZero(r)
    ensures DigitsAndExponent(ReprText(r)).Some?
    ensures Exact(DigitsAndExponent(ReprText(r)).value, ReprValue(r))
  {
    match r
    case Fixed(w, f) => FixedExact(w, f);
    case Scientific(l, f, e) => ScientificExact(l, f, e);
  }

  lemma FixedExact(w: Text, f: Text)
    requires ReprShaped(Fixed(w, f)) && !IsZero(Fixed(w, f))
    ensures var d := DigitsAndExponent(ReprText(Fixed(w, f)));
            d.Some? && Exact(d.value, ReprValue(Fixed(w, f)))
  {
    SplitFixed(w, f);
    SignificantExact(w, f, w + f, 0, |w|, ReprValue(Fixed(w, f)));
  }

  lemma ScientificParts(l: CodePoint, f: Text, t: Text, e: int)
    requires ReprShaped(Scientific(l, f, e)) && t == [l] + f
    ensures AllDigits(t) && StripLeading(t) != [] && ReprValue(Scientific(l, f, e)) == Magnitude(t, 1 + e)
  {
  }

  lemma ScientificExact(l: CodePoint, f: Text, e: int)
    requires ReprShaped(Scientific(l, f, e)) && !IsZero(Scientific(l, f, e))
    ensures var d := DigitsAndExponent(ReprText(Scientific(l, f, e)));
            d.Some? && Exact(d.value, ReprValue(Scientific(l, f, e)))
  {
    SplitScientific(l, f, e);
    ScientificParts(l, f, [l] + f, e);
    SignificantExact([l], f, [l] + f, e, 1 + e, Magnitude([l] + f, 1 + e));
  }

  // ----- the four placements

  /** `f"{sign}{abs(e)}"`: a sign and no padding. */
  function SignedExponent(e: int): Text {
    [if e >= 0 then PLUS else MINUS] + DigitsOf(if e < 0 then -e else e)
  }

  function PlaceDigits(digits: Text, n: int): Text
    requires digits != []
  {
    var k := |digits|;
    if k <= n <= 21 then digits + Zeros(n - k)
    else if 0 < n <= 21 then digits[..n] + [POINT] + digits[n..]
    else if -6 < n <= 0 then [ZERO, POINT] + Zeros(-n) + digits
    else
      var mantissa := [digits[0]] + (if k > 1 then [POINT] + digits[1..] else []);
      var e := n - 1;
      mantissa + [EXP] + SignedExponent(e)
  }

  /** The text of a normal decimal. */
  function DecimalText(d: Spelled): Text {
    if d == ZERO_DECIMAL then [ZERO] else (if d.neg then [MINUS] else []) + PlaceDigits(d.digits, d.exp)
  }

  /** A float: not finite, or its sign and the repr of its magnitude. */
  datatype Float = NonFinite | Finite(neg: bool, repr: Repr)

  predicate FloatShaped(f: Float) {
    f.Finite? ==> ReprShaped(f.repr)
  }

  /** `_float_to_str`; None stands for the raised ValueError. */
  function FloatToStr(f: Float): Option<Text> {
    if f.NonFinite? then None
    else if IsZero(f.repr) then Some([ZERO])
    else
      var d := DigitsAndExponent(ReprText(f.repr));
      if d.None? || d.value.0 == [] then None
      else Some((if f.neg then [MINUS] else []) + PlaceDigits(d.value.0, d.value.1))
  }

  // ----- reading a numeral back

  datatype Numeral = Numeral(neg: bool, whole: Text, frac: Text, exp: int)

  /** The parts of a JSON numeral, None when the text is not one. */
  function ReadParts(t: Text): (r: Option<Numeral>)
    ensures r.Some? ==> AllDigits(r.value.whole) && AllDigits(r.value.frac) && r.value.whole != []
  {
    var neg := t != [] && t[0] == MINUS;
    var body := if neg then t[1..] else t;
    var (mantissa, expText) := Partition(body, EXP);
    var hasExp := IndexOf(body, EXP) < |body|;
    var (whole, frac) := Partition(mantissa, POINT);
    if whole == [] || !AllDigits(whole) || !AllDigits(frac) then None
    else if IndexOf(mantissa, POINT) < |mantissa| && frac == [] then None
    else if hasExp && (Unsigned(expText) == [] || !AllDigits(Unsigned(expText))) then None
    else Some(Numeral(neg, whole, frac, if hasExp then ParseInt(expText) else 0))
  }

  function Normalise(neg: bool, ds: Text, n: int): (d: Decimal)
    ensures d.digits != []
  {
    var s := StripLeading(ds);
    if s == [] then ZERO_DECIMAL
    else
      var digits := StripTrailing(s);
      if digits == [] then ZERO_DECIMAL else Decimal(neg, digits, n - (|ds| - |s|))
  }

  lemma NormaliseExact(neg: bool, ds: Text, n: int)
    requires AllDigits(ds)
    ensures Normal(Normalise(neg, ds, n))
    ensures AllDigits(Normalise(neg, ds, n).digits)
    ensures ValueOf(Normalise(neg, ds, n)) == if neg then -Magnitude(ds, n) else Magnitude(ds, n)
  {
    var s := StripLeading(ds);
    var n' := n - (|ds| - |s|);
    if s == [] {
      TrimLeading(ds, s, n, n');
      ZeroIsZero();
    } else {
      TrimBoth(ds, s, StripTrailing(s), n, n', Magnitude(ds, n));
    }
  }

  ghost function PartsValue(p: Numeral): real
    requires AllDigits(p.whole) && AllDigits(p.frac)
  {
    var m := Magnitude(p.whole + p.frac, |p.whole| + p.exp);
    if p.neg then -m else m
  }

  function NormalParts(p: Numeral): (d: Decimal)
    ensures d.digits != []
  {
    Normalise(p.neg, p.whole + p.frac, |p.whole| + p.exp)
  }

  lemma NormalPartsExact(p: Numeral)
    requires AllDigits(p.whole) && AllDigits(p.frac)
    ensures Normal(NormalParts(p)) && AllDigits(NormalParts(p).digits)
    ensures ValueOf(NormalParts(p)) == PartsValue(p)
  {
    NormaliseExact(p.neg, p.whole + p.frac, |p.whole| + p.exp);
  }

  /** What a numeral denotes: all its digits, scaled by its exponent less its fraction. */
  ghost function NumeralValue(t: Text): Option<real> {
    match ReadParts(t)
    case None => None
    case Some(p) => Some(PartsValue(p))
  }

  function ReadNumeral(t: Text): (r: Option<Decimal>) {
    match ReadParts(t)
    case None => None
    case Some(p) => Some(NormalParts(p))
  }

  /** Reading keeps the denoted value and always gives a normal decimal. */
  lemma ReadNumeralExact(t: Text)
    ensures ReadNumeral(t).Some? <==> NumeralValue(t).Some?
    ensures ReadNumeral(t).Some? ==> Normal(ReadNumeral(t).value) && AllDigits(ReadNumeral(t).value.digits)
    ensures ReadNumeral(t).Some? ==> NumeralValue(t).value == ValueOf(ReadNumeral(t).value)
  {
    match ReadParts(t)
    case None =>
    case Some(p) => NormalPartsExact(p);
  }

  // ----- every placement reads back

  lemma {:induction false} StripLeadingZeros(k: nat, t: Text)
    requires t != [] && t[0] != ZERO
    ensures StripLeading(Zeros(k) + t) == t
  {
    if k == 0 {
      assert Zeros(0) + t == t;
    } else {
      StripLeadingZeros(k - 1, t);
      assert (Zeros(k) + t)[1..] == Zeros(k - 1) + t;
    }
  }

  lemma {:induction false} StripTrailingZeros(t: Text, k: nat)
    requires t != [] && t[|t| - 1] != ZERO
    ensures StripTrailing(t + Zeros(k)) == t
  {
    if k == 0 {
      assert t + Zeros(0) == t;
    } else {
      StripTrailingZeros(t, k - 1);
      assert (t + Zeros(k))[..|t + Zeros(k)| - 1] == t + Zeros(k - 1);
    }
  }

  function SignedText(neg: bool, body: Text): Text {
    if neg then [MINUS] + body else body
  }

  function MantissaText(whole: Text, frac: Text): Text {
    if frac == [] then whole else whole + [POINT] + frac
  }

  lemma ReadSignedExponent(e: int)
    ensures AllDigits(Unsigned(SignedExponent(e))) && Unsigned(SignedExponent(e)) != []
    ensures ParseInt(SignedExponent(e)) == e
  {
    var digits := DigitsOf(if e < 0 then -e else e);
    NatOfDigits(if e < 0 then -e else e);
    assert SignedExponent(e)[1..] == digits;
  }

  lemma SplitMantissaText(whole: Text, frac: Text, m: Text)
    requires whole != [] && AllDigits(whole) && AllDigits(frac) && m == MantissaText(whole, frac)
    ensures EXP !in m && m != [] && m[0] != MINUS
    ensures Partition(m, POINT) == (whole, frac) && (IndexOf(m, POINT) < |m| ==> frac != [])
  {
    assert POINT !in whole;
    if frac == [] {
      IndexOfNone(whole, POINT);
    } else {
      IndexOfSplit(whole, POINT, frac);
    }
  }

  lemma ReadPlain(neg: bool, whole: Text, frac: Text)
    requires whole != [] && AllDigits(whole) && AllDigits(frac)
    ensures ReadParts(SignedText(neg, MantissaText(whole, frac))) == Some(Numeral(neg, whole, frac, 0))
  {
    var m := MantissaText(whole, frac);
    SplitMantissaText(whole, frac, m);
    IndexOfNone(m, EXP);
    assert ([MINUS] + m)[1..] == m;
  }

  lemma ReadScaled(neg: bool, whole: Text, frac: Text, e: int)
    requires whole != [] && AllDigits(whole) && AllDigits(frac)
    ensures ReadParts(SignedText(neg, MantissaText(whole, frac) + [EXP] + SignedExponent(e))) ==
            Some(Numeral(neg, whole, frac, e))
  {
    var m := MantissaText(whole, frac);
    var body := m + [EXP] + SignedExponent(e);
    SplitMantissaText(whole, frac, m);
    IndexOfSplit(m, EXP, SignedExponent(e));
    ReadSignedExponent(e);
    assert ([MINUS] + body)[1..] == body && body[0] == m[0];
  }

  /** Normal digits padded with zeros on both sides come out again. */
  lemma NormalPadded(neg: bool, before: nat, digits: Text, after: nat, ds: Text, n: int, n': int)
    requires NormalDigits(digits) && ds == Zeros(before) + (digits + Zeros(after)) && n' == n + before
    ensures Normalise(neg, ds, n') == Decimal(neg, digits, n)
  {
    StripLeadingZeros(before, digits + Zeros(after));
    StripTrailingZeros(digits, after);
  }

  /** p is how t reads, with the digits padded by zeros and the point where n puts it. */
  ghost predicate ReadsAs(t: Text, neg: bool, digits: Text, n: int, p: Numeral, before: nat, after: nat) {
    && ReadParts(t) == Some(p) && p.neg == neg
    && p.whole + p.frac == Zeros(before) + (digits + Zeros(after)) && |p.whole| + p.exp == n + before
  }

  lemma PlacedWhole(neg: bool, digits: Text, n: int, t: Text)
    requires NormalDigits(digits) && |digits| <= n && t == digits + Zeros(n - |digits|)
    ensures ReadNumeral(SignedText(neg, t)) == Some(Decimal(neg, digits, n))
  {
    ReadPlain(neg, t, []);
    WholeDigits(digits, t, n - |digits|);
    ReadsAsDecimal(SignedText(neg, t), neg, digits, n, Numeral(neg, t, [], 0), 0, n - |digits|);
  }

  lemma WholeDigits(digits: Text, t: Text, after: nat)
    requires digits != [] && t == digits + Zeros(after)
    ensures t == MantissaText(t, []) && t + [] == Zeros(0) + (digits + Zeros(after))
  {
  }

  lemma InsideDigits(digits: Text, n: nat)
    requires n < |digits|
    ensures digits[..n] + digits[n..] == Zeros(0) + (digits + Zeros(0))
  {
  }

  lemma PlacedInside(neg: bool, digits: Text, n: int)
    requires NormalDigits(digits) && 0 < n < |digits|
    ensures ReadNumeral(SignedText(neg, digits[..n] + [POINT] + digits[n..])) == Some(Decimal(neg, digits, n))
  {
    var t := digits[..n] + [POINT] + digits[n..];
    ReadPlain(neg, digits[..n], digits[n..]);
    InsideDigits(digits, n);
    ReadsAsDecimal(SignedText(neg, t), neg, digits, n, Numeral(neg, digits[..n], digits[n..], 0), 0, 0);
  }

  lemma BelowOneDigits(digits: Text, k: nat, frac: Text)
    requires frac == Zeros(k) + digits && digits != []
    ensures [ZERO, POINT] + Zeros(k) + digits == MantissaText([ZERO], frac)
    ensures [ZERO] + frac == Zeros(1 + k) + (digits + Zeros(0))
  {
  }

  lemma PlacedBelowOne(neg: bool, digits: Text, n: int, frac: Text)
    requires NormalDigits(digits) && n <= 0 && frac == Zeros(-n) + digits
    ensures ReadNumeral(SignedText(neg, [ZERO, POINT] + Zeros(-n) + digits)) == Some(Decimal(neg, digits, n))
  {
    var t := [ZERO, POINT] + Zeros(-n) + digits;
    BelowOneDigits(digits, -n, frac);
    ReadPlain(neg, [ZERO], frac);
    ReadsAsDecimal(SignedText(neg, t), neg, digits, n, Numeral(neg, [ZERO], frac, 0), 1 - n, 0);
  }

  lemma ScientificDigits(digits: Text, m: Text)
    requires digits != [] && m == [digits[0]] + (if |digits| > 1 then [POINT] + digits[1..] else [])
    ensures m == MantissaText([digits[0]], digits[1..])
    ensures [digits[0]] + digits[1..] == Zeros(0) + (digits + Zeros(0))
  {
  }

  lemma PlacedScientific(neg: bool, digits: Text, n: int, m: Text)
    requires NormalDigits(digits) && m == [digits[0]] + (if |digits| > 1 then [POINT] + digits[1..] else [])
    ensures ReadNumeral(SignedText(neg, m + [EXP] + SignedExponent(n - 1))) == Some(Decimal(neg, digits, n))
  {
    var t := m + [EXP] + SignedExponent(n - 1);
    ReadScaled(neg, [digits[0]], digits[1..], n - 1);
    ScientificDigits(digits, m);
    ReadsAsDecimal(SignedText(neg, t), neg, digits, n, Numeral(neg, [digits[0]], digits[1..], n - 1), 0, 0);
  }

  lemma ReadsParts(t: Text, p: Numeral, ds: Text, at: int)
    requires ReadParts(t) == Some(p) && ds == p.whole + p.frac && at == |p.whole| + p.exp
    ensures ReadNumeral(t) == Some(Normalise(p.neg, ds, at))
  {
  }

  lemma ReadsAsDecimal(t: Text, neg: bool, digits: Text, n: int, p: Numeral, before: nat, after: nat)
    requires NormalDigits(digits) && ReadsAs(t, neg, digits, n, p, before, after)
    ensures ReadNumeral(t) == Some(Decimal(neg, digits, n))
  {
    var ds, at := p.whole + p.frac, |p.whole| + p.exp;
    ReadsParts(t, p, ds, at);
    NormalPadded(neg, before, digits, after, ds, n, at);
  }

  /** Each of the four placements denotes the decimal it was made from. */
  lemma PlacedReadsBack(neg: bool, digits: Text, n: int)
    requires NormalDigits(digits)
    ensures ReadNumeral(SignedText(neg, PlaceDigits(digits, n))) == Some(Decimal(neg, digits, n))
  {
    var k := |digits|;
    if k <= n <= 21 {
      PlacedWhole(neg, digits, n, digits + Zeros(n - k));
    } else if 0 < n <= 21 {
      PlacedInside(neg, digits, n);
    } else if -6 < n <= 0 {
      PlacedBelowOne(neg, digits, n, Zeros(-n) + digits);
    } else {
      PlacedScientific(neg, digits, n, [digits[0]] + (if k > 1 then [POINT] + digits[1..] else []));
    }
  }

  lemma DecimalReadsBack(d: Spelled)
    requires Normal(d)
    ensures ReadNumeral(DecimalText(d)) == Some(d)
    ensures NumeralValue(DecimalText(d)) == Some(ValueOf(d))
  {
    if d == ZERO_DECIMAL {
      ReadPlain(false, [ZERO], []);
      assert [ZERO] + [] == [ZERO] && [ZERO][1..] == [];
    } else {
      PlacedReadsBack(d.neg, d.digits, d.exp);
      assert DecimalText(d) == SignedText(d.neg, PlaceDigits(d.digits, d.exp));
    }
    ReadNumeralExact(DecimalText(d));
  }

  // ----- floats and integers

  /** What Python can hold: the repr is one `repr` produces. */
  type PyFloat = f: Float | FloatShaped(f) witness NonFinite

  /** The exact value of a finite float. */
  ghost function FloatValue(f: Float): real
    requires f.Finite? && FloatShaped(f)
  {
    if f.neg then -ReprValue(f.repr) else ReprValue(f.repr)
  }

  /** The decimal a finite float prints as. */
  function FloatDecimal(f: Float): (d: Spelled)
    requires f.Finite?
  {
    var r := DigitsAndExponent(ReprText(f.repr));
    if IsZero(f.repr) || r.None? || r.value.0 == [] then ZERO_DECIMAL else Decimal(f.neg, r.value.0, r.value.1)
  }

  lemma ZeroRepr(r: Repr)
    requires ReprShaped(r) && IsZero(r)
    ensures ReprValue(r) == 0.0
  {
    var ds := ReprDigits(r);
    var n := if r.Fixed? then |r.whole| else 1 + r.exp;
    TrimLeading(ds, [], n, n - |ds|);
  }

  /** `_float_to_str` prints a numeral that denotes exactly the float's value. */
  lemma FloatPrintsItsValue(f: Float)
    requires f.Finite? && FloatShaped(f)
    ensures Normal(FloatDecimal(f)) && ValueOf(FloatDecimal(f)) == FloatValue(f)
    ensures FloatToStr(f) == Some(DecimalText(FloatDecimal(f)))
    ensures NumeralValue(FloatToStr(f).value) == Some(FloatValue(f))
  {
    if IsZero(f.repr) {
      ZeroRepr(f.repr);
      ZeroIsZero();
    } else {
      DigitsAndExponentExact(f.repr);
      FloatParts(f, DigitsAndExponent(ReprText(f.repr)).value);
    }
    DecimalReadsBack(FloatDecimal(f));
  }

  lemma FloatParts(f: Float, d: (Text, int))
    requires f.Finite? && FloatShaped(f) && !IsZero(f.repr)
    requires DigitsAndExponent(ReprText(f.repr)) == Some(d) && Exact(d, ReprValue(f.repr))
    ensures FloatDecimal(f) == Decimal(f.neg, d.0, d.1) && ValueOf(FloatDecimal(f)) == FloatValue(f)
    ensures Normal(FloatDecimal(f)) && FloatToStr(f) == Some(DecimalText(FloatDecimal(f)))
  {
  }

  /** Floats print alike exactly when their values are equal. */
  lemma FloatsPrintApart(f: Float, g: Float)
    requires f.Finite? && g.Finite? && FloatShaped(f) && FloatShaped(g)
    ensures FloatToStr(f) == FloatToStr(g) <==> FloatValue(f) == FloatValue(g)
  {
    FloatPrintsItsValue(f);
    FloatPrintsItsValue(g);
    ValueUnique(FloatDecimal(f), FloatDecimal(g));
    DecimalReadsBack(FloatDecimal(f));
    DecimalReadsBack(FloatDecimal(g));
  }

  /** The normal decimal of an integer. */
  function IntDecimal(i: int): (d: Spelled) {
    var ds := DigitsOf(if i < 0 then -i else i);
    Normalise(i < 0, ds, |ds|)
  }

  lemma {:induction false} DigitsFit(n: nat, k: nat)
    requires n < Limit(k) && k > 0
    ensures |DigitsOf(n)| <= k
  {
    if n >= 10 {
      DigitsFit(n / 10, k - 1);
    }
  }

  function Limit(k: nat): nat {
    if k == 0 then 1 else 10 * Limit(k - 1)
  }

  lemma SafeDigitsFit(n: nat)
    requires n <= MAX_SAFE_INTEGER
    ensures |DigitsOf(n)| <= 16
  {
    assert Limit(4) == 10_000 && Limit(8) == 10_000 * Limit(4) && Limit(12) == 10_000 * Limit(8) &&
           Limit(16) == 10_000 * Limit(12);
    DigitsFit(n, 16);
  }

  /** A digit string of at most 21 digits is placed unchanged. */
  lemma PlainDigits(ds: Text, s: Text)
    requires AllDigits(ds) && ds != [] && ds[0] != ZERO && |ds| <= 21 && s == StripTrailing(ds)
    ensures NormalDigits(s) && StripLeading(ds) == ds && PlaceDigits(s, |ds|) == ds
  {
    TrimTrailing(ds, s, |ds|);
    StripTrailingSplits(ds, s);
  }

  /** Within the safe range `str(i)` is the text of the integer's decimal, so an integer
      and the float of the same value print the same. */
  lemma IntPrintsItsDecimal(i: int)
    requires -MAX_SAFE_INTEGER <= i <= MAX_SAFE_INTEGER
    ensures Normal(IntDecimal(i)) && IntText(i) == DecimalText(IntDecimal(i))
    ensures i != 0 ==> IntDecimal(i).neg == (i < 0)
  {
    var n := if i < 0 then -i else i;
    var ds := DigitsOf(n);
    NatOfDigits(n);
    SafeDigitsFit(n);
    if n == 0 {
      assert ds == [ZERO] && [ZERO][1..] == [];
    } else {
      PlainDigits(ds, StripTrailing(ds));
    }
  }

  lemma NatMagnitude(n: nat)
    ensures Magnitude(DigitsOf(n), |DigitsOf(n)|) == n as real
  {
    NatOfDigits(n);
    TimesIsProduct(n, Scale(0));
    SameScale(|DigitsOf(n)| - |DigitsOf(n)|, 0);
  }

  lemma IntDecimalValue(i: int)
    ensures Normal(IntDecimal(i)) && ValueOf(IntDecimal(i)) == i as real
  {
    var n := if i < 0 then -i else i;
    NatMagnitude(n);
    NormaliseExact(i < 0, DigitsOf(n), |DigitsOf(n)|);
  }

  /** The float of a safe integer, whose repr is `digits.0`. */
  function FloatOfInt(i: int): Float {
    Finite(i < 0, Fixed(DigitsOf(if i < 0 then -i else i), [ZERO]))
  }

  lemma FloatOfIntValue(i: int)
    ensures FloatShaped(FloatOfInt(i)) && FloatValue(FloatOfInt(i)) == i as real
  {
    var n := if i < 0 then -i else i;
    NatOfDigits(n);
    NatMagnitude(n);
    TrailingZeroKeepsMagnitude(DigitsOf(n), |DigitsOf(n)|);
    assert n < 10 ==> |DigitsOf(n)| == 1;
  }

  lemma IntAndFloatPrintAlike(i: int)
    requires -MAX_SAFE_INTEGER <= i <= MAX_SAFE_INTEGER
    ensures FloatShaped(FloatOfInt(i)) && FloatValue(FloatOfInt(i)) == i as real
    ensures FloatToStr(FloatOfInt(i)) == Some(IntText(i))
  {
    FloatOfIntValue(i);
    IntPrintsItsDecimal(i);
    IntDecimalValue(i);
    FloatPrintsItsValue(FloatOfInt(i));
    ValueUnique(FloatDecimal(FloatOfInt(i)), IntDecimal(i));
  }
}
