/** How numbers are laid out (RFC 8785 section 3.2.2.3): from the value of a float alone,
    whether its text has an exponent, a point, and which digits. */
module NumberFormat {
  import opened Decimals
  import opened Numerals

  /** The value is an integer. */
  predicate IsWhole(v: real) {
    v.Floor as real == v
  }

  // ----- powers of ten

  lemma {:induction false} TimesMonotone(m: nat, n: nat, x: real)
    requires m <= n && x > 0.0
    ensures Times(m, x) <= Times(n, x) && (m < n ==> Times(m, x) < Times(n, x))
  {
    if m < n {
      TimesMonotone(m, n - 1, x);
    }
  }

  lemma {:induction false} TimesLimit(k: nat, e: int)
    ensures Times(Limit(k), Scale(e)) == Scale(e + k)
    decreases k
  {
    if k == 0 {
      SameScale(e, e + k);
      assert Times(1, Scale(e)) == Scale(e) + Times(0, Scale(e));
    } else {
      ScaleStep(e, e + 1);
      TenTimes(Limit(k - 1), Scale(e), Scale(e + 1));
      TimesLimit(k - 1, e + 1);
      SameScale(e + 1 + (k - 1), e + k);
    }
  }

  lemma {:induction false} NatOfBounds(ds: Text)
    requires ds != [] && AllDigits(ds) && ds[0] != ZERO
    ensures Limit(|ds| - 1) <= NatOf(ds) < Limit(|ds|)
  {
    var init := ds[..|ds| - 1];
    if init == [] {
      assert NatOf(init) == 0;
    } else {
      NatOfBounds(init);
    }
  }

  /** The exponent of normal digits tells how large the number is. */
  lemma MagnitudeBounds(ds: Text, n: int)
    requires NormalDigits(ds)
    ensures Scale(n - 1) <= Magnitude(ds, n) < Scale(n)
  {
    var k, e := |ds|, n - |ds|;
    NatOfBounds(ds);
    TimesMonotone(Limit(k - 1), NatOf(ds), Scale(e));
    TimesMonotone(NatOf(ds), Limit(k), Scale(e));
    TimesLimit(k - 1, e);
    TimesLimit(k, e);
    SameScale(e + (k - 1), n - 1);
    SameScale(e + k, n);
  }

  lemma {:induction false} ScaleMonotone(d: int, e: int)
    requires d <= e
    ensures Scale(d) <= Scale(e)
    decreases e - d
  {
    if d < e {
      ScaleStep(e - 1, e);
      ScaleMonotone(d, e - 1);
    }
  }

  lemma WholeTimes(n: nat)
    ensures Times(n, Scale(0)) == n as real && IsWhole(n as real)
  {
    TimesIsProduct(n, 1.0);
  }

  /** Normal digits spell an integer exactly when none of them stands behind the point. */
  lemma WholeExactly(ds: Text, n: int)
    requires NormalDigits(ds)
    ensures IsWhole(Magnitude(ds, n)) <==> |ds| <= n
  {
    var e := n - |ds|;
    if e >= 0 {
      var m := LowerScale(NatOf(ds), e, 0);
      WholeTimes(m);
    } else if IsWhole(Magnitude(ds, n)) {
      NormalIsPositive(ds, n);
      var w: nat := Magnitude(ds, n).Floor;
      WholeTimes(w);
      var m := LowerScale(w, 0, e);
      TimesInjective(NatOf(ds), m, Scale(e));
      LastDigit(ds);
    }
  }

  lemma NegativeWhole(v: real)
    ensures IsWhole(v) <==> IsWhole(-v)
  {
    if IsWhole(v) {
      assert (-v).Floor == -(v.Floor);
    }
    if IsWhole(-v) {
      assert v.Floor == -((-v).Floor);
    }
  }

  lemma Thresholds()
    ensures Scale(-6) == 0.000001 && Scale(21) == 1_000_000_000_000_000_000_000.0
  {
    assert Scale(7) == 10_000_000.0;
    assert Scale(14) == 10_000_000.0 * Scale(7);
    assert Scale(21) == 10_000_000.0 * Scale(14);
  }

  /** Exponents are used below a millionth and from 10^21 on. */
  lemma ThresholdsExactly(ds: Text, n: int)
    requires NormalDigits(ds)
    ensures -6 < n <= 21 <==> 0.000001 <= Magnitude(ds, n) < 1_000_000_000_000_000_000_000.0
  {
    Thresholds();
    MagnitudeBounds(ds, n);
    if n <= -6 {
      ScaleMonotone(n, -6);
    } else {
      ScaleMonotone(-6, n - 1);
    }
    if n <= 21 {
      ScaleMonotone(n, 21);
    } else {
      ScaleMonotone(21, n - 1);
    }
  }

  // ----- the layout

  /** A numeral as it is laid out: sign, whole part, fraction behind a point if there is one,
      and on request an exponent behind "e", with its sign and without padding. */
  function Layout(negative: bool, whole: Text, frac: Text, scientific: bool, e: int): Text {
    (if negative then [0x2D] else []) + whole + (if frac == [] then [] else [0x2E] + frac) +
      (if scientific then [0x65, if e >= 0 then 0x2B else 0x2D] + DigitsOf(if e >= 0 then e else -e) else [])
  }

  /** No digit of the layout can be spared: no zeros in front of the whole part or at the end
      of the fraction, and one non-zero digit before the point of a number with an exponent. */
  ghost predicate Tidy(whole: Text, frac: Text, scientific: bool) {
    && whole != [] && AllDigits(whole) && AllDigits(frac)
    && (|whole| > 1 ==> whole[0] != 0x30)
    && (frac != [] ==> frac[|frac| - 1] != 0x30)
    && (scientific ==> |whole| == 1 && whole[0] != 0x30)
  }

  /** How normal digits are placed: the parts, and when the number has a fraction. */
  ghost predicate Places(t: Text, digits: Text, n: int, whole: Text, frac: Text, e: int) {
    var scientific := n <= -6 || 21 < n;
    && t == Layout(false, whole, frac, scientific, e) && Tidy(whole, frac, scientific)
    && (!scientific ==> (frac == [] <==> |digits| <= n))
  }

  lemma WholePlaces(digits: Text, n: int, whole: Text)
    requires NormalDigits(digits) && |digits| <= n <= 21 && whole == digits + Zeros(n - |digits|)
    ensures Places(whole, digits, n, whole, [], 0)
  {
  }

  lemma InsidePlaces(digits: Text, n: int, whole: Text, frac: Text, t: Text)
    requires NormalDigits(digits) && 0 < n < |digits| && n <= 21 && whole == digits[..n] && frac == digits[n..]
    requires t == whole + [POINT] + frac
    ensures Places(t, digits, n, whole, frac, 0)
  {
    assert Layout(false, whole, frac, false, 0) == t;
  }

  lemma BelowOnePlaces(digits: Text, n: int, frac: Text, t: Text)
    requires NormalDigits(digits) && -6 < n <= 0
    requires frac == Zeros(-n) + digits && t == [ZERO, POINT] + Zeros(-n) + digits
    ensures Places(t, digits, n, [ZERO], frac, 0)
  {
    assert Layout(false, [ZERO], frac, false, 0) == t;
  }

  lemma ScientificPlaces(digits: Text, n: int, m: Text, t: Text)
    requires NormalDigits(digits) && (n <= -6 || 21 < n)
    requires m == [digits[0]] + (if |digits| > 1 then [POINT] + digits[1..] else [])
    requires t == m + [EXP] + SignedExponent(n - 1)
    ensures Places(t, digits, n, [digits[0]], digits[1..], n - 1)
  {
    var frac, e := digits[1..], n - 1;
    assert m == [] + [digits[0]] + if frac == [] then [] else [0x2E] + frac;
    assert [EXP] + SignedExponent(e) == [0x65, if e >= 0 then 0x2B else 0x2D] + DigitsOf(if e >= 0 then e else -e);
    assert t == m + ([EXP] + SignedExponent(e));
  }

  lemma PlacedAs(digits: Text, n: int, t: Text)
    requires digits != [] && t == PlaceDigits(digits, n)
    ensures |digits| <= n <= 21 ==> t == digits + Zeros(n - |digits|)
    ensures 0 < n < |digits| && n <= 21 ==> t == digits[..n] + [POINT] + digits[n..]
    ensures -6 < n <= 0 ==> t == [ZERO, POINT] + Zeros(-n) + digits
    ensures n <= -6 || 21 < n ==>
              t == ([digits[0]] + (if |digits| > 1 then [POINT] + digits[1..] else [])) + [EXP] + SignedExponent(n - 1)
  {
  }

  lemma PlacedLayout(digits: Text, n: int, t: Text) returns (whole: Text, frac: Text, e: int)
    requires NormalDigits(digits) && t == PlaceDigits(digits, n)
    ensures Places(t, digits, n, whole, frac, e)
  {
    PlacedAs(digits, n, t);
    e := 0;
    if |digits| <= n <= 21 {
      whole, frac := t, [];
      WholePlaces(digits, n, t);
    } else if 0 < n <= 21 {
      whole, frac := digits[..n], digits[n..];
      InsidePlaces(digits, n, whole, frac, t);
    } else if -6 < n <= 0 {
      whole, frac := [ZERO], Zeros(-n) + digits;
      BelowOnePlaces(digits, n, frac, t);
    } else {
      whole, frac, e := [digits[0]], digits[1..], n - 1;
      ScientificPlaces(digits, n, [digits[0]] + (if |digits| > 1 then [POINT] + digits[1..] else []), t);
    }
  }

  lemma ExponentShows(negative: bool, whole: Text, frac: Text, scientific: bool, e: int)
    requires AllDigits(whole) && AllDigits(frac)
    ensures 0x65 in Layout(negative, whole, frac, scientific, e) <==> scientific
    ensures !scientific ==> (0x2E in Layout(negative, whole, frac, scientific, e) <==> frac != [])
  {
    var mantissa := (if negative then [0x2D] else []) + whole + (if frac == [] then [] else [0x2E] + frac);
    assert 0x65 !in mantissa && (0x2E in mantissa <==> frac != []);
    if scientific {
      assert Layout(negative, whole, frac, true, e)[|mantissa|] == 0x65;
    } else {
      assert Layout(negative, whole, frac, false, e) == mantissa;
    }
  }

  lemma SignedLayout(negative: bool, whole: Text, frac: Text, scientific: bool, e: int, body: Text)
    requires body == Layout(false, whole, frac, scientific, e)
    ensures (if negative then [MINUS] else []) + body == Layout(negative, whole, frac, scientific, e)
  {
  }

  /** The text of a number of this value: an exponent exactly below a millionth and from 10^21
      on, and otherwise a point exactly when it is no integer. */
  ghost predicate LaidOut(t: Text, v: real, whole: Text, frac: Text, e: int) {
    var size := if v < 0.0 then -v else v;
    var scientific := v != 0.0 && !(0.000001 <= size < 1_000_000_000_000_000_000_000.0);
    && t == Layout(v < 0.0, whole, frac, scientific, e) && Tidy(whole, frac, scientific)
    && (0x65 in t <==> scientific)
    && (!scientific ==> (0x2E in t <==> !IsWhole(v)))
    && (v == 0.0 ==> t == [0x30])
  }

  lemma DecimalLayout(d: Spelled) returns (whole: Text, frac: Text, e: int)
    requires NormalDigits(d.digits) && d != ZERO_DECIMAL
    ensures LaidOut(DecimalText(d), ValueOf(d), whole, frac, e)
  {
    whole, frac, e := PlacedLayout(d.digits, d.exp, PlaceDigits(d.digits, d.exp));
    NormalIsPositive(d.digits, d.exp);
    ThresholdsExactly(d.digits, d.exp);
    WholeExactly(d.digits, d.exp);
    NegativeWhole(Magnitude(d.digits, d.exp));
    var scientific := d.exp <= -6 || 21 < d.exp;
    SignedLayout(d.neg, whole, frac, scientific, e, PlaceDigits(d.digits, d.exp));
    ExponentShows(d.neg, whole, frac, scientific, e);
  }

  lemma ZeroLayout()
    ensures LaidOut([ZERO], 0.0, [ZERO], [], 0)
  {
    assert Layout(false, [ZERO], [], false, 0) == [ZERO];
  }

  /** How a finite float is laid out, from its value alone. */
  lemma FloatLayout(f: Float) returns (whole: Text, frac: Text, e: int)
    requires f.Finite? && FloatShaped(f)
    ensures FloatToStr(f).Some? && LaidOut(FloatToStr(f).value, FloatValue(f), whole, frac, e)
  {
    FloatPrintsItsValue(f);
    if FloatDecimal(f) == ZERO_DECIMAL {
      ZeroIsZero();
      ZeroLayout();
      whole, frac, e := [ZERO], [], 0;
    } else {
      whole, frac, e := DecimalLayout(FloatDecimal(f));
    }
  }
}
