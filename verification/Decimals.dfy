/** Decimal digit strings, powers of ten and exact decimal values. */
module Decimals {
  /** A code point, or a string of them. */
  type CodePoint = n: int | 0 <= n <= 0x10FFFF
  type Text = seq<CodePoint>

  const ZERO: CodePoint := 0x30
  const NINE: CodePoint := 0x39

  predicate IsDigit(c: CodePoint) {
    ZERO <= c <= NINE
  }

  predicate AllDigits(t: Text) {
    forall i :: 0 <= i < |t| ==> IsDigit(t[i])
  }

  function Zeros(n: nat): (t: Text)
    ensures |t| == n && AllDigits(t) && forall i :: 0 <= i < n ==> t[i] == ZERO
  {
    seq(n, _ => ZERO)
  }

  /** Ten to an integer power, exactly. */
  function Scale(e: int): (p: real)
    ensures p > 0.0
    decreases if e < 0 then -e else e
  {
    if e == 0 then 1.0 else if e > 0 then 10.0 * Scale(e - 1) else Scale(e + 1) / 10.0
  }

  lemma ScaleStep(e: int, f: int)
    requires f == e + 1
    ensures Scale(f) == 10.0 * Scale(e)
  {
  }

  /** n times x, as a sum. */
  function Times(n: nat, x: real): real {
    if n == 0 then 0.0 else x + Times(n - 1, x)
  }

  lemma {:induction false} TimesIsProduct(n: nat, x: real)
    ensures Times(n, x) == n as real * x
  {
    if n > 0 {
      TimesIsProduct(n - 1, x);
      assert (n as real - 1.0) * x == n as real * x - x;
    }
  }

  lemma {:induction false} TimesPositive(n: nat, x: real)
    requires x > 0.0
    ensures Times(n, x) >= 0.0 && (n > 0 ==> Times(n, x) > 0.0)
  {
    if n > 0 {
      TimesPositive(n - 1, x);
    }
  }

  lemma {:induction false} TimesInjective(m: nat, n: nat, x: real)
    requires x > 0.0 && Times(m, x) == Times(n, x)
    ensures m == n
  {
    TimesPositive(m, x);
    TimesPositive(n, x);
    if m > 0 && n > 0 {
      TimesInjective(m - 1, n - 1, x);
    }
  }

  lemma {:induction false} TenTimes(n: nat, x: real, y: real)
    requires y == 10.0 * x
    ensures Times(10 * n, x) == Times(n, y)
  {
    if n > 0 {
      TenTimes(n - 1, x, y);
      TimesPlusTen(10 * n - 10, x);
    }
  }

  lemma TimesPlusTen(n: nat, x: real)
    ensures Times(n + 10, x) == 10.0 * x + Times(n, x)
  {
    assert Times(n + 2, x) == 2.0 * x + Times(n, x);
    assert Times(n + 4, x) == 2.0 * x + Times(n + 2, x);
    assert Times(n + 6, x) == 2.0 * x + Times(n + 4, x);
    assert Times(n + 8, x) == 2.0 * x + Times(n + 6, x);
  }

  function DigitValue(c: CodePoint): nat {
    if IsDigit(c) then c - ZERO else 0
  }

  /** The number a digit string spells. */
  function NatOf(t: Text): (n: nat) {
    if t == [] then 0 else 10 * NatOf(t[..|t| - 1]) + DigitValue(t[|t| - 1])
  }

  /** `str(n)` for a natural number. */
  function DigitsOf(n: nat): (t: Text)
    ensures |t| > 0 && AllDigits(t)
  {
    if n < 10 then [ZERO + n] else DigitsOf(n / 10) + [ZERO + n % 10]
  }

  lemma {:induction false} NatOfDigits(n: nat)
    ensures NatOf(DigitsOf(n)) == n
    ensures n > 0 ==> DigitsOf(n)[0] != ZERO
  {
    var t := DigitsOf(n);
    if n >= 10 {
      NatOfDigits(n / 10);
      assert t[..|t| - 1] == DigitsOf(n / 10);
    } else {
      assert t[..0] == [];
    }
  }

  lemma NatOfLast(t: Text, c: CodePoint)
    ensures NatOf(t + [c]) == 10 * NatOf(t) + DigitValue(c)
  {
  }

  lemma {:induction false} NatOfZerosBefore(k: nat, t: Text)
    ensures NatOf(Zeros(k) + t) == NatOf(t)
    decreases |t| + k
  {
    if t == [] {
      assert Zeros(k) + t == Zeros(k);
      if k > 0 {
        NatOfZerosBefore(k - 1, []);
        assert Zeros(k) == Zeros(k - 1) + [ZERO] && Zeros(k - 1) + [] == Zeros(k - 1);
        NatOfLast(Zeros(k - 1), ZERO);
      }
    } else {
      var j := |t| - 1;
      NatOfZerosBefore(k, t[..j]);
      assert Zeros(k) + t == (Zeros(k) + t[..j]) + [t[j]];
      NatOfLast(Zeros(k) + t[..j], t[j]);
    }
  }

  /** A digit string without leading zeros is the only one that spells its number. */
  lemma {:induction false} NatOfInjective(s: Text, t: Text)
    requires AllDigits(s) && AllDigits(t) && NatOf(s) == NatOf(t)
    requires (s != [] ==> s[0] != ZERO) && (t != [] ==> t[0] != ZERO)
    ensures s == t
  {
    if s == [] || t == [] {
      NonzeroSpelled(s);
      NonzeroSpelled(t);
    } else {
      var i, j := |s| - 1, |t| - 1;
      NatOfInjective(s[..i], t[..j]);
      assert s == s[..i] + [s[i]] && t == t[..j] + [t[j]];
    }
  }

  lemma {:induction false} NonzeroSpelled(t: Text)
    requires AllDigits(t) && (t != [] ==> t[0] != ZERO)
    ensures t != [] ==> NatOf(t) > 0
  {
    if |t| > 1 {
      NonzeroSpelled(t[..|t| - 1]);
    } else if |t| == 1 {
      assert t[..0] == [];
    }
  }

  /** A decimal in the form 0.digits * 10^exp; the digit string of a non-zero one starts
      and ends with a non-zero digit, and zero is written one way. */
  datatype Decimal = Decimal(neg: bool, digits: Text, exp: int)

  /** A decimal with at least one digit. */
  type Spelled = d: Decimal | d.digits != [] witness ZERO_DECIMAL

  const ZERO_DECIMAL: Decimal := Decimal(false, [ZERO], 1)

  ghost predicate NormalDigits(digits: Text) {
    digits != [] && AllDigits(digits) && digits[0] != ZERO && digits[|digits| - 1] != ZERO
  }

  ghost predicate Normal(d: Decimal) {
    d == ZERO_DECIMAL || NormalDigits(d.digits)
  }

  /** The magnitude 0.digits * 10^exp. */
  function Magnitude(digits: Text, exp: int): real
  {
    Times(NatOf(digits), Scale(exp - |digits|))
  }

  function ValueOf(d: Decimal): real
  {
    if d.neg then -Magnitude(d.digits, d.exp) else Magnitude(d.digits, d.exp)
  }

  lemma SameScale(e: int, f: int)
    requires e == f
    ensures Scale(e) == Scale(f)
  {
  }

  lemma TrailingZeroKeepsMagnitude(digits: Text, exp: int)
    ensures Magnitude(digits + [ZERO], exp) == Magnitude(digits, exp)
  {
    NatOfLast(digits, ZERO);
    var e := exp - |digits + [ZERO]|;
    ScaleStep(e, exp - |digits|);
    TenTimes(NatOf(digits), Scale(e), Scale(exp - |digits|));
  }

  lemma {:induction false} TrailingZerosKeepMagnitude(digits: Text, k: nat, exp: int)
    ensures Magnitude(digits + Zeros(k), exp) == Magnitude(digits, exp)
  {
    if k == 0 {
      assert digits + Zeros(0) == digits;
    } else {
      TrailingZerosKeepMagnitude(digits, k - 1, exp);
      assert digits + Zeros(k) == (digits + Zeros(k - 1)) + [ZERO];
      TrailingZeroKeepsMagnitude(digits + Zeros(k - 1), exp);
    }
  }

  lemma LeadingZerosKeepMagnitude(k: nat, digits: Text, exp: int)
    ensures Magnitude(Zeros(k) + digits, exp + k) == Magnitude(digits, exp)
  {
    NatOfZerosBefore(k, digits);
    SameScale(exp + k - |Zeros(k) + digits|, exp - |digits|);
  }

  lemma NormalIsPositive(digits: Text, exp: int)
    requires NormalDigits(digits)
    ensures Magnitude(digits, exp) > 0.0
  {
    NonzeroSpelled(digits);
    TimesPositive(NatOf(digits), Scale(exp - |digits|));
  }

  /** The same number counted in units of a smaller power of ten. */
  lemma {:induction false} LowerScale(n: nat, f: int, e: int) returns (m: nat)
    requires e <= f
    ensures Times(n, Scale(f)) == Times(m, Scale(e))
    ensures if e == f then m == n else m % 10 == 0
    decreases f - e
  {
    if e == f {
      m := n;
    } else {
      ScaleStep(f - 1, f);
      TenTimes(n, Scale(f - 1), Scale(f));
      m := LowerScale(10 * n, f - 1, e);
    }
  }

  lemma LastDigit(t: Text)
    requires t != []
    ensures NatOf(t) % 10 == DigitValue(t[|t| - 1])
  {
  }

  lemma SameMagnitude(s: Text, e: int, t: Text, f: int)
    requires NormalDigits(s) && NormalDigits(t) && e <= f
    requires Times(NatOf(s), Scale(e)) == Times(NatOf(t), Scale(f))
    ensures s == t && e == f
  {
    var m := LowerScale(NatOf(t), f, e);
    TimesInjective(NatOf(s), m, Scale(e));
    LastDigit(s);
    NatOfInjective(s, t);
  }

  /** Two normal digit strings of one magnitude are the same, exponent included. */
  lemma MagnitudeUnique(s: Text, e: int, t: Text, f: int)
    requires NormalDigits(s) && NormalDigits(t) && Magnitude(s, e) == Magnitude(t, f)
    ensures s == t && e == f
  {
    if e - |s| <= f - |t| {
      SameMagnitude(s, e - |s|, t, f - |t|);
    } else {
      SameMagnitude(t, f - |t|, s, e - |s|);
    }
  }

  lemma ZeroIsZero()
    ensures ValueOf(ZERO_DECIMAL) == 0.0
  {
    NatOfLast([], ZERO);
    assert [] + [ZERO] == [ZERO];
  }

  /** Normal decimals are equal exactly when their values are. */
  lemma ValueUnique(c: Decimal, d: Decimal)
    requires Normal(c) && Normal(d)
    ensures ValueOf(c) == ValueOf(d) <==> c == d
  {
    ZeroIsZero();
    if c != ZERO_DECIMAL {
      NormalIsPositive(c.digits, c.exp);
    }
    if d != ZERO_DECIMAL {
      NormalIsPositive(d.digits, d.exp);
    }
    if ValueOf(c) == ValueOf(d) && c != ZERO_DECIMAL && d != ZERO_DECIMAL {
      MagnitudeUnique(c.digits, c.exp, d.digits, d.exp);
    }
  }
}
