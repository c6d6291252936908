/** IEEE doubles as reals, and what rounding a quotient to the nearest one gives away. */
module Doubles {
  /** 2 to the e. */
  function Power(e: int): (p: real)
    ensures p > 0.0
    decreases if e < 0 then -e else e
  {
    if e == 0 then 1.0
    else if e > 0 then 2.0 * Power(e - 1)
    else Power(e + 1) / 2.0
  }

  const MANTISSAS: int := 0x20_0000_0000_0000
  const MIN_EXPONENT: int := -1074
  const MAX_EXPONENT: int := 971

  function Scaled(m: int, e: int): real {
    m as real * Power(e)
  }

  /** The finite doubles: fewer than 2^53 units of a power of two. */
  ghost predicate IsDouble(x: real) {
    exists m, e :: -MANTISSAS < m < MANTISSAS && MIN_EXPONENT <= e <= MAX_EXPONENT && x == Scaled(m, e)
  }

  function Distance(x: real, y: real): real {
    if x < y then y - x else x - y
  }

  /** No double is nearer to x; which of two equally near ones is taken is left open. */
  ghost predicate Nearest(x: real, q: real) {
    IsDouble(q) && forall d :: IsDouble(d) ==> Distance(q, x) <= Distance(d, x)
  }

  // ----- powers of two

  lemma PowerNext(e: int)
    ensures Power(e + 1) == 2.0 * Power(e)
  {
  }

  lemma {:induction false} PowerMonotone(d: int, e: int)
    requires d <= e
    ensures Power(d) <= Power(e)
    decreases e - d
  {
    if d < e {
      PowerNext(d);
      PowerMonotone(d + 1, e);
    }
  }

  /** 2 to the k, as an integer. */
  function WholePower(k: nat): (p: nat)
    ensures p > 0
  {
    if k == 0 then 1 else 2 * WholePower(k - 1)
  }

  lemma DoubleUnit(m: int, e: int)
    ensures Scaled(m, e + 1) == Scaled(2 * m, e)
  {
    PowerNext(e);
    Halved(m as real, Power(e));
  }

  lemma Halved(m: real, u: real)
    ensures m * (2.0 * u) == (2.0 * m) * u
  {
  }

  lemma Doubled(m: int, p: int)
    ensures 2 * (m * p) == (2 * m) * p == m * (2 * p)
  {
  }

  /** A whole number of units is a whole number of smaller units. */
  lemma {:induction false} SmallerUnits(m: int, d: int, k: nat, n: int)
    requires n == m * WholePower(k)
    ensures Scaled(m, d + k) == Scaled(n, d)
    decreases k
  {
    if k > 0 {
      DoubleUnit(m, d + k - 1);
      Doubled(m, WholePower(k - 1));
      SmallerUnits(2 * m, d, k - 1, n);
    }
  }

  /** Every number between two powers of two lies between two neighbouring ones. */
  lemma {:induction false} Octave(x: real, lo: int, hi: int) returns (k: int)
    requires lo < hi && Power(lo) <= x < Power(hi)
    ensures lo <= k < hi && Power(k) <= x < Power(k + 1)
    decreases hi - lo
  {
    if x < Power(hi - 1) {
      PowerMonotoneStrict(x, lo, hi - 1);
      k := Octave(x, lo, hi - 1);
    } else {
      k := hi - 1;
    }
  }

  lemma PowerMonotoneStrict(x: real, lo: int, hi: int)
    requires Power(lo) <= x < Power(hi)
    ensures lo < hi
  {
    if hi <= lo {
      PowerMonotone(hi, lo);
    }
  }

  // ----- rounding

  lemma {:induction false} WholePowerSum(j: nat, k: nat, p: nat)
    requires p == WholePower(k)
    ensures WholePower(j + k) == WholePower(j) * p
  {
    if j > 0 {
      WholePowerSum(j - 1, k, p);
      Doubled(WholePower(j - 1), p);
    }
  }

  lemma WholePowerFiftyTwo()
    ensures WholePower(52) == MANTISSAS / 2
  {
    assert WholePower(13) == 0x2000;
    WholePowerSum(13, 13, 0x2000);
    WholePowerSum(26, 26, 0x400_0000);
  }

  lemma MantissaPower(k: int)
    ensures Scaled(MANTISSAS / 2, k - 52) == Power(k) && Scaled(MANTISSAS, k - 52) == Power(k + 1)
  {
    WholePowerFiftyTwo();
    SmallerUnits(1, k - 52, 52, MANTISSAS / 2);
    DoubleUnit(MANTISSAS / 2, k - 52);
    PowerNext(k);
    Halved(MANTISSAS as real / 2.0, Power(k - 52));
  }

  lemma Cancel(a: real, b: real, u: real)
    requires u > 0.0 && a * u < b * u
    ensures a < b
  {
    if b <= a {
      TimesUnit(b, a, u);
    }
  }

  lemma TimesUnit(x: real, y: real, u: real)
    requires x <= y && u > 0.0
    ensures x * u <= y * u
  {
    assert y * u - x * u == (y - x) * u;
  }

  lemma Stay(r: real, n: real, u: real)
    requires u > 0.0 && r < n
    ensures r * u < n * u
  {
    assert n * u - r * u == (n - r) * u;
  }

  lemma FloorUnits(x: real, u: real, lo: int, hi: int) returns (m: int)
    requires u > 0.0 && lo as real * u <= x < hi as real * u
    ensures lo <= m < hi && m as real * u <= x < (m + 1) as real * u
  {
    var r := x / u;
    m := r.Floor;
    assert r * u == x;
    Cancel(r, hi as real, u);
    if r < lo as real {
      Stay(r, lo as real, u);
    }
    TimesUnit(m as real, r, u);
    BelowNext(r, u, m, x);
  }

  lemma BelowNext(r: real, u: real, m: int, x: real)
    requires u > 0.0 && r < m as real + 1.0 && x == r * u
    ensures x < (m + 1) as real * u
  {
    Stay(r, m as real + 1.0, u);
  }

  lemma NextUnit(m: int, e: int)
    ensures Scaled(m + 1, e) == Scaled(m, e) + Power(e)
  {
    OneMore(m as real, Power(e));
  }

  lemma OneMore(m: real, u: real)
    ensures (m + 1.0) * u == m * u + u
  {
  }

  lemma UnitsAreDoubles(m: int, e: int)
    requires 0 <= m <= MANTISSAS && MIN_EXPONENT <= e < MAX_EXPONENT
    ensures IsDouble(Scaled(m, e))
  {
    if m == MANTISSAS {
      DoubleUnit(MANTISSAS / 2, e);
    }
  }

  lemma ScaledFloor(x: real, e: int) returns (m: int)
    requires Scaled(MANTISSAS / 2, e) <= x < Scaled(MANTISSAS, e)
    ensures MANTISSAS / 2 <= m < MANTISSAS && Scaled(m, e) <= x < Scaled(m + 1, e)
  {
    m := FloorUnits(x, Power(e), MANTISSAS / 2, MANTISSAS);
  }

  /** Some double is at most half a unit away. */
  lemma HalfUnit(x: real, k: int) returns (d: real)
    requires Power(k) <= x < Power(k + 1) && MIN_EXPONENT + 52 <= k < MAX_EXPONENT + 52
    ensures IsDouble(d) && Distance(d, x) <= Power(k - 53)
  {
    MantissaPower(k);
    var m := ScaledFloor(x, k - 52);
    d := HalfUnitAt(x, m, k - 52, Power(k - 53));
  }

  lemma HalfUnitAt(x: real, m: int, e: int, h: real) returns (d: real)
    requires 0 <= m < MANTISSAS && MIN_EXPONENT <= e < MAX_EXPONENT && h == Power(e - 1)
    requires Scaled(m, e) <= x < Scaled(m + 1, e)
    ensures IsDouble(d) && Distance(d, x) <= h
  {
    UnitsAreDoubles(m, e);
    UnitsAreDoubles(m + 1, e);
    NextUnit(m, e);
    PowerNext(e - 1);
    d := Nearer(x, Scaled(m, e), Scaled(m + 1, e));
  }

  lemma Nearer(x: real, a: real, b: real) returns (d: real)
    requires a <= x < b && IsDouble(a) && IsDouble(b)
    ensures IsDouble(d) && Distance(d, x) <= (b - a) / 2.0
    ensures Distance(d, x) <= Distance(a, x) && Distance(d, x) <= Distance(b, x)
  {
    d := if x - a <= b - x then a else b;
  }

  /** Rounding loses at most one part in 2^53. */
  lemma NearestLoss(x: real, q: real, k: int)
    requires Power(k) <= x < Power(k + 1) && MIN_EXPONENT + 52 <= k < MAX_EXPONENT + 52 && Nearest(x, q)
    ensures q * MANTISSAS as real >= x * (MANTISSAS - 1) as real
  {
    var d := HalfUnit(x, k);
    var h := Power(k - 53);
    assert q >= x - h;
    MantissaPower(k - 1);
    assert MANTISSAS as real * h == Power(k) <= x;
    Multiplied(x, q, h, MANTISSAS as real);
  }

  lemma Multiplied(x: real, q: real, h: real, n: real)
    requires q >= x - h && n > 0.0 && n * h <= x
    ensures q * n >= x * (n - 1.0)
  {
    TimesUnit(x - h, q, n);
    assert (x - h) * n == x * n - n * h;
  }

  lemma NearestZero(q: real)
    requires Nearest(0.0, q)
    ensures q == 0.0
  {
    assert Scaled(0, 0) == 0.0;
    assert IsDouble(0.0);
  }

  // ----- there is a nearest double

  lemma {:induction false} LargerUnit(n: int, d: int, e: int)
    requires 0 <= n && d <= e
    ensures Scaled(n, d) <= Scaled(n, e)
    decreases e - d
  {
    if d < e {
      DoubleUnit(n, e - 1);
      ScaledMonotone(n, 2 * n, e - 1);
      LargerUnit(n, d, e - 1);
    }
  }

  /** Units too small for these mantissas do not reach the lower end of an octave. */
  lemma BelowOctave(n: int, f: int, e: int)
    requires n < MANTISSAS && f < e
    ensures Scaled(n, f) <= Scaled(MANTISSAS / 2, e)
  {
    ScaledMonotone(n, MANTISSAS, f);
    LargerUnit(MANTISSAS, f, e - 1);
    DoubleUnit(MANTISSAS / 2, e - 1);
  }

  lemma ScaledMonotone(m: int, n: int, e: int)
    requires m <= n
    ensures Scaled(m, e) <= Scaled(n, e)
  {
    TimesUnit(m as real, n as real, Power(e));
  }

  /** Between neighbouring multiples of the unit of an octave there is no double. */
  lemma NoneBetween(d: real, m: int, e: int)
    requires IsDouble(d) && MANTISSAS / 2 <= m
    ensures d <= Scaled(m, e) || Scaled(m + 1, e) <= d
  {
    var n, f :| -MANTISSAS < n < MANTISSAS && MIN_EXPONENT <= f <= MAX_EXPONENT && d == Scaled(n, f);
    if f < e {
      BelowOctave(n, f, e);
      ScaledMonotone(MANTISSAS / 2, m, e);
    } else {
      var w := n * WholePower(f - e);
      SmallerUnits(n, e, f - e, w);
      if w <= m {
        ScaledMonotone(w, m, e);
      } else {
        ScaledMonotone(m + 1, w, e);
      }
    }
  }

  /** Every number within the normal range has a nearest double. */
  lemma SomeNearest(x: real, k: int) returns (q: real)
    requires Power(k) <= x < Power(k + 1) && MIN_EXPONENT + 52 <= k < MAX_EXPONENT + 52
    ensures Nearest(x, q)
  {
    MantissaPower(k);
    var m := ScaledFloor(x, k - 52);
    UnitsAreDoubles(m, k - 52);
    UnitsAreDoubles(m + 1, k - 52);
    q := Nearer(x, Scaled(m, k - 52), Scaled(m + 1, k - 52));
    forall d | IsDouble(d)
      ensures Distance(q, x) <= Distance(d, x)
    {
      NoneBetween(d, m, k - 52);
    }
  }

  /** A nearest double, where there is one. */
  ghost function NearestTo(x: real): (q: real)
    ensures (exists d :: Nearest(x, d)) ==> Nearest(x, q)
  {
    if exists d :: Nearest(x, d) then
      var d :| Nearest(x, d);
      d
    else 0.0
  }

  // ----- one third

  const THIRD_UNITS: int := 6_004_799_503_160_661

  /** The double nearest to one third, which is below it. */
  const THIRD: real := 6_004_799_503_160_661.0 / 18_014_398_509_481_984.0

  lemma ThirdUnit(n: int)
    ensures Scaled(n, -54) == n as real / 18_014_398_509_481_984.0
  {
    MantissaPower(-2);
  }

  /** Smaller units than 2^-54 do not reach a quarter. */
  lemma TooFine(m: int, e: int)
    requires m < MANTISSAS && e < -54
    ensures Scaled(m, e) < 0.25
  {
    ScaledMonotone(m, MANTISSAS - 1, e);
    LargerUnit(MANTISSAS - 1, e, -55);
    NextUnit(MANTISSAS - 1, -55);
    MantissaPower(-3);
  }

  lemma OneThird(q: real)
    requires Nearest(1.0 / 3.0, q)
    ensures q == THIRD
  {
    ThirdUnit(THIRD_UNITS);
    assert IsDouble(THIRD);
    var m, e :| -MANTISSAS < m < MANTISSAS && MIN_EXPONENT <= e <= MAX_EXPONENT && q == Scaled(m, e);
    if e < -54 {
      TooFine(m, e);
    } else {
      var n := m * WholePower(e + 54);
      SmallerUnits(m, -54, e + 54, n);
      ThirdUnit(n);
    }
  }
}
