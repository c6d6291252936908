/** The integer operations the verifiers use (shifts, masks, bit lengths) on unbounded
    naturals, and the split point of an RFC 9162 tree. */
module Bits {
  function Pow2(e: nat): (p: nat)
    ensures p >= 1
  {
    if e == 0 then 1 else 2 * Pow2(e - 1)
  }

  /** `n >> e` */
  function Shift(n: nat, e: nat): nat {
    if e == 0 then n else Shift(n / 2, e - 1)
  }

  /** `n.bit_length()` */
  function BitLength(n: nat): nat {
    if n == 0 then 0 else 1 + BitLength(n / 2)
  }

  /** `n.bit_count()` */
  function BitCount(n: nat): nat {
    if n == 0 then 0 else n % 2 + BitCount(n / 2)
  }

  /** `a ^ b` */
  function Xor(a: nat, b: nat): nat
    decreases a + b
  {
    if a == 0 && b == 0 then 0 else (a + b) % 2 + 2 * Xor(a / 2, b / 2)
  }

  /** `a & b` */
  function And(a: nat, b: nat): nat
    decreases a + b
  {
    if a == 0 && b == 0 then 0 else (if a % 2 == 1 && b % 2 == 1 then 1 else 0) + 2 * And(a / 2, b / 2)
  }

  predicate IsPow2(n: nat) {
    n == 1 || (n > 0 && n % 2 == 0 && IsPow2(n / 2))
  }

  /** The power of two at which a tree of n leaves splits; 0 when it does not. */
  function Split(n: nat): (k: nat)
    ensures n >= 2 ==> 0 < k < n <= 2 * k
  {
    if n <= 1 then 0 else if n == 2 then 1 else 2 * Split((n + 1) / 2)
  }

  lemma {:induction false} SplitBounds(n: nat)
    requires n >= 2
    ensures IsPow2(Split(n)) && Split(n) < n <= 2 * Split(n)
  {
    if n > 2 {
      SplitBounds((n + 1) / 2);
    }
  }

  lemma {:induction false} SplitUnique(n: nat, k: nat)
    requires n >= 2 && IsPow2(k) && k < n <= 2 * k
    ensures k == Split(n)
  {
    if n > 2 {
      SplitUnique((n + 1) / 2, k / 2);
    }
  }

  method SplitPoint(n: nat) returns (r: nat)
    ensures r == Split(n)
    ensures n >= 2 ==> IsPow2(r) && r < n <= 2 * r
  {
    var k := 1;
    while k < n
      invariant IsPow2(k) && (k == 1 || k / 2 < n)
      decreases n - k
    {
      k := k * 2;
    }
    r := k / 2;
    if n >= 2 {
      SplitUnique(n, r);
    }
  }

  /** `1 << ((n - 1).bit_length() - 1)` is the split point. */
  lemma SplitByBitLength(n: nat)
    requires n >= 2
    ensures BitLength(n - 1) >= 1 && Pow2(BitLength(n - 1) - 1) == Split(n)
  {
  }

  lemma {:induction false} AndSelfZero(n: nat)
    requires n > 0
    ensures And(n, n) > 0
  {
    if n % 2 == 0 {
      AndSelfZero(n / 2);
    }
  }

  /** `n & (n - 1) == 0` tests for a power of two. */
  lemma {:induction false} PowerOfTwoTest(n: nat)
    requires n > 0
    ensures And(n, n - 1) == 0 <==> IsPow2(n)
  {
    if n % 2 == 1 {
      if n > 1 {
        assert (n - 1) / 2 == n / 2;
        AndSelfZero(n / 2);
      }
    } else {
      assert (n - 1) / 2 == n / 2 - 1;
      PowerOfTwoTest(n / 2);
    }
  }

  lemma {:induction false} BitLengthMonotone(a: nat, b: nat)
    requires a <= b
    ensures BitLength(a) <= BitLength(b)
  {
    if a > 0 {
      BitLengthMonotone(a / 2, b / 2);
    }
  }
}
