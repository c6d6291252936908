/** The shape of root paths: which side each sibling is on, from the leaf upwards.
    The recursive functions of `_merkle.py` read it from the root down; the verifier
    loops read it from the leaf up, two counters at a time. */
module MerkleShape {
  import opened Bits

  datatype Side = OnLeft | OnRight

  /** Sides of the siblings on the path of leaf i in a tree of n leaves, leaf first. */
  function Sides(i: nat, n: nat): (s: seq<Side>)
    requires i < n
    decreases n
  {
    if n == 1 then []
    else
      var k := Split(n);
      if i < k then Sides(i, k) + [OnRight] else Sides(i - k, n - k) + [OnLeft]
  }

  /** The sides left to climb from counters fn and sn, one level at a time. */
  predicate Remaining(rest: seq<Side>, fn: nat, sn: nat)
    decreases sn
  {
    if sn == 0 then rest == []
    else if fn % 2 == 0 && fn == sn then Remaining(rest, fn / 2, sn / 2)
    else
      && rest != []
      && rest[0] == (if fn % 2 == 1 then OnLeft else OnRight)
      && Remaining(rest[1..], fn / 2, sn / 2)
  }

  /** A path inside the complete left subtree of k leaves gains a last sibling on the right. */
  lemma {:induction false} GrowFromLeft(s: seq<Side>, i: nat, k: nat, sn: nat)
    requires IsPow2(k) && i < k <= sn < 2 * k && Remaining(s, i, k - 1)
    ensures Remaining(s + [OnRight], i, sn)
    decreases k
  {
    if k > 1 {
      assert (s + [OnRight])[1..] == s[1..] + [OnRight];
      GrowFromLeft(s[1..], i / 2, k / 2, sn / 2);
    }
  }

  /** A path inside the right subtree, behind k leaves, gains a last sibling on the left. */
  lemma {:induction false} GrowFromRight(s: seq<Side>, i: nat, k: nat, sn: nat)
    requires IsPow2(k) && k <= i <= sn < 2 * k && Remaining(s, i - k, sn - k)
    ensures Remaining(s + [OnLeft], i, sn)
    decreases k
  {
    if k > 1 {
      assert (i - k) / 2 == i / 2 - k / 2 && (sn - k) / 2 == sn / 2 - k / 2;
      if i % 2 == 0 && i == sn {
        GrowFromRight(s, i / 2, k / 2, sn / 2);
      } else {
        assert (s + [OnLeft])[1..] == s[1..] + [OnLeft];
        GrowFromRight(s[1..], i / 2, k / 2, sn / 2);
      }
    }
  }

  /** The two counters walk exactly the path of the recursive tree. */
  lemma {:induction false} CountersFollowSides(i: nat, n: nat, sn: nat)
    requires i < n == sn + 1
    ensures Remaining(Sides(i, n), i, sn)
    decreases n
  {
    if n > 1 {
      var k := Split(n);
      SplitBounds(n);
      if i < k {
        CountersFollowSides(i, k, k - 1);
        GrowFromLeft(Sides(i, k), i, k, sn);
      } else {
        CountersFollowSides(i - k, n - k, sn - k);
        GrowFromRight(Sides(i - k, n - k), i, k, sn);
      }
    }
  }

  lemma {:induction false} RemainingEmpty(fn: nat, sn: nat)
    requires fn <= sn
    ensures Remaining([], fn, sn) <==> sn == 0
    decreases sn
  {
    if sn > 0 && fn == sn && fn % 2 == 0 {
      RemainingEmpty(fn / 2, sn / 2);
    }
  }
}
