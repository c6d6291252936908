/** RFC 9162 trees over leaf hashes: the tree head, audit paths and consistency proofs
    as recursive functions, and folding a path back into a root. */
module Merkle {
  import opened Bits
  import opened Hashing
  import opened MerkleShape

  /** Tree head of a non-empty list of leaf hashes. */
  function Mth(alg: Algorithm, ds: seq<Bytes>): (root: Bytes)
    requires |ds| > 0
    decreases |ds|
  {
    if |ds| == 1 then ds[0]
    else
      var k := Split(|ds|);
      NodeHash(alg, Mth(alg, ds[..k]), Mth(alg, ds[k..]))
  }

  function AuditPath(alg: Algorithm, ds: seq<Bytes>, i: nat): (path: seq<Bytes>)
    requires i < |ds|
    decreases |ds|
  {
    if |ds| == 1 then []
    else
      var k := Split(|ds|);
      if i < k then AuditPath(alg, ds[..k], i) + [Mth(alg, ds[k..])]
      else AuditPath(alg, ds[k..], i - k) + [Mth(alg, ds[..k])]
  }

  /** `_expected_audit_path_length`: the recursion of AuditPath on plain integers. */
  function ExpectedPathLength(n: nat, i: nat): nat
    requires i < n
    decreases n
  {
    if n == 1 then 0
    else
      var k := Split(n);
      if i < k then 1 + ExpectedPathLength(k, i) else 1 + ExpectedPathLength(n - k, i - k)
  }

  /** One level up: hash the node with its sibling in the order the side says. */
  function Combine(alg: Algorithm, node: Bytes, side: Side, sibling: Bytes): (d: Bytes)
    ensures |d| == DIGEST_SIZE
  {
    if side == OnLeft then NodeHash(alg, sibling, node) else NodeHash(alg, node, sibling)
  }

  /** The node reached from `node` after taking every sibling of the path. */
  function Climb(alg: Algorithm, node: Bytes, sides: seq<Side>, path: seq<Bytes>): (d: Bytes)
    requires |sides| == |path|
  {
    if sides == [] then node
    else
      var j := |sides| - 1;
      Combine(alg, Climb(alg, node, sides[..j], path[..j]), sides[j], path[j])
  }

  /** Like Climb, but only the siblings on the left enter: the head of the tree that
      ended at this leaf. */
  function ClimbOld(alg: Algorithm, node: Bytes, sides: seq<Side>, path: seq<Bytes>): (d: Bytes)
    requires |sides| == |path|
  {
    if sides == [] then node
    else
      var j := |sides| - 1;
      var below := ClimbOld(alg, node, sides[..j], path[..j]);
      if sides[j] == OnLeft then NodeHash(alg, path[j], below) else below
  }

  lemma {:induction false} MthSize(alg: Algorithm, ds: seq<Bytes>)
    requires |ds| > 0 && AllDigests(ds)
    ensures |Mth(alg, ds)| == DIGEST_SIZE
  {
  }

  lemma {:induction false} ExpectedLengthIsSides(n: nat, i: nat)
    requires i < n
    ensures ExpectedPathLength(n, i) == |Sides(i, n)|
    decreases n
  {
    if n > 1 {
      var k := Split(n);
      if i < k {
        ExpectedLengthIsSides(k, i);
      } else {
        ExpectedLengthIsSides(n - k, i - k);
      }
    }
  }

  /** Every honest audit path climbs to the tree head. */
  lemma {:induction false} HonestPathClimbs(alg: Algorithm, ds: seq<Bytes>, i: nat)
    requires i < |ds|
    ensures |AuditPath(alg, ds, i)| == |Sides(i, |ds|)|
    ensures Climb(alg, ds[i], Sides(i, |ds|), AuditPath(alg, ds, i)) == Mth(alg, ds)
  {
    HonestClimb(alg, ds, i, |ds|, Sides(i, |ds|), AuditPath(alg, ds, i), Mth(alg, ds));
  }

  lemma {:induction false} HonestClimb(alg: Algorithm, ds: seq<Bytes>, i: nat, n: nat, s: seq<Side>, p: seq<Bytes>,
                                       head: Bytes)
    requires i < |ds| == n && s == Sides(i, n) && p == AuditPath(alg, ds, i) && head == Mth(alg, ds)
    ensures |s| == |p| && Climb(alg, ds[i], s, p) == head
    decreases n
  {
    if n > 1 {
      var k := Split(n);
      var l, r := ds[..k], ds[k..];
      if i < k {
        HonestClimb(alg, l, i, k, Sides(i, k), AuditPath(alg, l, i), Mth(alg, l));
        ClimbLast(alg, ds[i], Sides(i, k), AuditPath(alg, l, i), OnRight, Mth(alg, r));
      } else {
        HonestClimb(alg, r, i - k, n - k, Sides(i - k, n - k), AuditPath(alg, r, i - k), Mth(alg, r));
        ClimbLast(alg, ds[i], Sides(i - k, n - k), AuditPath(alg, r, i - k), OnLeft, Mth(alg, l));
      }
    }
  }

  lemma ClimbLast(alg: Algorithm, node: Bytes, sides: seq<Side>, path: seq<Bytes>, side: Side, sibling: Bytes)
    requires |sides| == |path|
    ensures Climb(alg, node, sides + [side], path + [sibling]) ==
            Combine(alg, Climb(alg, node, sides, path), side, sibling)
    ensures ClimbOld(alg, node, sides + [side], path + [sibling]) ==
            (if side == OnLeft then NodeHash(alg, sibling, ClimbOld(alg, node, sides, path))
             else ClimbOld(alg, node, sides, path))
  {
  }

  lemma ClimbStep(alg: Algorithm, node: Bytes, sides: seq<Side>, path: seq<Bytes>, j: nat)
    requires j < |sides| && j < |path|
    ensures Climb(alg, node, sides[..j + 1], path[..j + 1]) ==
            Combine(alg, Climb(alg, node, sides[..j], path[..j]), sides[j], path[j])
    ensures ClimbOld(alg, node, sides[..j + 1], path[..j + 1]) ==
            (var below := ClimbOld(alg, node, sides[..j], path[..j]);
             if sides[j] == OnLeft then NodeHash(alg, path[j], below) else below)
  {
    assert sides[..j + 1] == sides[..j] + [sides[j]] && path[..j + 1] == path[..j] + [path[j]];
    ClimbLast(alg, node, sides[..j], path[..j], sides[j], path[j]);
  }

  /** Two climbs of one shape from leaves of one length meet only when they are the same. */
  lemma {:induction false} ClimbExact(alg: Algorithm, a: Bytes, p: seq<Bytes>, b: Bytes, q: seq<Bytes>,
                                      sides: seq<Side>)
    requires |sides| == |p| == |q|
    requires |a| == |b|
    ensures Climb(alg, a, sides, p) == Climb(alg, b, sides, q) <==> a == b && p == q
  {
    if sides != [] {
      var j := |sides| - 1;
      var x, y := Climb(alg, a, sides[..j], p[..j]), Climb(alg, b, sides[..j], q[..j]);
      ClimbExact(alg, a, p[..j], b, q[..j], sides[..j]);
      assert |x| == |y|;
      CombineExact(alg, x, p[j], y, q[j], sides[j]);
      assert p == p[..j] + [p[j]] && q == q[..j] + [q[j]];
    }
  }

  lemma CombineExact(alg: Algorithm, x: Bytes, s: Bytes, y: Bytes, t: Bytes, side: Side)
    requires |x| == |y|
    ensures Combine(alg, x, side, s) == Combine(alg, y, side, t) <==> x == y && s == t
  {
    if side == OnLeft {
      NodeInjective(alg, s, x, alg, t, y);
    } else {
      NodeInjective(alg, x, s, alg, y, t);
    }
  }
}
