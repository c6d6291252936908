/** Inclusion proofs: the two-counter loop of RFC 9162 section 2.1.3.2 and the
    bit-counting loop of the Rekor verifier, both against the recursive paths. */
module Inclusion {
  import opened Wrappers
  import opened Bits
  import opened Hashing
  import opened MerkleShape
  import opened Merkle

  /** What a proof of this shape reconstructs, None when its shape is wrong. */
  function RootFromProof(alg: Algorithm, leaf: Bytes, index: int, size: int, path: seq<Bytes>): (root: Option<Bytes>)
  {
    if index < 0 || index >= size || |path| != |Sides(index, size)| then None
    else Some(Climb(alg, leaf, Sides(index, size), path))
  }

  /** One level up: the counter's last bit says on which side the sibling goes. */
  lemma ClimbNext(alg: Algorithm, leaf: Bytes, s: seq<Side>, path: seq<Bytes>, j: nat, rest: seq<Side>, fn: nat,
                  sn: nat, node: Bytes)
    requires j <= |s| && j < |path| && rest == s[j..] && node == Climb(alg, leaf, s[..j], path[..j])
    requires fn <= sn && sn > 0 && (fn % 2 == 1 || fn != sn) && Remaining(rest, fn, sn)
    ensures j < |s| && rest != [] && rest[1..] == s[j + 1..] && Remaining(rest[1..], fn / 2, sn / 2)
    ensures Climb(alg, leaf, s[..j + 1], path[..j + 1]) ==
            if fn % 2 == 1 then NodeHash(alg, path[j], node) else NodeHash(alg, node, path[j])
  {
    ClimbStep(alg, leaf, s, path, j);
  }

  lemma RemainingHalved(rest: seq<Side>, fn: nat, sn: nat)
    requires fn == sn > 0 && fn % 2 == 0 && Remaining(rest, fn, sn)
    ensures Remaining(rest, fn / 2, sn / 2) && fn / 2 == sn / 2 > 0
  {
  }

  method ComputeRootFromProof(alg: Algorithm, leaf: Bytes, index: int, size: int, path: seq<Bytes>)
    returns (root: Option<Bytes>)
    ensures root == RootFromProof(alg, leaf, index, size, path)
  {
    if size <= 0 || index < 0 || index >= size {
      return None;
    }
    var node := leaf;
    var fn: nat, sn: nat := index, size - 1;
    ghost var s := Sides(index, size);
    ghost var rest := s;
    CountersFollowSides(index, size, size - 1);
    var j := 0;
    while j < |path|
      invariant 0 <= j <= |path| && j <= |s| && fn <= sn
      invariant rest == s[j..] && Remaining(rest, fn, sn)
      invariant node == Climb(alg, leaf, s[..j], path[..j])
    {
      if sn == 0 {
        return None;
      }
      var step := path[j];
      ghost var below := node;
      if fn % 2 == 1 || fn == sn {
        node := NodeHash(alg, step, node);
        while fn % 2 == 0 && fn != 0
          invariant 0 < sn && fn <= sn && (fn % 2 == 1 || (fn == sn && fn != 0))
          invariant Remaining(rest, fn, sn)
        {
          RemainingHalved(rest, fn, sn);
          fn, sn := fn / 2, sn / 2;
        }
      } else {
        node := NodeHash(alg, node, step);
      }
      ClimbNext(alg, leaf, s, path, j, rest, fn, sn, below);
      rest, fn, sn := rest[1..], fn / 2, sn / 2;
      j := j + 1;
    }
    assert path[..j] == path;
    RemainingEmpty(fn, sn);
    if sn != 0 {
      return None;
    }
    assert s[..j] == s;
    return Some(node);
  }

  // ----- what an accepted proof means

  /** RFC 9162 section 2.1.3.2 against 2.1.3.1: for leaf hashes of one length, the only
      proof that reconstructs the tree head is the honest one. */
  lemma InclusionExact(alg: Algorithm, ds: seq<Bytes>, i: nat, leaf: Bytes, path: seq<Bytes>)
    requires i < |ds| && |leaf| == |ds[i]|
    ensures RootFromProof(alg, leaf, i, |ds|, path) == Some(Mth(alg, ds)) <==>
            leaf == ds[i] && path == AuditPath(alg, ds, i)
  {
    HonestPathClimbs(alg, ds, i);
    if |path| == |Sides(i, |ds|)| {
      ClimbExact(alg, leaf, path, ds[i], AuditPath(alg, ds, i), Sides(i, |ds|));
    }
  }

  /** The bytes hashed at the first step of a climb, after the prefix. */
  function FirstInput(node: Bytes, side: Side, sibling: Bytes): Bytes {
    if side == OnLeft then sibling + node else node + sibling
  }

  /** The same for a leaf of any length, which the reconstruction does not check: all
      siblings but the first are forced, and the first only up to where the leaf ends. */
  lemma {:induction false} InclusionExactAnyLength(alg: Algorithm, ds: seq<Bytes>, i: nat, leaf: Bytes,
                                                   path: seq<Bytes>)
    requires i < |ds|
    ensures RootFromProof(alg, leaf, i, |ds|, path) == Some(Mth(alg, ds)) <==>
            var honest, sides := AuditPath(alg, ds, i), Sides(i, |ds|);
            && |path| == |honest| == |sides|
            && (path == [] ==> leaf == ds[i])
            && (path != [] ==> path[1..] == honest[1..])
            && (path != [] ==> FirstInput(leaf, sides[0], path[0]) == FirstInput(ds[i], sides[0], honest[0]))
  {
    HonestPathClimbs(alg, ds, i);
    var honest, sides := AuditPath(alg, ds, i), Sides(i, |ds|);
    if |path| == |sides| && path != [] {
      var a, b := Combine(alg, leaf, sides[0], path[0]), Combine(alg, ds[i], sides[0], honest[0]);
      ClimbFirst(alg, leaf, sides, path);
      ClimbFirst(alg, ds[i], sides, honest);
      ClimbExact(alg, a, path[1..], b, honest[1..], sides[1..]);
      if sides[0] == OnLeft {
        NodeInjective(alg, path[0], leaf, alg, honest[0], ds[i]);
      } else {
        NodeInjective(alg, leaf, path[0], alg, ds[i], honest[0]);
      }
    }
  }

  lemma {:induction false} ClimbFirst(alg: Algorithm, node: Bytes, sides: seq<Side>, path: seq<Bytes>)
    requires |sides| == |path| > 0
    ensures Climb(alg, node, sides, path) == Climb(alg, Combine(alg, node, sides[0], path[0]), sides[1..], path[1..])
  {
    var j := |sides| - 1;
    if j > 0 {
      ClimbFirst(alg, node, sides[..j], path[..j]);
      assert sides[..j][1..] == sides[1..][..j - 1] && path[..j][1..] == path[1..][..j - 1];
    }
  }

  /** The length condition of InclusionExact is needed: in a tree of two leaves, the same
      bytes cut elsewhere reconstruct the same root. */
  lemma CutMatters(alg: Algorithm, a: Bytes, b: Bytes, c: Bytes)
    requires b != []
    ensures RootFromProof(alg, a, 0, 2, [b + c]) == Some(Mth(alg, [a + b, c]))
    ensures a != a + b
  {
    var ds := [a + b, c];
    NodeInjective(alg, a, b + c, alg, a + b, c);
    assert a + (b + c) == a + b + c && |a| != |a + b|;
    assert ds[..1] == [a + b] && ds[1..] == [c] && Split(2) == 1;
    assert Mth(alg, ds) == NodeHash(alg, Mth(alg, [a + b]), Mth(alg, [c])) == NodeHash(alg, a + b, c);
    assert Sides(0, 2) == Sides(0, 1) + [OnRight] == [OnRight];
    ClimbFirst(alg, a, [OnRight], [b + c]);
  }
}
