/** The inclusion check of the Rekor verifier, which counts bits instead of halving
    two counters (RFC 6962 section 2.1.1). */
module Rekor {
  import opened Wrappers
  import opened Primitives
  import opened Bits
  import opened Hashing
  import opened MerkleShape
  import opened Merkle
  import opened Inclusion

  /** Counter levels on which index and last index still differ. */
  function Inner(index: nat, last: nat): nat {
    BitLength(Xor(index, last))
  }

  function Border(index: nat, last: nat): nat {
    BitCount(Shift(index, Inner(index, last)))
  }

  lemma {:induction false} XorSelf(a: nat)
    ensures Xor(a, a) == 0
  {
    if a > 0 {
      XorSelf(a / 2);
    }
  }

  lemma {:induction false} XorZero(a: nat, b: nat)
    ensures Xor(a, b) == 0 <==> a == b
    decreases a + b
  {
    if a == b {
      XorSelf(a);
    } else {
      XorZero(a / 2, b / 2);
    }
  }

  /** Halving both counters drops one inner level while they differ. */
  lemma InnerHalves(index: nat, last: nat)
    requires index < last
    ensures Inner(index, last) == 1 + Inner(index / 2, last / 2)
    ensures Border(index, last) == Border(index / 2, last / 2)
  {
    XorZero(index, last);
    assert Xor(index, last) / 2 == Xor(index / 2, last / 2);
  }

  lemma InnerEqual(index: nat)
    ensures Inner(index, index) == 0 && Border(index, index) == BitCount(index)
  {
    XorSelf(index);
  }

  /** Past the inner levels only the set bits of the index have a sibling, all on the left. */
  ghost predicate AllLeft(rest: seq<Side>) {
    forall k :: 0 <= k < |rest| ==> rest[k] == OnLeft
  }

  lemma {:induction false} BorderIsLeft(rest: seq<Side>, fn: nat)
    requires Remaining(rest, fn, fn)
    ensures AllLeft(rest) && |rest| == BitCount(fn)
    decreases fn
  {
    if fn > 0 {
      if fn % 2 == 0 {
        BorderIsLeft(rest, fn / 2);
      } else {
        BorderIsLeft(rest[1..], fn / 2);
        forall k | 0 <= k < |rest| ensures rest[k] == OnLeft {
          if k > 0 {
            assert rest[k] == rest[1..][k - 1];
          }
        }
      }
    }
  }

  /** `inner + border` is the length of the path. */
  lemma {:induction false} PathHasInnerPlusBorder(rest: seq<Side>, fn: nat, sn: nat)
    requires fn <= sn && Remaining(rest, fn, sn)
    ensures |rest| == Inner(fn, sn) + Border(fn, sn)
    decreases sn
  {
    if fn == sn {
      InnerEqual(fn);
      BorderIsLeft(rest, fn);
    } else {
      InnerHalves(fn, sn);
      PathHasInnerPlusBorder(rest[1..], fn / 2, sn / 2);
    }
  }

  /** The k-th sibling is on the left exactly when the bit count says so. */
  lemma {:induction false} SideAt(rest: seq<Side>, fn: nat, sn: nat, k: nat)
    requires fn <= sn && Remaining(rest, fn, sn) && k < |rest|
    ensures rest[k] == OnLeft <==> k >= Inner(fn, sn) || Shift(fn, k) % 2 == 1
    decreases sn
  {
    if fn == sn {
      InnerEqual(fn);
      BorderIsLeft(rest, fn);
    } else {
      InnerHalves(fn, sn);
      if k > 0 {
        SideAt(rest[1..], fn / 2, sn / 2, k - 1);
      }
    }
  }

  lemma RekorLengthIsExpectedLength(index: nat, size: nat)
    requires index < size
    ensures Inner(index, size - 1) + Border(index, size - 1) == ExpectedPathLength(size, index)
  {
    ExpectedLengthIsSides(size, index);
    CountersFollowSides(index, size, size - 1);
    PathHasInnerPlusBorder(Sides(index, size), index, size - 1);
  }

  lemma RekorShape(index: nat, size: nat) returns (s: seq<Side>)
    requires index < size
    ensures s == Sides(index, size) && |s| == Inner(index, size - 1) + Border(index, size - 1)
    ensures forall k :: 0 <= k < |s| ==>
              (s[k] == OnLeft <==> k >= Inner(index, size - 1) || Shift(index, k) % 2 == 1)
  {
    s := Sides(index, size);
    CountersFollowSides(index, size, size - 1);
    PathHasInnerPlusBorder(s, index, size - 1);
    forall k | 0 <= k < |s|
      ensures s[k] == OnLeft <==> k >= Inner(index, size - 1) || Shift(index, k) % 2 == 1
    {
      SideAt(s, index, size - 1, k);
    }
  }

  datatype RekorProof = RekorProof(treeSize: int, logIndex: int, hashes: seq<Bytes>, rootHash: Bytes)

  predicate SafeInteger(n: int) {
    0 <= n <= MAX_SAFE_INTEGER
  }

  /** What `_inclusion` accepts, in terms of the RFC 9162 verifier. */
  ghost predicate Includes(body: Bytes, proof: RekorProof) {
    && SafeInteger(proof.treeSize) && SafeInteger(proof.logIndex)
    && AllDigests(proof.hashes) && |proof.rootHash| == DIGEST_SIZE
    && RootFromProof(Sha256, LeafHash(Sha256, body), proof.logIndex, proof.treeSize, proof.hashes) ==
         Some(proof.rootHash)
  }

  /** Checks one proof; None stands for the raised ValueError. */
  method CheckInclusion(body: Bytes, proof: RekorProof) returns (r: Option<(int, Bytes)>)
    ensures r == if Includes(body, proof) then Some((proof.treeSize, proof.rootHash)) else None
  {
    var size, index := proof.treeSize, proof.logIndex;
    if !SafeInteger(size) || !SafeInteger(index) {
      return None;
    }
    if size == 0 || index >= size {
      return None;
    }
    var siblings := proof.hashes;
    var inner := BitLength(Xor(index, size - 1));
    var border := BitCount(Shift(index, inner));
    ghost var s := RekorShape(index, size);
    if |siblings| != inner + border {
      return None;
    }
    var leaf := LeafHash(Sha256, body);
    var calculated := leaf;
    var level := 0;
    while level < |siblings|
      invariant 0 <= level <= |siblings| == |s|
      invariant forall k :: 0 <= k < level ==> |siblings[k]| == DIGEST_SIZE
      invariant calculated == Climb(Sha256, leaf, s[..level], siblings[..level])
    {
      var node := siblings[level];
      if |node| != DIGEST_SIZE {
        return None;
      }
      ClimbStep(Sha256, leaf, s, siblings, level);
      if level >= inner || Shift(index, level) % 2 == 1 {
        calculated := NodeHash(Sha256, node, calculated);
      } else {
        calculated := NodeHash(Sha256, calculated, node);
      }
      level := level + 1;
    }
    assert s[..level] == s && siblings[..level] == siblings;
    var root := proof.rootHash;
    if |root| != DIGEST_SIZE || calculated != root {
      return None;
    }
    return Some((size, root));
  }
}
