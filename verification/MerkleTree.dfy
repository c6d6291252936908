/** The `MerkleTree` class, what its root binds, and the corpus tree. */
module MerkleTree {
  import opened Wrappers
  import opened Bits
  import opened Hashing
  import opened Merkle
  import opened Inclusion
  import opened Consistency

  datatype InclusionProof = InclusionProof(leafIndex: int, treeSize: int, leafHash: Bytes, auditPath: seq<Bytes>)

  datatype TreeError = IndexError | ValueError

  function RootOf(alg: Algorithm, ds: seq<Bytes>): (root: Bytes) {
    if ds == [] then EmptyTree(alg) else Mth(alg, ds)
  }

  class MerkleTree {
    const alg: Algorithm
    var leafHashes: seq<Bytes>

    constructor (alg: Algorithm)
      ensures this.alg == alg && leafHashes == []
    {
      this.alg := alg;
      leafHashes := [];
    }

    method AddLeaf(preimage: Bytes) returns (leafHash: Bytes)
      modifies this
      ensures leafHash == LeafHash(alg, preimage)
      ensures leafHashes == old(leafHashes) + [leafHash]
    {
      leafHash := LeafHash(alg, preimage);
      leafHashes := leafHashes + [leafHash];
    }

    method AddPrehashedLeaf(leafHash: Bytes)
      modifies this
      ensures leafHashes == old(leafHashes) + [leafHash]
    {
      leafHashes := leafHashes + [leafHash];
    }

    method Root() returns (root: Bytes)
      ensures root == RootOf(alg, leafHashes)
    {
      if leafHashes == [] {
        return EmptyTree(alg);
      }
      return Mth(alg, leafHashes);
    }

    method ProveInclusion(leafIndex: int) returns (r: Result<InclusionProof, TreeError>)
      ensures r == if 0 <= leafIndex < |leafHashes|
                   then Ok(InclusionProof(leafIndex, |leafHashes|, leafHashes[leafIndex],
                                          AuditPath(alg, leafHashes, leafIndex)))
                   else Err(IndexError)
    {
      var n := |leafHashes|;
      if leafIndex < 0 || leafIndex >= n {
        return Err(IndexError);
      }
      return Ok(InclusionProof(leafIndex, n, leafHashes[leafIndex], AuditPath(alg, leafHashes, leafIndex)));
    }

    /** Accepts a proof exactly when it names this tree's size and reconstructs its root;
        for a leaf hash of the stored length that is exactly the proof made above. */
    method VerifyInclusion(proof: InclusionProof) returns (ok: bool)
      ensures ok <==> |leafHashes| > 0 && proof.treeSize == |leafHashes| &&
                      RootFromProof(alg, proof.leafHash, proof.leafIndex, proof.treeSize, proof.auditPath) ==
                        Some(RootOf(alg, leafHashes))
      ensures 0 <= proof.leafIndex < |leafHashes| && |proof.leafHash| == |leafHashes[proof.leafIndex]| ==>
                (ok <==> proof == InclusionProof(proof.leafIndex, |leafHashes|, leafHashes[proof.leafIndex],
                                                 AuditPath(alg, leafHashes, proof.leafIndex)))
    {
      var n := |leafHashes|;
      if 0 <= proof.leafIndex < n {
        ExpectedLengthIsSides(n, proof.leafIndex);
        if |proof.leafHash| == |leafHashes[proof.leafIndex]| {
          InclusionExact(alg, leafHashes, proof.leafIndex, proof.leafHash, proof.auditPath);
        }
      }
      if proof.treeSize != n {
        return false;
      }
      if !(0 <= proof.leafIndex < n) {
        return false;
      }
      if |proof.auditPath| != ExpectedPathLength(n, proof.leafIndex) {
        return false;
      }
      var expectedRoot := Root();
      var computed := ComputeRootFromProof(alg, proof.leafHash, proof.leafIndex, proof.treeSize, proof.auditPath);
      return computed == Some(expectedRoot);
    }

    method ProveConsistency(firstSize: int) returns (r: Result<seq<Bytes>, TreeError>)
      ensures r == if 0 < firstSize <= |leafHashes| then Ok(ConsistencyProof(alg, leafHashes, firstSize))
                   else Err(ValueError)
    {
      var n := |leafHashes|;
      if !(0 < firstSize <= n) {
        return Err(ValueError);
      }
      if firstSize == n {
        return Ok([]);
      }
      return Ok(Subproof(alg, leafHashes, firstSize, true));
    }
  }

  // ----- what a root binds

  lemma LeafHashesSplit(alg: Algorithm, ps: seq<Bytes>, k: nat)
    requires k <= |ps|
    ensures LeafHashes(alg, ps)[..k] == LeafHashes(alg, ps[..k])
    ensures LeafHashes(alg, ps)[k..] == LeafHashes(alg, ps[k..])
  {
  }

  lemma HeadIsNode(alg: Algorithm, ps: seq<Bytes>, k: nat)
    requires |ps| > 1 && k == Split(|ps|)
    ensures Mth(alg, LeafHashes(alg, ps)) ==
            NodeHash(alg, Mth(alg, LeafHashes(alg, ps[..k])), Mth(alg, LeafHashes(alg, ps[k..])))
    ensures |Mth(alg, LeafHashes(alg, ps[..k]))| == DIGEST_SIZE
  {
    LeafHashesSplit(alg, ps, k);
    MthSize(alg, LeafHashes(alg, ps[..k]));
  }

  /** Trees filled from preimages have one head only for one list of preimages, even when
      the lists have different lengths: no leaf digest is a node digest. */
  lemma {:induction false} HeadBindsPreimages(a: Algorithm, ps: seq<Bytes>, b: Algorithm, qs: seq<Bytes>)
    requires |ps| > 0 && |qs| > 0
    requires Mth(a, LeafHashes(a, ps)) == Mth(b, LeafHashes(b, qs))
    ensures a == b && ps == qs
    decreases |ps|
  {
    var ds, es := LeafHashes(a, ps), LeafHashes(b, qs);
    var i, j := Split(|ps|), Split(|qs|);
    if |ps| == 1 && |qs| == 1 {
      LeafInjective(a, ps[0], b, qs[0]);
    } else if |ps| == 1 {
      DomainsSeparate(a, ps[0], b, Mth(b, es[..j]), Mth(b, es[j..]), a, [], []);
    } else if |qs| == 1 {
      DomainsSeparate(b, qs[0], a, Mth(a, ds[..i]), Mth(a, ds[i..]), a, [], []);
    } else {
      HeadIsNode(a, ps, i);
      HeadIsNode(b, qs, j);
      NodeInjective(a, Mth(a, LeafHashes(a, ps[..i])), Mth(a, LeafHashes(a, ps[i..])),
                    b, Mth(b, LeafHashes(b, qs[..j])), Mth(b, LeafHashes(b, qs[j..])));
      HeadBindsPreimages(a, ps[..i], b, qs[..j]);
      HeadBindsPreimages(a, ps[i..], b, qs[j..]);
      assert ps == ps[..i] + ps[i..] && qs == qs[..j] + qs[j..];
    }
  }

  lemma RootBindsPreimages(a: Algorithm, ps: seq<Bytes>, b: Algorithm, qs: seq<Bytes>)
    ensures RootOf(a, LeafHashes(a, ps)) == RootOf(b, LeafHashes(b, qs)) <==> a == b && ps == qs
  {
    if RootOf(a, LeafHashes(a, ps)) == RootOf(b, LeafHashes(b, qs)) {
      if ps == [] && qs == [] {
        HashInjective(a, [], b, []);
      } else if ps == [] {
        EmptyIsNoHead(a, b, qs);
      } else if qs == [] {
        EmptyIsNoHead(b, a, ps);
      } else {
        HeadBindsPreimages(a, ps, b, qs);
      }
    }
  }

  lemma EmptyIsNoHead(a: Algorithm, b: Algorithm, ps: seq<Bytes>)
    requires |ps| > 0
    ensures EmptyTree(a) != Mth(b, LeafHashes(b, ps))
  {
    var ds, k := LeafHashes(b, ps), Split(|ps|);
    if |ps| == 1 {
      DomainsSeparate(a, ps[0], b, [], [], b, [], []);
    } else {
      DomainsSeparate(a, ps[0], b, Mth(b, ds[..k]), Mth(b, ds[k..]), b, [], []);
    }
  }
}
