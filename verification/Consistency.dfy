/** Consistency proofs: SUBPROOF of RFC 9162 section 2.1.4.1 and the two-counter
    verifier of section 2.1.4.2. */
module Consistency {
  import opened Wrappers
  import opened Bits
  import opened Hashing
  import opened MerkleShape
  import opened Merkle

  /** `_subproof`: the whole nodes that cover the first m leaves and the rest; the node
      ending at m is left out when the verifier already holds it as the old root. */
  function Subproof(alg: Algorithm, ds: seq<Bytes>, m: nat, complete: bool): (proof: seq<Bytes>)
    requires 0 < m <= |ds|
    decreases |ds|
  {
    if m == |ds| then
      if complete then [] else [Mth(alg, ds)]
    else
      var k := Split(|ds|);
      if m <= k then Subproof(alg, ds[..k], m, complete) + [Mth(alg, ds[k..])]
      else Subproof(alg, ds[k..], m - k, false) + [Mth(alg, ds[..k])]
  }

  function ConsistencyProof(alg: Algorithm, ds: seq<Bytes>, m: nat): (proof: seq<Bytes>)
    requires 0 < m <= |ds|
  {
    if m == |ds| then [] else Subproof(alg, ds, m, true)
  }

  /** The sides met on the way from the node that ends at leaf m up to the root of n leaves. */
  function JoinSides(m: nat, n: nat): (s: seq<Side>)
    requires 0 < m <= n
    decreases n
  {
    if m == n then []
    else
      var k := Split(n);
      if m <= k then JoinSides(m, k) + [OnRight] else JoinSides(m - k, n - k) + [OnLeft]
  }

  /** The two roots a proof reconstructs from the old root, None when its length is wrong. */
  function RootsFromProof(alg: Algorithm, m: nat, n: nat, oldRoot: Bytes,
                          proof: seq<Bytes>): (roots: Option<(Bytes, Bytes)>)
    requires 0 < m < n
  {
    var terms := if IsPow2(m) then [oldRoot] + proof else proof;
    var sides := JoinSides(m, n);
    if |terms| != |sides| + 1 then None
    else Some((ClimbOld(alg, terms[0], sides, terms[1..]), Climb(alg, terms[0], sides, terms[1..])))
  }

  ghost predicate WellShaped(firstRoot: Bytes, secondRoot: Bytes, firstSize: int, secondSize: int, proof: seq<Bytes>) {
    && 0 <= firstSize && 0 <= secondSize
    && |firstRoot| == |secondRoot| == DIGEST_SIZE
    && |proof| <= BitLength(secondSize) + 1
    && AllDigests(proof)
  }

  /** Everything `verify_consistency` accepts. */
  ghost predicate Accepts(alg: Algorithm, firstRoot: Bytes, secondRoot: Bytes, firstSize: int, secondSize: int,
                          proof: seq<Bytes>) {
    && WellShaped(firstRoot, secondRoot, firstSize, secondSize, proof)
    && firstSize <= secondSize
    && (if firstSize == secondSize then proof == [] && firstRoot == secondRoot
        else if firstSize == 0 then proof == []
        else RootsFromProof(alg, firstSize, secondSize, firstRoot, proof) == Some((firstRoot, secondRoot)))
  }

  /** Sizes at the edges: an empty first tree needs an empty proof and nothing of its root,
      equal sizes equal roots, and no tree is consistent with a smaller one. */
  lemma EdgeSizes(alg: Algorithm, firstRoot: Bytes, secondRoot: Bytes, m: int, n: int, proof: seq<Bytes>)
    ensures m < 0 || n < m ==> !Accepts(alg, firstRoot, secondRoot, m, n, proof)
    ensures 0 == m < n ==>
              (Accepts(alg, firstRoot, secondRoot, m, n, proof) <==> proof == [] && |firstRoot| == |secondRoot| == 32)
    ensures 0 <= m == n ==>
              (Accepts(alg, firstRoot, secondRoot, m, n, proof) <==>
               proof == [] && firstRoot == secondRoot && |firstRoot| == 32)
  {
  }

  // ----- the counters of the verifier follow JoinSides

  /** Remaining, after halving away the trailing one bits of fn. */
  predicate RemainingAboveOnes(rest: seq<Side>, fn: nat, sn: nat) {
    if fn % 2 == 1 then RemainingAboveOnes(rest, fn / 2, sn / 2) else Remaining(rest, fn, sn)
  }

  lemma {:induction false} CompleteBlock(fn: nat)
    requires IsPow2(fn + 1)
    ensures RemainingAboveOnes([], fn, fn)
  {
    if fn > 0 {
      CompleteBlock(fn / 2);
    }
  }

  lemma {:induction false} GrowAboveOnesFromLeft(s: seq<Side>, fn: nat, k: nat, sn: nat)
    requires IsPow2(k) && fn < k <= sn < 2 * k && RemainingAboveOnes(s, fn, k - 1)
    ensures RemainingAboveOnes(s + [OnRight], fn, sn)
    decreases k
  {
    if k > 1 && fn % 2 == 1 {
      GrowAboveOnesFromLeft(s, fn / 2, k / 2, sn / 2);
    } else {
      GrowFromLeft(s, fn, k, sn);
    }
  }

  lemma {:induction false} GrowAboveOnesFromRight(s: seq<Side>, fn: nat, k: nat, sn: nat)
    requires IsPow2(k) && k <= fn < sn < 2 * k && RemainingAboveOnes(s, fn - k, sn - k)
    ensures RemainingAboveOnes(s + [OnLeft], fn, sn)
    decreases k
  {
    assert (fn - k) / 2 == fn / 2 - k / 2 && (sn - k) / 2 == sn / 2 - k / 2;
    if fn % 2 == 1 {
      GrowAboveOnesFromRight(s, fn / 2, k / 2, sn / 2);
    } else {
      GrowFromRight(s, fn, k, sn);
    }
  }

  lemma {:induction false} CountersFollowJoin(m: nat, n: nat, fn: nat, sn: nat)
    requires 0 < m <= n && fn + 1 == m && sn + 1 == n
    requires m < n || IsPow2(m)
    ensures RemainingAboveOnes(JoinSides(m, n), fn, sn)
    decreases n
  {
    if m == n {
      CompleteBlock(fn);
    } else {
      var k := Split(n);
      SplitBounds(n);
      if m <= k {
        CountersFollowJoin(m, k, fn, k - 1);
        GrowAboveOnesFromLeft(JoinSides(m, k), fn, k, sn);
      } else {
        CountersFollowJoin(m - k, n - k, fn - k, sn - k);
        GrowAboveOnesFromRight(JoinSides(m - k, n - k), fn, k, sn);
      }
    }
  }

  /** A size between two consecutive powers of two is not one. */
  lemma {:induction false} BetweenPowers(k: nat, m: nat)
    requires IsPow2(k) && k < m < 2 * k
    ensures !IsPow2(m)
    decreases k
  {
    if k > 1 && m % 2 == 0 {
      BetweenPowers(k / 2, m / 2);
    }
  }

  // ----- the verifier

  /** `_fold_consistency_terms`, for the sides the counters have left. */
  method FoldTerms(alg: Algorithm, terms: seq<Bytes>, fn0: nat, sn0: nat, ghost s: seq<Side>)
    returns (fr: Option<Bytes>, sr: Option<Bytes>, sn: int)
    requires |terms| > 0 && fn0 <= sn0 && Remaining(s, fn0, sn0)
    ensures |terms| > |s| + 1 ==> fr == None && sr == None && sn == -1
    ensures |terms| == |s| + 1 ==> fr == Some(ClimbOld(alg, terms[0], s, terms[1..]))
    ensures |terms| == |s| + 1 ==> sr == Some(Climb(alg, terms[0], s, terms[1..]))
    ensures sn == 0 <==> |terms| == |s| + 1
  {
    var path := terms[1..];
    var older, newer := terms[0], terms[0];
    var fn: nat, last: nat := fn0, sn0;
    var j := 0;
    while j < |path|
      invariant 0 <= j <= |path| && j <= |s| && fn <= last
      invariant Remaining(s[j..], fn, last)
      invariant older == ClimbOld(alg, terms[0], s[..j], path[..j])
      invariant newer == Climb(alg, terms[0], s[..j], path[..j])
    {
      if last == 0 {
        return None, None, -1;
      }
      var c := path[j];
      if fn % 2 == 1 || fn == last {
        older := NodeHash(alg, c, older);
        newer := NodeHash(alg, c, newer);
        while fn % 2 == 0 && fn != 0
          invariant 0 < last && fn <= last && (fn % 2 == 1 || (fn == last && fn != 0))
          invariant Remaining(s[j..], fn, last)
        {
          fn, last := fn / 2, last / 2;
        }
      } else {
        newer := NodeHash(alg, newer, c);
      }
      assert s[j..][1..] == s[j + 1..];
      fn, last := fn / 2, last / 2;
      ClimbStep(alg, terms[0], s, path, j);
      j := j + 1;
    }
    assert path[..j] == path;
    RemainingEmpty(fn, last);
    if last == 0 {
      assert s[..j] == s;
    } else {
      assert j < |s|;
    }
    return Some(older), Some(newer), last;
  }

  method VerifyConsistency(alg: Algorithm, firstRoot: Bytes, secondRoot: Bytes, firstSize: int, secondSize: int,
                           proof: seq<Bytes>)
    returns (ok: bool)
    ensures ok <==> Accepts(alg, firstRoot, secondRoot, firstSize, secondSize, proof)
  {
    if firstSize < 0 || secondSize < 0 {
      return false;
    }
    if |firstRoot| != DIGEST_SIZE || |secondRoot| != DIGEST_SIZE || |proof| > BitLength(secondSize) + 1 {
      return false;
    }
    if exists i :: 0 <= i < |proof| && |proof[i]| != DIGEST_SIZE {
      return false;
    }
    if firstSize > secondSize {
      return false;
    }
    if firstSize == secondSize {
      return proof == [] && firstRoot == secondRoot;
    }
    if firstSize == 0 {
      return proof == [];
    }
    var terms := proof;
    PowerOfTwoTest(firstSize);
    if And(firstSize, firstSize - 1) == 0 {
      terms := [firstRoot] + terms;
    }
    if terms == [] {
      return false;
    }
    var fn: nat, sn: nat := firstSize - 1, secondSize - 1;
    ghost var s := JoinSides(firstSize, secondSize);
    CountersFollowJoin(firstSize, secondSize, fn, sn);
    while fn % 2 == 1
      invariant fn <= sn && RemainingAboveOnes(s, fn, sn)
      decreases fn
    {
      fn, sn := fn / 2, sn / 2;
    }
    var fr, sr, rest := FoldTerms(alg, terms, fn, sn, s);
    return fr == Some(firstRoot) && sr == Some(secondRoot) && rest == 0;
  }
}
