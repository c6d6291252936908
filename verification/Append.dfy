/** `verify_consistency_append`: a consistency proof together with the exact leaves that
    were appended, checked without the old log. */
module Append {
  import opened Wrappers
  import opened Bits
  import opened Hashing
  import opened MerkleShape
  import opened Merkle
  import opened Consistency
  import opened ConsistencyExact
  import opened Ranges

  const MAX_MERKLE_LEAVES: int := 1_000_000

  /** One element of the appended iterable; None is anything that is not a byte string. */
  type Preimage = Option<Bytes>

  ghost predicate AllBytes(pres: seq<Preimage>) {
    forall i :: 0 <= i < |pres| ==> pres[i].Some?
  }

  function Values(pres: seq<Preimage>): (vs: seq<Bytes>)
    requires AllBytes(pres)
    ensures |vs| == |pres| && forall i :: 0 <= i < |pres| ==> vs[i] == pres[i].value
  {
    seq(|pres|, i requires 0 <= i < |pres| => pres[i].value)
  }

  /** Every proof node behind the old size is the head of the appended leaves it covers. */
  ghost predicate CoversAppended(alg: Algorithm, m: nat, proof: seq<Bytes>, rs: seq<Interval>, leaves: seq<Bytes>) {
    && |rs| == |proof|
    && forall j :: 0 <= j < |proof| && m <= rs[j].0 ==>
         rs[j].0 < rs[j].1 <= m + |leaves| && Mth(alg, leaves[rs[j].0 - m..rs[j].1 - m]) == proof[j]
  }

  /** Everything `verify_consistency_append` accepts. */
  ghost predicate AcceptsAppend(alg: Algorithm, firstRoot: Bytes, secondRoot: Bytes, m: int, n: int, proof: seq<Bytes>,
                                pres: seq<Preimage>) {
    && 0 < m <= n <= MAX_MERKLE_LEAVES
    && Accepts(alg, firstRoot, secondRoot, m, n, proof)
    && |pres| == n - m && AllBytes(pres)
    && CoversAppended(alg, m, proof, NodeRanges(0, m, n, true), LeafHashes(alg, Values(pres)))
  }

  /** An accepted proof has one node per interval, and no interval reaches past the new size. */
  lemma AcceptedRanges(alg: Algorithm, firstRoot: Bytes, secondRoot: Bytes, m: nat, n: nat, proof: seq<Bytes>,
                       rs: seq<Interval>)
    requires 0 < m <= n && rs == NodeRanges(0, m, n, true) && Accepts(alg, firstRoot, secondRoot, m, n, proof)
    ensures |rs| == |proof|
    ensures forall j :: 0 <= j < |rs| ==> rs[j].0 < rs[j].1 <= n && OneSide(rs[j], m)
  {
    if m < n {
      CompleteRanges(0, m, n);
      RangeSides(0, m, n, JoinSides(m, n), NodeRanges(0, m, n, false));
    }
  }

  method VerifyConsistencyAppend(alg: Algorithm, firstRoot: Bytes, secondRoot: Bytes, firstSize: int, secondSize: int,
                                 proof: seq<Bytes>, appended: seq<Preimage>)
    returns (ok: bool)
    ensures ok <==> AcceptsAppend(alg, firstRoot, secondRoot, firstSize, secondSize, proof, appended)
  {
    if !(0 < firstSize <= secondSize <= MAX_MERKLE_LEAVES) {
      return false;
    }
    if |firstRoot| != DIGEST_SIZE || |secondRoot| != DIGEST_SIZE || |proof| > BitLength(secondSize) + 1
       || exists i :: 0 <= i < |proof| && |proof[i]| != DIGEST_SIZE {
      return false;
    }
    var consistent := VerifyConsistency(alg, firstRoot, secondRoot, firstSize, secondSize, proof);
    if !consistent {
      return false;
    }
    var ranges := ConsistencyRanges(firstSize, secondSize);
    AcceptedRanges(alg, firstRoot, secondRoot, firstSize, secondSize, proof, ranges);
    if |ranges| != |proof| {
      return false;
    }
    var leaves := HashAppended(alg, appended, secondSize - firstSize);
    if leaves.None? {
      return false;
    }
    ok := CheckAppended(alg, firstSize, proof, ranges, leaves.value);
    AcceptsParts(alg, firstRoot, secondRoot, firstSize, secondSize, proof, appended, ranges, leaves.value);
  }

  lemma AcceptsParts(alg: Algorithm, firstRoot: Bytes, secondRoot: Bytes, m: nat, n: nat, proof: seq<Bytes>,
                     pres: seq<Preimage>,
                     rs: seq<Interval>, leaves: seq<Bytes>)
    requires 0 < m <= n <= MAX_MERKLE_LEAVES && Accepts(alg, firstRoot, secondRoot, m, n, proof)
    requires |pres| == n - m && AllBytes(pres) && leaves == LeafHashes(alg, Values(pres))
    requires rs == NodeRanges(0, m, n, true)
    ensures AcceptsAppend(alg, firstRoot, secondRoot, m, n, proof, pres) <==> CoversAppended(alg, m, proof, rs, leaves)
  {
  }

  /** The loop over the appended preimages: None when their number or kind is wrong. */
  method HashAppended(alg: Algorithm, appended: seq<Preimage>, count: nat) returns (r: Option<seq<Bytes>>)
    ensures r.Some? <==> |appended| == count && AllBytes(appended)
    ensures r.Some? ==> r.value == LeafHashes(alg, Values(appended))
  {
    var leaves: seq<Bytes> := [];
    for i := 0 to |appended|
      invariant |leaves| == i <= count && AllBytes(appended[..i])
      invariant leaves == LeafHashes(alg, Values(appended[..i]))
    {
      if |leaves| == count || appended[i].None? {
        return None;
      }
      leaves := leaves + [LeafHash(alg, appended[i].value)];
    }
    assert appended[..|appended|] == appended;
    return if |leaves| == count then Some(leaves) else None;
  }

  lemma CoversNext(alg: Algorithm, m: nat, proof: seq<Bytes>, rs: seq<Interval>, leaves: seq<Bytes>, j: nat)
    requires |rs| == |proof| && j < |proof| && rs[j].0 < rs[j].1 <= m + |leaves|
    requires CoversAppended(alg, m, proof[..j], rs[..j], leaves)
    ensures m <= rs[j].0 && Mth(alg, leaves[rs[j].0 - m..rs[j].1 - m]) != proof[j] ==>
              !CoversAppended(alg, m, proof, rs, leaves)
    ensures (m <= rs[j].0 ==> Mth(alg, leaves[rs[j].0 - m..rs[j].1 - m]) == proof[j]) ==>
              CoversAppended(alg, m, proof[..j + 1], rs[..j + 1], leaves)
  {
  }

  /** The loop over intervals and proof nodes. */
  method CheckAppended(alg: Algorithm, m: nat, proof: seq<Bytes>, ranges: seq<Interval>,
                       leaves: seq<Bytes>) returns (ok: bool)
    requires |ranges| == |proof|
    requires forall j :: 0 <= j < |ranges| ==> ranges[j].0 < ranges[j].1 <= m + |leaves|
    ensures ok <==> CoversAppended(alg, m, proof, ranges, leaves)
  {
    for j := 0 to |proof|
      invariant CoversAppended(alg, m, proof[..j], ranges[..j], leaves)
    {
      var start, end := ranges[j].0, ranges[j].1;
      CoversNext(alg, m, proof, ranges, leaves, j);
      if start >= m {
        if Mth(alg, leaves[start - m..end - m]) != proof[j] {
          return false;
        }
      }
    }
    assert proof[..|proof|] == proof && ranges[..|proof|] == ranges;
    return true;
  }

  // ----- the appended sequence is bound

  /** Old head and right-hand nodes together force every node of the proof. */
  lemma {:induction false} OldHeadForces(alg: Algorithm, s: seq<Side>, a: Bytes, p: seq<Bytes>, b: Bytes, q: seq<Bytes>)
    requires |s| == |p| == |q| && |a| == |b|
    requires forall j :: 0 <= j < |s| && s[j] == OnRight ==> p[j] == q[j]
    requires forall j :: 0 <= j < |s| ==> |p[j]| == |q[j]|
    requires ClimbOld(alg, a, s, p) == ClimbOld(alg, b, s, q)
    ensures a == b && p == q
  {
    if s != [] {
      var j := |s| - 1;
      var x, y := ClimbOld(alg, a, s[..j], p[..j]), ClimbOld(alg, b, s[..j], q[..j]);
      if s[j] == OnLeft {
        NodeInjective(alg, p[j], x, alg, q[j], y);
      }
      OldHeadForces(alg, s[..j], a, p[..j], b, q[..j]);
      assert p == p[..j] + [p[j]] && q == q[..j] + [q[j]];
    }
  }

  /** Checking the covered nodes is comparing them with the nodes of the grown tree. */
  lemma CoveredNodes(alg: Algorithm, ds: seq<Bytes>, leaves: seq<Bytes>, rs: seq<Interval>, honest: seq<Bytes>,
                     proof: seq<Bytes>)
    requires HeadsOf(alg, ds + leaves, rs, honest) && |proof| == |rs|
    ensures CoversAppended(alg, |ds|, proof, rs, leaves) <==>
            forall j :: 0 <= j < |rs| && |ds| <= rs[j].0 ==> proof[j] == honest[j]
  {
    forall j | 0 <= j < |rs| && |ds| <= rs[j].0
      ensures Mth(alg, leaves[rs[j].0 - |ds|..rs[j].1 - |ds|]) == honest[j]
    {
      SameHead(alg, ds, leaves, rs[j].0, rs[j].1);
    }
  }

  lemma SameHead(alg: Algorithm, ds: seq<Bytes>, leaves: seq<Bytes>, lo: nat, hi: nat)
    requires |ds| <= lo < hi <= |ds| + |leaves|
    ensures Mth(alg, (ds + leaves)[lo..hi]) == Mth(alg, leaves[lo - |ds|..hi - |ds|])
  {
    assert (ds + leaves)[lo..hi] == leaves[lo - |ds|..hi - |ds|];
  }

  /** Acceptance pins down the whole advance: for the old log with the old root, the new
      root is the head of that log followed by the appended leaves, the proof is the honest
      one, and every such honest advance is accepted. */
  lemma AppendIsExact(alg: Algorithm, ds: seq<Bytes>, secondRoot: Bytes, n: int, proof: seq<Bytes>, pres: seq<Preimage>)
    requires |ds| > 0 && AllDigests(ds)
    ensures AcceptsAppend(alg, Mth(alg, ds), secondRoot, |ds|, n, proof, pres) <==>
            && AllBytes(pres) && n == |ds| + |pres| <= 1_000_000
            && secondRoot == Mth(alg, ds + LeafHashes(alg, Values(pres)))
            && proof == ConsistencyProof(alg, ds + LeafHashes(alg, Values(pres)), |ds|)
  {
    if AllBytes(pres) && n == |ds| + |pres| <= MAX_MERKLE_LEAVES {
      var leaves := LeafHashes(alg, Values(pres));
      assert (ds + leaves)[..|ds|] == ds;
      if pres == [] {
        assert ds + leaves == ds;
      } else {
        AppendedNodes(alg, ds, leaves, ds + leaves, |ds|, n, secondRoot, proof, NodeRanges(0, |ds|, n, true));
      }
    }
  }

  lemma AppendedNodes(alg: Algorithm, ds: seq<Bytes>, leaves: seq<Bytes>, es: seq<Bytes>, m: nat, n: nat,
                      secondRoot: Bytes, proof: seq<Bytes>, rs: seq<Interval>)
    requires 0 < m == |ds| < n == m + |leaves| && es == ds + leaves && es[..m] == ds && AllDigests(es)
    requires rs == NodeRanges(0, m, n, true)
    ensures Accepts(alg, Mth(alg, ds), secondRoot, m, n, proof) && CoversAppended(alg, m, proof, rs, leaves) <==>
            secondRoot == Mth(alg, es) && proof == ConsistencyProof(alg, es, m)
  {
    RangesRefineSubproof(alg, es, m, rs);
    if |proof| == |rs| {
      CoveredNodes(alg, ds, leaves, rs, ConsistencyProof(alg, es, m), proof);
    }
    if secondRoot == Mth(alg, es) {
      ConsistencyIsExact(alg, es, m, Mth(alg, ds), proof);
    } else if Accepts(alg, Mth(alg, ds), secondRoot, m, n, proof) && CoversAppended(alg, m, proof, rs, leaves) {
      NewRootForced(alg, es, m, n, secondRoot, proof, rs);
    }
  }

  /** The second root is the head reached from the honest nodes. */
  lemma NewRootForced(alg: Algorithm, es: seq<Bytes>, m: nat, n: nat, secondRoot: Bytes, proof: seq<Bytes>,
                      rs: seq<Interval>)
    requires 0 < m < n == |es| && AllDigests(es) && rs == NodeRanges(0, m, n, true)
    requires Accepts(alg, Mth(alg, es[..m]), secondRoot, m, n, proof)
    requires |proof| == |rs| == |ConsistencyProof(alg, es, m)|
    requires forall j :: 0 <= j < |rs| && m <= rs[j].0 ==> proof[j] == ConsistencyProof(alg, es, m)[j]
    ensures secondRoot == Mth(alg, es)
  {
    var s, t := HonestTerms(alg, es, m);
    var all := NodeRanges(0, m, n, false);
    CompleteRanges(0, m, n);
    RangeSides(0, m, n, s, all);
    TermsForced(alg, IsPow2(m), m, s, all, rs, t, ConsistencyProof(alg, es, m), Mth(alg, es[..m]), proof);
  }

  lemma TermsForced(alg: Algorithm, whole: bool, m: nat, s: seq<Side>, all: seq<Interval>, rs: seq<Interval>,
                    t: seq<Bytes>,
                    honest: seq<Bytes>, oldHead: Bytes, proof: seq<Bytes>)
    requires |all| == |t| == |s| + 1 && forall j :: 0 <= j < |s| ==> (s[j] == OnRight <==> m <= all[j + 1].0)
    requires rs == (if whole then all[1..] else all) && honest == (if whole then t[1..] else t)
    requires (whole ==> t[0] == oldHead)
    requires AllDigests(t) && AllDigests(proof) && |oldHead| == DIGEST_SIZE && |proof| == |rs|
    requires forall j :: 0 <= j < |rs| && m <= rs[j].0 ==> proof[j] == honest[j]
    requires var terms := if whole then [oldHead] + proof else proof;
             ClimbOld(alg, terms[0], s, terms[1..]) == oldHead == ClimbOld(alg, t[0], s, t[1..])
    ensures (if whole then [oldHead] + proof else proof) == t
  {
    var terms := if whole then [oldHead] + proof else proof;
    forall j | 0 <= j < |s| && s[j] == OnRight
      ensures terms[1..][j] == t[1..][j]
    {
      var i := if whole then j else j + 1;
      assert rs[i] == all[j + 1] && proof[i] == terms[j + 1] && honest[i] == t[j + 1];
    }
    OldHeadForces(alg, s, terms[0], terms[1..], t[0], t[1..]);
    assert terms == [terms[0]] + terms[1..] && t == [t[0]] + t[1..];
  }

  // ----- no old log needed

  lemma SameProof(alg: Algorithm, firstRoot: Bytes, secondRoot: Bytes, m: nat, n: nat, p: seq<Bytes>, q: seq<Bytes>)
    requires 0 < m < n
    requires Accepts(alg, firstRoot, secondRoot, m, n, p) && Accepts(alg, firstRoot, secondRoot, m, n, q)
    ensures p == q
  {
    var s := JoinSides(m, n);
    var a, b := if IsPow2(m) then [firstRoot] + p else p, if IsPow2(m) then [firstRoot] + q else q;
    ClimbExact(alg, a[0], a[1..], b[0], b[1..], s);
    assert a == [a[0]] + a[1..] && b == [b[0]] + b[1..];
    if IsPow2(m) {
      assert p == a[1..] && q == b[1..];
    }
  }

  lemma SameLeaf(alg: Algorithm, m: nat, n: nat, proof: seq<Bytes>, rs: seq<Interval>, p: seq<Bytes>, q: seq<Bytes>,
                 x: nat)
    requires |p| == |q| == n - m && AllDigests(p) && AllDigests(q) && x < n - m
    requires CoversAppended(alg, m, proof, rs, p) && CoversAppended(alg, m, proof, rs, q)
    requires Covered(rs, m + x) && forall j :: 0 <= j < |rs| ==> OneSide(rs[j], m)
    ensures p[x] == q[x]
  {
    var j :| 0 <= j < |rs| && rs[j].0 <= m + x < rs[j].1;
    assert OneSide(rs[j], m);
    var lo: nat, hi: nat := rs[j].0 - m, rs[j].1 - m;
    SameCovered(alg, m, proof, rs, p, q, j, lo, hi);
    SameSlice(alg, p, q, lo, hi, x);
  }

  lemma SameCovered(alg: Algorithm, m: nat, proof: seq<Bytes>, rs: seq<Interval>, p: seq<Bytes>, q: seq<Bytes>, j: nat,
                    lo: nat, hi: nat)
    requires CoversAppended(alg, m, proof, rs, p) && CoversAppended(alg, m, proof, rs, q)
    requires j < |rs| && lo < hi && rs[j] == (m + lo, m + hi)
    ensures hi <= |p| && hi <= |q| && Mth(alg, p[lo..hi]) == Mth(alg, q[lo..hi])
  {
  }

  lemma SameSlice(alg: Algorithm, p: seq<Bytes>, q: seq<Bytes>, lo: nat, hi: nat, x: nat)
    requires |p| == |q| && lo <= x < hi <= |p| && AllDigests(p) && AllDigests(q)
    requires Mth(alg, p[lo..hi]) == Mth(alg, q[lo..hi])
    ensures p[x] == q[x]
  {
    MthInjective(alg, p[lo..hi], q[lo..hi]);
    assert p[x] == p[lo..hi][x - lo] && q[x] == q[lo..hi][x - lo];
  }

  /** For given roots and sizes at most one proof and one appended sequence pass, whatever
      the old log was. */
  lemma AppendedIsUnique(alg: Algorithm, firstRoot: Bytes, secondRoot: Bytes, m: int, n: int,
                         p: seq<Bytes>, pres: seq<Preimage>, q: seq<Bytes>, others: seq<Preimage>)
    requires AcceptsAppend(alg, firstRoot, secondRoot, m, n, p, pres)
    requires AcceptsAppend(alg, firstRoot, secondRoot, m, n, q, others)
    ensures p == q && pres == others
  {
    if m < n {
      var rs := NodeRanges(0, m, n, true);
      SameProof(alg, firstRoot, secondRoot, m, n, p, q);
      WalkCovers(m, n, rs);
      forall x | 0 <= x < n - m
        ensures pres[x] == others[x]
      {
        SameLeaf(alg, m, n, p, rs, LeafHashes(alg, Values(pres)), LeafHashes(alg, Values(others)), x);
        LeafInjective(alg, pres[x].value, alg, others[x].value);
      }
    }
  }

  lemma WalkCovers(m: nat, n: nat, rs: seq<Interval>)
    requires 0 < m < n && rs == NodeRanges(0, m, n, true)
    ensures forall j :: 0 <= j < |rs| ==> OneSide(rs[j], m)
    ensures Partition(rs, if IsPow2(m) then m else 0, n)
  {
    CompleteRanges(0, m, n);
    RangesShape(m, n, NodeRanges(0, m, n, false), rs);
  }
}
