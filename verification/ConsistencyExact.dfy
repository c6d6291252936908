/** What an accepted consistency proof says: it is the honest proof and the old root is
    the head of the first leaves. */
module ConsistencyExact {
  import opened Bits
  import opened Hashing
  import opened MerkleShape
  import opened Merkle
  import opened Consistency

  /** The split point of a prefix that reaches into the right subtree. */
  lemma PrefixSplit(m: nat, n: nat, k: nat)
    requires n >= 2 && k == Split(n) && k < m <= n
    ensures Split(m) == k
  {
    SplitBounds(n);
    SplitUnique(m, k);
  }

  /** Heads of whole nodes have digest size. */
  lemma {:induction false} SubproofSizes(alg: Algorithm, ds: seq<Bytes>, m: nat, b: bool)
    requires 0 < m <= |ds| && AllDigests(ds)
    ensures AllDigests(Subproof(alg, ds, m, b))
    decreases |ds|
  {
    if m == |ds| {
      MthSize(alg, ds);
    } else {
      var k := Split(|ds|);
      var l, r := ds[..k], ds[k..];
      MthSize(alg, l);
      MthSize(alg, r);
      if m <= k {
        SubproofSizes(alg, l, m, b);
      } else {
        SubproofSizes(alg, r, m - k, false);
      }
    }
  }

  lemma SubproofLeft(alg: Algorithm, ds: seq<Bytes>, m: nat, k: nat, l: seq<Bytes>, r: seq<Bytes>, b: bool)
    requires 0 < m < |ds| && k == Split(|ds|) && m <= k && l == ds[..k] && r == ds[k..]
    ensures Subproof(alg, ds, m, b) == Subproof(alg, l, m, b) + [Mth(alg, r)]
    ensures l[..m] == ds[..m] && (m == k ==> Subproof(alg, l, m, b) == if b then [] else [Mth(alg, l)])
  {
  }

  /** A complete proof beside the full list of nodes: the same, without the first node when
      the first m leaves form one whole node, for that node is then the old root. */
  ghost predicate Completes(m: nat, complete: seq<Bytes>, full: seq<Bytes>, oldRoot: Bytes) {
    full != [] && if IsPow2(m) then complete == full[1..] && full[0] == oldRoot else complete == full
  }

  lemma CompletesWith(m: nat, complete: seq<Bytes>, full: seq<Bytes>, oldRoot: Bytes, x: Bytes)
    requires Completes(m, complete, full, oldRoot)
    ensures Completes(m, complete + [x], full + [x], oldRoot)
  {
  }

  lemma {:induction false} CompleteSubproof(alg: Algorithm, ds: seq<Bytes>, m: nat)
    requires 0 < m < |ds|
    ensures Completes(m, Subproof(alg, ds, m, true), Subproof(alg, ds, m, false), Mth(alg, ds[..m]))
    decreases |ds|
  {
    var k := Split(|ds|);
    SplitBounds(|ds|);
    var l, r := ds[..k], ds[k..];
    if k < m {
      BetweenPowers(k, m);
    } else {
      if m < k {
        CompleteSubproof(alg, l, m);
      }
      SubproofLeft(alg, ds, m, k, l, r, true);
      SubproofLeft(alg, ds, m, k, l, r, false);
      CompletesWith(m, Subproof(alg, l, m, true), Subproof(alg, l, m, false), Mth(alg, ds[..m]), Mth(alg, r));
    }
  }

  lemma StepLeft(alg: Algorithm, ds: seq<Bytes>, m: nat, n: nat, k: nat, l: seq<Bytes>, r: seq<Bytes>)
    requires 0 < m < n == |ds| && k == Split(n) && m <= k && l == ds[..k] && r == ds[k..]
    ensures JoinSides(m, n) == JoinSides(m, k) + [OnRight]
    ensures Subproof(alg, ds, m, false) == Subproof(alg, l, m, false) + [Mth(alg, r)]
    ensures Mth(alg, ds) == NodeHash(alg, Mth(alg, l), Mth(alg, r))
  {
  }

  lemma StepRight(alg: Algorithm, ds: seq<Bytes>, m: nat, n: nat, k: nat, l: seq<Bytes>, r: seq<Bytes>, m': nat,
                  n': nat)
    requires 0 < m < n == |ds| && k == Split(n) && k < m && l == ds[..k] && r == ds[k..] && m' == m - k && n' == n - k
    ensures JoinSides(m, n) == JoinSides(m', n') + [OnLeft]
    ensures Subproof(alg, ds, m, false) == Subproof(alg, r, m', false) + [Mth(alg, l)]
    ensures Mth(alg, ds) == NodeHash(alg, Mth(alg, l), Mth(alg, r))
  {
    JoinStepRight(m, n, k, m', n');
    SubproofStepRight(alg, ds, m, k, l, r, m');
    HeadStep(alg, ds, k, l, r);
  }

  lemma HeadStep(alg: Algorithm, ds: seq<Bytes>, k: nat, l: seq<Bytes>, r: seq<Bytes>)
    requires |ds| >= 2 && k == Split(|ds|) && l == ds[..k] && r == ds[k..]
    ensures Mth(alg, ds) == NodeHash(alg, Mth(alg, l), Mth(alg, r))
  {
  }

  lemma JoinStepRight(m: nat, n: nat, k: nat, m': nat, n': nat)
    requires 0 < m < n && k == Split(n) && k < m && m' == m - k && n' == n - k
    ensures JoinSides(m, n) == JoinSides(m', n') + [OnLeft]
  {
  }

  lemma SubproofStepRight(alg: Algorithm, ds: seq<Bytes>, m: nat, k: nat, l: seq<Bytes>, r: seq<Bytes>, m': nat)
    requires 0 < m < |ds| && k == Split(|ds|) && k < m && l == ds[..k] && r == ds[k..] && m' == m - k
    ensures Subproof(alg, ds, m, false) == Subproof(alg, r, m', false) + [Mth(alg, l)]
  {
  }

  /** The honest nodes climb to both heads. */
  lemma {:induction false} HonestJoin(alg: Algorithm, ds: seq<Bytes>, m: nat, n: nat, s: seq<Side>, t: seq<Bytes>,
                                      head: Bytes, oldHead: Bytes)
    requires 0 < m <= n == |ds| && s == JoinSides(m, n) && t == Subproof(alg, ds, m, false)
    requires head == Mth(alg, ds) && oldHead == Mth(alg, ds[..m])
    ensures ClimbsTo(alg, s, t, head, oldHead)
    decreases n
  {
    if m == n {
      assert ds[..m] == ds;
    } else {
      var k := Split(n);
      var l, r := ds[..k], ds[k..];
      if m <= k {
        assert l[..m] == ds[..m];
        StepLeft(alg, ds, m, n, k, l, r);
        HonestJoinLeft(alg, l, r, m, k, oldHead);
      } else {
        var m', n' := m - k, n - k;
        assert r[..m'] == ds[k..m];
        PrefixHead(alg, ds, m, n, k, l, r[..m']);
        StepRight(alg, ds, m, n, k, l, r, m', n');
        HonestJoinRight(alg, l, r, m', n', oldHead);
      }
    }
  }

  lemma {:induction false} HonestJoinLeft(alg: Algorithm, l: seq<Bytes>, r: seq<Bytes>, m: nat, k: nat, oldHead: Bytes)
    requires 0 < m <= k == |l| && r != [] && oldHead == Mth(alg, l[..m])
    ensures ClimbsTo(alg, JoinSides(m, k) + [OnRight], Subproof(alg, l, m, false) + [Mth(alg, r)],
                     NodeHash(alg, Mth(alg, l), Mth(alg, r)), oldHead)
    decreases |l| + |r|, 0
  {
    var s', t' := JoinSides(m, k), Subproof(alg, l, m, false);
    HonestJoin(alg, l, m, k, s', t', Mth(alg, l), oldHead);
    JoinLast(alg, s', t', Mth(alg, l), oldHead, OnRight, Mth(alg, r));
  }

  lemma {:induction false} HonestJoinRight(alg: Algorithm, l: seq<Bytes>, r: seq<Bytes>, m: nat, n: nat, oldHead: Bytes)
    requires l != [] && 0 < m <= n == |r| && oldHead == NodeHash(alg, Mth(alg, l), Mth(alg, r[..m]))
    ensures ClimbsTo(alg, JoinSides(m, n) + [OnLeft], Subproof(alg, r, m, false) + [Mth(alg, l)],
                     NodeHash(alg, Mth(alg, l), Mth(alg, r)), oldHead)
    decreases |l| + |r|, 0
  {
    var s', t', old' := JoinSides(m, n), Subproof(alg, r, m, false), Mth(alg, r[..m]);
    HonestJoin(alg, r, m, n, s', t', Mth(alg, r), old');
    JoinLast(alg, s', t', Mth(alg, r), old', OnLeft, Mth(alg, l));
  }

  ghost predicate ClimbsTo(alg: Algorithm, s: seq<Side>, t: seq<Bytes>, head: Bytes, oldHead: Bytes) {
    && |t| == |s| + 1
    && Climb(alg, t[0], s, t[1..]) == head
    && ClimbOld(alg, t[0], s, t[1..]) == oldHead
  }

  /** The head of a prefix that reaches into the right subtree keeps the whole left one. */
  lemma PrefixHead(alg: Algorithm, ds: seq<Bytes>, m: nat, n: nat, k: nat, l: seq<Bytes>, r: seq<Bytes>)
    requires 2 <= n == |ds| && k == Split(n) && k < m <= n && l == ds[..k] && r == ds[k..m]
    ensures Mth(alg, ds[..m]) == NodeHash(alg, Mth(alg, l), Mth(alg, r))
  {
    PrefixSplit(m, n, k);
    assert ds[..m][..k] == l && ds[..m][k..] == r;
  }

  lemma JoinLast(alg: Algorithm, s: seq<Side>, t: seq<Bytes>, head: Bytes, oldHead: Bytes, side: Side, node: Bytes)
    requires ClimbsTo(alg, s, t, head, oldHead)
    ensures ClimbsTo(alg, s + [side], t + [node], Combine(alg, head, side, node),
                     if side == OnLeft then NodeHash(alg, node, oldHead) else oldHead)
  {
    assert (t + [node])[1..] == t[1..] + [node];
    ClimbLast(alg, t[0], s, t[1..], side, node);
  }

  lemma AcceptsAreClimbs(alg: Algorithm, m: nat, n: nat, head: Bytes, firstRoot: Bytes, proof: seq<Bytes>, s: seq<Side>)
    requires 0 < m < n && s == JoinSides(m, n)
    ensures Accepts(alg, firstRoot, head, m, n, proof) <==>
            WellShaped(firstRoot, head, m, n, proof) &&
            ClimbsTo(alg, s, if IsPow2(m) then [firstRoot] + proof else proof, head, firstRoot)
  {
  }

  lemma AcceptsExactly(alg: Algorithm, m: nat, n: nat, head: Bytes, oldHead: Bytes, firstRoot: Bytes,
                       proof: seq<Bytes>, s: seq<Side>, t: seq<Bytes>, honest: seq<Bytes>)
    requires 0 < m < n && s == JoinSides(m, n) && ClimbsTo(alg, s, t, head, oldHead)
    requires honest == (if IsPow2(m) then t[1..] else t) && (IsPow2(m) ==> t[0] == oldHead)
    requires |honest| <= BitLength(n) + 1 && |head| == |oldHead| == DIGEST_SIZE && AllDigests(t) && AllDigests(honest)
    ensures Accepts(alg, firstRoot, head, m, n, proof) <==> firstRoot == oldHead && proof == honest
  {
    AcceptsAreClimbs(alg, m, n, head, firstRoot, proof, s);
    if AllDigests(proof) && |firstRoot| == DIGEST_SIZE {
      TermsExact(alg, m, head, oldHead, firstRoot, proof, s, t, honest);
    }
  }

  /** RFC 9162 section 2.1.4.2 against 2.1.4.1: against the head of a tree, the verifier
      accepts exactly the head of the first m leaves with the honest proof. */
  lemma ConsistencyIsExact(alg: Algorithm, ds: seq<Bytes>, m: nat, firstRoot: Bytes, proof: seq<Bytes>)
    requires 0 < m <= |ds| && AllDigests(ds)
    ensures Accepts(alg, firstRoot, Mth(alg, ds), m, |ds|, proof) <==>
            firstRoot == Mth(alg, ds[..m]) && proof == ConsistencyProof(alg, ds, m)
  {
    MthSize(alg, ds);
    MthSize(alg, ds[..m]);
    if m == |ds| {
      assert ds[..m] == ds;
    } else {
      var s, t := HonestTerms(alg, ds, m);
      AcceptsExactly(alg, m, |ds|, Mth(alg, ds), Mth(alg, ds[..m]), firstRoot, proof, s, t,
                     ConsistencyProof(alg, ds, m));
    }
  }

  /** The sides of an honest proof and its nodes with the old root put back. */
  lemma HonestTerms(alg: Algorithm, ds: seq<Bytes>, m: nat) returns (s: seq<Side>, t: seq<Bytes>)
    requires 0 < m < |ds|
    ensures s == JoinSides(m, |ds|) && t == Subproof(alg, ds, m, false)
    ensures ClimbsTo(alg, s, t, Mth(alg, ds), Mth(alg, ds[..m]))
    ensures ConsistencyProof(alg, ds, m) == (if IsPow2(m) then t[1..] else t)
    ensures (IsPow2(m) ==> t[0] == Mth(alg, ds[..m]))
    ensures |ConsistencyProof(alg, ds, m)| <= BitLength(|ds|) + 1
    ensures AllDigests(ds) ==> AllDigests(t) && AllDigests(ConsistencyProof(alg, ds, m))
  {
    s, t := JoinSides(m, |ds|), Subproof(alg, ds, m, false);
    HonestJoin(alg, ds, m, |ds|, s, t, Mth(alg, ds), Mth(alg, ds[..m]));
    HonestNodes(alg, ds, m, t, ConsistencyProof(alg, ds, m));
    JoinFits(m, |ds|, |s|);
  }

  lemma HonestNodes(alg: Algorithm, ds: seq<Bytes>, m: nat, t: seq<Bytes>, honest: seq<Bytes>)
    requires 0 < m < |ds| && t == Subproof(alg, ds, m, false) && honest == Subproof(alg, ds, m, true)
    ensures t != [] && honest == (if IsPow2(m) then t[1..] else t) && (IsPow2(m) ==> t[0] == Mth(alg, ds[..m]))
    ensures AllDigests(ds) ==> AllDigests(t) && AllDigests(honest)
  {
    CompleteSubproof(alg, ds, m);
    if AllDigests(ds) {
      SubproofSizes(alg, ds, m, false);
    }
  }

  lemma JoinFits(m: nat, n: nat, depth: nat)
    requires 0 < m < n && depth == |JoinSides(m, n)|
    ensures depth <= BitLength(n)
  {
    JoinDepth(m, n);
    BitLengthMonotone(n - 1, n);
  }

  lemma TermsExact(alg: Algorithm, m: nat, head: Bytes, oldHead: Bytes, firstRoot: Bytes, proof: seq<Bytes>,
                   s: seq<Side>, t: seq<Bytes>, honest: seq<Bytes>)
    requires AllDigests(proof) && AllDigests(t) && |firstRoot| == DIGEST_SIZE
    requires ClimbsTo(alg, s, t, head, oldHead)
    requires honest == (if IsPow2(m) then t[1..] else t) && (IsPow2(m) ==> t[0] == oldHead)
    ensures var terms := if IsPow2(m) then [firstRoot] + proof else proof;
            ClimbsTo(alg, s, terms, head, firstRoot) <==> firstRoot == oldHead && proof == honest
  {
    var terms := if IsPow2(m) then [firstRoot] + proof else proof;
    if |terms| == |s| + 1 {
      assert terms[0] == (if IsPow2(m) then firstRoot else proof[0]);
      ClimbExact(alg, terms[0], terms[1..], t[0], t[1..], s);
      assert terms == [terms[0]] + terms[1..] && t == [t[0]] + t[1..];
      if IsPow2(m) {
        assert proof == terms[1..];
      }
    }
  }

  // ----- the length guard

  lemma {:induction false} JoinDepth(m: nat, n: nat)
    requires 0 < m <= n
    ensures |JoinSides(m, n)| <= BitLength(n - 1)
    decreases n
  {
    if m < n {
      var k := Split(n);
      SplitByBitLength(n);
      SplitBounds(n);
      if k == 1 {
      } else if m <= k {
        JoinDepth(m, k);
        HalfDepth(n, k, k);
      } else {
        JoinDepth(m - k, n - k);
        HalfDepth(n, k, n - k);
      }
    }
  }

  /** Both subtrees are at least one level lower than the tree. */
  lemma {:induction false} HalfDepth(n: nat, k: nat, part: nat)
    requires n >= 2 && IsPow2(k) && k < n <= 2 * k && 0 < part <= k
    ensures BitLength(part - 1) + 1 <= BitLength(n - 1)
    decreases k
  {
    if k == 1 {
      assert BitLength(1) == 1 + BitLength(0);
    } else {
      HalfDepth((n + 1) / 2, k / 2, (part + 1) / 2);
      assert (n - 1) / 2 == (n + 1) / 2 - 1 && (part - 1) / 2 == (part + 1) / 2 - 1;
    }
  }

  /** No honest proof is longer than the guard allows. */
  lemma HonestProofFits(alg: Algorithm, ds: seq<Bytes>, m: nat)
    requires 0 < m <= |ds|
    ensures |ConsistencyProof(alg, ds, m)| <= BitLength(|ds|) + 1
  {
    if m < |ds| {
      var s, t := HonestTerms(alg, ds, m);
    }
  }

  /** Two heads over lists of one length agree only for one list. */
  lemma {:induction false} MthInjective(alg: Algorithm, a: seq<Bytes>, b: seq<Bytes>)
    requires |a| == |b| > 0 && AllDigests(a) && AllDigests(b)
    ensures Mth(alg, a) == Mth(alg, b) <==> a == b
    decreases |a|
  {
    if |a| > 1 && Mth(alg, a) == Mth(alg, b) {
      var k := Split(|a|);
      MthSize(alg, a[..k]);
      MthSize(alg, b[..k]);
      NodeInjective(alg, Mth(alg, a[..k]), Mth(alg, a[k..]), alg, Mth(alg, b[..k]), Mth(alg, b[k..]));
      MthInjective(alg, a[..k], b[..k]);
      MthInjective(alg, a[k..], b[k..]);
      assert a == a[..k] + a[k..] && b == b[..k] + b[k..];
    }
  }
}
