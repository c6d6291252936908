/** The leaf intervals behind the nodes of a consistency proof: the iterative walk of
    `_consistency_ranges` against the recursion that builds the proof. */
module Ranges {
  import opened Bits
  import opened Hashing
  import opened MerkleShape
  import opened Merkle
  import opened Consistency
  import opened ConsistencyExact

  type Interval = (nat, nat)

  /** SUBPROOF on intervals instead of hashes. */
  function NodeRanges(start: nat, m: nat, n: nat, complete: bool): (rs: seq<Interval>)
    requires 0 < m <= n
    decreases n
  {
    if m == n then
      if complete then [] else [(start, start + n)]
    else
      var k := Split(n);
      if m <= k then NodeRanges(start, m, k, complete) + [(start + k, start + n)]
      else NodeRanges(start + k, m - k, n - k, false) + [(start, start + k)]
  }

  function Reverse<T>(s: seq<T>): (r: seq<T>)
    ensures |r| == |s|
  {
    if s == [] then [] else [s[|s| - 1]] + Reverse(s[..|s| - 1])
  }

  /** What the walk has still to return, its siblings included. */
  ghost function Pending(start: nat, m: nat, n: nat, complete: bool, siblings: seq<Interval>): seq<Interval>
    requires 0 < m <= n
  {
    NodeRanges(start, m, n, complete) + Reverse(siblings)
  }

  method ConsistencyRanges(firstSize: nat, secondSize: nat) returns (ranges: seq<Interval>)
    requires 0 < firstSize <= secondSize
    ensures ranges == NodeRanges(0, firstSize, secondSize, true)
  {
    var start, m, n, complete := 0, firstSize, secondSize, true;
    var siblings: seq<Interval> := [];
    while m != n
      invariant 0 < m <= n
      invariant NodeRanges(0, firstSize, secondSize, true) == Pending(start, m, n, complete, siblings)
      decreases n
    {
      SplitByBitLength(n);
      var split := Pow2(BitLength(n - 1) - 1);
      var middle := start + split;
      if m <= split {
        var end := start + n;
        PendingLeft(start, m, n, complete, split, middle, end, siblings);
        siblings := siblings + [(middle, end)];
        n := split;
      } else {
        var m', n' := m - split, n - split;
        PendingRight(start, m, n, complete, split, middle, m', n', siblings);
        siblings := siblings + [(start, middle)];
        start, m, n, complete := middle, m', n', false;
      }
    }
    var prefix := if complete then [] else [(start, start + n)];
    return prefix + Reverse(siblings);
  }

  lemma RangesStepLeft(start: nat, m: nat, n: nat, complete: bool, k: nat, at: nat, end: nat)
    requires 0 < m < n && k == Split(n) && at == start + k && end == start + n && m <= k
    ensures NodeRanges(start, m, n, complete) == NodeRanges(start, m, k, complete) + [(at, end)]
  {
  }

  lemma RangesStepRight(start: nat, m: nat, n: nat, complete: bool, k: nat, at: nat, m': nat, n': nat)
    requires 0 < m < n && k == Split(n) && k < m && at == start + k && m' == m - k && n' == n - k
    ensures NodeRanges(start, m, n, complete) == NodeRanges(at, m', n', false) + [(start, at)]
  {
  }

  lemma PendingLeft(start: nat, m: nat, n: nat, complete: bool, k: nat, at: nat, end: nat, siblings: seq<Interval>)
    requires 0 < m < n && k == Split(n) && at == start + k && end == start + n && m <= k
    ensures Pending(start, m, n, complete, siblings) == Pending(start, m, k, complete, siblings + [(at, end)])
  {
  }

  lemma PendingRight(start: nat, m: nat, n: nat, complete: bool, k: nat, at: nat, m': nat, n': nat,
                     siblings: seq<Interval>)
    requires 0 < m < n && k == Split(n) && k < m && at == start + k && m' == m - k && n' == n - k
    ensures Pending(start, m, n, complete, siblings) == Pending(at, m', n', false, siblings + [(start, at)])
  {
  }

  /** Wholly before or wholly after the old size. */
  predicate OneSide(r: Interval, at: nat) {
    r.0 < r.1 && (r.1 <= at || at <= r.0)
  }

  /** The first node ends at the old size; each later one lies on its side of it. */
  lemma {:induction false} RangeSides(start: nat, m: nat, n: nat, s: seq<Side>, rs: seq<Interval>)
    requires 0 < m <= n && s == JoinSides(m, n) && rs == NodeRanges(start, m, n, false)
    ensures |rs| == |s| + 1 && rs[0].0 < rs[0].1 == start + m
    ensures forall j :: 0 <= j < |rs| ==> start <= rs[j].0 < rs[j].1 <= start + n && OneSide(rs[j], start + m)
    ensures forall j :: 0 <= j < |s| ==> (s[j] == OnRight <==> start + m <= rs[j + 1].0)
    decreases n
  {
    if m < n {
      var k := Split(n);
      var at, end := start + k, start + n;
      if m <= k {
        var s', rs' := JoinSides(m, k), NodeRanges(start, m, k, false);
        RangesStepLeft(start, m, n, false, k, at, end);
        RangeSides(start, m, k, s', rs');
        JoinLeft(m, n, k);
        SidesLast(start + m, s', rs', OnRight, (at, end));
      } else {
        var m', n' := m - k, n - k;
        var s', rs' := JoinSides(m', n'), NodeRanges(at, m', n', false);
        RangesStepRight(start, m, n, false, k, at, m', n');
        RangeSides(at, m', n', s', rs');
        SidesLast(start + m, s', rs', OnLeft, (start, at));
      }
    }
  }

  lemma JoinLeft(m: nat, n: nat, k: nat)
    requires 0 < m < n && k == Split(n) && m <= k
    ensures JoinSides(m, n) == JoinSides(m, k) + [OnRight]
  {
  }

  lemma SidesLast(at: nat, s: seq<Side>, rs: seq<Interval>, side: Side, r: Interval)
    requires |rs| == |s| + 1 && forall j :: 0 <= j < |s| ==> (s[j] == OnRight <==> at <= rs[j + 1].0)
    requires side == OnRight <==> at <= r.0
    ensures forall j :: 0 <= j < |s| + 1 ==> ((s + [side])[j] == OnRight <==> at <= (rs + [r])[j + 1].0)
  {
  }

  /** Node j of the proof is the head of interval j. */
  lemma {:induction false} NodesAreHeads(alg: Algorithm, es: seq<Bytes>, start: nat, ds: seq<Bytes>, m: nat, n: nat,
                                         rs: seq<Interval>, nodes: seq<Bytes>)
    requires 0 < m <= n && start + n <= |es| && ds == es[start..start + n]
    requires rs == NodeRanges(start, m, n, false) && nodes == Subproof(alg, ds, m, false)
    ensures HeadsOf(alg, es, rs, nodes)
    decreases n
  {
    if m < n {
      var k := Split(n);
      var l, r := ds[..k], ds[k..];
      var at, end := start + k, start + n;
      assert l == es[start..at] && r == es[at..end];
      if m <= k {
        RangesStepLeft(start, m, n, false, k, at, end);
        StepLeft(alg, ds, m, n, k, l, r);
        NodesAreHeadsLeft(alg, es, start, at, end, l, r, m, k);
      } else {
        var m', n' := m - k, n - k;
        RangesStepRight(start, m, n, false, k, at, m', n');
        StepRight(alg, ds, m, n, k, l, r, m', n');
        NodesAreHeadsRight(alg, es, start, at, end, l, r, m', n');
      }
    }
  }

  lemma {:induction false} NodesAreHeadsLeft(alg: Algorithm, es: seq<Bytes>, start: nat, at: nat, end: nat,
                                             l: seq<Bytes>, r: seq<Bytes>, m: nat, k: nat)
    requires 0 < m <= k && start + k == at < end <= |es| && l == es[start..at] && r == es[at..end]
    ensures HeadsOf(alg, es, NodeRanges(start, m, k, false) + [(at, end)], Subproof(alg, l, m, false) + [Mth(alg, r)])
    decreases end - start, 0
  {
    var rs', nodes' := NodeRanges(start, m, k, false), Subproof(alg, l, m, false);
    NodesAreHeads(alg, es, start, l, m, k, rs', nodes');
    HeadsLast(alg, es, rs', nodes', at, end, Mth(alg, r));
  }

  lemma {:induction false} NodesAreHeadsRight(alg: Algorithm, es: seq<Bytes>, start: nat, at: nat, end: nat,
                                              l: seq<Bytes>, r: seq<Bytes>, m: nat, n: nat)
    requires 0 < m <= n && start < at && at + n == end <= |es| && l == es[start..at] && r == es[at..end]
    ensures HeadsOf(alg, es, NodeRanges(at, m, n, false) + [(start, at)], Subproof(alg, r, m, false) + [Mth(alg, l)])
    decreases end - start, 0
  {
    var rs', nodes' := NodeRanges(at, m, n, false), Subproof(alg, r, m, false);
    NodesAreHeads(alg, es, at, r, m, n, rs', nodes');
    HeadsLast(alg, es, rs', nodes', start, at, Mth(alg, l));
  }

  lemma HeadsLast(alg: Algorithm, es: seq<Bytes>, rs: seq<Interval>, nodes: seq<Bytes>, lo: nat, hi: nat, head: Bytes)
    requires HeadsOf(alg, es, rs, nodes) && lo < hi <= |es| && head == Mth(alg, es[lo..hi])
    ensures HeadsOf(alg, es, rs + [(lo, hi)], nodes + [head])
  {
  }

  ghost predicate HeadsOf(alg: Algorithm, es: seq<Bytes>, rs: seq<Interval>, nodes: seq<Bytes>) {
    && |rs| == |nodes|
    && forall j :: 0 <= j < |rs| ==> rs[j].0 < rs[j].1 <= |es| && nodes[j] == Mth(alg, es[rs[j].0..rs[j].1])
  }

  /** Dropping the first node of a complete proof drops the first interval. */
  lemma {:induction false} CompleteRanges(start: nat, m: nat, n: nat)
    requires 0 < m < n
    ensures |NodeRanges(start, m, n, false)| > 0
    ensures NodeRanges(start, m, n, true) ==
            (if IsPow2(m) then NodeRanges(start, m, n, false)[1..] else NodeRanges(start, m, n, false))
    ensures IsPow2(m) ==> NodeRanges(start, m, n, false)[0] == (start, start + m)
    decreases n
  {
    var k := Split(n);
    SplitBounds(n);
    if m < k {
      CompleteRanges(start, m, k);
    } else if m == k {
      assert NodeRanges(start, m, k, false) == [(start, start + k)] && NodeRanges(start, m, k, true) == [];
    } else {
      BetweenPowers(k, m);
    }
  }

  lemma CompleteFromZero(m: nat, n: nat, all: seq<Interval>, rs: seq<Interval>)
    requires 0 < m < n && all == NodeRanges(0, m, n, false) && rs == NodeRanges(0, m, n, true)
    ensures |all| > 0 && rs == (if IsPow2(m) then all[1..] else all) && (IsPow2(m) ==> all[0] == (0, m))
  {
    CompleteRanges(0, m, n);
  }

  // ----- the intervals are a partition

  ghost predicate Covered(rs: seq<Interval>, x: int) {
    exists j :: 0 <= j < |rs| && rs[j].0 <= x < rs[j].1
  }

  ghost predicate Partition(rs: seq<Interval>, lo: nat, hi: nat) {
    && (forall x :: Covered(rs, x) <==> lo <= x < hi)
    && (forall i, j :: 0 <= i < j < |rs| ==> rs[i].1 <= rs[j].0 || rs[j].1 <= rs[i].0)
  }

  lemma {:induction false} NodesPartition(start: nat, m: nat, n: nat, rs: seq<Interval>)
    requires 0 < m <= n && rs == NodeRanges(start, m, n, false)
    ensures Partition(rs, start, start + n) && forall j :: 0 <= j < |rs| ==> rs[j].0 < rs[j].1
    decreases n
  {
    if m == n {
      assert rs == [] + [(start, start + n)];
      forall x
        ensures Covered(rs, x) <==> start <= x < start + n
      {
        CoveredLast([], (start, start + n), x);
      }
    } else {
      var k := Split(n);
      var at, end := start + k, start + n;
      if m <= k {
        var rs' := NodeRanges(start, m, k, false);
        RangesStepLeft(start, m, n, false, k, at, end);
        NodesPartition(start, m, k, rs');
        PartitionLast(rs', start, at, (at, end), start, end);
      } else {
        var m', n' := m - k, n - k;
        var rs' := NodeRanges(at, m', n', false);
        RangesStepRight(start, m, n, false, k, at, m', n');
        NodesPartition(at, m', n', rs');
        PartitionLast(rs', at, end, (start, at), start, end);
      }
    }
  }

  lemma CoveredLast(rs: seq<Interval>, r: Interval, x: int)
    ensures Covered(rs + [r], x) <==> Covered(rs, x) || r.0 <= x < r.1
  {
    var all := rs + [r];
    if Covered(rs, x) {
      var j :| 0 <= j < |rs| && rs[j].0 <= x < rs[j].1;
      assert all[j] == rs[j];
    }
    if r.0 <= x < r.1 {
      assert all[|rs|] == r;
    }
  }

  lemma PartitionLast(rs: seq<Interval>, lo: nat, hi: nat, r: Interval, lo': nat, hi': nat)
    requires Partition(rs, lo, hi) && lo <= hi && r.0 < r.1
    requires forall j :: 0 <= j < |rs| ==> rs[j].0 < rs[j].1
    requires (r.0 == hi && lo' == lo && hi' == r.1) || (r.1 == lo && lo' == r.0 && hi' == hi)
    ensures Partition(rs + [r], lo', hi')
  {
    var all := rs + [r];
    forall x
      ensures Covered(all, x) <==> lo' <= x < hi'
    {
      CoveredLast(rs, r, x);
    }
    forall i | 0 <= i < |rs|
      ensures rs[i].1 <= r.0 || r.1 <= rs[i].0
    {
      assert Covered(rs, rs[i].0) && Covered(rs, rs[i].1 - 1);
    }
  }

  /** For 0 < m < n the walk yields one interval per proof node, each the interval of its
      node and on one side of m; they partition [m, n) when m is a power of two and
      [0, n) otherwise. */
  lemma RangesRefineSubproof(alg: Algorithm, ds: seq<Bytes>, m: nat, rs: seq<Interval>)
    requires 0 < m < |ds| && rs == NodeRanges(0, m, |ds|, true)
    ensures HeadsOf(alg, ds, rs, ConsistencyProof(alg, ds, m))
    ensures forall j :: 0 <= j < |rs| ==> OneSide(rs[j], m)
    ensures Partition(rs, if IsPow2(m) then m else 0, |ds|)
  {
    var n, all := |ds|, NodeRanges(0, m, |ds|, false);
    CompleteFromZero(m, n, all, rs);
    ProofHeads(alg, ds, m, all, rs);
    RangesShape(m, n, all, rs);
  }

  lemma RangesShape(m: nat, n: nat, all: seq<Interval>, rs: seq<Interval>)
    requires 0 < m < n && all == NodeRanges(0, m, n, false)
    requires rs == if IsPow2(m) then all[1..] else all
    requires |all| > 0 && (IsPow2(m) ==> all[0] == (0, m))
    ensures forall j :: 0 <= j < |rs| ==> OneSide(rs[j], m)
    ensures Partition(rs, if IsPow2(m) then m else 0, n)
  {
    RangeSides(0, m, n, JoinSides(m, n), all);
    NodesPartition(0, m, n, all);
    if IsPow2(m) {
      PartitionTail(all, m, n);
    }
  }

  lemma ProofHeads(alg: Algorithm, ds: seq<Bytes>, m: nat, all: seq<Interval>, rs: seq<Interval>)
    requires 0 < m < |ds| && all == NodeRanges(0, m, |ds|, false)
    requires rs == if IsPow2(m) then all[1..] else all
    ensures HeadsOf(alg, ds, rs, ConsistencyProof(alg, ds, m))
  {
    CompleteSubproof(alg, ds, m);
    assert ds[0..0 + |ds|] == ds;
    NodesAreHeads(alg, ds, 0, ds, m, |ds|, all, Subproof(alg, ds, m, false));
  }

  lemma PartitionTail(rs: seq<Interval>, m: nat, n: nat)
    requires |rs| > 0 && rs[0] == (0, m) && m <= n && Partition(rs, 0, n)
    ensures Partition(rs[1..], m, n)
  {
    forall x
      ensures Covered(rs[1..], x) <==> m <= x < n
    {
      if Covered(rs[1..], x) {
        var j :| 0 <= j < |rs[1..]| && rs[1..][j].0 <= x < rs[1..][j].1;
        assert rs[j + 1] == rs[1..][j] && Covered(rs, x);
      }
      if m <= x < n {
        assert Covered(rs, x);
        var j :| 0 <= j < |rs| && rs[j].0 <= x < rs[j].1;
        assert rs[1..][j - 1] == rs[j];
      }
    }
  }
}
