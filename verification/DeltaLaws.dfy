/** When an advance of a memory checkpoint is accepted, and why it is refused otherwise,
    read off the log, the dates and the numbers alone. */
module DeltaLaws {
  import opened Hashing
  import opened Checkpoints
  import opened MemoryDelta
  import Merkle
  import Consistency

  // ----- dates

  /** The window from a date on is still open: it ends within year 9999 of the date's own
      local time, and now, in UTC, is not past that end. */
  predicate Current(at: Timestamp, ttlSeconds: int, now: int) {
    && at.local + ttlSeconds * 1_000_000 <= 315_537_897_599_999_999
    && now <= at.local + ttlSeconds * 1_000_000 - at.offset
  }

  lemma CurrentIsUnexpired(at: Timestamp, ttlSeconds: int, now: int)
    ensures WindowExpired(at, ttlSeconds, now) <==> !Current(at, ttlSeconds, now)
  {
  }

  // ----- the budget

  /** 2^1024 - 2^970: from here on no double is nearest to an integer. */
  function TooLarge(): int {
    var word := 0x1_0000_0000_0000_0000;
    var quarter := word * word * word * word;
    quarter * quarter * quarter * (quarter - word * word * word * 0x400)
  }

  /** The rounded quotient of added and old size is within the fraction; an integer fraction
      has to fit a double. */
  predicate Affordable(divide: Division, fraction: Fraction, added: int, size: int) {
    match fraction
    case Float(value) => divide(added, size) <= value
    case Integer(i) => -TooLarge() < i < TooLarge() && divide(added, size) <= i as real
    case NonFinite => false
  }

  lemma AffordableIsBudget(divide: Division, prev: MemoryCheckpoint, next: MemoryCheckpoint)
    requires prev.treeSize != 0
    ensures WithinBudget(divide, prev, next) <==>
            Affordable(divide, next.maxDelta, next.treeSize - prev.treeSize, prev.treeSize)
  {
  }

  // ----- one advance

  /** The next checkpoint is that of the log with the operations appended, and the proof is
      the one its tree gives. */
  ghost predicate Honest<Op>(alg: Algorithm, encode: Encoder<Op>, log: seq<Op>, next: MemoryCheckpoint, ops: seq<Op>,
                             proof: seq<Bytes>)
    requires log != []
  {
    && AllEncode(encode, log + ops) && next.treeSize == |log| + |ops| <= 1_000_000
    && next.root == RootText(HashValue(alg, Merkle.Mth(alg, LogLeaves(alg, encode, log + ops))))
    && proof == Consistency.ConsistencyProof(alg, LogLeaves(alg, encode, log + ops), |log|)
  }

  lemma AnchoredRoot<Op>(next: MemoryCheckpoint, alg: Algorithm, encode: Encoder<Op>, log: seq<Op>)
    requires AllEncode(encode, log) && log != []
    ensures Anchors(next, alg, encode, log) <==>
            && next.treeSize == |log|
            && next.root == RootText(HashValue(alg, Merkle.Mth(alg, LogLeaves(alg, encode, log))))
  {
    Merkle.MthSize(alg, LogLeaves(alg, encode, log));
  }

  /** Every reason, for an advance from a checkpoint of a known log. */
  lemma DeltaReasons<Op>(divide: Division, alg: Algorithm, encode: Encoder<Op>, prev: MemoryCheckpoint,
                         next: MemoryCheckpoint, log: seq<Op>, ops: seq<Op>, proof: seq<Bytes>, now: int)
    requires log != [] && Anchors(prev, alg, encode, log)
    ensures var reason := Verdict(divide, encode, prev, next, ops, proof, now);
            var bound := Honest(alg, encode, log, next, ops, proof) && prev.seqNo >= 0 && next.seqNo >= 0 &&
                         prev.ttlSeconds >= 0 && next.ttlSeconds >= 0;
            var current := Current(next.approvedAt, next.ttlSeconds, now);
            var affordable := Affordable(divide, next.maxDelta, |ops|, |log|);
            && (reason == Drift <==> !bound)
            && (reason == Rollback <==> bound && next.seqNo <= prev.seqNo)
            && (reason == Expired <==> bound && prev.seqNo < next.seqNo && !current)
            && (reason == Budget <==> bound && prev.seqNo < next.seqNo && current && !affordable)
            && (reason == Accepted <==> bound && prev.seqNo < next.seqNo && current && affordable)
  {
    BoundExactly(alg, encode, prev, next, log, ops, proof);
    CurrentIsUnexpired(next.approvedAt, next.ttlSeconds, now);
    AffordableIsBudget(divide, prev, next);
  }

  lemma BoundExactly<Op>(alg: Algorithm, encode: Encoder<Op>, prev: MemoryCheckpoint, next: MemoryCheckpoint,
                         log: seq<Op>, ops: seq<Op>, proof: seq<Bytes>)
    requires log != [] && Anchors(prev, alg, encode, log)
    ensures Shaped(prev, next) && Bound(encode, prev, next, ops, proof) <==>
            && Honest(alg, encode, log, next, ops, proof)
            && prev.seqNo >= 0 && next.seqNo >= 0 && prev.ttlSeconds >= 0 && next.ttlSeconds >= 0
  {
    if AllEncode(encode, log + ops) {
      AnchoredRoot(next, alg, encode, log + ops);
      Merkle.MthSize(alg, LogLeaves(alg, encode, log + ops));
    }
    if Shaped(prev, next) {
      BoundIsExact(alg, encode, prev, next, log, ops, proof);
    }
  }

  /** Both roots are digests of one algorithm, no number is negative, the sizes rise from
      above zero to within the cap, and there are as many operations as they say. */
  predicate Comparable<Op>(prev: MemoryCheckpoint, next: MemoryCheckpoint, ops: seq<Op>) {
    && prev.seqNo >= 0 && next.seqNo >= 0 && prev.ttlSeconds >= 0 && next.ttlSeconds >= 0
    && 0 < prev.treeSize <= next.treeSize <= 1_000_000 && |ops| == next.treeSize - prev.treeSize
    && match (prev.root, next.root)
       case (RootText(p), RootText(n)) => p.alg == n.alg && |p.digest| == |n.digest| == 32
       case _ => false
  }

  /** From any checkpoint, of a known log or not: what cannot be compared drifts, and of the
      other reasons the first that applies is given. */
  lemma ReasonsInOrder<Op>(divide: Division, encode: Encoder<Op>, prev: MemoryCheckpoint, next: MemoryCheckpoint,
                           ops: seq<Op>, proof: seq<Bytes>, now: int)
    ensures var reason := Verdict(divide, encode, prev, next, ops, proof, now);
            var current := Current(next.approvedAt, next.ttlSeconds, now);
            && (!Comparable(prev, next, ops) ==> reason == Drift)
            && (reason != Drift ==>
                  && (reason == Rollback <==> next.seqNo <= prev.seqNo)
                  && (reason == Expired <==> prev.seqNo < next.seqNo && !current)
                  && (reason == Accepted <==>
                        && prev.seqNo < next.seqNo && current
                        && Affordable(divide, next.maxDelta, |ops|, prev.treeSize)))
  {
    CurrentIsUnexpired(next.approvedAt, next.ttlSeconds, now);
    if prev.treeSize > 0 {
      AffordableIsBudget(divide, prev, next);
    }
  }

  /** What the previous approval says about time is not read. */
  lemma PreviousWindowUnread<Op>(divide: Division, encode: Encoder<Op>, prev: MemoryCheckpoint, other: MemoryCheckpoint,
                                 next: MemoryCheckpoint, ops: seq<Op>, proof: seq<Bytes>, now: int)
    requires other == prev.(approvedAt := other.approvedAt, ttlSeconds := other.ttlSeconds, maxDelta := other.maxDelta)
    requires prev.ttlSeconds >= 0 && other.ttlSeconds >= 0
    ensures Verdict(divide, encode, prev, next, ops, proof, now) ==
            Verdict(divide, encode, other, next, ops, proof, now)
  {
  }

  // ----- a run

  lemma AcceptedStep<Op>(divide: Division, encode: Encoder<Op>, prev: MemoryCheckpoint, a: Advance<Op>)
    requires Verdict(divide, encode, prev, a.next, a.ops, a.proof, a.now) == Accepted
    ensures Current(a.next.approvedAt, a.next.ttlSeconds, a.now) && prev.treeSize > 0
    ensures |a.ops| == a.next.treeSize - prev.treeSize && Affordable(divide, a.next.maxDelta, |a.ops|, prev.treeSize)
  {
    CurrentIsUnexpired(a.next.approvedAt, a.next.ttlSeconds, a.now);
    AffordableIsBudget(divide, prev, a.next);
  }

  /** Every checkpoint of an accepted run was within its own window when it was accepted, and
      its growth was affordable. */
  lemma {:induction false} RunIsCurrent<Op>(divide: Division, encode: Encoder<Op>, first: MemoryCheckpoint,
                                            run: seq<Advance<Op>>, i: nat)
    requires AcceptedRun(divide, encode, first, run) && i < |run|
    ensures Current(run[i].next.approvedAt, run[i].next.ttlSeconds, run[i].now)
    ensures var size := if i == 0 then first.treeSize else run[i - 1].next.treeSize;
            |run[i].ops| == run[i].next.treeSize - size && Affordable(divide, run[i].next.maxDelta, |run[i].ops|, size)
    decreases |run|
  {
    AcceptedStep(divide, encode, first, run[0]);
    if i > 0 {
      RunIsCurrent(divide, encode, run[0].next, run[1..], i - 1);
    }
  }
}
