/** Memory checkpoints: the append-only operation log, the verdict on one advance, and
    what a run of accepted advances says about the whole log. */
module MemoryDelta {
  import opened Wrappers
  import opened Hashing
  import opened Append
  import opened MerkleTree
  import opened Checkpoints

  /** The leaf encoder of one representation; None where encoding an operation raises. */
  type Encoder<!Op> = Op -> Option<Bytes>

  ghost predicate AllEncode<Op>(encode: Encoder<Op>, ops: seq<Op>) {
    forall i :: 0 <= i < |ops| ==> encode(ops[i]).Some?
  }

  /** What the generator over the appended operations yields. */
  function Encoded<Op>(encode: Encoder<Op>, ops: seq<Op>): (pres: seq<Preimage>)
    ensures |pres| == |ops| && forall i :: 0 <= i < |ops| ==> pres[i] == encode(ops[i])
  {
    seq(|ops|, i requires 0 <= i < |ops| => encode(ops[i]))
  }

  /** Leaf hashes of the operation log, in operation order. */
  function LogLeaves<Op>(alg: Algorithm, encode: Encoder<Op>, ops: seq<Op>): (ds: seq<Bytes>)
    requires AllEncode(encode, ops)
    ensures |ds| == |ops| && AllDigests(ds)
  {
    LeafHashes(alg, Values(Encoded(encode, ops)))
  }

  method MemoryMerkleTree<Op>(ops: seq<Op>, encode: Encoder<Op>, alg: Algorithm)
    returns (r: Result<MerkleTree, TreeError>)
    ensures r.Ok? <==> |ops| <= MAX_MERKLE_LEAVES && AllEncode(encode, ops)
    ensures r.Ok? ==> r.value.alg == alg && r.value.leafHashes == LogLeaves(alg, encode, ops)
    ensures r.Err? ==> r.error == ValueError
  {
    if |ops| > MAX_MERKLE_LEAVES {
      return Err(ValueError);
    }
    var tree := new MerkleTree(alg);
    for i := 0 to |ops|
      invariant AllEncode(encode, ops[..i])
      invariant tree.leafHashes == LogLeaves(alg, encode, ops[..i])
    {
      var leaf := encode(ops[i]);
      if leaf.None? {
        return Err(ValueError);
      }
      var h := tree.AddLeaf(leaf.value);
      assert tree.leafHashes == LogLeaves(alg, encode, ops[..i + 1]);
    }
    assert ops[..|ops|] == ops;
    return Ok(tree);
  }

  // ----- key-value state

  datatype KvOp<!K(==), +V> = Put(key: K, value: V) | Del(key: K) | Unsupported

  ghost predicate Supported<K, V>(ops: seq<KvOp<K, V>>) {
    forall i :: 0 <= i < |ops| ==> !ops[i].Unsupported?
  }

  /** State after one operation: last writer wins. */
  function ApplyKv<K(==), V>(state: map<K, V>, op: KvOp<K, V>): map<K, V> {
    match op
    case Put(k, v) => state[k := v]
    case Del(k) => state - {k}
    case Unsupported => state
  }

  function FoldKvFrom<K(==), V>(state: map<K, V>, ops: seq<KvOp<K, V>>): map<K, V> {
    if ops == [] then state else ApplyKv(FoldKvFrom(state, ops[..|ops| - 1]), ops[|ops| - 1])
  }

  method FoldKv<K(==), V>(ops: seq<KvOp<K, V>>) returns (r: Result<map<K, V>, TreeError>)
    ensures r.Ok? <==> Supported(ops)
    ensures r.Ok? ==> r.value == FoldKvFrom(map[], ops)
  {
    var state: map<K, V> := map[];
    for i := 0 to |ops|
      invariant Supported(ops[..i]) && state == FoldKvFrom(map[], ops[..i])
    {
      assert ops[..i + 1][..i] == ops[..i];
      match ops[i] {
        case Put(k, v) => state := state[k := v];
        case Del(k) => state := state - {k};
        case Unsupported => return Err(ValueError);
      }
    }
    assert ops[..|ops|] == ops;
    return Ok(state);
  }

  /** Folding a log is folding its parts one after another. */
  lemma {:induction false} FoldInParts<K, V>(state: map<K, V>, a: seq<KvOp<K, V>>, b: seq<KvOp<K, V>>)
    ensures FoldKvFrom(state, a + b) == FoldKvFrom(FoldKvFrom(state, a), b)
  {
    if b == [] {
      assert a + b == a;
    } else {
      FoldInParts(state, a, b[..|b| - 1]);
      assert (a + b)[..|a + b| - 1] == a + b[..|b| - 1];
    }
  }

  /** The state holds k exactly when the last operation on k is a PUT, with its value. */
  lemma {:induction false} FoldKeepsLastWriter<K, V>(ops: seq<KvOp<K, V>>, k: K)
    requires Supported(ops)
    ensures k in FoldKvFrom(map[], ops) <==>
            exists i :: 0 <= i < |ops| && ops[i].Put? && ops[i].key == k &&
                        forall j :: i < j < |ops| ==> ops[j].key != k
    ensures forall i :: 0 <= i < |ops| && ops[i].Put? && ops[i].key == k &&
                        (forall j :: i < j < |ops| ==> ops[j].key != k) ==>
              k in FoldKvFrom(map[], ops) && FoldKvFrom(map[], ops)[k] == ops[i].value
  {
    if ops != [] {
      var last, before := ops[|ops| - 1], ops[..|ops| - 1];
      FoldKeepsLastWriter(before, k);
      if last.key == k {
        if last.Put? {
          assert ops[|ops| - 1].key == k;
        }
      } else {
        if k in FoldKvFrom(map[], before) {
          var i :| 0 <= i < |before| && before[i].Put? && before[i].key == k &&
                    forall j :: i < j < |before| ==> before[j].key != k;
          assert ops[i].Put? && ops[i].key == k && forall j :: i < j < |ops| ==> ops[j].key != k;
        }
        forall i | 0 <= i < |ops| && ops[i].Put? && ops[i].key == k && (forall j :: i < j < |ops| ==> ops[j].key != k)
          ensures k in FoldKvFrom(map[], ops) && FoldKvFrom(map[], ops)[k] == ops[i].value
        {
          assert before[i].Put? && before[i].key == k && forall j :: i < j < |before| ==> before[j].key != k;
        }
      }
    }
  }

  // ----- checkpoints

  /** `max_delta_fraction`: a float, an integer, or infinity or NaN. */
  datatype Fraction = Float(value: real) | Integer(i: int) | NonFinite

  const WORD: int := 0x1_0000_0000_0000_0000
  const TWO_TO_256: int := WORD * WORD * WORD * WORD

  /** The integers that round to no finite double begin at 2^1024 - 2^970. */
  const FLOAT_LIMIT: int := TWO_TO_256 * TWO_TO_256 * TWO_TO_256 * (TWO_TO_256 - WORD * WORD * WORD * 0x400)

  /** The budget in force, None where the fraction counts as not finite. */
  function BudgetOf(f: Fraction): Option<real> {
    match f
    case Float(value) => Some(value)
    case Integer(i) => if -FLOAT_LIMIT < i < FLOAT_LIMIT then Some(i as real) else None
    case NonFinite => None
  }

  /** Python's `/` on integers: the quotient, rounded. */
  type Division = (int, int) -> real

  datatype MemoryCheckpoint = MemoryCheckpoint(root: RootText, treeSize: int, seqNo: int, approvedAt: Timestamp,
                                               ttlSeconds: int, maxDelta: Fraction)

  datatype DeltaReason = Accepted | Drift | Rollback | Expired | Budget

  method FromOps<Op>(ops: seq<Op>, encode: Encoder<Op>, seqNo: int, approvedAt: Timestamp, ttlSeconds: int,
                     maxDelta: Fraction, alg: Algorithm)
    returns (r: Result<MemoryCheckpoint, TreeError>)
    ensures r.Ok? <==> |ops| <= MAX_MERKLE_LEAVES && AllEncode(encode, ops)
    ensures r.Ok? ==> Anchors(r.value, alg, encode, ops) && r.value.seqNo == seqNo && r.value.approvedAt == approvedAt
                      && r.value.ttlSeconds == ttlSeconds && r.value.maxDelta == maxDelta
  {
    var tree := MemoryMerkleTree(ops, encode, alg);
    if tree.Err? {
      return Err(tree.error);
    }
    var root := tree.value.Root();
    if ops != [] {
      Merkle.MthSize(alg, LogLeaves(alg, encode, ops));
    }
    return Ok(MemoryCheckpoint(RootText(HashValue(alg, root)), |ops|, seqNo, approvedAt, ttlSeconds, maxDelta));
  }

  /** The checkpoint's root and size are those of this operation log. */
  ghost predicate Anchors<Op>(c: MemoryCheckpoint, alg: Algorithm, encode: Encoder<Op>, ops: seq<Op>) {
    && AllEncode(encode, ops) && c.treeSize == |ops|
    && ParseRoot(c.root) == Some(HashValue(alg, RootOf(alg, LogLeaves(alg, encode, ops))))
  }

  predicate Shaped(prev: MemoryCheckpoint, next: MemoryCheckpoint) {
    && prev.seqNo >= 0 && next.seqNo >= 0 && prev.ttlSeconds >= 0 && next.ttlSeconds >= 0
    && ParseRoot(prev.root).Some? && ParseRoot(next.root).Some?
    && ParseRoot(prev.root).value.alg == ParseRoot(next.root).value.alg
  }

  /** The proof and the operations bind the advance. */
  ghost predicate Bound<Op>(encode: Encoder<Op>, prev: MemoryCheckpoint, next: MemoryCheckpoint, ops: seq<Op>,
                            proof: seq<Bytes>)
    requires Shaped(prev, next)
  {
    && |ops| == next.treeSize - prev.treeSize
    && AcceptsAppend(ParseRoot(prev.root).value.alg, ParseRoot(prev.root).value.digest,
                     ParseRoot(next.root).value.digest,
                     prev.treeSize, next.treeSize, proof, Encoded(encode, ops))
  }

  predicate WithinBudget(divide: Division, prev: MemoryCheckpoint, next: MemoryCheckpoint)
    requires prev.treeSize != 0
  {
    var budget := BudgetOf(next.maxDelta);
    budget.Some? && divide(next.treeSize - prev.treeSize, prev.treeSize) <= budget.value
  }

  /** The stages in order. */
  ghost function Verdict<Op>(divide: Division, encode: Encoder<Op>, prev: MemoryCheckpoint, next: MemoryCheckpoint,
                             ops: seq<Op>, proof: seq<Bytes>, now: int): DeltaReason {
    if !Shaped(prev, next) || !Bound(encode, prev, next, ops, proof) then Drift
    else if next.seqNo <= prev.seqNo then Rollback
    else if WindowExpired(next.approvedAt, next.ttlSeconds, now) then Expired
    else if !WithinBudget(divide, prev, next) then Budget
    else Accepted
  }

  method VerifyDelta<Op>(divide: Division, encode: Encoder<Op>, prev: MemoryCheckpoint, next: MemoryCheckpoint,
                         ops: seq<Op>, proof: seq<Bytes>, now: int)
    returns (reason: DeltaReason)
    ensures reason == Verdict(divide, encode, prev, next, ops, proof, now)
  {
    if prev.seqNo < 0 || prev.ttlSeconds < 0 || next.seqNo < 0 || next.ttlSeconds < 0 {
      return Drift;
    }
    if |ops| != next.treeSize - prev.treeSize {
      return Drift;
    }
    var old', new' := ParseRoot(prev.root), ParseRoot(next.root);
    if old'.None? || new'.None? {
      return Drift;
    }
    var alg := old'.value.alg;
    if alg != new'.value.alg {
      return Drift;
    }
    var bound := VerifyConsistencyAppend(alg, old'.value.digest, new'.value.digest, prev.treeSize, next.treeSize,
                                         proof, Encoded(encode, ops));
    if !bound {
      return Drift;
    }
    if next.seqNo <= prev.seqNo {
      return Rollback;
    }
    if WindowExpired(next.approvedAt, next.ttlSeconds, now) {
      return Expired;
    }
    if !WithinBudget(divide, prev, next) {
      return Budget;
    }
    return Accepted;
  }

  // ----- one advance

  lemma LogLeavesConcat<Op>(alg: Algorithm, encode: Encoder<Op>, a: seq<Op>, b: seq<Op>)
    requires AllEncode(encode, a) && AllEncode(encode, b)
    ensures AllEncode(encode, a + b)
    ensures LogLeaves(alg, encode, a + b) == LogLeaves(alg, encode, a) + LogLeaves(alg, encode, b)
  {
  }

  /** Against the log behind the previous checkpoint, an advance is bound exactly when the
      next checkpoint anchors that log with the offered operations appended, under the
      same algorithm, and the proof is the honest one. */
  lemma BoundIsExact<Op>(alg: Algorithm, encode: Encoder<Op>, prev: MemoryCheckpoint, next: MemoryCheckpoint,
                         log: seq<Op>, ops: seq<Op>, proof: seq<Bytes>)
    requires log != [] && Anchors(prev, alg, encode, log)
    requires Shaped(prev, next)
    ensures Bound(encode, prev, next, ops, proof) <==>
            && |log + ops| <= MAX_MERKLE_LEAVES
            && Anchors(next, alg, encode, log + ops)
            && proof == Consistency.ConsistencyProof(alg, LogLeaves(alg, encode, log + ops), |log|)
  {
    var ds, pres := LogLeaves(alg, encode, log), Encoded(encode, ops);
    AppendIsExact(alg, ds, ParseRoot(next.root).value.digest, next.treeSize, proof, pres);
    if AllEncode(encode, log + ops) {
      assert forall i :: 0 <= i < |ops| ==> ops[i] == (log + ops)[|log| + i];
    }
    if AllEncode(encode, ops) {
      LogLeavesConcat(alg, encode, log, ops);
      assert LogLeaves(alg, encode, ops) == LeafHashes(alg, Values(pres));
    }
  }

  // ----- runs of accepted advances

  datatype Advance<+Op> = Advance(next: MemoryCheckpoint, ops: seq<Op>, proof: seq<Bytes>, now: int)

  ghost predicate AcceptedRun<Op>(divide: Division, encode: Encoder<Op>, first: MemoryCheckpoint, run: seq<Advance<Op>>)
    decreases |run|
  {
    run == [] ||
    (Verdict(divide, encode, first, run[0].next, run[0].ops, run[0].proof, run[0].now) == Accepted &&
     AcceptedRun(divide, encode, run[0].next, run[1..]))
  }

  function Last<Op>(first: MemoryCheckpoint, run: seq<Advance<Op>>): MemoryCheckpoint {
    if run == [] then first else run[|run| - 1].next
  }

  function OpsAlong<Op>(run: seq<Advance<Op>>): seq<Op> {
    if run == [] then [] else run[0].ops + OpsAlong(run[1..])
  }

  /** After any run of accepted advances the last checkpoint anchors the first log followed
      by every offered operation: root, size and algorithm. */
  lemma RunAnchorsWholeLog<Op>(divide: Division, alg: Algorithm, encode: Encoder<Op>, first: MemoryCheckpoint,
                               log: seq<Op>, run: seq<Advance<Op>>)
    requires log != [] && Anchors(first, alg, encode, log) && AcceptedRun(divide, encode, first, run)
    ensures Anchors(Last(first, run), alg, encode, log + OpsAlong(run))
  {
    RunAnchors(divide, alg, encode, first, log, run, OpsAlong(run), log + OpsAlong(run), Last(first, run));
  }

  lemma {:induction false} RunAnchors<Op>(divide: Division, alg: Algorithm, encode: Encoder<Op>,
                                          first: MemoryCheckpoint, log: seq<Op>,
                                          run: seq<Advance<Op>>, ops: seq<Op>, whole: seq<Op>, last: MemoryCheckpoint)
    requires log != [] && Anchors(first, alg, encode, log) && AcceptedRun(divide, encode, first, run)
    requires ops == OpsAlong(run) && whole == log + ops && last == Last(first, run)
    ensures Anchors(last, alg, encode, whole)
    decreases |run|
  {
    if run == [] {
      SameLog(last, alg, encode, log, whole);
    } else {
      var a, rest := run[0], OpsAlong(run[1..]);
      var grown := log + a.ops;
      StepAnchors(divide, alg, encode, first, a, log);
      SameLogParts(log, a.ops, rest, ops, whole);
      LastOfRest(first, run);
      RunAnchors(divide, alg, encode, a.next, grown, run[1..], rest, whole, last);
    }
  }

  lemma SameLog<Op>(c: MemoryCheckpoint, alg: Algorithm, encode: Encoder<Op>, log: seq<Op>, whole: seq<Op>)
    requires Anchors(c, alg, encode, log) && whole == log + []
    ensures Anchors(c, alg, encode, whole)
  {
    assert whole == log;
  }

  lemma SameLogParts<T>(log: seq<T>, step: seq<T>, rest: seq<T>, ops: seq<T>, whole: seq<T>)
    requires ops == step + rest && whole == log + ops
    ensures whole == (log + step) + rest
  {
  }

  lemma LastOfRest<Op>(first: MemoryCheckpoint, run: seq<Advance<Op>>)
    requires run != []
    ensures Last(first, run) == Last(run[0].next, run[1..])
  {
  }

  lemma StepAnchors<Op>(divide: Division, alg: Algorithm, encode: Encoder<Op>, prev: MemoryCheckpoint, a: Advance<Op>,
                        log: seq<Op>)
    requires log != [] && Anchors(prev, alg, encode, log)
    requires Verdict(divide, encode, prev, a.next, a.ops, a.proof, a.now) == Accepted
    ensures Anchors(a.next, alg, encode, log + a.ops)
  {
    BoundIsExact(alg, encode, prev, a.next, log, a.ops, a.proof);
  }

  /** The sequence number rises by at least one with every advance. */
  lemma {:induction false} RunRaisesSequence<Op>(divide: Division, encode: Encoder<Op>, first: MemoryCheckpoint,
                                                 run: seq<Advance<Op>>)
    requires AcceptedRun(divide, encode, first, run)
    ensures first.seqNo + |run| <= Last(first, run).seqNo
    decreases |run|
  {
    if run != [] {
      StepRaisesSequence(divide, encode, first, run);
      LastOfRest(first, run);
      RunRaisesSequence(divide, encode, run[0].next, run[1..]);
    }
  }

  lemma StepRaisesSequence<Op>(divide: Division, encode: Encoder<Op>, first: MemoryCheckpoint, run: seq<Advance<Op>>)
    requires run != [] && AcceptedRun(divide, encode, first, run)
    ensures first.seqNo < run[0].next.seqNo && AcceptedRun(divide, encode, run[0].next, run[1..])
  {
  }

  // ----- the state over a run

  /** State after folding each advance onto the state before it. */
  function FoldAlong<K(==), V>(state: map<K, V>, run: seq<Advance<KvOp<K, V>>>): map<K, V>
    decreases |run|
  {
    if run == [] then state else FoldAlong(FoldKvFrom(state, run[0].ops), run[1..])
  }

  lemma {:induction false} FoldAlongIsFold<K, V>(state: map<K, V>, run: seq<Advance<KvOp<K, V>>>)
    ensures FoldAlong(state, run) == FoldKvFrom(state, OpsAlong(run))
    decreases |run|
  {
    if run != [] {
      FoldAlongIsFold(FoldKvFrom(state, run[0].ops), run[1..]);
      FoldInParts(state, run[0].ops, OpsAlong(run[1..]));
    }
  }

  /** Folding the deltas one after another is folding the whole log. */
  lemma DeltasFoldToWholeLog<K, V>(log: seq<KvOp<K, V>>, run: seq<Advance<KvOp<K, V>>>)
    ensures FoldAlong(FoldKvFrom(map[], log), run) == FoldKvFrom(map[], log + OpsAlong(run))
  {
    FoldAlongIsFold(FoldKvFrom(map[], log), run);
    FoldInParts(map[], log, OpsAlong(run));
  }
}
