/** When an advance of an audit chain is accepted, and why it is refused otherwise, read off
    the log, the dates and the numbers alone. */
module ContinuityLaws {
  import opened Wrappers
  import opened Hashing
  import opened Merkle
  import opened Append
  import opened Checkpoints
  import opened AuditContinuity
  import opened DeltaLaws
  import Consistency
  import ConsistencyExact

  /** Sequence numbers and lifetimes are no negative numbers. */
  predicate Numbered(signed: AuditCheckpoint, current: AuditCheckpoint) {
    signed.seqNo >= 0 && current.seqNo >= 0 && signed.ttlSeconds >= 0 && current.ttlSeconds >= 0
  }

  /** The sequence number does not fall, and rises when the size changes. */
  predicate Advances(signed: AuditCheckpoint, current: AuditCheckpoint) {
    signed.seqNo <= current.seqNo && (signed.seqNo == current.seqNo ==> signed.treeSize == current.treeSize)
  }

  /** The reasons that follow, once it is known whether the evidence proves the advance. */
  ghost predicate Explains(reason: ContinuityReason, proven: bool, signed: AuditCheckpoint, current: AuditCheckpoint,
                           now: int) {
    var open := Current(current.observedAt, current.ttlSeconds, now);
    && (reason == Discontinuity <==> !proven)
    && (reason == Rollback <==> proven && !Advances(signed, current))
    && (reason == Expired <==> proven && Advances(signed, current) && !open)
    && (reason == Accepted <==> proven && Advances(signed, current) && open)
  }

  lemma ReasonsFollow(kind: TraceKind, signed: AuditCheckpoint, current: AuditCheckpoint, e: Evidence, now: int)
    ensures Explains(Verdict(kind, signed, current, e, now),
                     Shaped(signed, current) && Proven(kind, signed, current, e), signed, current, now)
  {
    CurrentIsUnexpired(current.observedAt, current.ttlSeconds, now);
  }

  /** The leaves offered, none when there is no container. */
  function Offered(e: Evidence): seq<Preimage> {
    match e.appendedLeaves
    case Some(leaves) => leaves
    case None => []
  }

  function OfferedProof(e: Evidence): seq<Bytes> {
    match e.consistencyProof
    case Some(proof) => proof
    case None => []
  }

  /** The current checkpoint is that of the log and the offered leaves. */
  ghost predicate HonestChain(alg: Algorithm, log: seq<Bytes>, current: AuditCheckpoint, e: Evidence)
  {
    && AllBytes(Offered(e)) && current.treeSize == |log| + |Offered(e)| <= 1_000_000
    && current.root == RootText(HashValue(alg, ChainRoot(alg, log + Values(Offered(e)))))
  }

  /** Every reason, for a hash-chained advance from a checkpoint of a known log. */
  lemma ChainReasons(signed: AuditCheckpoint, current: AuditCheckpoint, e: Evidence, now: int, alg: Algorithm,
                     log: seq<Bytes>)
    requires log != [] && Chains(signed, alg, log)
    ensures Explains(Verdict(HashChained, signed, current, e, now),
                     Numbered(signed, current) && HonestChain(alg, log, current, e), signed, current, now)
  {
    ReasonsFollow(HashChained, signed, current, e, now);
    if AllBytes(Offered(e)) {
      ExtendIsAppend(alg, log, Values(Offered(e)));
    }
  }

  /** The signed checkpoint is that of the first leaves of the log behind the current one, and
      the proof is the one the log's tree gives. */
  ghost predicate HonestPrefix(alg: Algorithm, final: seq<Bytes>, signed: AuditCheckpoint, e: Evidence)
  {
    && 0 < signed.treeSize <= |final| <= 1_000_000
    && signed.root == RootText(HashValue(alg, Mth(alg, final[..signed.treeSize])))
    && OfferedProof(e) == Consistency.ConsistencyProof(alg, final, signed.treeSize)
  }

  /** Every reason, for an advance of a Merkle log to a checkpoint of a known log. */
  lemma MerkleReasons(signed: AuditCheckpoint, current: AuditCheckpoint, e: Evidence, now: int, alg: Algorithm,
                      final: seq<Bytes>)
    requires final != [] && AllDigests(final) && current.treeSize == |final|
    requires current.root == RootText(HashValue(alg, Mth(alg, final)))
    ensures Explains(Verdict(MerkleLog, signed, current, e, now),
                     Numbered(signed, current) && HonestPrefix(alg, final, signed, e), signed, current, now)
  {
    ReasonsFollow(MerkleLog, signed, current, e, now);
    MthSize(alg, final);
    if 0 < signed.treeSize <= |final| {
      MthSize(alg, final[..signed.treeSize]);
      var root := ParseRoot(signed.root);
      if root.Some? {
        ConsistencyExact.ConsistencyIsExact(alg, final, signed.treeSize, root.value.digest, OfferedProof(e));
      }
    }
  }

  /** Both roots are digests of one algorithm, no number is negative, and the sizes rise from
      above zero to within the cap. */
  predicate Comparable(signed: AuditCheckpoint, current: AuditCheckpoint) {
    && Numbered(signed, current) && 0 < signed.treeSize <= current.treeSize <= 1_000_000
    && match (signed.root, current.root)
       case (RootText(s), RootText(c)) => s.alg == c.alg && |s.digest| == |c.digest| == 32
       case _ => false
  }

  /** From any checkpoint, of a known log or not: what cannot be compared does not continue,
      and of the other reasons the first that applies is given. */
  lemma ReasonsInOrder(kind: TraceKind, signed: AuditCheckpoint, current: AuditCheckpoint, e: Evidence, now: int)
    ensures !Comparable(signed, current) ==> Verdict(kind, signed, current, e, now) == Discontinuity
    ensures exists proven :: Explains(Verdict(kind, signed, current, e, now), proven, signed, current, now)
  {
    ReasonsFollow(kind, signed, current, e, now);
  }

  /** A trace of any other kind never advances. */
  lemma OtherTraceStays(signed: AuditCheckpoint, current: AuditCheckpoint, e: Evidence, now: int)
    ensures Verdict(OtherTrace, signed, current, e, now) == Discontinuity
  {
  }

  /** Every checkpoint of an accepted run was within its own window when it was accepted. */
  lemma {:induction false} RunIsCurrent(kind: TraceKind, first: AuditCheckpoint, run: seq<Advance>, i: nat)
    requires AcceptedRun(kind, first, run) && i < |run|
    ensures kind != OtherTrace && Current(run[i].current.observedAt, run[i].current.ttlSeconds, run[i].now)
    decreases |run|
  {
    ReasonsFollow(kind, first, run[0].current, run[0].evidence, run[0].now);
    if i > 0 {
      RunIsCurrent(kind, run[0].current, run[1..], i - 1);
    }
  }
}
