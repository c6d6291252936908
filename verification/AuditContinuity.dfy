/** Audit-chain checkpoints: sequential hash chains, Merkle logs, and what a run of
    accepted advances says about the log that was signed first. */
module AuditContinuity {
  import opened Wrappers
  import Bits
  import opened Hashing
  import opened Merkle
  import opened Consistency
  import opened ConsistencyExact
  import opened Append
  import opened MerkleTree
  import opened Checkpoints

  /** The bytes of "am-trace-entry" and a zero byte. */
  const ENTRY_TAG: Bytes :=
    [Lit(0x61), Lit(0x6D), Lit(0x2D), Lit(0x74), Lit(0x72), Lit(0x61), Lit(0x63), Lit(0x65), Lit(0x2D),
     Lit(0x65), Lit(0x6E), Lit(0x74), Lit(0x72), Lit(0x79), Lit(0)]

  function EntryLeaf(alg: Algorithm, entry: Bytes): Bytes {
    LeafHash(alg, ENTRY_TAG + entry)
  }

  function EntryLeaves(alg: Algorithm, entries: seq<Bytes>): (leaves: seq<Bytes>)
    ensures |leaves| == |entries| && AllDigests(leaves)
    ensures forall i :: 0 <= i < |entries| ==> leaves[i] == EntryLeaf(alg, entries[i])
  {
    seq(|entries|, i requires 0 <= i < |entries| => EntryLeaf(alg, entries[i]))
  }

  /** Chain head after folding the leaves onto an existing head. */
  function Extend(alg: Algorithm, root: Bytes, leaves: seq<Bytes>): (chain: Bytes)
    ensures |leaves| > 0 ==> |chain| == DIGEST_SIZE
  {
    if leaves == [] then root
    else ChainHash(alg, Extend(alg, root, leaves[..|leaves| - 1]), leaves[|leaves| - 1])
  }

  function ChainRoot(alg: Algorithm, leaves: seq<Bytes>): (chain: Bytes) {
    if leaves == [] then EmptyTree(alg) else Extend(alg, leaves[0], leaves[1..])
  }

  method ExtendHashChain(alg: Algorithm, root: Bytes, appended: seq<Bytes>) returns (chain: Bytes)
    ensures chain == Extend(alg, root, appended)
  {
    chain := root;
    for i := 0 to |appended|
      invariant chain == Extend(alg, root, appended[..i])
    {
      assert appended[..i + 1][..i] == appended[..i];
      chain := ChainHash(alg, chain, appended[i]);
    }
    assert appended[..|appended|] == appended;
  }

  method HashChainRoot(alg: Algorithm, entryLeaves: seq<Bytes>) returns (chain: Bytes)
    ensures chain == ChainRoot(alg, entryLeaves)
  {
    if entryLeaves == [] {
      return EmptyTree(alg);
    }
    chain := ExtendHashChain(alg, entryLeaves[0], entryLeaves[1..]);
  }

  // ----- chains bind their leaves

  lemma {:induction false} ExtendTwice(alg: Algorithm, root: Bytes, a: seq<Bytes>, b: seq<Bytes>)
    ensures Extend(alg, Extend(alg, root, a), b) == Extend(alg, root, a + b)
  {
    if b == [] {
      assert a + b == a;
    } else {
      var j := |b| - 1;
      ExtendTwice(alg, root, a, b[..j]);
      assert (a + b)[..|a + b| - 1] == a + b[..j];
    }
  }

  /** Extending the root of a non-empty log is the root of the extended log. */
  lemma ExtendIsAppend(alg: Algorithm, a: seq<Bytes>, b: seq<Bytes>)
    requires a != []
    ensures Extend(alg, ChainRoot(alg, a), b) == ChainRoot(alg, a + b)
  {
    ExtendTwice(alg, a[0], a[1..], b);
    assert (a + b)[1..] == a[1..] + b;
  }

  lemma {:induction false} ExtendExact(alg: Algorithm, r: Bytes, a: seq<Bytes>, s: Bytes, b: seq<Bytes>)
    requires |a| == |b| && |r| == |s|
    ensures Extend(alg, r, a) == Extend(alg, s, b) <==> r == s && a == b
  {
    if a != [] {
      var j := |a| - 1;
      ExtendExact(alg, r, a[..j], s, b[..j]);
      ChainInjective(alg, Extend(alg, r, a[..j]), a[j], alg, Extend(alg, s, b[..j]), b[j]);
      assert a == a[..j] + [a[j]] && b == b[..j] + [b[j]];
    }
  }

  /** Logs of one length whose first leaves are digests share a chain root only if equal. */
  lemma ChainRootExact(alg: Algorithm, a: seq<Bytes>, b: seq<Bytes>)
    requires |a| == |b| && (a != [] ==> |a[0]| == |b[0]| == DIGEST_SIZE)
    ensures ChainRoot(alg, a) == ChainRoot(alg, b) <==> a == b
  {
    if a != [] {
      ExtendExact(alg, a[0], a[1..], b[0], b[1..]);
      assert a == [a[0]] + a[1..] && b == [b[0]] + b[1..];
    }
  }

  /** Over entry leaves the chain root binds the whole log, whatever the two lengths. */
  lemma {:induction false} ChainBindsEntries(a: Algorithm, es: seq<Bytes>, b: Algorithm, fs: seq<Bytes>)
    ensures ChainRoot(a, EntryLeaves(a, es)) == ChainRoot(b, EntryLeaves(b, fs)) <==> a == b && es == fs
    decreases |es|
  {
    if ChainRoot(a, EntryLeaves(a, es)) == ChainRoot(b, EntryLeaves(b, fs)) {
      if es == [] || fs == [] || |es| == 1 || |fs| == 1 {
        ShortChain(a, es, b, fs);
      } else {
        var i, j := |es| - 1, |fs| - 1;
        LongChains(a, es, ChainRoot(a, EntryLeaves(a, es[..i])), b, fs, ChainRoot(b, EntryLeaves(b, fs[..j])));
        ChainBindsEntries(a, es[..i], b, fs[..j]);
        assert es == es[..i] + [es[i]] && fs == fs[..j] + [fs[j]];
      }
    }
  }

  lemma LongChains(a: Algorithm, es: seq<Bytes>, chain: Bytes, b: Algorithm, fs: seq<Bytes>, chain': Bytes)
    requires |es| > 1 && |fs| > 1
    requires chain == ChainRoot(a, EntryLeaves(a, es[..|es| - 1]))
    requires chain' == ChainRoot(b, EntryLeaves(b, fs[..|fs| - 1]))
    requires ChainRoot(a, EntryLeaves(a, es)) == ChainRoot(b, EntryLeaves(b, fs))
    ensures a == b && chain == chain' && es[|es| - 1] == fs[|fs| - 1]
  {
    var e, f := es[|es| - 1], fs[|fs| - 1];
    ChainLast(a, es);
    ChainLast(b, fs);
    ChainInjective(a, chain, EntryLeaf(a, e), b, chain', EntryLeaf(b, f));
    LeafInjective(a, ENTRY_TAG + e, b, ENTRY_TAG + f);
    SameCut(ENTRY_TAG, e, ENTRY_TAG, f);
  }

  lemma ChainLast(alg: Algorithm, es: seq<Bytes>)
    requires |es| > 1
    ensures ChainRoot(alg, EntryLeaves(alg, es)) ==
            ChainHash(alg, ChainRoot(alg, EntryLeaves(alg, es[..|es| - 1])), EntryLeaf(alg, es[|es| - 1]))
    ensures |ChainRoot(alg, EntryLeaves(alg, es[..|es| - 1]))| == DIGEST_SIZE
  {
    var ls, ms := EntryLeaves(alg, es), EntryLeaves(alg, es[..|es| - 1]);
    assert ls[1..][..|ls[1..]| - 1] == ms[1..];
  }

  lemma ShortChain(a: Algorithm, es: seq<Bytes>, b: Algorithm, fs: seq<Bytes>)
    requires |es| <= 1 || |fs| <= 1
    requires ChainRoot(a, EntryLeaves(a, es)) == ChainRoot(b, EntryLeaves(b, fs))
    ensures a == b && es == fs
  {
    var x := if |es| == 1 then ENTRY_TAG + es[0] else [];
    var y := if |fs| == 1 then ENTRY_TAG + fs[0] else [];
    if |es| > 1 {
      ChainLast(a, es);
      DomainsSeparate(b, y, a, [], [], a, ChainRoot(a, EntryLeaves(a, es[..|es| - 1])), EntryLeaf(a, es[|es| - 1]));
    } else if |fs| > 1 {
      ChainLast(b, fs);
      DomainsSeparate(a, x, b, [], [], b, ChainRoot(b, EntryLeaves(b, fs[..|fs| - 1])), EntryLeaf(b, fs[|fs| - 1]));
    } else if |es| == 1 && |fs| == 1 {
      LeafInjective(a, x, b, y);
      SameCut(ENTRY_TAG, es[0], ENTRY_TAG, fs[0]);
    } else if es == [] && fs == [] {
      HashInjective(a, [], b, []);
    } else {
      DomainsSeparate(a, y, b, [], [], b, [], []);
      DomainsSeparate(b, x, a, [], [], a, [], []);
    }
  }

  /** The chain prefix byte keeps a log of two or more entries from ever sharing its root
      with a Merkle tree over leaf digests. */
  lemma ChainIsNoTree(a: Algorithm, es: seq<Bytes>, b: Algorithm, ps: seq<Bytes>)
    requires |es| > 1
    ensures ChainRoot(a, EntryLeaves(a, es)) != RootOf(b, LeafHashes(b, ps))
  {
    ChainLast(a, es);
    var chain, leaf := ChainRoot(a, EntryLeaves(a, es[..|es| - 1])), EntryLeaf(a, es[|es| - 1]);
    if |ps| <= 1 {
      DomainsSeparate(b, if ps == [] then [] else ps[0], b, [], [], a, chain, leaf);
    } else {
      var ds := LeafHashes(b, ps);
      var k := Bits.Split(|ds|);
      DomainsSeparate(b, [], b, Mth(b, ds[..k]), Mth(b, ds[k..]), a, chain, leaf);
    }
  }

  // ----- adjudicating one advance

  datatype TraceKind = HashChained | MerkleLog | OtherTrace

  datatype AuditCheckpoint = AuditCheckpoint(root: RootText, treeSize: int, seqNo: int, observedAt: Timestamp,
                                             ttlSeconds: int)

  datatype ContinuityReason = Accepted | Discontinuity | Rollback | Expired

  /** The evidence offered with an advance: either container may be absent. */
  datatype Evidence = Evidence(consistencyProof: Option<seq<Bytes>>, appendedLeaves: Option<seq<Preimage>>)

  function ProofOf(e: Evidence): seq<Bytes> {
    if e.consistencyProof.Some? then e.consistencyProof.value else []
  }

  function AppendedOf(e: Evidence): seq<Preimage> {
    if e.appendedLeaves.Some? then e.appendedLeaves.value else []
  }

  predicate Shaped(signed: AuditCheckpoint, current: AuditCheckpoint) {
    && signed.seqNo >= 0 && current.seqNo >= 0 && signed.ttlSeconds >= 0 && current.ttlSeconds >= 0
    && ParseRoot(signed.root).Some? && ParseRoot(current.root).Some?
    && ParseRoot(signed.root).value.alg == ParseRoot(current.root).value.alg
    && 0 < signed.treeSize <= current.treeSize <= MAX_MERKLE_LEAVES
  }

  /** Stage 1: the evidence for the trace type proves the advance. */
  ghost predicate Proven(kind: TraceKind, signed: AuditCheckpoint, current: AuditCheckpoint, e: Evidence)
    requires Shaped(signed, current)
  {
    var alg, old', new' :=
      ParseRoot(signed.root).value.alg, ParseRoot(signed.root).value.digest, ParseRoot(current.root).value.digest;
    match kind
    case MerkleLog => Accepts(alg, old', new', signed.treeSize, current.treeSize, ProofOf(e))
    case HashChained =>
      && |AppendedOf(e)| == current.treeSize - signed.treeSize && AllBytes(AppendedOf(e))
      && Extend(alg, old', Values(AppendedOf(e))) == new'
    case OtherTrace => false
  }

  /** Stages 1 to 3 in order. */
  ghost function Verdict(kind: TraceKind, signed: AuditCheckpoint, current: AuditCheckpoint, e: Evidence,
                         now: int): ContinuityReason {
    if !Shaped(signed, current) || !Proven(kind, signed, current, e) then Discontinuity
    else if current.seqNo < signed.seqNo then Rollback
    else if current.seqNo == signed.seqNo && current.treeSize != signed.treeSize then Rollback
    else if WindowExpired(current.observedAt, current.ttlSeconds, now) then Expired
    else Accepted
  }

  method VerifyContinuity(kind: TraceKind, signed: AuditCheckpoint, current: AuditCheckpoint, e: Evidence, now: int)
    returns (reason: ContinuityReason)
    ensures reason == Verdict(kind, signed, current, e, now)
  {
    if signed.seqNo < 0 || signed.ttlSeconds < 0 || current.seqNo < 0 || current.ttlSeconds < 0 {
      return Discontinuity;
    }
    var old', new' := ParseRoot(signed.root), ParseRoot(current.root);
    if old'.None? || new'.None? {
      return Discontinuity;
    }
    var alg := old'.value.alg;
    if alg != new'.value.alg {
      return Discontinuity;
    }
    if signed.treeSize < 0 || current.treeSize < 0 {
      return Discontinuity;
    }
    if current.treeSize > MAX_MERKLE_LEAVES {
      return Discontinuity;
    }
    if current.treeSize < signed.treeSize {
      return Discontinuity;
    }
    if signed.treeSize == 0 {
      return Discontinuity;
    }
    match kind {
      case MerkleLog =>
        var ok := VerifyConsistency(alg, old'.value.digest, new'.value.digest, signed.treeSize, current.treeSize,
                                    ProofOf(e));
        if !ok {
          return Discontinuity;
        }
      case HashChained =>
        var appended := AppendedOf(e);
        if |appended| != current.treeSize - signed.treeSize {
          return Discontinuity;
        }
        if exists i :: 0 <= i < |appended| && appended[i].None? {
          return Discontinuity;
        }
        var chain := ExtendHashChain(alg, old'.value.digest, Values(appended));
        if chain != new'.value.digest {
          return Discontinuity;
        }
      case OtherTrace =>
        return Discontinuity;
    }
    if current.seqNo < signed.seqNo {
      return Rollback;
    }
    if current.seqNo == signed.seqNo && current.treeSize != signed.treeSize {
      return Rollback;
    }
    if WindowExpired(current.observedAt, current.ttlSeconds, now) {
      return Expired;
    }
    return Accepted;
  }

  // ----- runs of accepted advances

  datatype Advance = Advance(current: AuditCheckpoint, evidence: Evidence, now: int)

  ghost predicate AcceptedRun(kind: TraceKind, first: AuditCheckpoint, run: seq<Advance>)
    decreases |run|
  {
    run == [] ||
    (Verdict(kind, first, run[0].current, run[0].evidence, run[0].now) == Accepted &&
     AcceptedRun(kind, run[0].current, run[1..]))
  }

  function Last(first: AuditCheckpoint, run: seq<Advance>): AuditCheckpoint {
    if run == [] then first else run[|run| - 1].current
  }

  /** The digest in a checkpoint's root under alg; a root of another form has none. */
  predicate HasRoot(c: AuditCheckpoint, alg: Algorithm, digest: Bytes) {
    ParseRoot(c.root) == Some(HashValue(alg, digest))
  }

  lemma LastOfRest(first: AuditCheckpoint, run: seq<Advance>)
    requires run != []
    ensures Last(first, run) == Last(run[0].current, run[1..])
  {
  }

  /** Size never shrinks, the sequence number never goes back, and it moves whenever the
      size does. */
  lemma {:induction false} RunIsMonotone(kind: TraceKind, first: AuditCheckpoint, run: seq<Advance>)
    requires AcceptedRun(kind, first, run)
    ensures var last := Last(first, run);
            && first.treeSize <= last.treeSize && first.seqNo <= last.seqNo
            && (first.treeSize != last.treeSize ==> first.seqNo < last.seqNo)
    decreases |run|
  {
    if run != [] {
      RunIsMonotone(kind, run[0].current, run[1..]);
      LastOfRest(first, run);
    }
  }

  /** All leaves appended along a hash-chained run. */
  ghost function AppendedAlong(run: seq<Advance>): (leaves: seq<Bytes>)
    requires forall i :: 0 <= i < |run| ==> AllBytes(AppendedOf(run[i].evidence))
  {
    if run == [] then [] else Values(AppendedOf(run[0].evidence)) + AppendedAlong(run[1..])
  }

  lemma {:induction false} ChainedRunEvidence(first: AuditCheckpoint, run: seq<Advance>)
    requires AcceptedRun(HashChained, first, run)
    ensures forall i :: 0 <= i < |run| ==> AllBytes(AppendedOf(run[i].evidence))
    decreases |run|
  {
    if run != [] {
      ChainedRunEvidence(run[0].current, run[1..]);
      forall i | 0 <= i < |run|
        ensures AllBytes(AppendedOf(run[i].evidence))
      {
        assert i > 0 ==> run[i] == run[1..][i - 1];
      }
    }
  }

  /** The checkpoint has the size and the chain root of the log. */
  predicate Chains(c: AuditCheckpoint, alg: Algorithm, log: seq<Bytes>) {
    |log| == c.treeSize && HasRoot(c, alg, ChainRoot(alg, log))
  }

  lemma StepChains(prev: AuditCheckpoint, a: Advance, alg: Algorithm, log: seq<Bytes>, leaves: seq<Preimage>)
    requires Verdict(HashChained, prev, a.current, a.evidence, a.now) == Accepted
    requires log != [] && Chains(prev, alg, log) && leaves == AppendedOf(a.evidence)
    ensures AllBytes(leaves) && Chains(a.current, alg, log + Values(leaves))
  {
    ExtendIsAppend(alg, log, Values(leaves));
  }

  lemma {:induction false} RunChains(first: AuditCheckpoint, run: seq<Advance>, alg: Algorithm, log: seq<Bytes>,
                                     appended: seq<Bytes>, grown: seq<Bytes>, last: AuditCheckpoint)
    requires AcceptedRun(HashChained, first, run) && log != [] && Chains(first, alg, log)
    requires forall i :: 0 <= i < |run| ==> AllBytes(AppendedOf(run[i].evidence))
    requires appended == AppendedAlong(run) && grown == log + appended && last == Last(first, run)
    ensures Chains(last, alg, grown)
    decreases |run|
  {
    if run == [] {
      assert grown == log;
    } else {
      var leaves, rest := Values(AppendedOf(run[0].evidence)), AppendedAlong(run[1..]);
      var longer := log + leaves;
      StepChains(first, run[0], alg, log, AppendedOf(run[0].evidence));
      LastOfRest(first, run);
      AppendedFirst(run, leaves, rest);
      AppendTwice(log, leaves, rest, appended, grown, longer);
      RunChains(run[0].current, run[1..], alg, longer, rest, grown, last);
    }
  }

  lemma AppendTwice(log: seq<Bytes>, leaves: seq<Bytes>, rest: seq<Bytes>, appended: seq<Bytes>, grown: seq<Bytes>,
                    longer: seq<Bytes>)
    requires appended == leaves + rest && grown == log + appended && longer == log + leaves
    ensures grown == longer + rest
  {
  }

  lemma AppendedFirst(run: seq<Advance>, leaves: seq<Bytes>, rest: seq<Bytes>)
    requires run != [] && forall i :: 0 <= i < |run| ==> AllBytes(AppendedOf(run[i].evidence))
    requires leaves == Values(AppendedOf(run[0].evidence)) && rest == AppendedAlong(run[1..])
    ensures AppendedAlong(run) == leaves + rest
  {
  }

  /** A hash-chained run: the last root is the chain of the first log and every leaf
      appended since, in order. */
  lemma {:induction false} ChainedRunExtendsLog(first: AuditCheckpoint, run: seq<Advance>, alg: Algorithm,
                                                log: seq<Bytes>)
    requires AcceptedRun(HashChained, first, run) && log != [] && Chains(first, alg, log)
    ensures forall i :: 0 <= i < |run| ==> AllBytes(AppendedOf(run[i].evidence))
    ensures Chains(Last(first, run), alg, log + AppendedAlong(run))
  {
    ChainedRunEvidence(first, run);
    RunChains(first, run, alg, log, AppendedAlong(run), log + AppendedAlong(run), Last(first, run));
  }

  /** Hence any log behind the last checkpoint starts with the log that was signed first. */
  lemma ChainedRunKeepsPrefix(first: AuditCheckpoint, run: seq<Advance>, alg: Algorithm, log: seq<Bytes>,
                              final: seq<Bytes>)
    requires AcceptedRun(HashChained, first, run) && log != [] && Chains(first, alg, log)
    requires Chains(Last(first, run), alg, final)
    requires |log[0]| == DIGEST_SIZE && (final != [] ==> |final[0]| == DIGEST_SIZE)
    ensures log <= final
  {
    ChainedRunExtendsLog(first, run, alg, log);
    ChainRootExact(alg, log + AppendedAlong(run), final);
  }

  /** The checkpoint's root is the head of the first leaves of the log, as many as it counts. */
  ghost predicate HeadsPrefix(c: AuditCheckpoint, alg: Algorithm, log: seq<Bytes>) {
    0 < c.treeSize <= |log| && HasRoot(c, alg, Mth(alg, log[..c.treeSize]))
  }

  lemma StepHeadsPrefix(prev: AuditCheckpoint, a: Advance, alg: Algorithm, log: seq<Bytes>)
    requires Verdict(MerkleLog, prev, a.current, a.evidence, a.now) == Accepted
    requires AllDigests(log) && HeadsPrefix(a.current, alg, log)
    ensures HeadsPrefix(prev, alg, log)
  {
    var leaves := log[..a.current.treeSize];
    ConsistencyIsExact(alg, leaves, prev.treeSize, ParseRoot(prev.root).value.digest, ProofOf(a.evidence));
    assert leaves[..prev.treeSize] == log[..prev.treeSize];
  }

  lemma {:induction false} RunHeadsPrefix(first: AuditCheckpoint, run: seq<Advance>, alg: Algorithm, log: seq<Bytes>)
    requires AcceptedRun(MerkleLog, first, run) && AllDigests(log) && HeadsPrefix(Last(first, run), alg, log)
    ensures HeadsPrefix(first, alg, log)
    decreases |run|
  {
    if run != [] {
      LastOfRest(first, run);
      RunHeadsPrefix(run[0].current, run[1..], alg, log);
      StepHeadsPrefix(first, run[0], alg, log);
    }
  }

  /** A merkle-log run: every checkpoint's root is the head of the first leaves of any log
      behind the last one, so the first signed log is its positional prefix. */
  lemma MerkleRunKeepsPrefix(first: AuditCheckpoint, run: seq<Advance>, alg: Algorithm, final: seq<Bytes>)
    requires AcceptedRun(MerkleLog, first, run) && first.treeSize > 0
    requires AllDigests(final) && |final| == Last(first, run).treeSize
    requires HasRoot(Last(first, run), alg, RootOf(alg, final))
    ensures HeadsPrefix(first, alg, final)
    ensures forall log :: |log| == first.treeSize && AllDigests(log) && HasRoot(first, alg, Mth(alg, log)) ==>
              log <= final
  {
    RunIsMonotone(MerkleLog, first, run);
    assert final[..|final|] == final;
    RunHeadsPrefix(first, run, alg, final);
    forall log | |log| == first.treeSize && AllDigests(log) && HasRoot(first, alg, Mth(alg, log))
      ensures log <= final
    {
      MthInjective(alg, log, final[..first.treeSize]);
    }
  }
}
