/** The overall verdict on a manifest: the checks in order, exactly when it is VALID, and
    how demands and time change it. */
module Verdict {
  import opened Wrappers
  import opened Checkpoints
  import opened Hashing
  import C = AuditContinuity
  import D = Delegation
  import A = Approvals
  import S = Statements
  import K = Signatures

  // ----- what is verified

  /** A date field: left out, not readable, or an instant in UTC. */
  datatype Date = Absent | Unreadable | At(instant: int)

  /** One artifact: the hash the manifest binds and the one observed at run time. */
  datatype Binding = Binding(field: string, bound: Option<string>, running: Option<string>)

  /** The memory baseline: a snapshot that is approved for some time. */
  datatype Baseline = Baseline(snapshot: Binding, approvedAt: Date, ttlSeconds: Option<int>)

  /** The decision trace: the signed audit chain, how many entries the issuer signed, and of
      what kind the chain is. */
  datatype Trace = Trace(root: Binding, entryCount: Option<int>, kind: C.TraceKind)

  datatype ScanResult = Clean | Flagged | NotScanned

  datatype PoisoningScan = PoisoningScan(subject: Option<string>, result: Option<ScanResult>)

  /** A hash as text: `sha256:` and the lowercase hex of a digest, or anything else. */
  datatype HashText = Sha256Text(digest: Bytes) | OtherText

  /** The attestation block.  The reported hash is None when missing or not text. */
  datatype Attestation = NoBlock | NotAnObject | Block(reported: Option<HashText>, keySealed: bool)

  /** Where transparency evidence rides: a log entry in the manifest, whose identifier is
      None when it is not text, or the receipts of an envelope by digest, None for one
      that is not bytes. */
  datatype Transparency = NoEntry | Entry(id: Option<string>) | Receipts(digests: seq<Option<string>>)

  predicate Ascii(s: string) {
    forall i :: 0 <= i < |s| ==> s[i] < '\U{80}'
  }

  /** The parts of a manifest the verdict reads.  The issuer is the agent id when no issuer
      is given; the hash is what an attestation report must bind, None when there is no
      canonical form to take it over.  Among the artifacts stands the tool catalog twice: its
      hash, and the root computed from the listed tools. */
  datatype Manifest = Manifest(
    versionSupported: bool,
    id: string,
    issuer: Option<string>,
    hash: Option<HashText>,
    schemaViolations: seq<string>,
    issuedAt: Date,
    expiresAt: Date,
    artifacts: seq<Binding>,
    policyBundle: Binding,
    enforcementMode: Option<string>,
    assuranceFlagged: bool,
    corpusRoot: Option<string>,
    scan: Option<PoisoningScan>,
    baseline: Option<Baseline>,
    trace: Trace,
    chain: seq<D.RawHop>,
    hitl: Option<A.HitlRecord>,
    attestation: Attestation,
    traceKeySealed: bool,
    transparency: Transparency,
    compositionOnly: bool)

  /** Evidence that the running audit chain extends the signed one.  Nodes and leaves are
      decoded; a malformed one is the empty byte string. */
  datatype Continuity = Continuity(
    signedSize: int,
    signedSeq: int,
    currentSize: int,
    currentSeq: int,
    ttlSeconds: int,
    observedAt: Option<Timestamp>,
    proof: seq<Bytes>,
    leaves: seq<Bytes>)

  /** The relying party's demands and evidence. */
  datatype Context = Context(
    now: int,
    revoked: set<string>,
    level: int,
    strictArtifacts: bool,
    enforceHitl: bool,
    requireDelegation: bool,
    enforceAttestation: bool,
    requireTransparency: bool,
    enforcementMode: Option<string>,
    continuity: Option<Continuity>,
    readRoot: string -> RootText,
    delegationKeys: map<string, string>,
    decodeKey: string -> Option<string>,
    checkHop: (string, S.Statement, string) -> D.SignatureCheck,
    parseDate: string -> Option<Timestamp>,
    approverKeys: map<string, string>,
    checkApproval: (string, S.Statement, string) -> bool,
    parseAware: string -> Option<Timestamp>,
    attestationFor: Option<string>,
    attestedHashes: set<HashText>,
    transparencyFor: Option<string>,
    loggedIds: set<string>,
    loggedDigests: set<string>)

  datatype Overall =
    | Valid | Mismatch | Expired | Revoked | Incomplete | AttestationUnavailable | SignatureMissing | Unverifiable
    | IncompatibleVersion

  datatype ChainResult = ChainValid | ChainInvalid | NotPresent | ChainUnverifiable

  // ----- artifacts

  /** There is a bound hash and one to compare it with. */
  predicate Observed(b: Binding) {
    b.bound.Some? && b.running.Some?
  }

  predicate Unobserved(b: Binding) {
    b.bound.Some? && b.running.None?
  }

  predicate Matches(b: Binding) {
    b.bound.Some? && b.running.Some? && Ascii(b.bound.value) && Ascii(b.running.value) && b.bound == b.running
  }

  /** The window of a baseline has passed; one whose date cannot be read counts as passed. */
  predicate Lapsed(ctx: Context, b: Baseline) {
    && b.ttlSeconds.Some? && b.ttlSeconds.value != 0 && b.approvedAt != Absent
    && (b.approvedAt.At? ==> ctx.now > b.approvedAt.instant + b.ttlSeconds.value * TICKS_PER_SECOND)
  }

  /** The bindings that are compared: a lapsed baseline is not, and the decision trace only
      when it has no root to start from. */
  function Checked(ctx: Context, m: Manifest): seq<Binding> {
    m.artifacts + [m.policyBundle] + CheckedBaseline(ctx, m) + (if Observed(m.trace.root) then [] else [m.trace.root])
  }

  function CheckedBaseline(ctx: Context, m: Manifest): seq<Binding> {
    if m.baseline.None? || Lapsed(ctx, m.baseline.value) then [] else [m.baseline.value.snapshot]
  }

  method CheckArtifacts(bindings: seq<Binding>) returns (mismatches: seq<string>, unverified: seq<string>)
    ensures forall f :: f in mismatches <==> exists b :: b in bindings && b.field == f && Observed(b) && !Matches(b)
    ensures forall f :: f in unverified <==> exists b :: b in bindings && b.field == f && Unobserved(b)
    ensures mismatches == [] <==> forall b :: b in bindings && Observed(b) ==> Matches(b)
    ensures unverified == [] <==> forall b :: b in bindings ==> !Unobserved(b)
  {
    mismatches, unverified := [], [];
    for i := 0 to |bindings|
      invariant forall f :: f in mismatches <==>
                exists b :: b in bindings[..i] && b.field == f && Observed(b) && !Matches(b)
      invariant forall f :: f in unverified <==> exists b :: b in bindings[..i] && b.field == f && Unobserved(b)
    {
      var b := bindings[i];
      assert bindings[..i + 1] == bindings[..i] + [b];
      if b.bound.Some? {
        if b.running.None? {
          unverified := unverified + [b.field];
        } else if !(Ascii(b.bound.value) && Ascii(b.running.value) && b.bound == b.running) {
          mismatches := mismatches + [b.field];
        }
      }
    }
    assert bindings[..|bindings|] == bindings;
    assert mismatches != [] ==> mismatches[0] in mismatches;
    assert unverified != [] ==> unverified[0] in unverified;
    forall b | b in bindings
      ensures Observed(b) && !Matches(b) ==> b.field in mismatches
      ensures Unobserved(b) ==> b.field in unverified
    {
    }
  }

  // ----- rules beside the hashes

  /** A declared enforcement mode is compared once the policy bundle was. */
  predicate ModeFault(ctx: Context, m: Manifest) {
    m.enforcementMode.Some? && Observed(m.policyBundle) && ctx.enforcementMode != m.enforcementMode
  }

  /** The poisoning scan names another corpus, names none where it must, found something, or
      did not take place where it must. */
  predicate ScanFault(ctx: Context, m: Manifest) {
    m.scan.Some? &&
    var scan := m.scan.value;
    || (scan.subject.Some? && scan.subject != m.corpusRoot)
    || (scan.subject.None? && scan.result == Some(Clean) && ctx.level >= 1)
    || scan.result == Some(Flagged)
    || (scan.result == Some(NotScanned) && ctx.level >= 1)
  }

  method CheckRules(ctx: Context, m: Manifest) returns (mismatches: seq<string>)
    ensures mismatches != [] <==> ModeFault(ctx, m) || m.assuranceFlagged || ScanFault(ctx, m)
  {
    mismatches := [];
    if m.enforcementMode.Some? && m.policyBundle.bound.Some? && m.policyBundle.running.Some? {
      if ctx.enforcementMode.None? || ctx.enforcementMode.value != m.enforcementMode.value {
        mismatches := mismatches + ["policy_bundle.enforcement_mode"];
      }
    }
    if m.assuranceFlagged {
      mismatches := mismatches + ["system_prompt.assurance_test"];
    }
    if m.scan.Some? {
      var scan, unbound := m.scan.value, false;
      if scan.subject.Some? && scan.subject != m.corpusRoot {
        unbound := true;
        mismatches := mismatches + ["rag_corpus.poisoning_scan.subject_digest"];
      } else if scan.subject.None? && scan.result in {Some(Clean), Some(Flagged)} && ctx.level >= 1 {
        unbound := true;
        mismatches := mismatches + ["rag_corpus.poisoning_scan.subject_digest"];
      }
      if !unbound && scan.result == Some(Flagged) {
        mismatches := mismatches + ["rag_corpus.poisoning_scan"];
      } else if !unbound && scan.result == Some(NotScanned) {
        if ctx.level >= 1 {
          mismatches := mismatches + ["rag_corpus.poisoning_scan"];
        }
      }
    }
  }

  // ----- the decision trace

  function Checkpoint(ctx: Context, root: string, size: int, number: int, k: Continuity): C.AuditCheckpoint {
    var at := if k.observedAt.Some? then k.observedAt.value else Timestamp(ctx.now, 0);
    C.AuditCheckpoint(ctx.readRoot(root), size, number, at, k.ttlSeconds)
  }

  function EvidenceOf(k: Continuity): C.Evidence {
    C.Evidence(Some(k.proof), Some(seq(|k.leaves|, i requires 0 <= i < |k.leaves| => Some(k.leaves[i]))))
  }

  /** The running chain provably extends the signed one. */
  ghost predicate Extends(ctx: Context, t: Trace)
    requires Observed(t.root)
  {
    && ctx.continuity.Some?
    && var k := ctx.continuity.value;
       && (t.entryCount.Some? ==> t.entryCount.value == k.signedSize)
       && C.Verdict(t.kind, Checkpoint(ctx, t.root.bound.value, k.signedSize, k.signedSeq, k),
                    Checkpoint(ctx, t.root.running.value, k.currentSize, k.currentSeq, k), EvidenceOf(k), ctx.now) ==
                      C.Accepted
  }

  ghost predicate TraceFault(ctx: Context, m: Manifest) {
    var root := m.trace.root;
    Observed(root) && !(Ascii(root.running.value) && root.bound == root.running) && !Extends(ctx, m.trace)
  }

  method CheckTrace(ctx: Context, m: Manifest) returns (mismatch: bool)
    ensures mismatch <==> TraceFault(ctx, m)
  {
    var root := m.trace.root;
    if root.bound.None? || root.running.None? {
      return false;
    }
    if Ascii(root.running.value) && root.bound == root.running {
      return false;
    }
    if ctx.continuity.None? {
      return true;
    }
    var k := ctx.continuity.value;
    if m.trace.entryCount.Some? && m.trace.entryCount.value != k.signedSize {
      return true;
    }
    var reason := C.VerifyContinuity(m.trace.kind, Checkpoint(ctx, root.bound.value, k.signedSize, k.signedSeq, k),
                                     Checkpoint(ctx, root.running.value, k.currentSize, k.currentSeq, k),
                                     EvidenceOf(k), ctx.now);
    return reason != C.Accepted;
  }

  // ----- delegation

  predicate KeysDecode(ctx: Context) {
    forall k :: k in ctx.delegationKeys ==> ctx.decodeKey(ctx.delegationKeys[k]).Some?
  }

  function HopContext(ctx: Context, m: Manifest): D.Context
    requires KeysDecode(ctx)
  {
    D.Context(map k | k in ctx.delegationKeys :: ctx.decodeKey(ctx.delegationKeys[k]).value,
              m.id, m.issuer, ctx.checkHop, ctx.parseDate)
  }

  /** Authority narrows along the chain from the issuer, and every hop can be evaluated. */
  ghost predicate ChainHolds(ctx: Context, m: Manifest) {
    && ctx.delegationKeys != map[] && KeysDecode(ctx)
    && D.Accepted(HopContext(ctx, m), m.chain)
    && forall i :: 0 <= i < |m.chain| ==> !D.Carries(m.chain[i])
  }

  method CheckDelegation(ctx: Context, m: Manifest) returns (r: ChainResult, mismatch: bool)
    ensures r == NotPresent <==> m.chain == []
    ensures r == ChainValid <==> m.chain != [] && ChainHolds(ctx, m)
    ensures r == ChainUnverifiable <==>
              && m.chain != []
              && (ctx.delegationKeys == map[] ||
                  (KeysDecode(ctx) && D.Accepted(HopContext(ctx, m), m.chain) && !ChainHolds(ctx, m)))
    ensures mismatch <==> r == ChainInvalid || (r == NotPresent && ctx.requireDelegation)
  {
    if m.chain == [] {
      return NotPresent, ctx.requireDelegation;
    }
    if ctx.delegationKeys == map[] {
      return ChainUnverifiable, false;
    }
    if !KeysDecode(ctx) {
      return ChainInvalid, true;
    }
    var outcome := D.VerifyDelegationChain(HopContext(ctx, m), m.chain);
    if outcome.Failed? {
      return ChainInvalid, true;
    }
    NoneCarries(HopContext(ctx, m), m.chain);
    if outcome.Unverifiable? {
      return ChainUnverifiable, false;
    }
    return ChainValid, false;
  }

  lemma NoneCarries(hops: D.Context, chain: seq<D.RawHop>)
    requires D.Accepted(hops, chain)
    ensures D.Constrained(chain) == [] <==> forall i :: 0 <= i < |chain| ==> !D.Carries(chain[i])
  {
    var first := D.ConstrainedSuffix(hops, chain);
    assert first < |chain| ==> D.Carries(chain[first]);
  }

  // ----- attestation and transparency

  predicate ReportBinds(m: Manifest) {
    m.attestation.Block? && m.attestation.reported.Some? && m.attestation.reported == m.hash
  }

  predicate Appraised(ctx: Context, m: Manifest) {
    ReportBinds(m) && ctx.attestationFor == Some(m.id) && m.hash.value in ctx.attestedHashes
  }

  method CheckAttestation(ctx: Context, m: Manifest) returns (verified: bool, mismatch: bool)
    ensures verified <==> Appraised(ctx, m)
    ensures mismatch <==> m.attestation != NoBlock && !ReportBinds(m)
  {
    if m.attestation == NoBlock {
      return false, false;
    }
    var hashMatches := false;
    if m.attestation.Block? && m.attestation.reported.Some? && m.hash.Some? {
      hashMatches := m.attestation.reported.value == m.hash.value;
    }
    if !hashMatches {
      return false, true;
    }
    return ctx.attestationFor == Some(m.id) && m.hash.value in ctx.attestedHashes, false;
  }

  predicate Demanded(ctx: Context) {
    ctx.requireTransparency || ctx.level >= 1
  }

  predicate EvidencePresent(m: Manifest) {
    match m.transparency
    case NoEntry => false
    case Entry(id) => id.Some? && id.value != ""
    case Receipts(digests) => exists d :: d in digests && d.Some?
  }

  predicate Logged(ctx: Context, m: Manifest) {
    && ctx.transparencyFor == Some(m.id)
    && match m.transparency
       case NoEntry => false
       case Entry(id) => id.Some? && id.value in ctx.loggedIds
       case Receipts(digests) => exists d :: d in digests && d.Some? && d.value in ctx.loggedDigests
  }

  method CheckTransparency(ctx: Context, m: Manifest) returns (present: bool, verified: bool)
    ensures present <==> EvidencePresent(m)
    ensures verified <==> Logged(ctx, m)
  {
    present, verified := false, false;
    var bound := ctx.transparencyFor == Some(m.id);
    match m.transparency {
      case NoEntry =>
      case Entry(id) =>
        present := id.Some? && id.value != "";
        if bound && id.Some? && id.value in ctx.loggedIds {
          verified := true;
        }
      case Receipts(digests) =>
        for i := 0 to |digests|
          invariant present <==> exists d :: d in digests[..i] && d.Some?
          invariant verified <==> bound && exists d :: d in digests[..i] && d.Some? && d.value in ctx.loggedDigests
        {
          assert digests[..i + 1] == digests[..i] + [digests[i]];
          if digests[i].None? {
            continue;
          }
          present := true;
          if bound && digests[i].value in ctx.loggedDigests {
            verified := true;
          }
        }
        assert digests[..|digests|] == digests;
    }
  }

  // ----- the checks that end the run early

  predicate InWindow(ctx: Context, m: Manifest) {
    || m.issuedAt == Absent || m.expiresAt == Absent
    || (m.issuedAt.At? && m.expiresAt.At? && m.issuedAt.instant <= ctx.now < m.expiresAt.instant)
  }

  /** Version, schema, revocation and validity window let the manifest through. */
  predicate Passes(ctx: Context, m: Manifest) {
    m.versionSupported && m.schemaViolations == [] && m.id !in ctx.revoked && InWindow(ctx, m)
  }

  /** The verdict on a manifest that does not pass. */
  function Refusal(ctx: Context, m: Manifest): Overall {
    if !m.versionSupported then IncompatibleVersion
    else if m.schemaViolations != [] then Mismatch
    else if m.id in ctx.revoked then Revoked
    else if m.issuedAt.At? && m.expiresAt.At? && m.issuedAt.instant <= ctx.now then Expired
    else Mismatch
  }

  method Gate(ctx: Context, m: Manifest) returns (r: Option<Overall>)
    ensures r == if Passes(ctx, m) then None else Some(Refusal(ctx, m))
  {
    if !m.versionSupported {
      return Some(IncompatibleVersion);
    }
    if m.schemaViolations != [] {
      return Some(Mismatch);
    }
    if m.id in ctx.revoked {
      return Some(Revoked);
    }
    if m.issuedAt != Absent && m.expiresAt != Absent {
      if m.issuedAt == Unreadable || m.expiresAt == Unreadable {
        return Some(Mismatch);
      }
      if m.issuedAt.instant > ctx.now {
        return Some(Mismatch);
      }
      if m.expiresAt.instant <= ctx.now {
        return Some(Expired);
      }
    }
    return None;
  }

  // ----- the verdict

  function ApprovalPolicy(ctx: Context, m: Manifest): A.Policy {
    A.Policy(ctx.level, ctx.now, m.id, ctx.approverKeys, ctx.checkApproval, ctx.parseAware)
  }

  /** Some approval is good. */
  ghost predicate HumanApproved(ctx: Context, m: Manifest) {
    m.hitl.Some? && exists a :: a in m.hitl.value.approvals && A.Judge(ApprovalPolicy(ctx, m), a) == A.Good
  }

  /** A human approval holds, or none is asked for. */
  ghost predicate HitlHolds(ctx: Context, m: Manifest) {
    || (!ctx.enforceHitl && (m.hitl.None? || !m.hitl.value.required || m.hitl.value.approvals == []))
    || HumanApproved(ctx, m)
  }

  /** Every binding that is compared matches, and under strict demands every one is compared. */
  ghost predicate ArtifactsHold(ctx: Context, m: Manifest) {
    && (forall b :: b in Checked(ctx, m) && Observed(b) ==> Matches(b))
    && (ctx.strictArtifacts ==> forall b :: b in Checked(ctx, m) ==> !Unobserved(b))
  }

  /** Everything a VALID verdict vouches for. */
  ghost predicate Deserved(ctx: Context, m: Manifest, e: K.SignatureFinding) {
    && Passes(ctx, m)
    && e.mismatches == [] && e.verified && !e.missing
    && ArtifactsHold(ctx, m)
    && !ModeFault(ctx, m) && !m.assuranceFlagged && !ScanFault(ctx, m) && !TraceFault(ctx, m)
    && (if m.chain == [] then !ctx.requireDelegation else ChainHolds(ctx, m))
    && HitlHolds(ctx, m)
    && (m.attestation != NoBlock ==> ReportBinds(m))
    && (ctx.enforceAttestation ==> Appraised(ctx, m) && m.attestation.keySealed && m.traceKeySealed)
    && (Demanded(ctx) ==> EvidencePresent(m) && Logged(ctx, m))
    && !m.compositionOnly
  }

  // What the verdicts other than VALID mean, in the order in which they prevail.

  ghost predicate ArtifactsContradict(ctx: Context, m: Manifest) {
    exists b :: b in Checked(ctx, m) && Observed(b) && !Matches(b)
  }

  ghost predicate ChainContradicts(ctx: Context, m: Manifest) {
    if m.chain == [] then ctx.requireDelegation
    else ctx.delegationKeys != map[] && !(KeysDecode(ctx) && D.Accepted(HopContext(ctx, m), m.chain))
  }

  ghost predicate ChainUndecided(ctx: Context, m: Manifest) {
    m.chain != [] && (ctx.delegationKeys == map[] || exists i :: 0 <= i < |m.chain| && D.Carries(m.chain[i]))
  }

  ghost function Hitl(ctx: Context, m: Manifest): (A.HitlResult, bool) {
    A.HitlOf(ApprovalPolicy(ctx, m), ctx.enforceHitl, m.hitl)
  }

  /** Some evidence speaks against the manifest. */
  ghost predicate Contradicted(ctx: Context, m: Manifest, e: K.SignatureFinding) {
    || e.mismatches != []
    || ArtifactsContradict(ctx, m)
    || ModeFault(ctx, m) || m.assuranceFlagged || ScanFault(ctx, m) || TraceFault(ctx, m)
    || ChainContradicts(ctx, m)
    || Hitl(ctx, m).1
    || (m.attestation != NoBlock && !ReportBinds(m))
  }

  /** Some evidence that is there cannot be appraised. */
  ghost predicate Undecided(ctx: Context, m: Manifest, e: K.SignatureFinding) {
    || !e.verified
    || (Demanded(ctx) && EvidencePresent(m) && !Logged(ctx, m))
    || ChainUndecided(ctx, m)
    || Hitl(ctx, m).0 == A.Unverifiable
  }

  /** Something asked for is not there. */
  ghost predicate Unfinished(ctx: Context, m: Manifest) {
    || m.compositionOnly
    || (Demanded(ctx) && !EvidencePresent(m))
    || (ctx.strictArtifacts && exists b :: b in Checked(ctx, m) && Unobserved(b))
  }

  ghost predicate Unattested(ctx: Context, m: Manifest) {
    ctx.enforceAttestation && !(Appraised(ctx, m) && m.attestation.keySealed && m.traceKeySealed)
  }

  function Precedence(contradicted: bool, missing: bool, undecided: bool, unfinished: bool, unattested: bool): Overall {
    if contradicted then Mismatch
    else if missing then SignatureMissing
    else if undecided then Unverifiable
    else if unfinished then Incomplete
    else if unattested then AttestationUnavailable
    else Valid
  }

  ghost function VerdictOf(ctx: Context, m: Manifest, e: K.SignatureFinding): Overall {
    if !Passes(ctx, m) then Refusal(ctx, m)
    else Precedence(Contradicted(ctx, m, e), e.missing, Undecided(ctx, m, e), Unfinished(ctx, m), Unattested(ctx, m))
  }

  /** What the artifacts say: mismatches in order, and the bindings with nothing to compare. */
  method CheckContents(ctx: Context, m: Manifest) returns (mismatches: seq<string>, unverified: seq<string>)
    ensures mismatches != [] <==>
            ArtifactsContradict(ctx, m) || ModeFault(ctx, m) || m.assuranceFlagged || ScanFault(ctx, m) ||
              TraceFault(ctx, m)
    ensures unverified != [] <==> exists b :: b in Checked(ctx, m) && Unobserved(b)
  {
    mismatches, unverified := CheckArtifacts(Checked(ctx, m));
    assert mismatches != [] <==> ArtifactsContradict(ctx, m);
    var rules := CheckRules(ctx, m);
    var trace := CheckTrace(ctx, m);
    mismatches := mismatches + rules + if trace then ["decision_trace"] else [];
  }

  /** What is attached to them says: delegation, approvals, attestation. */
  method CheckAttachments(ctx: Context, m: Manifest)
    returns (mismatches: seq<string>, chain: ChainResult, hitl: A.HitlResult, attested: bool)
    ensures mismatches != [] <==>
            ChainContradicts(ctx, m) || Hitl(ctx, m).1 || (m.attestation != NoBlock && !ReportBinds(m))
    ensures !ChainContradicts(ctx, m) ==> (chain == ChainUnverifiable <==> ChainUndecided(ctx, m))
    ensures hitl == Hitl(ctx, m).0
    ensures attested <==> Appraised(ctx, m)
  {
    var badChain, badHitl, badReport;
    chain, badChain := CheckDelegation(ctx, m);
    hitl, badHitl := A.CheckHitl(ApprovalPolicy(ctx, m), ctx.enforceHitl, m.hitl);
    attested, badReport := CheckAttestation(ctx, m);
    mismatches := (if badChain then ["delegation_chain"] else []) + (if badHitl then ["hitl_record"] else []) +
                  (if badReport then ["attestation"] else []);
  }

  method Verify(ctx: Context, m: Manifest, e: K.SignatureFinding) returns (result: Overall, mismatches: seq<string>)
    ensures result == VerdictOf(ctx, m, e)
    ensures result == Mismatch <==> mismatches != []
  {
    var gate := Gate(ctx, m);
    if gate.Some? {
      return gate.value, if gate.value == Mismatch then ["manifest"] else [];
    }
    var contents, unverified := CheckContents(ctx, m);
    var attachments, chain, hitl, attested := CheckAttachments(ctx, m);
    mismatches := e.mismatches + contents + attachments;
    var present, logged := CheckTransparency(ctx, m);
    result := FinalResult(ctx, m, e, mismatches, unverified, chain, hitl, attested, present, logged);
  }

  method FinalResult(ctx: Context, m: Manifest, e: K.SignatureFinding, mismatches: seq<string>, unverified: seq<string>,
                     chain: ChainResult, hitl: A.HitlResult, attested: bool, present: bool, logged: bool)
    returns (result: Overall)
    requires attested ==> m.attestation.Block?
    ensures result == Precedence(mismatches != [], e.missing,
                                 !e.verified || (Demanded(ctx) && present && !logged) || chain == ChainUnverifiable ||
                                   hitl == A.Unverifiable,
                                 m.compositionOnly || (Demanded(ctx) && !present) ||
                                   (ctx.strictArtifacts && unverified != []),
                                 ctx.enforceAttestation && !(attested && m.attestation.keySealed && m.traceKeySealed))
  {
    var transparencyUnverifiable := Demanded(ctx) && present && !logged;
    result := Valid;
    if mismatches != [] {
      result := Mismatch;
    } else if e.missing {
      result := SignatureMissing;
    } else if !e.verified {
      result := Unverifiable;
    } else if transparencyUnverifiable {
      result := Unverifiable;
    } else if chain == ChainUnverifiable {
      result := Unverifiable;
    } else if hitl == A.Unverifiable {
      result := Unverifiable;
    } else if m.compositionOnly {
      result := Incomplete;
    } else if Demanded(ctx) && !present {
      result := Incomplete;
    } else if ctx.strictArtifacts && unverified != [] {
      result := Incomplete;
    } else if ctx.enforceAttestation && !attested {
      result := AttestationUnavailable;
    } else if ctx.enforceAttestation && !m.attestation.keySealed {
      result := AttestationUnavailable;
    } else if ctx.enforceAttestation && !m.traceKeySealed {
      result := AttestationUnavailable;
    }
  }
}
