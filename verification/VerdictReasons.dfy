/** Every verdict and its reason, on the fields of the manifest, the evidence and the demands
    alone. */
module VerdictReasons {
  import opened Wrappers
  import opened Checkpoints
  import opened Verdict
  import C = AuditContinuity
  import D = Delegation
  import A = Approvals
  import L = ApprovalLaws
  import K = Signatures

  // ----- the gate

  /** Both dates are given. */
  predicate Dated(m: Manifest) {
    m.issuedAt != Absent && m.expiresAt != Absent
  }

  predicate DatesRead(m: Manifest) {
    m.issuedAt.At? && m.expiresAt.At?
  }

  // ----- artifacts

  predicate Ascii7(s: string) {
    forall i :: 0 <= i < |s| ==> s[i] < '\U{80}'
  }

  /** A hash is bound, another one runs. */
  predicate Differs(b: Binding) {
    match (b.bound, b.running)
    case (Some(x), Some(y)) => x != y || !Ascii7(x)
    case _ => false
  }

  /** A hash is bound, and none is known to run. */
  predicate Unseen(b: Binding) {
    b.bound != None && b.running == None
  }

  /** The time to live of the baseline is over, or its date cannot be read. */
  predicate Over(ctx: Context, b: Baseline) {
    match (b.approvedAt, b.ttlSeconds)
    case (Absent, _) => false
    case (_, None) => false
    case (Unreadable, Some(ttl)) => ttl != 0
    case (At(instant), Some(ttl)) => ttl != 0 && instant + ttl * 1_000_000 < ctx.now
  }

  /** What is compared: every artifact, a baseline that is not over, and a trace that lacks
      one of its roots. */
  predicate Compared(ctx: Context, m: Manifest, b: Binding) {
    || b in m.artifacts
    || b == m.policyBundle
    || (m.baseline.Some? && b == m.baseline.value.snapshot && !Over(ctx, m.baseline.value))
    || (b == m.trace.root && (b.bound == None || b.running == None))
  }

  ghost predicate SomeDiffers(ctx: Context, m: Manifest) {
    exists b :: Compared(ctx, m, b) && Differs(b)
  }

  ghost predicate SomeUnseen(ctx: Context, m: Manifest) {
    exists b :: Compared(ctx, m, b) && Unseen(b)
  }

  lemma BindingsExactly(ctx: Context, m: Manifest)
    ensures SomeDiffers(ctx, m) <==> ArtifactsContradict(ctx, m)
    ensures SomeUnseen(ctx, m) <==> exists b :: b in Checked(ctx, m) && Unobserved(b)
  {
    forall b
      ensures Compared(ctx, m, b) <==> b in Checked(ctx, m)
      ensures Differs(b) <==> Observed(b) && !Matches(b)
    {
    }
  }

  /** The runtime enforces the declared policy in another mode than declared. */
  predicate OtherMode(ctx: Context, m: Manifest) {
    && m.enforcementMode != None && m.enforcementMode != ctx.enforcementMode
    && m.policyBundle.bound != None && m.policyBundle.running != None
  }

  /** The poisoning scan is of another corpus, of an unnamed one, found something, or did not
      take place; the second and the last count from level 1 on. */
  predicate ScanObjects(ctx: Context, m: Manifest) {
    match m.scan
    case None => false
    case Some(scan) =>
      || (scan.subject != None && scan.subject != m.corpusRoot)
      || scan.result == Some(Flagged)
      || (ctx.level >= 1 && scan.result == Some(NotScanned))
      || (ctx.level >= 1 && scan.result == Some(Clean) && scan.subject == None)
  }

  /** Both roots of the trace are known and differ, and no evidence proves that the running
      chain extends the signed one. */
  ghost predicate TraceBreaks(ctx: Context, m: Manifest) {
    var root := m.trace.root;
    && root.bound.Some? && root.running.Some?
    && (root.bound != root.running || !Ascii7(root.running.value))
    && (ctx.continuity.None? ||
        var k := ctx.continuity.value;
        var at := match k.observedAt case Some(t) => t case None => Timestamp(ctx.now, 0);
        || (m.trace.entryCount.Some? && m.trace.entryCount != Some(k.signedSize))
        || C.Verdict(m.trace.kind,
                     C.AuditCheckpoint(ctx.readRoot(root.bound.value), k.signedSize, k.signedSeq, at, k.ttlSeconds),
                     C.AuditCheckpoint(ctx.readRoot(root.running.value), k.currentSize, k.currentSeq, at, k.ttlSeconds),
                     C.Evidence(Some(k.proof),
                                Some(seq(|k.leaves|, i requires 0 <= i < |k.leaves| => Some(k.leaves[i])))),
                     ctx.now) != C.Accepted)
  }

  lemma RulesExactly(ctx: Context, m: Manifest)
    ensures OtherMode(ctx, m) <==> ModeFault(ctx, m)
    ensures ScanObjects(ctx, m) <==> ScanFault(ctx, m)
    ensures TraceBreaks(ctx, m) <==> TraceFault(ctx, m)
  {
  }

  // ----- delegation

  /** The trusted keys all decode, and with them the chain is accepted from the issuer on. */
  ghost predicate ChainStands(ctx: Context, m: Manifest) {
    && (forall k :: k in ctx.delegationKeys ==> ctx.decodeKey(ctx.delegationKeys[k]) != None)
    && D.Accepted(D.Context(map k | k in ctx.delegationKeys && ctx.decodeKey(ctx.delegationKeys[k]) != None ::
                              ctx.decodeKey(ctx.delegationKeys[k]).value,
                            m.id, m.issuer, ctx.checkHop, ctx.parseDate), m.chain)
  }

  ghost predicate ChainObjects(ctx: Context, m: Manifest) {
    if m.chain == [] then ctx.requireDelegation else ctx.delegationKeys != map[] && !ChainStands(ctx, m)
  }

  /** There is a chain, and no key to check it with or a constraint that nobody evaluates. */
  ghost predicate ChainOpen(ctx: Context, m: Manifest) {
    m.chain != [] &&
    (ctx.delegationKeys == map[] || exists i :: 0 <= i < |m.chain| && m.chain[i].Hop? &&
                                                D.ScopeOf(m.chain[i]).constraints != [])
  }

  lemma ChainExactly(ctx: Context, m: Manifest)
    ensures ChainObjects(ctx, m) <==> ChainContradicts(ctx, m)
    ensures ChainOpen(ctx, m) <==> ChainUndecided(ctx, m)
  {
    if KeysDecode(ctx) {
      assert (map k | k in ctx.delegationKeys && ctx.decodeKey(ctx.delegationKeys[k]) != None ::
                ctx.decodeKey(ctx.delegationKeys[k]).value) == HopContext(ctx, m).keys;
    }
  }

  // ----- approvals

  function Rules(ctx: Context, m: Manifest): A.Policy {
    A.Policy(ctx.level, ctx.now, m.id, ctx.approverKeys, ctx.checkApproval, ctx.parseAware)
  }

  /** An approval is asked for, by the record or by the relying party. */
  predicate Asked(ctx: Context, m: Manifest) {
    ctx.enforceHitl || (m.hitl.Some? && m.hitl.value.required)
  }

  function Given(m: Manifest): seq<A.RawApproval> {
    match m.hitl
    case Some(record) => record.approvals
    case None => []
  }

  /** Some approval holds: open, strong enough and signed by its approver. */
  ghost predicate Approved(ctx: Context, m: Manifest) {
    exists a :: a in Given(m) && L.Holds(Rules(ctx, m), a)
  }

  /** Each approval is open and strong enough, and none of the approvers has a trusted key. */
  ghost predicate Unknown(ctx: Context, m: Manifest) {
    forall a :: a in Given(m) ==>
                  && L.Open(Rules(ctx, m), a) && L.Strong(Rules(ctx, m), a)
                  && a.approverId.Some? && a.approverId.value !in ctx.approverKeys
  }

  ghost predicate ApprovalObjects(ctx: Context, m: Manifest) {
    if Given(m) == [] then ctx.enforceHitl else Asked(ctx, m) && !Approved(ctx, m) && !Unknown(ctx, m)
  }

  ghost predicate ApprovalOpen(ctx: Context, m: Manifest) {
    Given(m) != [] && Asked(ctx, m) && Unknown(ctx, m)
  }

  lemma ApprovalExactly(ctx: Context, m: Manifest)
    ensures ApprovalObjects(ctx, m) <==> Hitl(ctx, m).1
    ensures ApprovalOpen(ctx, m) <==> Hitl(ctx, m).0 == A.Unverifiable
  {
    var p, given := Rules(ctx, m), Given(m);
    L.HitlExactly(p, ctx.enforceHitl, m.hitl);
    if given != [] {
      L.WeighedExactly(p, given);
      UnknownExactly(p, given, given[0]);
    }
  }

  lemma UnknownExactly(p: A.Policy, given: seq<A.RawApproval>, first: A.RawApproval)
    requires first in given
    ensures A.Weighed(p, given) == A.Unverifiable <==>
            forall a :: a in given ==>
                          && L.Open(p, a) && L.Strong(p, a)
                          && a.approverId.Some? && a.approverId.value !in p.keys
  {
    forall a | a in given
      ensures A.Judge(p, a) == A.NoKey <==>
              L.Open(p, a) && L.Strong(p, a) && a.approverId.Some? && a.approverId.value !in p.keys
    {
      L.JudgeExactly(p, a);
    }
  }

  // ----- attestation and transparency

  /** There is an attestation, and not one of this manifest. */
  predicate ReportObjects(m: Manifest) {
    match m.attestation
    case NoBlock => false
    case NotAnObject => true
    case Block(reported, _) => reported == None || reported != m.hash
  }

  /** An attestation is enforced, and there is none of this manifest, appraised for it, with a
      sealed audit key claimed by the block and by the signed trace. */
  predicate Unattestable(ctx: Context, m: Manifest) {
    ctx.enforceAttestation &&
    match m.attestation
    case Block(Some(hash), true) =>
      !(m.hash == Some(hash) && ctx.attestationFor == Some(m.id) && hash in ctx.attestedHashes && m.traceKeySealed)
    case _ => true
  }

  predicate LogAsked(ctx: Context) {
    ctx.requireTransparency || ctx.level >= 1
  }

  predicate LogGiven(m: Manifest) {
    match m.transparency
    case Entry(Some(id)) => id != ""
    case Receipts(digests) => exists d :: d in digests && d != None
    case _ => false
  }

  /** The given log evidence was verified for this manifest. */
  predicate LogVerified(ctx: Context, m: Manifest) {
    ctx.transparencyFor == Some(m.id) &&
    match m.transparency
    case Entry(Some(id)) => id in ctx.loggedIds
    case Receipts(digests) => exists d :: d in digests && d.Some? && d.value in ctx.loggedDigests
    case _ => false
  }

  lemma EvidenceExactly(ctx: Context, m: Manifest)
    ensures ReportObjects(m) <==> m.attestation != NoBlock && !ReportBinds(m)
    ensures Unattestable(ctx, m) <==> Unattested(ctx, m)
    ensures LogAsked(ctx) <==> Demanded(ctx)
    ensures LogGiven(m) <==> EvidencePresent(m)
    ensures LogVerified(ctx, m) <==> Logged(ctx, m)
  {
  }

  // ----- the verdict

  /** Something speaks against the manifest. */
  ghost predicate Objection(ctx: Context, m: Manifest, e: K.SignatureFinding) {
    || e.mismatches != [] || SomeDiffers(ctx, m) || OtherMode(ctx, m) || m.assuranceFlagged || ScanObjects(ctx, m)
    || TraceBreaks(ctx, m) || ChainObjects(ctx, m) || ApprovalObjects(ctx, m) || ReportObjects(m)
  }

  /** Something that is there cannot be decided. */
  ghost predicate Open(ctx: Context, m: Manifest, e: K.SignatureFinding) {
    || !e.verified || (LogAsked(ctx) && LogGiven(m) && !LogVerified(ctx, m))
    || ChainOpen(ctx, m) || ApprovalOpen(ctx, m)
  }

  /** Something that is asked for is not there. */
  ghost predicate Lacking(ctx: Context, m: Manifest) {
    m.compositionOnly || (LogAsked(ctx) && !LogGiven(m)) || (ctx.strictArtifacts && SomeUnseen(ctx, m))
  }

  lemma PartsExactly(ctx: Context, m: Manifest, e: K.SignatureFinding)
    ensures Objection(ctx, m, e) <==> Contradicted(ctx, m, e)
    ensures Open(ctx, m, e) <==> Undecided(ctx, m, e)
    ensures Lacking(ctx, m) <==> Unfinished(ctx, m)
    ensures Unattestable(ctx, m) <==> Unattested(ctx, m)
  {
    BindingsExactly(ctx, m);
    RulesExactly(ctx, m);
    ChainExactly(ctx, m);
    ApprovalExactly(ctx, m);
    EvidenceExactly(ctx, m);
  }

  /** Every verdict, with its reason. */
  lemma VerdictExactly(ctx: Context, m: Manifest, e: K.SignatureFinding)
    ensures VerdictOf(ctx, m, e) ==
            if !m.versionSupported then IncompatibleVersion
            else if m.schemaViolations != [] then Mismatch
            else if m.id in ctx.revoked then Revoked
            else if Dated(m) && !DatesRead(m) then Mismatch
            else if Dated(m) && ctx.now < m.issuedAt.instant then Mismatch
            else if Dated(m) && m.expiresAt.instant <= ctx.now then Expired
            else if Objection(ctx, m, e) then Mismatch
            else if e.missing then SignatureMissing
            else if Open(ctx, m, e) then Unverifiable
            else if Lacking(ctx, m) then Incomplete
            else if Unattestable(ctx, m) then AttestationUnavailable
            else Valid
  {
    PartsExactly(ctx, m, e);
  }

  /** A VALID manifest has a supported version and a valid schema, is not revoked, and has been
      issued and not expired, when it has dates. */
  lemma ValidIsLive(ctx: Context, m: Manifest, e: K.SignatureFinding)
    requires VerdictOf(ctx, m, e) == Valid
    ensures m.versionSupported && m.schemaViolations == [] && m.id !in ctx.revoked
    ensures m.issuedAt != Absent && m.expiresAt != Absent ==>
              m.issuedAt.At? && m.expiresAt.At? && m.issuedAt.instant <= ctx.now < m.expiresAt.instant
  {
    VerdictExactly(ctx, m, e);
  }

  /** A manifest of supported version and valid schema is REVOKED exactly when it is revoked,
      and EXPIRED exactly when it is not, both dates read, and it was issued and has run out. */
  lemma RevokedAndExpired(ctx: Context, m: Manifest, e: K.SignatureFinding)
    requires m.versionSupported && m.schemaViolations == []
    ensures VerdictOf(ctx, m, e) == Revoked <==> m.id in ctx.revoked
    ensures VerdictOf(ctx, m, e) == Expired <==>
            && m.id !in ctx.revoked && m.issuedAt.At? && m.expiresAt.At?
            && m.issuedAt.instant <= ctx.now && m.expiresAt.instant <= ctx.now
  {
    VerdictExactly(ctx, m, e);
  }

  /** Under enforcement a VALID manifest has an approval that is open, strong enough, and signed
      by the trusted key of its approver. */
  lemma EnforcedIsApproved(ctx: Context, m: Manifest, e: K.SignatureFinding)
    requires ctx.enforceHitl && VerdictOf(ctx, m, e) == Valid
    ensures exists a :: a in Given(m) && L.Holds(Rules(ctx, m), a)
  {
    VerdictExactly(ctx, m, e);
  }
}
