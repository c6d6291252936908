/** What the verdict promises: exactly when it is VALID, what a required approval and a
    memory baseline have to do with it, and how demands and time change it. */
module VerdictLaws {
  import opened Wrappers
  import opened Checkpoints
  import opened Verdict
  import C = AuditContinuity
  import D = Delegation
  import A = Approvals
  import K = Signatures
  import opened Hashing

  /** A manifest is VALID exactly when it deserves to be. */
  lemma ValidIsDeserved(ctx: Context, m: Manifest, e: K.SignatureFinding)
    ensures VerdictOf(ctx, m, e) == Valid <==> Deserved(ctx, m, e)
  {
  }

  // ----- required approvals

  /** A VALID manifest whose record requires an approval has a good one exactly when it has
      any: without a single approval it is VALID all the same, unless approvals are enforced. */
  lemma RequiredApproval(ctx: Context, m: Manifest, e: K.SignatureFinding)
    requires VerdictOf(ctx, m, e) == Valid && m.hitl.Some? && m.hitl.value.required
    ensures HumanApproved(ctx, m) <==> m.hitl.value.approvals != []
    ensures ctx.enforceHitl ==> HumanApproved(ctx, m)
  {
  }

  // ----- examples

  /** The text of a hash whose 64 digits are all the same. */
  function HashOf(digit: char): string {
    "sha256:" + seq(64, i requires 0 <= i < 64 => digit)
  }

  lemma HashesDiffer(a: char, b: char)
    ensures HashOf(a) == HashOf(b) <==> a == b
  {
    assert HashOf(a)[7] == a && HashOf(b)[7] == b;
  }

  /** An artifact that runs as it was bound. */
  function Running(field: string): Binding {
    Binding(field, Some(HashOf('0')), Some(HashOf('0')))
  }

  /** A relying party that demands nothing but comparison of all bound artifacts. */
  function PlainContext(now: int): Context {
    Context(now, {}, 0, true, false, false, false, false, None, None, _ => Garbled, map[], _ => None,
            (_, _, _) => D.BadInput, _ => None, map[], (_, _, _) => false, _ => None, None, {}, None, {}, {})
  }

  const LIFETIME: int := 7200 * TICKS_PER_SECOND

  /** A manifest valid for two hours that binds what every manifest must, and perhaps has a
      memory baseline and a HITL record. */
  function PlainManifest(start: int, baseline: Option<Baseline>, hitl: Option<A.HitlRecord>): Manifest {
    Manifest(true, "id", None, Some(Sha256Text(Hash(Sha256, []))), [], At(start), At(start + LIFETIME),
             [Running("system_prompt"), Running("model_identity")], Running("policy_bundle"), None, false, None, None,
             baseline, Trace(Binding("decision_trace", None, None), None, C.OtherTrace), [], hitl, NoBlock, false,
             NoEntry, false)
  }

  /** A signature that is vouched for and not disputed. */
  const SIGNED: K.SignatureFinding := K.SignatureFinding([], false, true)

  /** Where nothing else can speak against a manifest, its artifacts decide. */
  lemma PlainVerdict(start: int, now: int, m: Manifest)
    requires m == PlainManifest(start, m.baseline, m.hitl) && (m.hitl.Some? ==> m.hitl.value.approvals == [])
    requires start <= now < start + LIFETIME
    ensures VerdictOf(PlainContext(now), m, SIGNED) ==
            if ArtifactsContradict(PlainContext(now), m) then Mismatch
            else if ArtifactsHold(PlainContext(now), m) then Valid
            else Incomplete
  {
  }

  lemma RunningMatches(field: string)
    ensures Matches(Running(field))
  {
  }

  lemma PlainChecked(start: int, now: int, baseline: Option<Baseline>, hitl: Option<A.HitlRecord>, x: Binding)
    requires x in Checked(PlainContext(now), PlainManifest(start, baseline, hitl))
    ensures Matches(x) || x.bound.None? ||
            (baseline.Some? && !Lapsed(PlainContext(now), baseline.value) && x == baseline.value.snapshot)
  {
    RunningMatches("system_prompt");
    RunningMatches("model_identity");
    RunningMatches("policy_bundle");
  }

  lemma PlainArtifacts(start: int, now: int, b: Baseline, m: Manifest)
    requires m == PlainManifest(start, Some(b), None)
    ensures ArtifactsContradict(PlainContext(now), m) <==>
            !Lapsed(PlainContext(now), b) && Observed(b.snapshot) && !Matches(b.snapshot)
    ensures ArtifactsHold(PlainContext(now), m) <==>
            Lapsed(PlainContext(now), b) || BindingPasses(PlainContext(now), b.snapshot)
  {
    var all := Checked(PlainContext(now), m);
    assert !Lapsed(PlainContext(now), b) ==> b.snapshot in all;
    forall x | x in all
      ensures Matches(x) || x.bound.None? || (!Lapsed(PlainContext(now), b) && x == b.snapshot)
    {
      PlainChecked(start, now, Some(b), None, x);
    }
  }

  /** A record that requires an approval and has none: VALID where approvals are not enforced. */
  lemma MissingApprovalIsValid(start: int)
    ensures var m := PlainManifest(start, None, Some(A.HitlRecord(true, [])));
            VerdictOf(PlainContext(start), m, SIGNED) == Valid && !HumanApproved(PlainContext(start), m)
  {
    var m := PlainManifest(start, None, Some(A.HitlRecord(true, [])));
    PlainVerdict(start, start, m);
    forall x | x in Checked(PlainContext(start), m)
      ensures Matches(x) || x.bound.None?
    {
      PlainChecked(start, start, None, m.hitl, x);
    }
  }

  /** What a baseline alone decides while the manifest is valid. */
  lemma BaselineVerdict(start: int, now: int, b: Baseline)
    requires start <= now < start + LIFETIME
    ensures VerdictOf(PlainContext(now), PlainManifest(start, Some(b), None), SIGNED) ==
            if Lapsed(PlainContext(now), b) then Valid
            else if Observed(b.snapshot) && !Matches(b.snapshot) then Mismatch
            else if Unobserved(b.snapshot) then Incomplete
            else Valid
  {
    PlainVerdict(start, now, PlainManifest(start, Some(b), None));
    PlainArtifacts(start, now, b, PlainManifest(start, Some(b), None));
  }

  /** A baseline of one hour from a given time on. */
  function HourBaseline(start: int, running: Option<string>): Baseline {
    Baseline(Binding("memory_baseline", Some(HashOf('0')), running), At(start), Some(3600))
  }

  /** Time can turn a verdict VALID: a baseline that cannot be compared, or differs, keeps the
      manifest from being VALID only until it lapses. */
  lemma LapseTurnsValid(start: int, running: Option<string>)
    requires running == None || running == Some(HashOf('1'))
    ensures var later, m :=
            start + 3601 * TICKS_PER_SECOND, PlainManifest(start, Some(HourBaseline(start, running)), None);
            && VerdictOf(PlainContext(start), m, SIGNED) == (if running == None then Incomplete else Mismatch)
            && VerdictOf(PlainContext(later), m, SIGNED) == Valid
  {
    BaselineVerdict(start, start, HourBaseline(start, running));
    BaselineVerdict(start, start + 3601 * TICKS_PER_SECOND, HourBaseline(start, running));
    HashesDiffer('0', '1');
  }

  // ----- demands only take VALID away

  /** c asks for no more than d, and knows and trusts the same. */
  ghost predicate Milder(c: Context, d: Context) {
    && c == d.(level := c.level, strictArtifacts := c.strictArtifacts, enforceHitl := c.enforceHitl,
               requireDelegation := c.requireDelegation, enforceAttestation := c.enforceAttestation,
               requireTransparency := c.requireTransparency)
    && c.level <= d.level
    && (c.strictArtifacts ==> d.strictArtifacts)
    && (c.enforceHitl ==> d.enforceHitl)
    && (c.requireDelegation ==> d.requireDelegation)
    && (c.enforceAttestation ==> d.enforceAttestation)
    && (c.requireTransparency ==> d.requireTransparency)
  }

  /** A manifest that is VALID under demands is VALID under any milder ones. */
  lemma MilderKeepsValid(c: Context, d: Context, m: Manifest, e: K.SignatureFinding)
    requires Milder(c, d) && VerdictOf(d, m, e) == Valid
    ensures VerdictOf(c, m, e) == Valid
  {
    ValidIsDeserved(c, m, e);
    ValidIsDeserved(d, m, e);
    ChainAgrees(c, d, m);
    ApprovalsAgree(c, d, m);
    TraceAgrees(c, d, m);
    assert Checked(c, m) == Checked(d, m);
  }

  lemma TraceAgrees(c: Context, d: Context, m: Manifest)
    requires c.now == d.now && c.continuity == d.continuity && c.readRoot == d.readRoot
    ensures TraceFault(c, m) == TraceFault(d, m)
  {
  }

  lemma ChainAgrees(c: Context, d: Context, m: Manifest)
    requires c.delegationKeys == d.delegationKeys && c.decodeKey == d.decodeKey
    requires c.checkHop == d.checkHop && c.parseDate == d.parseDate
    ensures ChainHolds(c, m) == ChainHolds(d, m)
  {
  }

  lemma ApprovalsAgree(c: Context, d: Context, m: Manifest)
    requires c.level <= d.level && c.now <= d.now && (c.enforceHitl ==> d.enforceHitl)
    requires c.approverKeys == d.approverKeys && c.checkApproval == d.checkApproval && c.parseAware == d.parseAware
    requires HitlHolds(d, m)
    ensures HitlHolds(c, m)
  {
  }

  // ----- time

  /** The baseline does not stand in the way of an earlier VALID: it had lapsed, it has not
      lapsed yet, or it passes the comparison. */
  predicate BaselineAdmits(c: Context, d: Context, m: Manifest) {
    m.baseline.Some? ==>
      || Lapsed(c, m.baseline.value)
      || !Lapsed(d, m.baseline.value)
      || BindingPasses(c, m.baseline.value.snapshot)
  }

  predicate BindingPasses(ctx: Context, b: Binding) {
    (Observed(b) ==> Matches(b)) && (ctx.strictArtifacts ==> !Unobserved(b))
  }

  lemma BaselineOverTime(c: Context, d: Context, m: Manifest)
    requires c == d.(now := c.now) && c.now <= d.now && ArtifactsHold(d, m)
    ensures ArtifactsHold(c, m) <==> BaselineAdmits(c, d, m)
  {
  }

  lemma TraceOverTime(c: Context, d: Context, m: Manifest)
    requires c == d.(now := c.now) && c.now <= d.now && !TraceFault(d, m)
    ensures !TraceFault(c, m)
  {
  }

  /** Seen from a time at which the manifest is VALID, it was VALID at an earlier time since
      it was issued exactly when its baseline admits that. */
  lemma ValidEarlier(c: Context, d: Context, m: Manifest, e: K.SignatureFinding)
    requires c == d.(now := c.now) && c.now <= d.now && VerdictOf(d, m, e) == Valid
    requires m.issuedAt.At? ==> m.issuedAt.instant <= c.now
    ensures VerdictOf(c, m, e) == Valid <==> BaselineAdmits(c, d, m)
  {
    ValidIsDeserved(c, m, e);
    ValidIsDeserved(d, m, e);
    ChainAgrees(c, d, m);
    ApprovalsAgree(c, d, m);
    BaselineOverTime(c, d, m);
    TraceOverTime(c, d, m);
  }
}
