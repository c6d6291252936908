/** The verdict on a manifest as it arrives: its signature checked, its hash computed, and
    what the signed bytes settle about the result. */
module ManifestVerdict {
  import opened Wrappers
  import opened Hashing
  import opened JsonMeaning
  import opened Signing
  import opened Signatures
  import opened Verdict
  import opened VerdictLaws
  import D = Delegation
  import A = Approvals
  import J = Json
  import opened Decimals
  import Utf8

  /** The hash a report must name: of the payload of an envelope, and of a manifest with a
      detached signature without its attached fields. */
  ghost function ManifestHash(c: Carrier): Option<HashText> {
    match c
    case Envelope(_, payload, _, _) => Some(Sha256Text(Hash(Sha256, payload)))
    case Detached(fields, _) =>
      var bytes := HashPreImage(fields);
      if bytes.Err? then None else Some(Sha256Text(Hash(Sha256, bytes.value)))
  }

  method ExpectedHash(c: Carrier) returns (expected: Option<HashText>)
    ensures expected == ManifestHash(c)
  {
    match c {
      case Envelope(_, payload, _, _) => return Some(Sha256Text(Hash(Sha256, payload)));
      case Detached(fields, _) =>
        var bytes := AttestedPreImage(fields);
        return if bytes.Err? then None else Some(Sha256Text(Hash(Sha256, bytes.value)));
    }
  }

  /** What the signature stage concludes, up to the wording of its mismatches. */
  ghost function FindingOf(ring: Keyring, c: Carrier): SignatureFinding {
    SignatureFinding(if Disputed(ring, c) then ["signature"] else [], c.Detached? && c.block.None?, Vouched(ring, c))
  }

  ghost function VerdictOn(ctx: Context, ring: Keyring, c: Carrier, parts: Manifest): Overall {
    VerdictOf(ctx, parts.(hash := ManifestHash(c)), FindingOf(ring, c))
  }

  lemma SameFinding(ctx: Context, m: Manifest, e: SignatureFinding, f: SignatureFinding)
    requires (e.mismatches == [] <==> f.mismatches == []) && e.missing == f.missing && e.verified == f.verified
    ensures VerdictOf(ctx, m, e) == VerdictOf(ctx, m, f)
  {
  }

  method VerifyManifest(ctx: Context, ring: Keyring, c: Carrier, parts: Manifest) returns (result: Overall)
    ensures result == VerdictOn(ctx, ring, c, parts)
  {
    var e := CheckSignature(ring, c);
    var hash := ExpectedHash(c);
    var mismatches;
    result, mismatches := Verify(ctx, parts.(hash := hash), e);
    SameFinding(ctx, parts.(hash := hash), e, FindingOf(ring, c));
  }

  /** VALID vouches for the signature: a manifest with a detached one is VALID only when a
      trusted key that may sign for its issuer has signed its signed fields, under an
      algorithm that its signed profile permits. */
  lemma ValidIsSigned(ctx: Context, ring: Keyring, fields: seq<J.Member>, block: Option<SignatureBlock>,
                      parts: Manifest)
    requires VerdictOn(ctx, ring, Detached(fields, block), parts) == Valid
    ensures block.Some? && block.value.algorithm.Some? && !Downgraded(fields, block.value.algorithm.value)
    ensures block.value.keyId in ring.keys && ring.issuers.Some?
    ensures Authorized(ring.issuers.value, block.value.keyId, fields) && PreImage(fields).Ok?
    ensures ring.check(block.value.algorithm.value, ring.keys[block.value.keyId], PreImage(fields).value,
                       block.value) ==
            D.GoodSignature
  {
    ValidIsDeserved(ctx, parts.(hash := ManifestHash(Detached(fields, block))),
                    FindingOf(ring, Detached(fields, block)));
  }

  /** Manifests with the same signed bytes and the same block get the same verdict for the
      same parts, when no attestation is attached. */
  lemma SignedBytesSettleVerdict(ctx: Context, ring: Keyring, a: seq<J.Member>, b: seq<J.Member>,
                                 block: Option<SignatureBlock>, parts: Manifest)
    requires WellFormedDict(a) && WellFormedDict(b) && PreImage(a).Ok? && PreImage(a) == PreImage(b)
    requires parts.attestation == NoBlock
    ensures VerdictOn(ctx, ring, Detached(a, block), parts) == VerdictOn(ctx, ring, Detached(b, block), parts)
  {
    SignedBytesSettleFinding(ring, a, b, block);
    HashUnread(ctx, parts, ManifestHash(Detached(a, block)), ManifestHash(Detached(b, block)),
               FindingOf(ring, Detached(a, block)));
  }

  lemma HashUnread(ctx: Context, m: Manifest, h: Option<HashText>, g: Option<HashText>, e: SignatureFinding)
    requires m.attestation == NoBlock
    ensures VerdictOf(ctx, m.(hash := h), e) == VerdictOf(ctx, m.(hash := g), e)
  {
    HashUncontradicted(ctx, m.(hash := h), m.(hash := g), e);
    HashUndecided(ctx, m.(hash := h), m.(hash := g), e);
  }

  lemma HashUncontradicted(ctx: Context, m: Manifest, n: Manifest, e: SignatureFinding)
    requires n == m.(hash := n.hash) && m.attestation == NoBlock
    ensures Contradicted(ctx, m, e) == Contradicted(ctx, n, e) && Passes(ctx, m) == Passes(ctx, n)
  {
  }

  lemma HashUndecided(ctx: Context, m: Manifest, n: Manifest, e: SignatureFinding)
    requires n == m.(hash := n.hash) && m.attestation == NoBlock
    ensures Undecided(ctx, m, e) == Undecided(ctx, n, e)
    ensures Unfinished(ctx, m) == Unfinished(ctx, n) && Unattested(ctx, m) == Unattested(ctx, n)
  {
  }

  /** The hash a report must name under a detached signature: SHA-256 over the canonical bytes
      of any dict d that holds the fields of the manifest without the two attached ones. */
  lemma ReportedHash(fields: seq<J.Member>, block: Option<SignatureBlock>, d: seq<J.Member>)
    requires WellFormedDict(fields) && WellFormedDict(d) && HashPreImage(fields).Ok?
    requires Canonicalized(J.Dict(d), true).Ok?
    requires forall k :: Get(d, k) == if k in [Name("attestation"), Name("transparency_log_entry")] then None
                                      else Get(fields, k)
    ensures ManifestHash(Detached(fields, block)) ==
            Some(Sha256Text(Hash(Sha256, Utf8.Encode(Canonicalized(J.Dict(d), true).value))))
  {
    WithoutKeeps(fields, UNHASHED_FIELDS);
    forall k
      ensures Get(Without(fields, UNHASHED_FIELDS), k) == Get(d, k)
    {
      WithoutGet(fields, UNHASHED_FIELDS, k);
    }
    SameBytes(Without(fields, UNHASHED_FIELDS), d);
  }

  /** A report binds the content of a manifest: it binds two manifests with detached
      signatures exactly when they agree on every field but the two attached ones. */
  lemma ReportBindsContent(a: seq<J.Member>, b: seq<J.Member>, x: Option<SignatureBlock>, y: Option<SignatureBlock>,
                           m: Manifest, n: Manifest)
    requires WellFormedDict(a) && WellFormedDict(b) && HashPreImage(b).Ok? && m.attestation == n.attestation
    requires m.hash == ManifestHash(Detached(a, x)) && n.hash == ManifestHash(Detached(b, y)) && ReportBinds(m)
    ensures ReportBinds(n) <==>
            forall k :: k !in UNHASHED_FIELDS ==> FieldMeaning(Get(a, k)) == FieldMeaning(Get(b, k))
  {
    ManifestHashIsAgreement(a, b);
  }

  // ----- an example that arrives

  /** A key that may sign for an issuer, and an envelope of that issuer it has signed. */
  const EXAMPLE: Text := Name("spiffe://example/issuer")
  const RING: Keyring := Keyring(map["key" := "key"], Some(map["key" := [EXAMPLE]]), (_, _, _) => Usable,
                                 (_, _, _, _) => D.GoodSignature)
  const CARRIER: Carrier := Envelope([J.Member(ISSUER, J.Str(EXAMPLE))], [], true, ["key"])

  lemma CarrierIsSigned()
    ensures FindingOf(RING, CARRIER) == SIGNED
  {
    var fields := CARRIER.fields;
    assert J.Keys(fields)[0] == ISSUER && J.At(fields, ISSUER) == J.Str(EXAMPLE);
  }

  /** The missing approval of MissingApprovalIsValid, on a manifest in an envelope. */
  lemma MissingApprovalArrives(start: int)
    ensures var m := PlainManifest(start, None, Some(A.HitlRecord(true, [])));
            VerdictOn(PlainContext(start), RING, CARRIER, m) == Valid
  {
    var m := PlainManifest(start, None, Some(A.HitlRecord(true, [])));
    CarrierIsSigned();
    MissingApprovalIsValid(start);
    HashUnread(PlainContext(start), m, m.hash, ManifestHash(CARRIER), SIGNED);
  }
}
