/** The signature stage of manifest verification: which key may sign for which issuer, what
    the signed profile permits, and that nothing unsigned but the block has a say. */
module Signatures {
  import opened Wrappers
  import opened Hashing
  import opened Decimals
  import opened Json
  import opened Signing
  import D = Delegation

  /** The detached signature block of a v0.1 manifest; its algorithm is None when absent. */
  datatype SignatureBlock = SignatureBlock(algorithm: Option<string>, keyId: string, value: string)

  /** How a manifest came: with a detached block, None when missing or empty, or out of an
      envelope, with its payload bytes and what the appraisal of the envelope found. */
  datatype Carrier =
    | Detached(fields: seq<Member>, block: Option<SignatureBlock>)
    | Envelope(fields: seq<Member>, payload: Bytes, verified: bool, signers: seq<string>)

  /** Whether key text can be used for an algorithm. */
  datatype KeyReading = Usable | BadKey | NoSupport

  /** The trusted keys by id, the issuers each may sign for, None without such a policy, the
      reader of keys, and the signature scheme over bytes. */
  datatype Keyring = Keyring(
    keys: map<string, string>,
    issuers: Option<map<string, seq<Text>>>,
    read: (string, string, string) -> KeyReading,
    check: (string, string, Bytes, SignatureBlock) -> D.SignatureCheck)

  const CLASSICAL: string := "Ed25519"
  const POST_QUANTUM: set<string> := {"ML-DSA-65", "hybrid-Ed25519-ML-DSA-65"}
  const KNOWN: set<string> := POST_QUANTUM + {CLASSICAL}

  const ISSUER: Text := Name("issuer")
  const CRYPTO_PROFILE: Text := Name("crypto_profile")
  const VERSION: Text := Name("version")
  const ENVELOPE_VERSION: Text := Name("0.2")
  const POST_QUANTUM_PROFILE: Text := Name("post-quantum")

  function TextAt(fields: seq<Member>, k: Text): Option<Text> {
    match Get(fields, k)
    case Some(Str(s)) => Some(s)
    case _ => None
  }

  /** The key is listed for the manifest's issuer. */
  predicate Authorized(issuers: map<string, seq<Text>>, keyId: string, fields: seq<Member>) {
    var issuer := TextAt(fields, ISSUER);
    issuer.Some? && issuer.value != [] && keyId in issuers && issuer.value in issuers[keyId]
  }

  predicate IssuerFault(ring: Keyring, keyId: string, fields: seq<Member>) {
    ring.issuers.Some? && !Authorized(ring.issuers.value, keyId, fields)
  }

  /** `_signature_key_issuer_mismatch` */
  method KeyIssuerMismatch(ring: Keyring, keyId: string, fields: seq<Member>) returns (mismatch: bool)
    ensures mismatch <==> IssuerFault(ring, keyId, fields)
  {
    if ring.issuers.None? {
      return false;
    }
    var issuer := TextAt(fields, ISSUER);
    if issuer.None? || issuer.value == [] {
      return true;
    }
    if keyId !in ring.issuers.value || ring.issuers.value[keyId] == [] {
      return true;
    }
    return issuer.value !in ring.issuers.value[keyId];
  }

  /** The block names a known algorithm that the signed profile does not permit. */
  predicate Downgraded(fields: seq<Member>, algorithm: string) {
    TextAt(fields, CRYPTO_PROFILE) == Some(POST_QUANTUM_PROFILE) && algorithm in KNOWN && algorithm !in POST_QUANTUM
  }

  /** A detached block may be checked at all: it suits the version and the profile. */
  predicate Admissible(fields: seq<Member>, block: SignatureBlock) {
    && TextAt(fields, VERSION) != Some(ENVELOPE_VERSION)
    && block.algorithm.Some? && !Downgraded(fields, block.algorithm.value)
  }

  /** What the scheme says, once the key is trusted and authorized. */
  ghost function Appraised(ring: Keyring, fields: seq<Member>, block: SignatureBlock): Option<D.SignatureCheck>
    requires block.algorithm.Some? && block.keyId in ring.keys
  {
    var algorithm, key, bytes := block.algorithm.value, ring.keys[block.keyId], PreImage(fields);
    if algorithm !in KNOWN || ring.read(algorithm, key, block.keyId) == BadKey then Some(D.BadInput)
    else if ring.read(algorithm, key, block.keyId) == NoSupport then None
    else if bytes.Err? then Some(D.BadInput)
    else Some(ring.check(algorithm, key, bytes.value, block))
  }

  /** The signature is vouched for: by a trusted key that may sign for the issuer, under an
      admissible algorithm, over the signed fields; or by the appraisal of the envelope. */
  ghost predicate Vouched(ring: Keyring, c: Carrier) {
    match c
    case Envelope(_, _, verified, _) => verified
    case Detached(fields, None) => false
    case Detached(fields, Some(block)) =>
      && Admissible(fields, block) && block.keyId in ring.keys
      && ring.issuers.Some? && Authorized(ring.issuers.value, block.keyId, fields)
      && Appraised(ring, fields, block) == Some(D.GoodSignature)
  }

  /** Something about the signature speaks against the manifest. */
  ghost predicate Disputed(ring: Keyring, c: Carrier) {
    match c
    case Envelope(fields, _, _, signers) => exists k :: k in signers && IssuerFault(ring, k, fields)
    case Detached(fields, None) => false
    case Detached(fields, Some(block)) =>
      || !Admissible(fields, block)
      || (ring.keys != map[] &&
          (|| block.keyId !in ring.keys
           || IssuerFault(ring, block.keyId, fields)
           || (ring.issuers.Some? && Appraised(ring, fields, block) in {Some(D.WrongSignature), Some(D.BadInput)})))
  }

  /** What the signature stage concludes. */
  datatype SignatureFinding = SignatureFinding(mismatches: seq<string>, missing: bool, verified: bool)

  method CheckSignature(ring: Keyring, c: Carrier) returns (f: SignatureFinding)
    ensures f.mismatches != [] <==> Disputed(ring, c)
    ensures f.missing <==> c.Detached? && c.block.None?
    ensures f.verified <==> Vouched(ring, c)
  {
    match c {
      case Envelope(fields, _, verified, signers) =>
        var mismatches := [];
        for i := 0 to |signers|
          invariant mismatches != [] <==> exists k :: k in signers[..i] && IssuerFault(ring, k, fields)
        {
          assert signers[..i + 1] == signers[..i] + [signers[i]];
          var mismatch := KeyIssuerMismatch(ring, signers[i], fields);
          if mismatch {
            mismatches := mismatches + ["signature.issuer"];
          }
        }
        assert signers[..|signers|] == signers;
        return SignatureFinding(mismatches, false, verified);
      case Detached(fields, block) =>
        if block.None? {
          return SignatureFinding([], true, false);
        }
        if TextAt(fields, VERSION) == Some(ENVELOPE_VERSION) {
          return SignatureFinding(["signature"], false, false);
        }
        var algorithm := block.value.algorithm;
        if algorithm.None? {
          return SignatureFinding(["signature.algorithm"], false, false);
        } else if Downgraded(fields, algorithm.value) {
          return SignatureFinding(["signature.algorithm"], false, false);
        }
        if ring.keys == map[] {
          return SignatureFinding([], false, false);
        }
        f := CheckDetached(ring, fields, block.value);
    }
  }

  /** The checks that need trusted keys. */
  method CheckDetached(ring: Keyring, fields: seq<Member>, block: SignatureBlock) returns (f: SignatureFinding)
    requires Admissible(fields, block) && ring.keys != map[]
    ensures f.mismatches != [] <==> Disputed(ring, Detached(fields, Some(block)))
    ensures !f.missing
    ensures f.verified <==> Vouched(ring, Detached(fields, Some(block)))
  {
    if block.keyId !in ring.keys {
      return SignatureFinding(["signature"], false, false);
    }
    var mismatch := KeyIssuerMismatch(ring, block.keyId, fields);
    if mismatch {
      return SignatureFinding(["signature.issuer"], false, false);
    }
    if ring.issuers.None? {
      return SignatureFinding([], false, false);
    }
    var algorithm, key := block.algorithm.value, ring.keys[block.keyId];
    if algorithm !in KNOWN {
      return SignatureFinding(["signature"], false, false);
    }
    match ring.read(algorithm, key, block.keyId) {
      case BadKey => return SignatureFinding(["signature"], false, false);
      case NoSupport => return SignatureFinding([], false, false);
      case Usable =>
    }
    var bytes := SigningPreImage(fields);
    if bytes.Err? {
      return SignatureFinding(["signature"], false, false);
    }
    var good := ring.check(algorithm, key, bytes.value, block) == D.GoodSignature;
    return SignatureFinding(if good then [] else ["signature"], false, good);
  }

  // ----- what the stage promises

  function IssuerOf(fields: seq<Member>): Option<Value> {
    Get(fields, Name("issuer"))
  }

  /** The policy lists the manifest's issuer, a text that is not empty, under the key. */
  predicate MaySign(ring: Keyring, keyId: string, fields: seq<Member>) {
    match (ring.issuers, IssuerOf(fields))
    case (Some(issuers), Some(Str(issuer))) => issuer != [] && keyId in issuers && issuer in issuers[keyId]
    case _ => false
  }

  /** The version is no envelope version, and the algorithm is named and no classical one under
      the post-quantum profile. */
  predicate MayCheck(fields: seq<Member>, block: SignatureBlock) {
    && Get(fields, Name("version")) != Some(Str(Name("0.2"))) && block.algorithm.Some?
    && (Get(fields, Name("crypto_profile")) == Some(Str(Name("post-quantum"))) ==> block.algorithm != Some("Ed25519"))
  }

  predicate KnownAlgorithm(algorithm: string) {
    algorithm == "Ed25519" || algorithm == "ML-DSA-65" || algorithm == "hybrid-Ed25519-ML-DSA-65"
  }

  lemma MaySignExactly(ring: Keyring, keyId: string, fields: seq<Member>)
    ensures MaySign(ring, keyId, fields) <==> ring.issuers.Some? && Authorized(ring.issuers.value, keyId, fields)
    ensures IssuerFault(ring, keyId, fields) <==> ring.issuers.Some? && !MaySign(ring, keyId, fields)
  {
  }

  lemma MayCheckExactly(fields: seq<Member>, block: SignatureBlock)
    ensures MayCheck(fields, block) <==> Admissible(fields, block)
  {
  }

  /** What the scheme finds when the key is trusted, spelled out. */
  lemma AppraisedExactly(ring: Keyring, fields: seq<Member>, block: SignatureBlock, algorithm: string, key: string)
    requires block.algorithm == Some(algorithm) && block.keyId in ring.keys && key == ring.keys[block.keyId]
    ensures Appraised(ring, fields, block) == Some(D.GoodSignature) <==>
            && KnownAlgorithm(algorithm) && ring.read(algorithm, key, block.keyId) == Usable && PreImage(fields).Ok?
            && ring.check(algorithm, key, PreImage(fields).value, block) == D.GoodSignature
    ensures Appraised(ring, fields, block) in {Some(D.WrongSignature), Some(D.BadInput)} <==>
            || !KnownAlgorithm(algorithm)
            || ring.read(algorithm, key, block.keyId) == BadKey
            || (ring.read(algorithm, key, block.keyId) == Usable &&
                (PreImage(fields).Err? ||
                 ring.check(algorithm, key, PreImage(fields).value, block) != D.GoodSignature))
  {
    assert KnownAlgorithm(algorithm) <==> algorithm in KNOWN;
  }

  /** A detached signature is vouched for exactly when a trusted key that may sign for the
      issuer can be used for its known algorithm, and the scheme accepts it over the pre-image. */
  lemma VouchedExactly(ring: Keyring, fields: seq<Member>, block: SignatureBlock)
    ensures Vouched(ring, Detached(fields, Some(block))) <==>
            && MayCheck(fields, block) && block.keyId in ring.keys && MaySign(ring, block.keyId, fields)
            && KnownAlgorithm(block.algorithm.value)
            && ring.read(block.algorithm.value, ring.keys[block.keyId], block.keyId) == Usable
            && PreImage(fields).Ok?
            && ring.check(block.algorithm.value, ring.keys[block.keyId], PreImage(fields).value, block) ==
                 D.GoodSignature
  {
    MayCheckExactly(fields, block);
    MaySignExactly(ring, block.keyId, fields);
    if MayCheck(fields, block) && block.keyId in ring.keys {
      AppraisedExactly(ring, fields, block, block.algorithm.value, ring.keys[block.keyId]);
    }
  }

  /** It is disputed exactly when it may not be checked, or the relying party has keys and not
      this one, or not for this issuer, or finds algorithm, key, pre-image or signature bad. */
  lemma DisputedExactly(ring: Keyring, fields: seq<Member>, block: SignatureBlock)
    ensures Disputed(ring, Detached(fields, Some(block))) <==>
            || !MayCheck(fields, block)
            || (ring.keys != map[] &&
                (|| block.keyId !in ring.keys
                 || (ring.issuers.Some? && !MaySign(ring, block.keyId, fields))
                 || (ring.issuers.Some? &&
                     var algorithm, key := block.algorithm.value, ring.keys[block.keyId];
                     || !KnownAlgorithm(algorithm)
                     || ring.read(algorithm, key, block.keyId) == BadKey
                     || (ring.read(algorithm, key, block.keyId) == Usable &&
                         (PreImage(fields).Err? ||
                          ring.check(algorithm, key, PreImage(fields).value, block) != D.GoodSignature)))))
  {
    MayCheckExactly(fields, block);
    MaySignExactly(ring, block.keyId, fields);
    if MayCheck(fields, block) && block.keyId in ring.keys {
      AppraisedExactly(ring, fields, block, block.algorithm.value, ring.keys[block.keyId]);
    }
  }

  /** An envelope is vouched for by its appraisal, and disputed exactly for a signer that may
      not sign for the issuer. */
  lemma EnvelopeExactly(ring: Keyring, fields: seq<Member>, payload: Bytes, verified: bool, signers: seq<string>)
    ensures Vouched(ring, Envelope(fields, payload, verified, signers)) <==> verified
    ensures Disputed(ring, Envelope(fields, payload, verified, signers)) <==>
            ring.issuers.Some? && exists k :: k in signers && !MaySign(ring, k, fields)
  {
    forall k | k in signers
      ensures IssuerFault(ring, k, fields) <==> ring.issuers.Some? && !MaySign(ring, k, fields)
    {
      MaySignExactly(ring, k, fields);
    }
  }

  /** Under the post-quantum profile nothing but a post-quantum algorithm gets through: the
      profile is signed, so rewriting the unsigned algorithm cannot lower it. */
  lemma ProfileIsKept(ring: Keyring, fields: seq<Member>, block: SignatureBlock)
    requires TextAt(fields, CRYPTO_PROFILE) == Some(POST_QUANTUM_PROFILE)
    ensures Vouched(ring, Detached(fields, Some(block))) ==>
              block.algorithm.Some? && block.algorithm.value in POST_QUANTUM
    ensures block.algorithm == Some(CLASSICAL) ==> Disputed(ring, Detached(fields, Some(block)))
  {
  }

  /** A detached signature that is vouched for is never disputed. */
  lemma VouchedIsUndisputed(ring: Keyring, fields: seq<Member>, block: SignatureBlock)
    requires Vouched(ring, Detached(fields, Some(block)))
    ensures !Disputed(ring, Detached(fields, Some(block)))
  {
  }

  lemma SameText(a: seq<Member>, b: seq<Member>, k: Text)
    requires k in SIGNED_FIELDS && k != HITL_RECORD && SignedField(a, k) == SignedField(b, k)
    ensures TextAt(a, k) == TextAt(b, k)
  {
  }

  lemma SameTexts(a: seq<Member>, b: seq<Member>)
    requires forall k :: k in SIGNED_FIELDS ==> SignedField(a, k) == SignedField(b, k)
    ensures TextAt(a, ISSUER) == TextAt(b, ISSUER) && TextAt(a, VERSION) == TextAt(b, VERSION)
    ensures TextAt(a, CRYPTO_PROFILE) == TextAt(b, CRYPTO_PROFILE)
  {
    SignedTexts();
    SameText(a, b, ISSUER);
    SameText(a, b, CRYPTO_PROFILE);
    SameText(a, b, VERSION);
  }

  lemma TextsSettle(ring: Keyring, a: seq<Member>, b: seq<Member>, block: Option<SignatureBlock>)
    requires TextAt(a, ISSUER) == TextAt(b, ISSUER) && TextAt(a, VERSION) == TextAt(b, VERSION)
    requires TextAt(a, CRYPTO_PROFILE) == TextAt(b, CRYPTO_PROFILE) && PreImage(a) == PreImage(b)
    ensures Vouched(ring, Detached(a, block)) == Vouched(ring, Detached(b, block))
    ensures Disputed(ring, Detached(a, block)) == Disputed(ring, Detached(b, block))
  {
  }

  /** Nothing but the block and the signed bytes has a say: manifests with one pre-image get
      the same findings for the same block. */
  lemma SignedBytesSettleFinding(ring: Keyring, a: seq<Member>, b: seq<Member>, block: Option<SignatureBlock>)
    requires WellFormedDict(a) && WellFormedDict(b) && PreImage(a).Ok? && PreImage(a) == PreImage(b)
    ensures Vouched(ring, Detached(a, block)) == Vouched(ring, Detached(b, block))
    ensures Disputed(ring, Detached(a, block)) == Disputed(ring, Detached(b, block))
  {
    PreImageIsAgreement(a, b);
    SameTexts(a, b);
    TextsSettle(ring, a, b, block);
  }

  lemma SignedTexts()
    ensures ISSUER in SIGNED_FIELDS && CRYPTO_PROFILE in SIGNED_FIELDS && VERSION in SIGNED_FIELDS
    ensures HITL_RECORD !in {ISSUER, CRYPTO_PROFILE, VERSION}
  {
    assert SIGNED_FIELDS[10] == ISSUER && SIGNED_FIELDS[11] == CRYPTO_PROFILE && SIGNED_FIELDS[6] == VERSION;
    assert |HITL_RECORD| == 11 && |ISSUER| == 6 && |CRYPTO_PROFILE| == 14 && |VERSION| == 7;
  }
}
