/** What a manifest signature covers: the v0.1 pre-image over an allow-list of fields and
    the v0.2 COSE payload over everything but the fields attached after signing. */
module Signing {
  import opened Wrappers
  import opened Hashing
  import opened Decimals
  import opened Json
  import opened JsonMeaning
  import Utf8

  /** A name as code points. */
  function Name(s: string): (t: Text)
    ensures |t| == |s|
  {
    seq(|s|, i requires 0 <= i < |s| => s[i] as int)
  }

  const HITL_RECORD: Text := Name("hitl_record")
  const APPROVALS: Text := Name("approvals")

  const SIGNED_FIELDS: seq<Text> := [
    Name("@context"), Name("@type"), Name("manifest_id"), Name("previous_manifest_id"), Name("agent_id"),
    Name("agent_instance_id"), Name("version"), Name("min_verifier_version"), Name("issued_at"), Name("expires_at"),
    Name("issuer"), Name("crypto_profile"), Name("profile"), Name("unbound_artifacts"), Name("source_bundle"),
    Name("artifacts"), Name("delegation_chain"), HITL_RECORD, Name("prior_transparency_log_entry"),
    Name("log_retention"), Name("data_scope"), Name("operational_lifecycle"), Name("intent")]

  const NON_PAYLOAD_FIELDS: seq<Text> := [Name("signature"), Name("attestation"), Name("transparency_log_entry")]

  /** The fields that are attached to a v0.1 manifest after its hash is taken. */
  const UNHASHED_FIELDS: seq<Text> := [Name("attestation"), Name("transparency_log_entry")]

  // ----- dict operations

  predicate Has(d: seq<Member>, k: Text) {
    k in Keys(d)
  }

  /** `d[k] = v` */
  function Put(d: seq<Member>, k: Text, v: Value): (r: seq<Member>) {
    if d == [] then [Member(k, v)]
    else if d[0].key == k then [Member(k, v)] + d[1..]
    else [d[0]] + Put(d[1..], k, v)
  }

  /** `{k: d[k] for k in fields if k in d}` */
  function Select(d: seq<Member>, fields: seq<Text>): (r: seq<Member>) {
    if fields == [] then []
    else
      var before := Select(d, fields[..|fields| - 1]);
      var k := fields[|fields| - 1];
      if Has(d, k) then Put(before, k, At(d, k)) else before
  }

  /** `{k: v for k, v in d.items() if k not in fields}` */
  function Without(d: seq<Member>, fields: seq<Text>): (r: seq<Member>) {
    if d == [] then []
    else (if d[0].key in fields then [] else [d[0]]) + Without(d[1..], fields)
  }

  /** What a dict holds under a key, None when nothing. */
  function Get(d: seq<Member>, k: Text): Option<Value> {
    if Has(d, k) then Some(At(d, k)) else None
  }

  lemma GetFirst(d: seq<Member>, k: Text)
    requires d != []
    ensures Get(d, k) == if d[0].key == k then Some(d[0].value) else Get(d[1..], k)
  {
  }

  lemma {:induction false} PutGet(d: seq<Member>, k: Text, v: Value, x: Text)
    ensures Get(Put(d, k, v), x) == if x == k then Some(v) else Get(d, x)
  {
    GetFirst(Put(d, k, v), x);
    if d == [] {
      assert Put(d, k, v)[1..] == [];
    } else {
      GetFirst(d, x);
      if d[0].key == k {
        assert Put(d, k, v)[1..] == d[1..];
      } else {
        PutGet(d[1..], k, v, x);
        assert Put(d, k, v)[1..] == Put(d[1..], k, v);
      }
    }
  }

  lemma {:induction false} SelectGet(d: seq<Member>, fields: seq<Text>, x: Text)
    ensures Get(Select(d, fields), x) == if x in fields then Get(d, x) else None
  {
    if fields != [] {
      var before, k := fields[..|fields| - 1], fields[|fields| - 1];
      SelectGet(d, before, x);
      assert fields == before + [k];
      if Has(d, k) {
        PutGet(Select(d, before), k, At(d, k), x);
      }
    }
  }

  lemma {:induction false} WithoutGet(d: seq<Member>, fields: seq<Text>, x: Text)
    ensures Get(Without(d, fields), x) == if x in fields then None else Get(d, x)
  {
    if d != [] {
      WithoutGet(d[1..], fields, x);
      GetFirst(d, x);
      if d[0].key !in fields {
        GetFirst(Without(d, fields), x);
        assert Without(d, fields)[1..] == Without(d[1..], fields);
      } else {
        assert Without(d, fields) == Without(d[1..], fields);
      }
    }
  }

  // ----- dicts stay well formed

  ghost predicate WellFormedDict(d: seq<Member>) {
    WellFormed(Dict(d))
  }

  lemma DistinctFirst(d: seq<Member>)
    requires d != []
    ensures WellFormedDict(d) <==> !Has(d[1..], d[0].key) && WellFormedDict(d[1..]) && WellFormed(d[0].value)
  {
  }

  lemma {:induction false} PutKeeps(d: seq<Member>, k: Text, v: Value)
    requires WellFormedDict(d) && WellFormed(v)
    ensures WellFormedDict(Put(d, k, v))
  {
    var r := Put(d, k, v);
    DistinctFirst(r);
    if d == [] {
      assert r[1..] == [];
    } else {
      DistinctFirst(d);
      if d[0].key == k {
        assert r[1..] == d[1..];
      } else {
        PutKeeps(d[1..], k, v);
        PutGet(d[1..], k, v, d[0].key);
        assert r[1..] == Put(d[1..], k, v);
      }
    }
  }

  lemma {:induction false} ValueKeeps(d: seq<Member>, k: Text)
    requires WellFormedDict(d) && Has(d, k)
    ensures WellFormed(At(d, k))
  {
  }

  lemma {:induction false} SelectKeeps(d: seq<Member>, fields: seq<Text>)
    requires WellFormedDict(d)
    ensures WellFormedDict(Select(d, fields))
  {
    if fields != [] {
      var before, k := fields[..|fields| - 1], fields[|fields| - 1];
      SelectKeeps(d, before);
      if Has(d, k) {
        ValueKeeps(d, k);
        PutKeeps(Select(d, before), k, At(d, k));
      }
    }
  }

  lemma {:induction false} WithoutKeeps(d: seq<Member>, fields: seq<Text>)
    requires WellFormedDict(d)
    ensures WellFormedDict(Without(d, fields))
  {
    if d != [] {
      DistinctFirst(d);
      WithoutKeeps(d[1..], fields);
      if d[0].key !in fields {
        WithoutGet(d[1..], fields, d[0].key);
        DistinctFirst(Without(d, fields));
        assert Without(d, fields)[1..] == Without(d[1..], fields);
      } else {
        assert Without(d, fields) == Without(d[1..], fields);
      }
    }
  }

  // ----- the two pre-images

  /** `hitl_record` with its approvals blanked. */
  function Blanked(v: Value): Value {
    if v.Dict? then Dict(Put(v.members, APPROVALS, Array([], false))) else v
  }

  /** `hitl_record` without its approvals. */
  function Stripped(v: Value): Value {
    if v.Dict? && Has(v.members, APPROVALS) then Dict(Without(v.members, [APPROVALS])) else v
  }

  function SignedSubset(manifest: seq<Member>): seq<Member> {
    var subset := Select(manifest, SIGNED_FIELDS);
    var hitl := Get(subset, HITL_RECORD);
    if hitl.Some? && hitl.value.Dict? then Put(subset, HITL_RECORD, Blanked(hitl.value)) else subset
  }

  function PayloadDict(manifest: seq<Member>): seq<Member> {
    var payload := Without(manifest, NON_PAYLOAD_FIELDS);
    var hitl := Get(payload, HITL_RECORD);
    if hitl.Some? && hitl.value.Dict? && Has(hitl.value.members, APPROVALS)
      then Put(payload, HITL_RECORD, Stripped(hitl.value))
    else payload
  }

  function Encoded(r: Result<Text, CanonError>): Result<Bytes, CanonError> {
    if r.Ok? then Ok(Utf8.Encode(r.value)) else Err(r.error)
  }

  ghost function PreImage(manifest: seq<Member>): Result<Bytes, CanonError> {
    Encoded(Canonicalized(Dict(SignedSubset(manifest)), true))
  }

  ghost function Payload(manifest: seq<Member>): Result<Bytes, CanonError> {
    Encoded(Canonicalized(Dict(PayloadDict(manifest)), true))
  }

  /** What the hash in an attestation report is taken over. */
  ghost function HashPreImage(manifest: seq<Member>): Result<Bytes, CanonError> {
    Encoded(Canonicalized(Dict(Without(manifest, UNHASHED_FIELDS)), true))
  }

  /** `signing_pre_image` */
  method SigningPreImage(manifest: seq<Member>) returns (r: Result<Bytes, CanonError>)
    ensures r == PreImage(manifest)
  {
    var text := Canonicalize(Dict(SignedSubset(manifest)), true);
    return Encoded(text);
  }

  /** `cose_payload` */
  method CosePayload(manifest: seq<Member>) returns (r: Result<Bytes, CanonError>)
    ensures r == Payload(manifest)
  {
    var text := Canonicalize(Dict(PayloadDict(manifest)), true);
    return Encoded(text);
  }

  method AttestedPreImage(manifest: seq<Member>) returns (r: Result<Bytes, CanonError>)
    ensures r == HashPreImage(manifest)
  {
    var text := Canonicalize(Dict(Without(manifest, UNHASHED_FIELDS)), true);
    return Encoded(text);
  }

  // ----- what they cover

  /** The meaning of a field; an absent field and a null one are the same. */
  ghost function FieldMeaning(v: Option<Value>): Option<Meaning> {
    if v.None? || v.value.Null? then None else Some(MeaningOf(v.value, true))
  }

  lemma DictMeaning(d: seq<Member>, k: Text)
    ensures var m := MeaningOf(Dict(d), true).members;
            FieldMeaning(Get(d, k)) == if k in m then Some(m[k]) else None
  {
  }

  /** Dicts mean the same exactly when all their fields do. */
  lemma SameDictSameFields(a: seq<Member>, b: seq<Member>)
    ensures MeaningOf(Dict(a), true) == MeaningOf(Dict(b), true) <==>
            forall k :: FieldMeaning(Get(a, k)) == FieldMeaning(Get(b, k))
  {
    var m, n := MeaningOf(Dict(a), true).members, MeaningOf(Dict(b), true).members;
    if forall k :: FieldMeaning(Get(a, k)) == FieldMeaning(Get(b, k)) {
      forall k
        ensures (k in m <==> k in n) && (k in m ==> m[k] == n[k])
      {
        DictMeaning(a, k);
        DictMeaning(b, k);
        assert FieldMeaning(Get(a, k)) == FieldMeaning(Get(b, k));
      }
      assert m == n;
    }
    if m == n {
      forall k
        ensures FieldMeaning(Get(a, k)) == FieldMeaning(Get(b, k))
      {
        DictMeaning(a, k);
        DictMeaning(b, k);
      }
    }
  }

  /** What the v0.1 signature says about a field. */
  ghost function SignedField(manifest: seq<Member>, k: Text): Option<Meaning> {
    var v := Get(manifest, k);
    if k == HITL_RECORD && v.Some? then FieldMeaning(Some(Blanked(v.value))) else FieldMeaning(v)
  }

  /** What the v0.2 payload says about a field. */
  ghost function PayloadField(manifest: seq<Member>, k: Text): Option<Meaning> {
    var v := Get(manifest, k);
    if k == HITL_RECORD && v.Some? then FieldMeaning(Some(Stripped(v.value))) else FieldMeaning(v)
  }

  lemma SubsetField(manifest: seq<Member>, k: Text)
    ensures FieldMeaning(Get(SignedSubset(manifest), k)) ==
            if k in SIGNED_FIELDS then SignedField(manifest, k) else None
  {
    var subset := Select(manifest, SIGNED_FIELDS);
    SelectGet(manifest, SIGNED_FIELDS, k);
    SelectGet(manifest, SIGNED_FIELDS, HITL_RECORD);
    var hitl := Get(subset, HITL_RECORD);
    if hitl.Some? && hitl.value.Dict? {
      PutGet(subset, HITL_RECORD, Blanked(hitl.value), k);
    }
  }

  lemma PayloadDictField(manifest: seq<Member>, k: Text)
    ensures FieldMeaning(Get(PayloadDict(manifest), k)) ==
            if k in NON_PAYLOAD_FIELDS then None else PayloadField(manifest, k)
  {
    var payload := Without(manifest, NON_PAYLOAD_FIELDS);
    WithoutGet(manifest, NON_PAYLOAD_FIELDS, k);
    WithoutGet(manifest, NON_PAYLOAD_FIELDS, HITL_RECORD);
    var hitl := Get(payload, HITL_RECORD);
    if hitl.Some? && hitl.value.Dict? && Has(hitl.value.members, APPROVALS) {
      PutGet(payload, HITL_RECORD, Stripped(hitl.value), k);
    }
  }

  lemma SubsetKeeps(manifest: seq<Member>)
    requires WellFormedDict(manifest)
    ensures WellFormedDict(SignedSubset(manifest))
  {
    SelectKeeps(manifest, SIGNED_FIELDS);
    var subset := Select(manifest, SIGNED_FIELDS);
    if Has(subset, HITL_RECORD) && At(subset, HITL_RECORD).Dict? {
      ValueKeeps(subset, HITL_RECORD);
      PutKeeps(At(subset, HITL_RECORD).members, APPROVALS, Array([], false));
      PutKeeps(subset, HITL_RECORD, Blanked(At(subset, HITL_RECORD)));
    }
  }

  lemma PayloadKeeps(manifest: seq<Member>)
    requires WellFormedDict(manifest)
    ensures WellFormedDict(PayloadDict(manifest))
  {
    WithoutKeeps(manifest, NON_PAYLOAD_FIELDS);
    var payload := Without(manifest, NON_PAYLOAD_FIELDS);
    if Has(payload, HITL_RECORD) && At(payload, HITL_RECORD).Dict? {
      ValueKeeps(payload, HITL_RECORD);
      WithoutKeeps(At(payload, HITL_RECORD).members, [APPROVALS]);
      PutKeeps(payload, HITL_RECORD, Stripped(At(payload, HITL_RECORD)));
    }
  }

  lemma SameBytes(a: seq<Member>, b: seq<Member>)
    requires WellFormedDict(a) && WellFormedDict(b)
    requires Canonicalized(Dict(a), true).Ok? && Canonicalized(Dict(b), true).Ok?
    ensures Encoded(Canonicalized(Dict(a), true)) == Encoded(Canonicalized(Dict(b), true)) <==>
            forall k :: FieldMeaning(Get(a, k)) == FieldMeaning(Get(b, k))
  {
    Utf8.EncodeInjective(Canonicalized(Dict(a), true).value, Canonicalized(Dict(b), true).value);
    SameTextSameMeaning(Dict(a), Dict(b), true);
    SameDictSameFields(a, b);
  }

  /** Two manifests share a v0.1 pre-image exactly when they agree on every signed field,
      approvals blanked and nulls counted as absent. */
  lemma PreImageIsAgreement(a: seq<Member>, b: seq<Member>)
    requires WellFormedDict(a) && WellFormedDict(b) && PreImage(a).Ok? && PreImage(b).Ok?
    ensures PreImage(a) == PreImage(b) <==> forall k :: k in SIGNED_FIELDS ==> SignedField(a, k) == SignedField(b, k)
  {
    SubsetKeeps(a);
    SubsetKeeps(b);
    SameBytes(SignedSubset(a), SignedSubset(b));
    forall k
      ensures FieldMeaning(Get(SignedSubset(a), k)) == FieldMeaning(Get(SignedSubset(b), k)) <==>
              (k in SIGNED_FIELDS ==> SignedField(a, k) == SignedField(b, k))
    {
      SubsetField(a, k);
      SubsetField(b, k);
    }
  }

  /** Two manifests share a COSE payload exactly when they agree on every field but the
      three attached ones, approvals left out. */
  lemma PayloadIsAgreement(a: seq<Member>, b: seq<Member>)
    requires WellFormedDict(a) && WellFormedDict(b) && Payload(a).Ok? && Payload(b).Ok?
    ensures Payload(a) == Payload(b) <==>
            forall k :: k !in NON_PAYLOAD_FIELDS ==> PayloadField(a, k) == PayloadField(b, k)
  {
    PayloadKeeps(a);
    PayloadKeeps(b);
    SameBytes(PayloadDict(a), PayloadDict(b));
    forall k
      ensures FieldMeaning(Get(PayloadDict(a), k)) == FieldMeaning(Get(PayloadDict(b), k)) <==>
              (k !in NON_PAYLOAD_FIELDS ==> PayloadField(a, k) == PayloadField(b, k))
    {
      PayloadDictField(a, k);
      PayloadDictField(b, k);
    }
  }

  /** Two manifests share their hash exactly when they agree on every field but the
      attestation and the log entry; approvals count. */
  lemma ManifestHashIsAgreement(a: seq<Member>, b: seq<Member>)
    requires WellFormedDict(a) && WellFormedDict(b) && HashPreImage(a).Ok? && HashPreImage(b).Ok?
    ensures Hash(Sha256, HashPreImage(a).value) == Hash(Sha256, HashPreImage(b).value) <==>
            forall k :: k !in UNHASHED_FIELDS ==> FieldMeaning(Get(a, k)) == FieldMeaning(Get(b, k))
  {
    var d, e := Without(a, UNHASHED_FIELDS), Without(b, UNHASHED_FIELDS);
    HashInjective(Sha256, HashPreImage(a).value, Sha256, HashPreImage(b).value);
    WithoutKeeps(a, UNHASHED_FIELDS);
    WithoutKeeps(b, UNHASHED_FIELDS);
    SameBytes(d, e);
    forall k
      ensures FieldMeaning(Get(d, k)) == FieldMeaning(Get(e, k)) <==>
              (k !in UNHASHED_FIELDS ==> FieldMeaning(Get(a, k)) == FieldMeaning(Get(b, k)))
    {
      WithoutGet(a, UNHASHED_FIELDS, k);
      WithoutGet(b, UNHASHED_FIELDS, k);
    }
  }

  /** Blanking and leaving out see the same of a record: two records mean the same under
      one exactly when they do under the other, and when they agree on every member but
      the approvals. */
  lemma ApprovalsLeftOut(g: seq<Member>, h: seq<Member>)
    ensures MeaningOf(Blanked(Dict(g)), true) == MeaningOf(Blanked(Dict(h)), true) <==>
            forall k :: k != APPROVALS ==> FieldMeaning(Get(g, k)) == FieldMeaning(Get(h, k))
    ensures MeaningOf(Stripped(Dict(g)), true) == MeaningOf(Stripped(Dict(h)), true) <==>
            forall k :: k != APPROVALS ==> FieldMeaning(Get(g, k)) == FieldMeaning(Get(h, k))
  {
    var empty := Array([], false);
    SameDictSameFields(Put(g, APPROVALS, empty), Put(h, APPROVALS, empty));
    SameDictSameFields(Stripped(Dict(g)).members, Stripped(Dict(h)).members);
    forall k
      ensures Get(Put(g, APPROVALS, empty), k) == (if k == APPROVALS then Some(empty) else Get(g, k))
      ensures Get(Put(h, APPROVALS, empty), k) == (if k == APPROVALS then Some(empty) else Get(h, k))
      ensures Get(Stripped(Dict(g)).members, k) == (if k == APPROVALS then None else Get(g, k))
      ensures Get(Stripped(Dict(h)).members, k) == (if k == APPROVALS then None else Get(h, k))
    {
      PutGet(g, APPROVALS, empty, k);
      PutGet(h, APPROVALS, empty, k);
      WithoutGet(g, [APPROVALS], k);
      WithoutGet(h, [APPROVALS], k);
    }
  }
}
