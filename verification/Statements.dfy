/** What is signed beside the manifest: delegation hops, approvals and revocations.  Each
    is the canonical form of a small dict; no signature over one stands for another. */
module Statements {
  import opened Wrappers
  import opened Hashing
  import opened Decimals
  import opened Json
  import opened JsonMeaning
  import opened Signing
  import opened Records

  datatype Statement =
    | Hop(index: int, manifestId: Text, principalId: Text, principalType: Text, delegatedAt: Text,
          scopeGrant: seq<Member>)
    | Approval(manifestId: Text, approvedAt: Text, approvedScope: seq<Member>, approverId: Text,
               procedure: Option<Text>)
    | Revocation(manifestId: Text, revokedAt: Text, reason: Text, revokedBy: Text)

  const HOP: Text := Name("hop")
  const MANIFEST_ID: Text := Name("manifest_id")
  const PRINCIPAL_ID: Text := Name("principal_id")
  const PRINCIPAL_TYPE: Text := Name("principal_type")
  const DELEGATED_AT: Text := Name("delegated_at")
  const SCOPE_GRANT: Text := Name("scope_grant")
  const APPROVED_AT: Text := Name("approved_at")
  const APPROVED_SCOPE: Text := Name("approved_scope")
  const APPROVER_ID: Text := Name("approver_id")
  const APPROVAL_METHOD: Text := Name("approval_method")
  const REVOKED_AT: Text := Name("revoked_at")
  const REASON: Text := Name("reason")
  const REVOKED_BY: Text := Name("revoked_by")

  function KeysOf(s: Statement): seq<Text> {
    match s
    case Hop(_, _, _, _, _, _) => [HOP, MANIFEST_ID, PRINCIPAL_ID, PRINCIPAL_TYPE, DELEGATED_AT, SCOPE_GRANT]
    case Approval(_, _, _, _, p) =>
      [MANIFEST_ID, APPROVED_AT, APPROVED_SCOPE, APPROVER_ID] + if p.Some? then [APPROVAL_METHOD] else []
    case Revocation(_, _, _, _) => [MANIFEST_ID, REVOKED_AT, REASON, REVOKED_BY]
  }

  function ValuesOf(s: Statement): (vs: seq<Value>)
    ensures |vs| == |KeysOf(s)|
  {
    match s
    case Hop(i, m, p, t, at, scope) => [Int(i), Str(m), Str(p), Str(t), Str(at), Dict(scope)]
    case Approval(m, at, scope, id, p) =>
      [Str(m), Str(at), Dict(scope), Str(id)] + if p.Some? then [Str(p.value)] else []
    case Revocation(m, at, reason, who) => [Str(m), Str(at), Str(reason), Str(who)]
  }

  ghost function Signed(s: Statement): Result<Bytes, CanonError> {
    CanonicalBytes(Written(KeysOf(s), ValuesOf(s)))
  }

  /** `_hop_pre_image`, `_approval_pre_image`, and the dict a revocation signs. */
  method StatementBytes(s: Statement) returns (r: Result<Bytes, CanonError>)
    ensures r == Signed(s)
  {
    var text := Canonicalize(Dict(Written(KeysOf(s), ValuesOf(s))), true);
    return Encoded(text);
  }

  ghost predicate Sound(s: Statement) {
    match s
    case Hop(_, _, _, _, _, scope) => WellFormedDict(scope)
    case Approval(_, _, scope, _, _) => WellFormedDict(scope)
    case Revocation(_, _, _, _) => true
  }

  /** The same statement, up to what its scope means. */
  ghost predicate SameStatement(a: Statement, b: Statement) {
    match (a, b)
    case (Hop(i, m, p, t, at, scope), Hop(i', m', p', t', at', scope')) =>
      i == i' && m == m' && p == p' && t == t' && at == at' && SameValue(Dict(scope), Dict(scope'))
    case (Approval(m, at, scope, id, p), Approval(m', at', scope', id', p')) =>
      m == m' && at == at' && SameValue(Dict(scope), Dict(scope')) && id == id' && p == p'
    case (Revocation(_, _, _, _), Revocation(_, _, _, _)) => a == b
    case _ => false
  }

  lemma HopKeys(s: Statement)
    requires s.Hop?
    ensures Distinct(KeysOf(s))
  {
    NameInjective("manifest_id", "scope_grant");
    NameInjective("principal_id", "delegated_at");
    assert |HOP| == 3 && |MANIFEST_ID| == |SCOPE_GRANT| == 11 && |PRINCIPAL_ID| == |DELEGATED_AT| == 12 &&
           |PRINCIPAL_TYPE| == 14;
    assert "manifest_id"[0] != "scope_grant"[0] && "principal_id"[0] != "delegated_at"[0];
  }

  lemma ApprovalKeys(s: Statement)
    requires s.Approval?
    ensures Distinct(KeysOf(s))
  {
    NameInjective("manifest_id", "approved_at");
    NameInjective("manifest_id", "approver_id");
    NameInjective("approved_at", "approver_id");
    assert |MANIFEST_ID| == |APPROVED_AT| == |APPROVER_ID| == 11 && |APPROVED_SCOPE| == 14 && |APPROVAL_METHOD| == 15;
    assert "manifest_id"[0] != "approved_at"[0] && "manifest_id"[0] != "approver_id"[0] &&
           "approved_at"[7] != "approver_id"[7];
  }

  lemma RevocationKeys(s: Statement)
    requires s.Revocation?
    ensures Distinct(KeysOf(s))
  {
    NameInjective("revoked_at", "revoked_by");
    assert |MANIFEST_ID| == 11 && |REVOKED_AT| == |REVOKED_BY| == 10 && |REASON| == 6;
    assert "revoked_at"[8] != "revoked_by"[8];
  }

  lemma KeysDistinct(s: Statement)
    ensures Distinct(KeysOf(s))
  {
    match s
    case Hop(_, _, _, _, _, _) => HopKeys(s);
    case Approval(_, _, _, _, _) => ApprovalKeys(s);
    case Revocation(_, _, _, _) => RevocationKeys(s);
  }

  /** a has a key that b has not: a hop its index, a revocation its date, an approval with
      a method that method. */
  predicate HasMore(a: Statement, b: Statement) {
    || (a.Hop? && !b.Hop?)
    || (a.Revocation? && b.Approval?)
    || (a.Approval? && b.Approval? && a.procedure.Some? && b.procedure.None?)
  }

  lemma KindsApart(a: Statement, b: Statement, d: seq<Member>, e: seq<Member>)
    requires HasMore(a, b) && Holds(d, KeysOf(a), ValuesOf(a)) && Holds(e, KeysOf(b), ValuesOf(b))
    ensures !Agree(d, e)
  {
    var i := OwnKey(a, b);
    KeyApart(d, e, KeysOf(a), ValuesOf(a), KeysOf(b), ValuesOf(b), i);
  }

  lemma OwnKey(a: Statement, b: Statement) returns (i: nat)
    requires HasMore(a, b)
    ensures i < |KeysOf(a)| && KeysOf(a)[i] !in KeysOf(b) && !ValuesOf(a)[i].Null?
  {
    assert |HOP| == 3 && |MANIFEST_ID| == |APPROVED_AT| == |APPROVER_ID| == 11 && |APPROVED_SCOPE| == 14;
    assert |APPROVAL_METHOD| == 15 && |REVOKED_AT| == |REVOKED_BY| == 10 && |REASON| == 6;
    i := if a.Hop? then 0 else if a.Revocation? then 1 else 4;
  }

  lemma HopValues(a: Statement, b: Statement)
    requires a.Hop? && b.Hop?
    ensures SameValues(ValuesOf(a), ValuesOf(b)) <==> SameStatement(a, b)
  {
    var v, w := ValuesOf(a), ValuesOf(b);
    SameInts(a.index, b.index);
    SameTexts(a.manifestId, b.manifestId);
    SameTexts(a.principalId, b.principalId);
    SameTexts(a.principalType, b.principalType);
    SameTexts(a.delegatedAt, b.delegatedAt);
    assert SameValues(v, w) <==> SameValue(v[0], w[0]) && SameValue(v[1], w[1]) && SameValue(v[2], w[2]) &&
                                 SameValue(v[3], w[3]) && SameValue(v[4], w[4]) && SameValue(v[5], w[5]);
  }

  lemma ApprovalValues(a: Statement, b: Statement)
    requires a.Approval? && b.Approval? && a.procedure.Some? == b.procedure.Some?
    ensures SameValues(ValuesOf(a), ValuesOf(b)) <==> SameStatement(a, b)
  {
    var v, w := ValuesOf(a), ValuesOf(b);
    SameTexts(a.manifestId, b.manifestId);
    SameTexts(a.approvedAt, b.approvedAt);
    SameTexts(a.approverId, b.approverId);
    assert SameValues(v, w) <==> SameValue(v[0], w[0]) && SameValue(v[1], w[1]) && SameValue(v[2], w[2]) &&
                                 SameValue(v[3], w[3]) && (a.procedure.Some? ==> SameValue(v[4], w[4]));
    if a.procedure.Some? {
      SameTexts(a.procedure.value, b.procedure.value);
    }
  }

  lemma RevocationValues(a: Statement, b: Statement)
    requires a.Revocation? && b.Revocation?
    ensures SameValues(ValuesOf(a), ValuesOf(b)) <==> SameStatement(a, b)
  {
    var v, w := ValuesOf(a), ValuesOf(b);
    SameTexts(a.manifestId, b.manifestId);
    SameTexts(a.revokedAt, b.revokedAt);
    SameTexts(a.reason, b.reason);
    SameTexts(a.revokedBy, b.revokedBy);
    assert SameValues(v, w) <==>
           SameValue(v[0], w[0]) && SameValue(v[1], w[1]) && SameValue(v[2], w[2]) && SameValue(v[3], w[3]);
  }

  predicate SameKind(a: Statement, b: Statement) {
    || (a.Hop? && b.Hop?)
    || (a.Revocation? && b.Revocation?)
    || (a.Approval? && b.Approval? && a.procedure.Some? == b.procedure.Some?)
  }

  lemma SameKindBinds(a: Statement, b: Statement, d: seq<Member>, e: seq<Member>)
    requires SameKind(a, b) && Holds(d, KeysOf(a), ValuesOf(a)) && Holds(e, KeysOf(b), ValuesOf(b))
    ensures Agree(d, e) <==> SameStatement(a, b)
  {
    assert KeysOf(a) == KeysOf(b);
    SameKeys(d, e, KeysOf(a), ValuesOf(a), ValuesOf(b));
    if a.Hop? {
      HopValues(a, b);
    } else if a.Approval? {
      ApprovalValues(a, b);
    } else {
      RevocationValues(a, b);
    }
  }

  lemma AgreementBinds(a: Statement, b: Statement, d: seq<Member>, e: seq<Member>)
    requires Holds(d, KeysOf(a), ValuesOf(a)) && Holds(e, KeysOf(b), ValuesOf(b))
    ensures Agree(d, e) <==> SameStatement(a, b)
  {
    if HasMore(a, b) {
      KindsApart(a, b, d, e);
    } else if HasMore(b, a) {
      KindsApart(b, a, e, d);
    } else {
      SameKindBinds(a, b, d, e);
    }
  }

  lemma DictSound(s: Statement, d: seq<Member>)
    requires Sound(s) && d == Written(KeysOf(s), ValuesOf(s))
    ensures WellFormedDict(d) && Holds(d, KeysOf(s), ValuesOf(s))
  {
    KeysDistinct(s);
    ValuesSound(s, ValuesOf(s));
    RecordSound(KeysOf(s), ValuesOf(s));
  }

  lemma ValuesSound(s: Statement, values: seq<Value>)
    requires Sound(s) && values == ValuesOf(s)
    ensures forall i :: 0 <= i < |values| ==> WellFormed(values[i])
  {
    match s
    case Hop(_, _, _, _, _, scope) => assert values[5] == Dict(scope);
    case Approval(_, _, scope, _, _) => assert values[2] == Dict(scope);
    case Revocation(_, _, _, _) =>
  }

  /** Signed bytes stand for one statement: they are equal exactly when kind, every text
      and number, and the meaning of the scope are.  So no signature can be carried to
      another manifest, hop, principal, time or grant, or to a statement of another kind. */
  lemma BytesBindStatement(a: Statement, b: Statement)
    requires Sound(a) && Sound(b) && Signed(a).Ok? && Signed(b).Ok?
    ensures Signed(a) == Signed(b) <==> SameStatement(a, b)
  {
    var d, e := Written(KeysOf(a), ValuesOf(a)), Written(KeysOf(b), ValuesOf(b));
    DictSound(a, d);
    DictSound(b, e);
    AgreementBinds(a, b, d, e);
    BytesAgree(d, e);
  }
}
