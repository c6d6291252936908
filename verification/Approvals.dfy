/** Human approvals: the loop that looks for one approval that holds, and why neither the
    order of the approvals nor what surrounds a good one matters. */
module Approvals {
  import opened Wrappers
  import opened Decimals
  import opened Json
  import opened Signing
  import opened Records
  import opened Grants
  import S = Statements
  import opened Checkpoints

  /** An entry of the approvals array, its scope as JSON.  Malformed: not an object, or
      without a scope object.  A field is None when it is absent or of another type. */
  datatype RawApproval =
    | Malformed
    | Approval(scope: seq<Member>, approvedAt: Option<string>, procedure: Option<string>,
               approverId: Option<string>, signature: Option<string>)

  /** The conformance level, the time, the manifest that must be approved, the approver keys,
      the signature scheme over statements, whose bytes are those of Statements, and the
      reader of dates with an offset. */
  datatype Policy = Policy(
    level: int,
    now: int,
    manifestId: string,
    keys: map<string, string>,
    check: (string, S.Statement, string) -> bool,
    parse: string -> Option<Timestamp>)

  datatype HitlRecord = HitlRecord(required: bool, approvals: seq<RawApproval>)

  datatype HitlResult = Approved | Expired | NotRequired | Missing | ApprovalInsufficient | Invalid | Unverifiable

  const SOFTWARE: Option<string> := Some("software-key")
  const HARDWARE: Option<string> := Some("hardware-key")
  const GRAVE_TIERS: set<Option<Text>> := {Some(Name("high")), Some(Name("critical"))}

  // ----- one approval

  /** What one approval amounts to. */
  datatype Judgement = Good | Broken | TooWeak | Lapsed | NoKey

  /** When an approval ends, None when its date cannot be read or its end is out of range. */
  function EndOf(p: Policy, approvedAt: Option<string>, duration: int): Option<int> {
    if approvedAt.None? || p.parse(approvedAt.value).None? then None
    else After(p.parse(approvedAt.value).value, duration)
  }

  predicate Insufficient(scope: seq<Member>, procedure: Option<string>) {
    procedure == SOFTWARE || (RiskTierOf(scope) in GRAVE_TIERS && procedure != HARDWARE)
  }

  /** What the signature of an approval covers. */
  function SignedApproval(p: Policy, a: RawApproval): S.Statement
    requires a.Approval? && a.approvedAt.Some? && a.approverId.Some?
  {
    S.Approval(Name(p.manifestId), Name(a.approvedAt.value), a.scope, Name(a.approverId.value),
               if a.procedure.Some? then Some(Name(a.procedure.value)) else None)
  }

  predicate Authentic(p: Policy, a: RawApproval, key: string)
    requires a.Approval? && a.approvedAt.Some? && a.approverId.Some?
  {
    a.signature.Some? && p.check(key, SignedApproval(p, a), a.signature.value)
  }

  function Judge(p: Policy, a: RawApproval): Judgement {
    if a.Malformed? || DurationOf(a.scope).None? then Broken
    else
      var end := EndOf(p, a.approvedAt, DurationOf(a.scope).value);
      if end.None? || p.now > end.value then Lapsed
      else if p.level >= 2 && Insufficient(a.scope, a.procedure) then TooWeak
      else if a.approverId.None? then Broken
      else if a.approverId.value !in p.keys then NoKey
      else if Authentic(p, a, p.keys[a.approverId.value]) then Good
      else Broken
  }

  ghost predicate Has(p: Policy, approvals: seq<RawApproval>, j: Judgement) {
    exists a :: a in approvals && Judge(p, a) == j
  }

  /** The result of a non-empty array. */
  ghost function Weighed(p: Policy, approvals: seq<RawApproval>): HitlResult {
    if Has(p, approvals, Good) then Approved
    else if Has(p, approvals, Broken) then Invalid
    else if Has(p, approvals, TooWeak) then ApprovalInsufficient
    else if Has(p, approvals, Lapsed) then Expired
    else Unverifiable
  }

  // ----- the loop

  /** The checks of one approval, in their order. */
  method JudgeApproval(p: Policy, a: RawApproval) returns (j: Judgement)
    ensures j == Judge(p, a)
  {
    if a.Malformed? {
      return Broken;
    }
    var duration := DurationOf(a.scope);
    if duration.None? {
      return Broken;
    }
    var end := EndOf(p, a.approvedAt, duration.value);
    if end.None? || p.now > end.value {
      return Lapsed;
    }
    if p.level >= 2 {
      if Insufficient(a.scope, a.procedure) {
        return TooWeak;
      }
    }
    if a.approverId.None? {
      return Broken;
    }
    if a.approverId.value !in p.keys {
      return NoKey;
    }
    if !Authentic(p, a, p.keys[a.approverId.value]) {
      return Broken;
    }
    return Good;
  }

  /** Weighs a non-empty array; `mismatch` says whether a mismatch is reported. */
  method WeighApprovals(p: Policy, approvals: seq<RawApproval>) returns (r: HitlResult, mismatch: bool)
    requires approvals != []
    ensures r == Weighed(p, approvals)
    ensures r == Unverifiable ==> forall a :: a in approvals ==> Judge(p, a) == NoKey
    ensures mismatch <==> r != Approved && r != Unverifiable
  {
    var anyApproved, insufficient, invalid, unverifiable, anyExpired := false, false, false, false, false;
    var i := 0;
    while i < |approvals|
      invariant 0 <= i <= |approvals| && !anyApproved
      invariant !Has(p, approvals[..i], Good)
      invariant invalid == Has(p, approvals[..i], Broken)
      invariant insufficient == Has(p, approvals[..i], TooWeak)
      invariant anyExpired == Has(p, approvals[..i], Lapsed)
      invariant unverifiable == Has(p, approvals[..i], NoKey)
    {
      var j := JudgeApproval(p, approvals[i]);
      HasNext(p, approvals, i);
      i := i + 1;
      match j {
        case Broken => invalid := true;
        case Lapsed => anyExpired := true;
        case TooWeak => insufficient := true;
        case NoKey => unverifiable := true;
        case Good =>
          anyApproved := true;
          HasSome(p, approvals, i, Good);
          break;
      }
    }
    assert !anyApproved ==> approvals[..i] == approvals;
    assert Has(p, approvals, Judge(p, approvals[0])) by {
      assert approvals[0] in approvals;
    }
    if anyApproved {
      return Approved, false;
    } else if invalid {
      return Invalid, true;
    } else if insufficient {
      return ApprovalInsufficient, true;
    } else if anyExpired {
      return Expired, true;
    } else if unverifiable {
      return Unverifiable, false;
    }
    // No entry leaves all flags unset, so the defensive result is never reached.
    assert false;
    return Expired, true;
  }

  lemma HasNext(p: Policy, approvals: seq<RawApproval>, i: nat)
    requires i < |approvals|
    ensures forall j :: Has(p, approvals[..i + 1], j) <==> Has(p, approvals[..i], j) || Judge(p, approvals[i]) == j
  {
    var a, b := approvals[..i], approvals[..i + 1];
    assert b == a + [approvals[i]];
    assert approvals[i] in b;
    forall j | Has(p, a, j)
      ensures Has(p, b, j)
    {
      var x :| x in a && Judge(p, x) == j;
      assert x in b;
    }
  }

  lemma HasSome(p: Policy, approvals: seq<RawApproval>, i: nat, j: Judgement)
    requires i <= |approvals| && Has(p, approvals[..i], j)
    ensures Has(p, approvals, j)
  {
  }

  /** The result for a manifest's record and whether a mismatch is reported. */
  ghost function HitlOf(p: Policy, enforce: bool, record: Option<HitlRecord>): (HitlResult, bool) {
    if record.None? then if enforce then (Missing, true) else (NotRequired, false)
    else if !record.value.required && !enforce then (NotRequired, false)
    else if record.value.approvals == [] then (Missing, enforce)
    else
      var r := Weighed(p, record.value.approvals);
      (r, r != Approved && r != Unverifiable)
  }

  method CheckHitl(p: Policy, enforce: bool, record: Option<HitlRecord>) returns (r: HitlResult, mismatch: bool)
    ensures (r, mismatch) == HitlOf(p, enforce, record)
    ensures enforce && !mismatch && r != Unverifiable ==>
              r == Approved && record.Some? && exists a :: a in record.value.approvals && Judge(p, a) == Good
  {
    if record.Some? {
      if !record.value.required && !enforce {
        return NotRequired, false;
      } else if record.value.approvals == [] {
        return Missing, enforce;
      }
      r, mismatch := WeighApprovals(p, record.value.approvals);
      assert r == Approved ==> Has(p, record.value.approvals, Good);
      return;
    } else if enforce {
      return Missing, true;
    }
    return NotRequired, false;
  }

  // ----- what the result does not depend on

  /** The result depends only on which approvals there are, not on their order. */
  lemma OrderFree(p: Policy, a: seq<RawApproval>, b: seq<RawApproval>)
    requires multiset(a) == multiset(b)
    ensures Weighed(p, a) == Weighed(p, b)
  {
    forall j
      ensures Has(p, a, j) == Has(p, b, j)
    {
      SameMembers(p, a, b, j);
      SameMembers(p, b, a, j);
    }
  }

  lemma SameMembers(p: Policy, a: seq<RawApproval>, b: seq<RawApproval>, j: Judgement)
    requires multiset(a) == multiset(b)
    ensures Has(p, a, j) ==> Has(p, b, j)
  {
    if Has(p, a, j) {
      var x :| x in a && Judge(p, x) == j;
      assert x in multiset(b);
    }
  }

  function Rank(r: HitlResult): nat {
    match r
    case Approved => 4
    case Invalid => 3
    case ApprovalInsufficient => 2
    case Expired => 1
    case _ => 0
  }

  function Higher(r: HitlResult, s: HitlResult): HitlResult {
    if Rank(r) >= Rank(s) then r else s
  }

  /** Two arrays put together get the higher ranked of their results. */
  lemma Merge(p: Policy, a: seq<RawApproval>, b: seq<RawApproval>)
    requires a != [] && b != []
    ensures Weighed(p, a + b) == Higher(Weighed(p, a), Weighed(p, b))
  {
  }

  /** One good approval is enough, whatever stands before and after it. */
  lemma OneGoodSuffices(p: Policy, before: seq<RawApproval>, a: RawApproval, after: seq<RawApproval>)
    requires Judge(p, a) == Good
    ensures Weighed(p, before + [a] + after) == Approved
  {
  }

  /** Time and lost keys only take approval away; they never give it. */
  lemma ApprovedEarlier(p: Policy, q: Policy, approvals: seq<RawApproval>)
    requires q == p.(now := q.now, level := q.level, keys := q.keys) && q.now <= p.now && q.level <= p.level
    requires forall k :: k in p.keys ==> k in q.keys && q.keys[k] == p.keys[k]
    requires Weighed(p, approvals) == Approved
    ensures Weighed(q, approvals) == Approved
  {
  }

  /** The signed bytes settle everything an approval is judged by: two approvals signed over
      the same bytes approve the same manifest, at the same date, with the same approver,
      procedure, duration and risk tier. */
  lemma SignedBytesSettleApproval(p: Policy, a: RawApproval, q: Policy, b: RawApproval)
    requires a.Approval? && a.approvedAt.Some? && a.approverId.Some? && WellFormedDict(a.scope)
    requires b.Approval? && b.approvedAt.Some? && b.approverId.Some? && WellFormedDict(b.scope)
    requires S.Signed(SignedApproval(p, a)).Ok? && S.Signed(SignedApproval(q, b)) == S.Signed(SignedApproval(p, a))
    ensures p.manifestId == q.manifestId && a.approvedAt == b.approvedAt && a.approverId == b.approverId
    ensures a.procedure == b.procedure && DurationOf(a.scope) == DurationOf(b.scope)
    ensures RiskTierOf(a.scope) == RiskTierOf(b.scope)
  {
    S.BytesBindStatement(SignedApproval(p, a), SignedApproval(q, b));
    NameInjective(p.manifestId, q.manifestId);
    NameInjective(a.approvedAt.value, b.approvedAt.value);
    NameInjective(a.approverId.value, b.approverId.value);
    if a.procedure.Some? && b.procedure.Some? {
      NameInjective(a.procedure.value, b.procedure.value);
    }
    SameDicts(a.scope, b.scope);
    SameScopeSameJudgement(a.scope, b.scope);
  }
}
