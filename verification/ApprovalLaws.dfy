/** What an approval is judged by, on its fields, the keys and the clock alone. */
module ApprovalLaws {
  import opened Wrappers
  import opened Json
  import opened JsonMeaning
  import opened Grants
  import opened Signing
  import opened Approvals
  import A = Approvals
  import S = Statements

  // ----- one approval

  /** The scope grants this many seconds: a positive whole number in the safe range. */
  ghost predicate Lasts(scope: seq<Member>, seconds: int) {
    var v := Get(scope, Name("approval_duration_seconds"));
    1 <= seconds <= 9_007_199_254_740_991 && v.Some? && MeaningOf(v.value, true) == MNum(seconds as real)
  }

  ghost predicate Timed(a: RawApproval) {
    a.Approval? && exists seconds :: Lasts(a.scope, seconds)
  }

  /** Its date reads, and now, in UTC, is not past its end, which lies within year 9999 of the
      date's own local time. */
  ghost predicate Open(p: Policy, a: RawApproval) {
    && a.Approval? && a.approvedAt.Some? && p.parse(a.approvedAt.value).Some?
    && var at := p.parse(a.approvedAt.value).value;
       exists seconds :: Lasts(a.scope, seconds) && at.local + seconds * 1_000_000 <= 315_537_897_599_999_999
                         && p.now <= at.local + seconds * 1_000_000 - at.offset
  }

  /** From level 2 on it was not given with a software key, and where the risk is high or
      critical with a hardware key. */
  predicate Strong(p: Policy, a: RawApproval)
    requires a.Approval?
  {
    p.level >= 2 ==>
      && a.procedure != Some("software-key")
      && (Get(a.scope, Name("risk_tier")) in {Some(Str(Name("high"))), Some(Str(Name("critical")))} ==>
            a.procedure == Some("hardware-key"))
  }

  /** The approver's trusted key has signed the approval of this manifest. */
  predicate SignedBy(p: Policy, a: RawApproval)
    requires a.Approval? && a.approvedAt.Some?
  {
    && a.approverId.Some? && a.approverId.value in p.keys && a.signature.Some?
    && p.check(p.keys[a.approverId.value],
               S.Approval(Name(p.manifestId), Name(a.approvedAt.value), a.scope, Name(a.approverId.value),
                          match a.procedure case Some(x) => Some(Name(x)) case None => None),
               a.signature.value)
  }

  ghost predicate Holds(p: Policy, a: RawApproval) {
    Open(p, a) && Strong(p, a) && SignedBy(p, a)
  }

  /** It cannot be read, or no known approver has signed it although it is open and strong. */
  ghost predicate Breaks(p: Policy, a: RawApproval) {
    || !Timed(a)
    || (Open(p, a) && Strong(p, a) && !SignedBy(p, a) && (a.approverId.None? || a.approverId.value in p.keys))
  }

  lemma DurationExactly(scope: seq<Member>, seconds: int)
    ensures DurationOf(scope) == Some(seconds) <==> Lasts(scope, seconds)
  {
    var v := Get(scope, Name("approval_duration_seconds"));
    if v.Some? {
      WholeNumberExact(v.value, seconds);
    }
  }

  lemma OpenExactly(p: Policy, a: RawApproval)
    requires a.Approval?
    ensures Timed(a) <==> DurationOf(a.scope).Some?
    ensures Open(p, a) <==>
            && DurationOf(a.scope).Some?
            && var end := EndOf(p, a.approvedAt, DurationOf(a.scope).value);
               end.Some? && p.now <= end.value
  {
    if DurationOf(a.scope).Some? {
      DurationExactly(a.scope, DurationOf(a.scope).value);
    }
    forall seconds | Lasts(a.scope, seconds)
      ensures DurationOf(a.scope) == Some(seconds)
    {
      DurationExactly(a.scope, seconds);
    }
  }

  lemma StrongExactly(p: Policy, a: RawApproval)
    requires a.Approval?
    ensures Strong(p, a) <==> !(p.level >= 2 && Insufficient(a.scope, a.procedure))
  {
  }

  /** Every judgement. */
  lemma JudgeExactly(p: Policy, a: RawApproval)
    ensures Judge(p, a) == Good <==> Holds(p, a)
    ensures Judge(p, a) == Lapsed <==> Timed(a) && !Open(p, a)
    ensures Judge(p, a) == TooWeak <==> Open(p, a) && !Strong(p, a)
    ensures Judge(p, a) == NoKey <==> Open(p, a) && Strong(p, a) && a.approverId.Some? && a.approverId.value !in p.keys
    ensures Judge(p, a) == Broken <==> Breaks(p, a)
  {
    if a.Approval? {
      OpenExactly(p, a);
      StrongExactly(p, a);
    }
  }

  // ----- an array of approvals

  ghost predicate SomeHolds(p: Policy, approvals: seq<RawApproval>) {
    exists a :: a in approvals && Holds(p, a)
  }

  ghost predicate SomeBreaks(p: Policy, approvals: seq<RawApproval>) {
    exists a :: a in approvals && Breaks(p, a)
  }

  ghost predicate SomeWeak(p: Policy, approvals: seq<RawApproval>) {
    exists a :: a in approvals && Open(p, a) && !Strong(p, a)
  }

  ghost predicate SomeLapsed(p: Policy, approvals: seq<RawApproval>) {
    exists a :: a in approvals && Timed(a) && !Open(p, a)
  }

  lemma SomeExactly(p: Policy, approvals: seq<RawApproval>)
    ensures SomeHolds(p, approvals) <==> A.Has(p, approvals, Good)
    ensures SomeBreaks(p, approvals) <==> A.Has(p, approvals, Broken)
    ensures SomeWeak(p, approvals) <==> A.Has(p, approvals, TooWeak)
    ensures SomeLapsed(p, approvals) <==> A.Has(p, approvals, Lapsed)
  {
    forall a | a in approvals
      ensures Judge(p, a) == Good <==> Holds(p, a)
      ensures Judge(p, a) == Lapsed <==> Timed(a) && !Open(p, a)
      ensures Judge(p, a) == TooWeak <==> Open(p, a) && !Strong(p, a)
      ensures Judge(p, a) == Broken <==> Breaks(p, a)
    {
      JudgeExactly(p, a);
    }
  }

  /** Approved exactly when some approval holds; otherwise the gravest of the other findings:
      one that is broken, one too weak, one lapsed, and only last none with a key. */
  lemma WeighedExactly(p: Policy, approvals: seq<RawApproval>)
    ensures Weighed(p, approvals) ==
            if SomeHolds(p, approvals) then Approved
            else if SomeBreaks(p, approvals) then Invalid
            else if SomeWeak(p, approvals) then ApprovalInsufficient
            else if SomeLapsed(p, approvals) then Expired
            else Unverifiable
  {
    SomeExactly(p, approvals);
  }

  /** The result for a record, present or not, and whether it is reported as a mismatch. */
  lemma HitlExactly(p: Policy, enforce: bool, record: Option<HitlRecord>)
    ensures var (r, mismatch) := HitlOf(p, enforce, record);
            var asked := enforce || (record.Some? && record.value.required);
            var given := if record.Some? then record.value.approvals else [];
            && (!asked ==> r == NotRequired && !mismatch)
            && (asked && given == [] ==> r == Missing && mismatch == enforce)
            && (asked && given != [] ==> r == Weighed(p, given) && (mismatch <==> r !in {Approved, Unverifiable}))
  {
  }
}
