/** When a delegation chain is accepted, on the fields of its hops, the keys and the clock of
    its grants alone. */
module DelegationLaws {
  import opened Wrappers
  import opened Json
  import opened JsonMeaning
  import opened Decimals
  import opened Whitespace
  import opened Grants
  import opened Signing
  import opened Delegation
  import S = Statements

  // ----- what is read out of a grant

  /** A list of strings; no list is an empty one. */
  predicate ListReads(v: Option<Value>, texts: seq<Text>) {
    match v
    case None => texts == []
    case Some(x) =>
      x.Array? && !x.tuple && |x.items| == |texts| && forall i :: 0 <= i < |texts| ==> x.items[i] == Str(texts[i])
  }

  /** A value that means a whole number in the safe range; nothing, or null where that is
      allowed, is no number. */
  ghost predicate NumberReads(v: Option<Value>, nullable: bool, n: Option<int>) {
    match v
    case None => n == None
    case Some(x) =>
      if nullable && x == Null then n == None
      else n.Some? && -9_007_199_254_740_991 <= n.value <= 9_007_199_254_740_991 &&
           MeaningOf(x, true) == MNum(n.value as real)
  }

  lemma ListReadsExactly(v: Option<Value>, texts: seq<Text>)
    ensures ReadTexts(v) == Some(texts) <==> ListReads(v, texts)
  {
    if ListReads(v, texts) && v.Some? {
      assert Texts(v.value.items) == texts;
    }
  }

  lemma NumberReadsExactly(v: Option<Value>, nullable: bool, n: Option<int>)
    ensures ReadNumber(v, nullable) == Some(n) <==> NumberReads(v, nullable, n)
  {
    if v.Some? && n.Some? {
      WholeNumberExact(v.value, n.value);
    }
    if v.Some? && WholeNumber(v.value).Some? {
      WholeNumberExact(v.value, WholeNumber(v.value).value);
    }
  }

  /** A grant is read as a scope exactly when its five fields are. */
  lemma ReadScopeExactly(grant: Value, s: Scope)
    ensures ReadScope(grant) == Some(s) <==>
            && grant.Dict?
            && ListReads(Get(grant.members, Name("tools")), s.tools)
            && ListReads(Get(grant.members, Name("data_classifications")), s.classes)
            && ListReads(Get(grant.members, Name("constraints")), s.constraints)
            && NumberReads(Get(grant.members, Name("ttl_seconds")), true, s.ttl)
            && NumberReads(Get(grant.members, Name("max_delegation_depth")), false, s.maxDepth)
  {
    if grant.Dict? {
      var d := grant.members;
      ListReadsExactly(Get(d, Name("tools")), s.tools);
      ListReadsExactly(Get(d, Name("data_classifications")), s.classes);
      ListReadsExactly(Get(d, Name("constraints")), s.constraints);
      NumberReadsExactly(Get(d, Name("ttl_seconds")), true, s.ttl);
      NumberReadsExactly(Get(d, Name("max_delegation_depth")), false, s.maxDepth);
    }
  }

  // ----- one hop

  /** How many further hops a grant allows. */
  function Hops(s: Scope): int {
    if s.maxDepth.Some? then s.maxDepth.value else 3
  }

  /** The hop has the right place, names a principal of a known kind, and carries a grant that
      can be read. */
  predicate Readable(h: RawHop, i: nat) {
    && h.Hop? && h.index == i <= 9_007_199_254_740_991
    && h.principalType in {"human", "system", "agent"} && !Blank(h.principalId)
    && ReadScope(h.grant).Some? && Hops(ReadScope(h.grant).value) >= 0
    && (ReadScope(h.grant).value.ttl.Some? ==> ReadScope(h.grant).value.ttl.value >= 1)
  }

  /** What the scheme says about the hop under its principal's trusted key. */
  function Checked(ctx: Context, h: RawHop, i: nat): SignatureCheck
    requires h.Hop? && h.principalId in ctx.keys && h.grant.Dict?
  {
    ctx.check(ctx.keys[h.principalId],
              S.Hop(i, Name(ctx.manifestId), Name(h.principalId), Name(h.principalType), Name(h.delegatedAt),
                    h.grant.members),
              h.signature)
  }

  /** Readable, and signed by its principal. */
  predicate Signed(ctx: Context, h: RawHop, i: nat) {
    Readable(h, i) && h.principalId in ctx.keys && Checked(ctx, h, i) == GoodSignature
  }

  /** The grant of a hop ends at this instant, in UTC and within year 9999 of local time. */
  predicate Ends(ctx: Context, h: RawHop, ttl: int, end: int)
    requires h.Hop?
  {
    var at := ctx.parse(h.delegatedAt);
    && at.Some? && at.value.local + ttl * 1_000_000 <= 315_537_897_599_999_999
    && end == at.value.local + ttl * 1_000_000 - at.value.offset
  }

  /** The later hop is granted nothing that the earlier one is not, for no longer. */
  ghost predicate Inherits(ctx: Context, h: RawHop, g: RawHop)
    requires h.Hop? && g.Hop? && ReadScope(h.grant).Some? && ReadScope(g.grant).Some?
  {
    var p, c := ReadScope(h.grant).value, ReadScope(g.grant).value;
    && (p.tools != [] ==> c.tools != [] && forall t :: t in c.tools ==> t in p.tools)
    && (forall x :: x in c.classes ==> x in p.classes)
    && (forall k :: k in p.constraints ==> k in c.constraints)
    && (p.ttl.Some? ==>
          && c.ttl.Some? && c.ttl.value <= p.ttl.value
          && exists end, last :: Ends(ctx, g, c.ttl.value, end) && Ends(ctx, h, p.ttl.value, last) && end <= last)
    && Hops(c) <= Hops(p)
  }

  lemma ToolsInherit(p: seq<Text>, c: seq<Text>)
    ensures (ToSet(p) != {} ==> ToSet(c) != {} && ToSet(c) <= ToSet(p)) <==>
            (p != [] ==> c != [] && forall t :: t in c ==> t in p)
  {
    SetOfList(p);
    SetOfList(c);
  }

  lemma ClassesInherit(p: seq<Text>, c: seq<Text>)
    ensures !(ToSet(p) == {} && ToSet(c) != {}) && !(ToSet(p) != {} && ToSet(c) != {} && !(ToSet(c) <= ToSet(p))) <==>
            forall x :: x in c ==> x in p
  {
    SetOfList(p);
    SetOfList(c);
  }

  lemma TimesInherit(ctx: Context, h: Hop, g: Hop, p: Scope, c: Scope)
    requires p == ScopeOf(h) && c == ScopeOf(g)
    ensures !(p.ttl.Some? && (c.ttl.None? || c.ttl.value > p.ttl.value)) &&
            (p.ttl.Some? && c.ttl.Some? ==>
               Expiry(ctx, h).Some? && Expiry(ctx, g).Some? && Expiry(ctx, g).value <= Expiry(ctx, h).value) <==>
            (p.ttl.Some? ==>
               && c.ttl.Some? && c.ttl.value <= p.ttl.value
               && exists end, last :: Ends(ctx, g, c.ttl.value, end) && Ends(ctx, h, p.ttl.value, last) && end <= last)
  {
    if p.ttl.Some? && c.ttl.Some? && Expiry(ctx, h).Some? && Expiry(ctx, g).Some? {
      assert Ends(ctx, h, p.ttl.value, Expiry(ctx, h).value) && Ends(ctx, g, c.ttl.value, Expiry(ctx, g).value);
    }
  }

  lemma InheritsIsWithin(ctx: Context, h: RawHop, g: RawHop)
    requires h.Hop? && g.Hop? && ReadScope(h.grant).Some? && ReadScope(g.grant).Some?
    ensures Inherits(ctx, h, g) <==> Narrows(ctx, h, g)
  {
    var p, c := ScopeOf(h), ScopeOf(g);
    ToolsInherit(p.tools, c.tools);
    ClassesInherit(p.classes, c.classes);
    ConstraintsInherit(p.constraints, c.constraints);
    TimesInherit(ctx, h, g, p, c);
  }

  lemma ConstraintsInherit(p: seq<Text>, c: seq<Text>)
    ensures ToSet(p) - ToSet(c) == {} <==> forall k :: k in p ==> k in c
  {
    if ToSet(p) - ToSet(c) == {} {
      forall k | k in p
        ensures k in c
      {
        assert k !in ToSet(p) - ToSet(c);
      }
    }
  }

  lemma FaultExactly(ctx: Context, chain: seq<RawHop>, i: nat)
    requires i < |chain|
    ensures HopFault(ctx, chain, i) == None <==>
            && Signed(ctx, chain[i], i)
            && (i > 0 ==> chain[i - 1].Hop? && Narrows(ctx, chain[i - 1], chain[i]))
    ensures HopFault(ctx, chain, i) == Some(InvalidSignature) <==>
            Readable(chain[i], i) && chain[i].principalId in ctx.keys && Checked(ctx, chain[i], i) == WrongSignature
  {
    if chain[i].Hop? {
      ReadScopeIsDict(chain[i].grant);
    }
  }

  lemma ReadScopeIsDict(grant: Value)
    ensures ReadScope(grant).Some? ==> grant.Dict?
    ensures ReadScope(grant).Some? ==>
              var s := ReadScope(grant).value;
              && (s.maxDepth.Some? ==> s.maxDepth.value <= 9_007_199_254_740_991)
              && (s.ttl.Some? ==> s.ttl.value <= 9_007_199_254_740_991)
  {
  }

  // ----- the chain

  /** The root stands for the issuer of the manifest, when there is one. */
  predicate RootStandsFor(ctx: Context, root: RawHop)
    requires root.Hop?
  {
    match ctx.issuer
    case None => true
    case Some(issuer) => issuer == "" || issuer == root.principalId || root.manifestId == Some(issuer)
  }

  /** Each of the first hops is signed and inherits from the one before it. */
  ghost predicate Passing(ctx: Context, chain: seq<RawHop>, n: nat)
    requires n <= |chain|
  {
    && (forall i :: 0 <= i < n ==> Signed(ctx, chain[i], i))
    && (forall i :: 0 < i < n ==> Inherits(ctx, chain[i - 1], chain[i]))
  }

  lemma PassingNext(ctx: Context, chain: seq<RawHop>, n: nat)
    requires n < |chain|
    ensures Passing(ctx, chain, n + 1) <==>
            Passing(ctx, chain, n) && Signed(ctx, chain[n], n) && (n > 0 ==> Inherits(ctx, chain[n - 1], chain[n]))
  {
  }

  lemma FaultNext(ctx: Context, chain: seq<RawHop>, n: nat)
    requires n < |chain| && Passing(ctx, chain, n)
    ensures HopFault(ctx, chain, n) == None <==>
            Signed(ctx, chain[n], n) && (n > 0 ==> Inherits(ctx, chain[n - 1], chain[n]))
  {
    FaultExactly(ctx, chain, n);
    if n > 0 && Signed(ctx, chain[n], n) {
      InheritsIsWithin(ctx, chain[n - 1], chain[n]);
    }
  }

  lemma GoodNext(ctx: Context, chain: seq<RawHop>, n: nat)
    requires n < |chain|
    ensures Good(ctx, chain, n + 1) <==> Good(ctx, chain, n) && HopFault(ctx, chain, n) == None
  {
  }

  lemma NextAgrees(ctx: Context, chain: seq<RawHop>, n: nat)
    requires n < |chain| && (Good(ctx, chain, n) <==> Passing(ctx, chain, n))
    ensures Good(ctx, chain, n + 1) <==> Passing(ctx, chain, n + 1)
  {
    GoodNext(ctx, chain, n);
    PassingNext(ctx, chain, n);
    if Passing(ctx, chain, n) {
      FaultNext(ctx, chain, n);
    }
  }

  lemma {:induction false} GoodExactly(ctx: Context, chain: seq<RawHop>, n: nat)
    requires n <= |chain|
    ensures Good(ctx, chain, n) <==> Passing(ctx, chain, n)
    decreases n
  {
    if n > 0 {
      GoodExactly(ctx, chain, n - 1);
      NextAgrees(ctx, chain, n - 1);
    }
  }

  /** A chain is accepted exactly when it is empty, or every hop is signed by its principal over
      its own fields, every hop inherits from every earlier one, the root stands for the
      issuer, and its grant allows as many hops as follow. */
  lemma AcceptedExactly(ctx: Context, chain: seq<RawHop>)
    ensures Accepted(ctx, chain) <==>
            chain == [] ||
            (&& (forall i :: 0 <= i < |chain| ==> Signed(ctx, chain[i], i))
             && (forall i, j :: 0 <= i < j < |chain| ==> Inherits(ctx, chain[i], chain[j]))
             && RootStandsFor(ctx, chain[0])
             && |chain| - 1 <= Hops(ReadScope(chain[0].grant).value))
  {
    GoodExactly(ctx, chain, |chain|);
    if Accepted(ctx, chain) {
      forall i, j | 0 <= i < j < |chain|
        ensures Inherits(ctx, chain[i], chain[j])
      {
        NarrowingIsGlobal(ctx, chain, i, j);
        NarrowsIsWithin(ctx, chain[i], chain[j]);
        InheritsIsWithin(ctx, chain[i], chain[j]);
      }
    }
  }

  /** Hop i is the first that does not pass: readable, of a principal with a trusted key, and
      rejected by the scheme. */
  ghost predicate Forged(ctx: Context, chain: seq<RawHop>, i: nat) {
    && i < |chain| && Passing(ctx, chain, i)
    && Readable(chain[i], i) && chain[i].principalId in ctx.keys && Checked(ctx, chain[i], i) == WrongSignature
  }

  lemma ForgedIsFirstFault(ctx: Context, chain: seq<RawHop>, i: nat)
    ensures FirstFault(ctx, chain, i, InvalidSignature) <==> Forged(ctx, chain, i)
    ensures Forged(ctx, chain, i) ==> Readable(chain[0], 0)
  {
    if i < |chain| {
      FaultExactly(ctx, chain, i);
      GoodExactly(ctx, chain, i);
    }
  }

  /** The outcome is an invalid signature exactly when some hop is forged, the root stands for
      the issuer, and its grant allows as many hops as follow. */
  lemma InvalidSignatureExactly(ctx: Context, chain: seq<RawHop>)
    requires chain != []
    ensures && Delegation.WellFormed(chain[0]) && RootBound(ctx, chain[0]) && |chain| - 1 <= Depth(ScopeOf(chain[0]))
            && (exists i :: FirstFault(ctx, chain, i, InvalidSignature)) <==>
            && (exists i :: Forged(ctx, chain, i))
            && RootStandsFor(ctx, chain[0]) && |chain| - 1 <= Hops(ReadScope(chain[0].grant).value)
  {
    forall i: nat
      ensures FirstFault(ctx, chain, i, InvalidSignature) <==> Forged(ctx, chain, i)
      ensures Forged(ctx, chain, i) ==> Readable(chain[0], 0)
    {
      ForgedIsFirstFault(ctx, chain, i);
    }
    if Readable(chain[0], 0) {
      ReadScopeIsDict(chain[0].grant);
    }
  }

  /** The hops reported as unverifiable are those whose grants carry constraints. */
  lemma ConstrainedExactly(ctx: Context, chain: seq<RawHop>)
    requires Accepted(ctx, chain)
    ensures forall i: nat :: i in Constrained(chain) <==>
                             i < |chain| && chain[i].Hop? && ReadScope(chain[i].grant).Some? &&
                             ReadScope(chain[i].grant).value.constraints != []
  {
    var first := ConstrainedSuffix(ctx, chain);
    if chain != [] {
      AcceptedExactly(ctx, chain);
    }
    forall i: nat
      ensures i in Constrained(chain) <==> first <= i < |chain|
    {
      assert first <= i < |chain| ==> Count(first, |chain|)[i - first] == i;
    }
  }
}
