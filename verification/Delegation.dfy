/** Delegation chains: the hop by hop check, and what it says about any two hops. */
module Delegation {
  import opened Wrappers
  import opened Primitives
  import opened Decimals
  import opened Json
  import opened Checkpoints
  import opened Whitespace
  import opened Grants
  import opened Records
  import opened Signing
  import S = Statements

  // ----- hops

  /** A decoded hop, its scope grant as JSON.  Malformed: a field is missing or of another
      type. */
  datatype RawHop =
    | Malformed
    | Hop(index: int, principalId: string, manifestId: Option<string>, principalType: string,
          delegatedAt: string, grant: Value, signature: string)

  type Hop = h: RawHop | h.Hop? witness Hop(0, "", None, "", "", Null, "")

  datatype SignatureCheck = GoodSignature | WrongSignature | BadInput

  /** The verifier's surroundings: keys, signature scheme over statements, whose bytes are
      those of Statements, and timestamp reader. */
  datatype Context = Context(
    keys: map<string, string>,
    manifestId: string,
    issuer: Option<string>,
    check: (string, S.Statement, string) -> SignatureCheck,
    parse: string -> Option<Timestamp>)

  datatype Fault = Invalid | InvalidSignature

  datatype Outcome = Valid | Unverifiable(hops: seq<nat>) | Failed(fault: Fault)

  const DEFAULT_DEPTH: int := 3
  const PRINCIPAL_TYPES: set<string> := {"human", "system", "agent"}

  /** What the verifier reads out of a grant; nothing when it cannot be read. */
  function ScopeOf(h: Hop): Scope {
    if ReadScope(h.grant).Some? then ReadScope(h.grant).value else Scope([], [], [], None, None)
  }

  function Depth(s: Scope): int {
    if s.maxDepth.Some? then s.maxDepth.value else DEFAULT_DEPTH
  }

  predicate WellFormed(h: RawHop) {
    && h.Hop?
    && ReadScope(h.grant).Some?
    && -MAX_SAFE_INTEGER <= h.index <= MAX_SAFE_INTEGER
    && h.principalType in PRINCIPAL_TYPES
    && !Blank(h.principalId)
    && 0 <= Depth(ScopeOf(h)) <= MAX_SAFE_INTEGER
    && (ScopeOf(h).ttl.Some? ==> 1 <= ScopeOf(h).ttl.value <= MAX_SAFE_INTEGER)
  }

  /** When the grant of a hop ends, in UTC microseconds; None when the date cannot be
      read or lies after year 9999. */
  function Expiry(ctx: Context, h: Hop): Option<int> {
    var at := ctx.parse(h.delegatedAt);
    if at.None? || ScopeOf(h).ttl.None? then None else After(at.value, ScopeOf(h).ttl.value)
  }

  // ----- the check of one hop

  function ToSet(s: seq<Text>): (t: set<Text>)
    ensures forall x :: x in t <==> x in s
  {
    set x | x in s
  }

  /** Nothing in the child's grant is wider than the parent's, field by field. */
  predicate Narrows(ctx: Context, parent: Hop, child: Hop) {
    var p, c := ScopeOf(parent), ScopeOf(child);
    && (ToSet(p.tools) != {} ==> ToSet(c.tools) != {} && ToSet(c.tools) <= ToSet(p.tools))
    && !(ToSet(p.classes) == {} && ToSet(c.classes) != {})
    && !(ToSet(p.classes) != {} && ToSet(c.classes) != {} && !(ToSet(c.classes) <= ToSet(p.classes)))
    && ToSet(p.constraints) - ToSet(c.constraints) == {}
    && !(p.ttl.Some? && (c.ttl.None? || c.ttl.value > p.ttl.value))
    && (p.ttl.Some? && c.ttl.Some? ==>
          && Expiry(ctx, parent).Some? && Expiry(ctx, child).Some?
          && Expiry(ctx, child).value <= Expiry(ctx, parent).value)
    && Depth(c) <= Depth(p)
  }

  /** What the signature of a hop covers. */
  function SignedHop(ctx: Context, h: Hop, i: int): S.Statement {
    S.Hop(i, Name(ctx.manifestId), Name(h.principalId), Name(h.principalType), Name(h.delegatedAt),
          if h.grant.Dict? then h.grant.members else [])
  }

  function SignatureFault(ctx: Context, h: Hop, i: int): Option<Fault> {
    if h.principalId !in ctx.keys then Some(Invalid)
    else
      match ctx.check(ctx.keys[h.principalId], SignedHop(ctx, h, i), h.signature)
      case GoodSignature => None
      case WrongSignature => Some(InvalidSignature)
      case BadInput => Some(Invalid)
  }

  /** The first thing wrong with hop i, given that nothing is wrong before it. */
  function HopFault(ctx: Context, chain: seq<RawHop>, i: nat): Option<Fault>
    requires i < |chain|
  {
    var h := chain[i];
    if !WellFormed(h) || h.index != i then Some(Invalid)
    else if SignatureFault(ctx, h, i).Some? then SignatureFault(ctx, h, i)
    else if i > 0 && !(chain[i - 1].Hop? && Narrows(ctx, chain[i - 1], h)) then Some(Invalid)
    else None
  }

  predicate RootBound(ctx: Context, root: Hop) {
    ctx.issuer.Some? && ctx.issuer.value != "" ==>
      ctx.issuer.value == root.principalId || ctx.issuer == root.manifestId
  }

  /** Every hop up to n passes. */
  ghost predicate Good(ctx: Context, chain: seq<RawHop>, n: nat)
    requires n <= |chain|
  {
    forall i :: 0 <= i < n ==> HopFault(ctx, chain, i) == None
  }

  /** Hop i has the fault and no hop before it has one. */
  ghost predicate FirstFault(ctx: Context, chain: seq<RawHop>, i: nat, fault: Fault) {
    i < |chain| && Good(ctx, chain, i) && HopFault(ctx, chain, i) == Some(fault)
  }

  /** The hop carries constraints. */
  predicate Carries(h: RawHop) {
    h.Hop? && ScopeOf(h).constraints != []
  }

  function Marks(chain: seq<RawHop>): (marks: seq<bool>)
    ensures |marks| == |chain| && forall i :: 0 <= i < |marks| ==> marks[i] == Carries(chain[i])
  {
    seq(|chain|, i requires 0 <= i < |chain| => Carries(chain[i]))
  }

  function Positions(marks: seq<bool>): (ps: seq<nat>) {
    if marks == [] then []
    else
      var j := |marks| - 1;
      Positions(marks[..j]) + (if marks[j] then [j] else [])
  }

  /** The hops that carry constraints, in order. */
  function Constrained(chain: seq<RawHop>): (hops: seq<nat>) {
    Positions(Marks(chain))
  }

  lemma ConstrainedNext(chain: seq<RawHop>, i: nat)
    requires i < |chain|
    ensures Constrained(chain[..i + 1]) == Constrained(chain[..i]) + if Carries(chain[i]) then [i] else []
  {
    assert Marks(chain[..i + 1])[..i] == Marks(chain[..i]);
  }

  /** Everything a chain must meet for an outcome that is not a failure. */
  ghost predicate Accepted(ctx: Context, chain: seq<RawHop>) {
    chain != [] ==>
      && Good(ctx, chain, |chain|)
      && chain[0].Hop?
      && RootBound(ctx, chain[0])
      && |chain| - 1 <= Depth(ScopeOf(chain[0]))
  }

  // ----- the verifier

  method CheckSignature(ctx: Context, h: Hop, i: nat) returns (fault: Option<Fault>)
    ensures fault == SignatureFault(ctx, h, i)
  {
    if h.principalId !in ctx.keys {
      return Some(Invalid);
    }
    match ctx.check(ctx.keys[h.principalId], SignedHop(ctx, h, i), h.signature) {
      case GoodSignature => return None;
      case WrongSignature => return Some(InvalidSignature);
      case BadInput => return Some(Invalid);
    }
  }

  lemma PassedIsHop(ctx: Context, chain: seq<RawHop>, i: nat)
    requires i < |chain| && HopFault(ctx, chain, i) == None
    ensures chain[i].Hop? && (Good(ctx, chain, i) ==> Good(ctx, chain, i + 1))
  {
  }

  lemma HopFaultFields(ctx: Context, chain: seq<RawHop>, i: nat, h: RawHop, prev: Option<Hop>, fault: Option<Fault>)
    requires i < |chain| && h == chain[i] && fault == HopFault(ctx, chain, i)
    requires prev == if i == 0 || chain[i - 1].Malformed? then None else Some(chain[i - 1])
    requires i > 0 ==> prev.Some?
    ensures !WellFormed(h) || h.index != i ==> fault == Some(Invalid)
    ensures WellFormed(h) && h.index == i ==>
              var signature := SignatureFault(ctx, h, i);
              fault == if signature.Some? then signature
                       else if prev.Some? && !Narrows(ctx, prev.value, h) then Some(Invalid) else None
  {
  }

  /** The checks of one hop, in their order. */
  method CheckHop(ctx: Context, chain: seq<RawHop>, i: nat, prev: Option<Hop>) returns (fault: Option<Fault>)
    requires i < |chain| && (i == 0 ==> WellFormed(chain[0]))
    requires prev == if i == 0 || chain[i - 1].Malformed? then None else Some(chain[i - 1])
    requires i > 0 ==> prev.Some?
    ensures fault == HopFault(ctx, chain, i)
  {
    var h := chain[i];
    HopFaultFields(ctx, chain, i, h, prev, HopFault(ctx, chain, i));
    if i > 0 && !WellFormed(h) {
      return Some(Invalid);
    }
    if h.index != i {
      return Some(Invalid);
    }
    fault := CheckSignature(ctx, h, i);
    if fault.Some? {
      return;
    }
    if prev.Some? && !Narrows(ctx, prev.value, h) {
      return Some(Invalid);
    }
    return None;
  }

  method VerifyHops(ctx: Context, chain: seq<RawHop>) returns (r: Result<seq<nat>, Fault>)
    requires chain != [] && WellFormed(chain[0])
    ensures r.Ok? ==> Good(ctx, chain, |chain|) && r.value == Constrained(chain)
    ensures r.Err? ==> exists i :: FirstFault(ctx, chain, i, r.error)
  {
    var prev: Option<Hop> := None;
    var unverifiable: seq<nat> := [];
    var i := 0;
    while i < |chain|
      invariant 0 <= i <= |chain| && Good(ctx, chain, i)
      invariant prev == if i == 0 then None else Some(chain[i - 1])
      invariant unverifiable == Constrained(chain[..i])
    {
      var fault := CheckHop(ctx, chain, i, prev);
      if fault.Some? {
        assert FirstFault(ctx, chain, i, fault.value);
        return Err(fault.value);
      }
      ConstrainedNext(chain, i);
      PassedIsHop(ctx, chain, i);
      if Carries(chain[i]) {
        unverifiable := unverifiable + [i];
      }
      prev := Some(chain[i]);
      i := i + 1;
    }
    assert chain[..|chain|] == chain;
    return Ok(unverifiable);
  }

  method VerifyDelegationChain(ctx: Context, chain: seq<RawHop>) returns (r: Outcome)
    ensures !r.Failed? <==> Accepted(ctx, chain)
    ensures !r.Failed? ==> r == if Constrained(chain) == [] then Valid else Unverifiable(Constrained(chain))
    ensures r == Failed(InvalidSignature) <==>
            && chain != [] && WellFormed(chain[0]) && RootBound(ctx, chain[0])
            && |chain| - 1 <= Depth(ScopeOf(chain[0]))
            && exists i :: FirstFault(ctx, chain, i, InvalidSignature)
  {
    if chain == [] {
      return Valid;
    }
    var root := chain[0];
    assert Good(ctx, chain, |chain|) ==> HopFault(ctx, chain, 0) == None;
    if !WellFormed(root) {
      return Failed(Invalid);
    }
    if ctx.issuer.Some? && ctx.issuer.value != "" {
      if !(ctx.issuer.value == root.principalId || ctx.issuer == root.manifestId) {
        return Failed(Invalid);
      }
    }
    if |chain| - 1 > Depth(ScopeOf(root)) {
      return Failed(Invalid);
    }
    var hops := VerifyHops(ctx, chain);
    if hops.Err? {
      FirstFaultIsUnique(ctx, chain, hops.error);
      return Failed(hops.error);
    }
    if hops.value != [] {
      return Unverifiable(hops.value);
    }
    return Valid;
  }

  /** A chain has one first fault, so one outcome. */
  lemma FirstFaultIsUnique(ctx: Context, chain: seq<RawHop>, fault: Fault)
    requires exists i :: FirstFault(ctx, chain, i, fault)
    ensures !Good(ctx, chain, |chain|)
    ensures forall j, other :: FirstFault(ctx, chain, j, other) ==> other == fault
  {
  }

  // ----- narrowing is inclusion of authority

  predicate Allows(h: Hop, tool: Text) {
    ScopeOf(h).tools == [] || tool in ScopeOf(h).tools
  }

  predicate Cleared(h: Hop, class_: Text) {
    class_ in ScopeOf(h).classes
  }

  predicate BoundBy(h: Hop, constraint: Text) {
    constraint in ScopeOf(h).constraints
  }

  /** The child may do nothing the parent may not, for no longer. */
  ghost predicate Within(ctx: Context, parent: Hop, child: Hop) {
    && (forall t :: Allows(child, t) ==> Allows(parent, t))
    && (forall c :: Cleared(child, c) ==> Cleared(parent, c))
    && (forall k :: BoundBy(parent, k) ==> BoundBy(child, k))
    && (ScopeOf(parent).ttl.Some? ==>
          && ScopeOf(child).ttl.Some? && ScopeOf(child).ttl.value <= ScopeOf(parent).ttl.value
          && Expiry(ctx, parent).Some? && Expiry(ctx, child).Some?
          && Expiry(ctx, child).value <= Expiry(ctx, parent).value)
    && Depth(ScopeOf(child)) <= Depth(ScopeOf(parent))
  }

  /** A tool name that is on no given list. */
  lemma {:induction false} FreshName(names: seq<Text>) returns (name: Text)
    ensures forall i :: 0 <= i < |names| ==> |names[i]| < |name|
    ensures name != [] && name !in names
  {
    if names == [] {
      name := [0x74];
    } else {
      var rest := FreshName(names[1..]);
      name := rest + names[0];
    }
  }

  /** Field by field narrowing is exactly inclusion of what the two grants permit. */
  lemma NarrowsIsWithin(ctx: Context, parent: Hop, child: Hop)
    ensures Narrows(ctx, parent, child) <==> Within(ctx, parent, child)
  {
    ToolsNarrow(parent, child);
    ClassesNarrow(parent, child);
    ConstraintsNarrow(parent, child);
  }

  lemma ToolsNarrow(parent: Hop, child: Hop)
    ensures var p, c := ToSet(ScopeOf(parent).tools), ToSet(ScopeOf(child).tools);
            (p != {} ==> c != {} && c <= p) <==> forall t :: Allows(child, t) ==> Allows(parent, t)
  {
    var p, c := ToSet(ScopeOf(parent).tools), ToSet(ScopeOf(child).tools);
    SetOfList(ScopeOf(parent).tools);
    SetOfList(ScopeOf(child).tools);
    if p != {} && c == {} {
      var other := FreshName(ScopeOf(parent).tools);
      assert Allows(child, other) && !Allows(parent, other);
    } else if p != {} && !(c <= p) {
      var t :| t in c && t !in p;
      assert Allows(child, t) && !Allows(parent, t);
    }
  }

  lemma SetOfList(s: seq<Text>)
    ensures ToSet(s) == {} <==> s == []
  {
    if s != [] {
      assert s[0] in ToSet(s);
    }
  }

  lemma ClassesNarrow(parent: Hop, child: Hop)
    ensures var p, c := ToSet(ScopeOf(parent).classes), ToSet(ScopeOf(child).classes);
            !(p == {} && c != {}) && !(p != {} && c != {} && !(c <= p)) <==>
              forall x :: Cleared(child, x) ==> Cleared(parent, x)
  {
    var p, c := ToSet(ScopeOf(parent).classes), ToSet(ScopeOf(child).classes);
    if forall x :: Cleared(child, x) ==> Cleared(parent, x) {
      forall x | x in c
        ensures x in p
      {
        assert Cleared(child, x);
      }
    }
  }

  lemma ConstraintsNarrow(parent: Hop, child: Hop)
    ensures var p, c := ToSet(ScopeOf(parent).constraints), ToSet(ScopeOf(child).constraints);
            p - c == {} <==> forall k :: BoundBy(parent, k) ==> BoundBy(child, k)
  {
    var p, c := ToSet(ScopeOf(parent).constraints), ToSet(ScopeOf(child).constraints);
    if p - c != {} {
      var k :| k in p - c;
      assert BoundBy(parent, k) && !BoundBy(child, k);
    } else {
      forall k | BoundBy(parent, k)
        ensures BoundBy(child, k)
      {
        assert k !in p - c;
      }
    }
  }

  lemma WithinIsTransitive(ctx: Context, a: Hop, b: Hop, c: Hop)
    requires Within(ctx, a, b) && Within(ctx, b, c)
    ensures Within(ctx, a, c)
  {
  }

  // ----- what acceptance says about the whole chain

  lemma NeighboursNarrow(ctx: Context, chain: seq<RawHop>, i: nat, j: nat)
    requires Accepted(ctx, chain) && j == i + 1 < |chain|
    ensures chain[i].Hop? && chain[j].Hop? && Within(ctx, chain[i], chain[j])
  {
    assert HopFault(ctx, chain, i) == None && HopFault(ctx, chain, j) == None;
    NarrowsIsWithin(ctx, chain[i], chain[j]);
  }

  /** Authority narrows between any two hops of a chain, not only neighbours. */
  lemma {:induction false} NarrowingIsGlobal(ctx: Context, chain: seq<RawHop>, i: nat, j: nat)
    requires Accepted(ctx, chain) && i < j < |chain|
    ensures chain[i].Hop? && chain[j].Hop? && Within(ctx, chain[i], chain[j])
    decreases j
  {
    NeighboursNarrow(ctx, chain, j - 1, j);
    if i < j - 1 {
      NarrowingIsGlobal(ctx, chain, i, j - 1);
      WithinIsTransitive(ctx, chain[i], chain[j - 1], chain[j]);
    }
  }

  /** A chain of well-formed, signed hops is accepted exactly when authority narrows
      between every two of them, the root is bound and the root's depth is kept. */
  lemma AcceptedIsGlobalNarrowing(ctx: Context, chain: seq<RawHop>)
    requires chain != []
    ensures Accepted(ctx, chain) <==>
            && (forall i :: 0 <= i < |chain| ==>
                  WellFormed(chain[i]) && chain[i].index == i && SignatureFault(ctx, chain[i], i) == None)
            && (forall i, j :: 0 <= i < j < |chain| ==> Within(ctx, chain[i], chain[j]))
            && RootBound(ctx, chain[0]) && |chain| - 1 <= Depth(ScopeOf(chain[0]))
  {
    if Accepted(ctx, chain) {
      forall i | 0 <= i < |chain|
        ensures WellFormed(chain[i]) && chain[i].index == i && SignatureFault(ctx, chain[i], i) == None
      {
        assert HopFault(ctx, chain, i) == None;
      }
      forall i, j | 0 <= i < j < |chain|
        ensures Within(ctx, chain[i], chain[j])
      {
        NarrowingIsGlobal(ctx, chain, i, j);
      }
    } else if forall i :: 0 <= i < |chain| ==>
                WellFormed(chain[i]) && chain[i].index == i && SignatureFault(ctx, chain[i], i) == None {
      if forall i, j :: 0 <= i < j < |chain| ==> Within(ctx, chain[i], chain[j]) {
        forall i | 0 <= i < |chain|
          ensures HopFault(ctx, chain, i) == None
        {
          if i > 0 {
            NarrowsIsWithin(ctx, chain[i - 1], chain[i]);
          }
        }
      }
    }
  }

  /** The numbers from lo up to hi. */
  function Count(lo: nat, hi: nat): (ns: seq<nat>)
    requires lo <= hi
    ensures |ns| == hi - lo
  {
    seq(hi - lo, i requires 0 <= i < hi - lo => lo + i)
  }

  /** The marks are set from first on, and those are their positions. */
  ghost predicate SetFrom(marks: seq<bool>, first: nat) {
    && first <= |marks| && Positions(marks) == Count(first, |marks|)
    && forall i :: 0 <= i < |marks| ==> (marks[i] <==> first <= i)
  }

  lemma {:induction false} SuffixOfMarks(marks: seq<bool>) returns (first: nat)
    requires forall i, j :: 0 <= i < j < |marks| && marks[i] ==> marks[j]
    ensures SetFrom(marks, first)
  {
    if marks == [] {
      first := 0;
    } else {
      var k := |marks| - 1;
      first := SuffixOfMarks(marks[..k]);
      if !marks[k] {
        NoneSet(marks, marks[..k], k, first);
        first := k + 1;
      } else {
        OneMoreSet(marks, marks[..k], k, first);
      }
    }
  }

  lemma OneMoreSet(marks: seq<bool>, init: seq<bool>, k: nat, first: nat)
    requires marks != [] && k == |marks| - 1 && init == marks[..k] && marks[k] && SetFrom(init, first)
    ensures SetFrom(marks, first)
  {
  }

  lemma NoneSet(marks: seq<bool>, init: seq<bool>, k: nat, first: nat)
    requires marks != [] && k == |marks| - 1 && init == marks[..k] && !marks[k] && SetFrom(init, first)
    requires forall i :: 0 <= i < k ==> !marks[i]
    ensures SetFrom(marks, k + 1)
  {
  }

  /** No hop drops a constraint, so the hops reported as unverifiable are the end of the
      chain, from the first hop that carries one. */
  lemma ConstrainedSuffix(ctx: Context, chain: seq<RawHop>) returns (first: nat)
    requires Accepted(ctx, chain)
    ensures first <= |chain| && Constrained(chain) == Count(first, |chain|)
    ensures forall i :: 0 <= i < |chain| ==> (Carries(chain[i]) <==> first <= i)
  {
    forall i, j | 0 <= i < j < |chain| && Carries(chain[i])
      ensures Carries(chain[j])
    {
      NarrowingIsGlobal(ctx, chain, i, j);
      assert BoundBy(chain[i], ScopeOf(chain[i]).constraints[0]);
    }
    first := SuffixOfMarks(Marks(chain));
  }

  /** Cutting hops off the end keeps a chain accepted. */
  lemma PrefixAccepted(ctx: Context, chain: seq<RawHop>, k: nat)
    requires Accepted(ctx, chain) && k <= |chain|
    ensures Accepted(ctx, chain[..k])
  {
    forall i | 0 <= i < k
      ensures HopFault(ctx, chain[..k], i) == None
    {
      assert HopFault(ctx, chain, i) == None;
    }
  }

  /** Delegating one hop further: the chain stays accepted exactly when the new hop passes
      on its own and the root allows one more. */
  lemma ExtendAccepted(ctx: Context, chain: seq<RawHop>, h: RawHop)
    requires chain != [] && Accepted(ctx, chain)
    ensures Accepted(ctx, chain + [h]) <==>
            && WellFormed(h) && h.index == |chain| && SignatureFault(ctx, h, |chain|) == None
            && chain[|chain| - 1].Hop? && Within(ctx, chain[|chain| - 1], h)
            && |chain| <= Depth(ScopeOf(chain[0]))
  {
    var all, n := chain + [h], |chain|;
    assert HopFault(ctx, chain, n - 1) == None;
    forall i | 0 <= i < n
      ensures HopFault(ctx, all, i) == None
    {
      assert HopFault(ctx, chain, i) == None;
    }
    if h.Hop? {
      NarrowsIsWithin(ctx, chain[n - 1], h);
    }
    assert Good(ctx, all, n + 1) <==> HopFault(ctx, all, n) == None;
  }

  // ----- what a hop signature settles

  /** Two hops that can be read are signed over the same bytes exactly when index, manifest,
      principal and date are the same and the grants look the same under every key; then
      what is enforced is the same too. */
  lemma SignedBytesSettleHop(c: Context, h: Hop, i: int, d: Context, g: Hop, j: int)
    requires WellFormed(h) && WellFormed(g) && WellFormedDict(h.grant.members) && WellFormedDict(g.grant.members)
    requires S.Signed(SignedHop(c, h, i)).Ok? && S.Signed(SignedHop(d, g, j)).Ok?
    ensures S.Signed(SignedHop(c, h, i)) == S.Signed(SignedHop(d, g, j)) <==>
            && i == j && c.manifestId == d.manifestId && h.principalId == g.principalId
            && h.principalType == g.principalType && h.delegatedAt == g.delegatedAt
            && Agree(h.grant.members, g.grant.members)
    ensures S.Signed(SignedHop(c, h, i)) == S.Signed(SignedHop(d, g, j)) ==> ScopeOf(h) == ScopeOf(g)
  {
    S.BytesBindStatement(SignedHop(c, h, i), SignedHop(d, g, j));
    NameInjective(c.manifestId, d.manifestId);
    NameInjective(h.principalId, g.principalId);
    NameInjective(h.principalType, g.principalType);
    NameInjective(h.delegatedAt, g.delegatedAt);
    SameDicts(h.grant.members, g.grant.members);
    if Agree(h.grant.members, g.grant.members) {
      SameGrantSameScope(h.grant.members, g.grant.members);
    }
  }
}
