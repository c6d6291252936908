/** What the verifiers read out of the JSON of a scope, and that the signed bytes settle it. */
module Grants {
  import opened Wrappers
  import opened Primitives
  import opened Decimals
  import opened Numerals
  import opened Json
  import opened JsonMeaning
  import opened Signing
  import opened Records

  // ----- whole numbers

  /** The integer a normal decimal spells, if it spells one. */
  function IntegerOf(d: Spelled): Option<int> {
    var shift := d.exp - |d.digits|;
    if shift < 0 then None
    else
      var n: int := NatOf(d.digits + Zeros(shift));
      var i := if d.neg then -n else n;
      if IntDecimal(i) == d then Some(i) else None
  }

  /** `_is_json_integer`: an integer or a float without a fraction, within the safe range. */
  function WholeNumber(v: Value): Option<int> {
    var n :=
      match v
      case Int(i) => Some(i)
      case Flt(f) => if f.Finite? then IntegerOf(FloatDecimal(f)) else None
      case _ => None;
    if n.Some? && -MAX_SAFE_INTEGER <= n.value <= MAX_SAFE_INTEGER then n else None
  }

  lemma StrippedDigits(n: nat, ds: Text, s: Text, neg: bool)
    requires n > 0 && ds == DigitsOf(n) && s == StripTrailing(ds)
    ensures s != [] && |s| <= |ds| && NatOf(s + Zeros(|ds| - |s|)) == n
    ensures Normalise(neg, ds, |ds|) == Decimal(neg, s, |ds|)
  {
    NatOfDigits(n);
    StripTrailingSplits(ds, s);
    TrimTrailing(ds, s, |ds|);
    assert StripLeading(ds) == ds;
  }

  lemma IntegerOfStripped(d: Spelled, n: nat, i: int)
    requires (if d.neg then i + n == 0 else i == n) && d == IntDecimal(i) && d.exp >= |d.digits|
    requires NatOf(d.digits + Zeros(d.exp - |d.digits|)) == n
    ensures IntegerOf(d) == Some(i)
  {
  }

  lemma IntDecimalRoundTrip(i: int)
    ensures IntegerOf(IntDecimal(i)) == Some(i)
  {
    var n := if i < 0 then -i else i;
    var ds := DigitsOf(n);
    if n == 0 {
      ZeroDecimal();
    } else {
      StrippedDigits(n, ds, StripTrailing(ds), i < 0);
      IntegerOfStripped(IntDecimal(i), n, i);
    }
  }

  lemma ZeroDecimal()
    ensures IntDecimal(0) == ZERO_DECIMAL && IntegerOf(ZERO_DECIMAL) == Some(0)
  {
    assert DigitsOf(0) == [ZERO] && [ZERO][1..] == [];
    assert [ZERO] + Zeros(0) == [ZERO] && NatOf([ZERO]) == 0;
  }

  /** A value is read as a number exactly when it means that number. */
  lemma WholeNumberExact(v: Value, i: int)
    ensures WholeNumber(v) == Some(i) <==>
            -MAX_SAFE_INTEGER <= i <= MAX_SAFE_INTEGER && MeaningOf(v, true) == MNum(i as real)
  {
    if v.Flt? && v.f.Finite? {
      FloatKeeps(v.f);
      IntDecimalValue(i);
      IntDecimalRoundTrip(i);
      ValueUnique(FloatDecimal(v.f), IntDecimal(i));
    }
  }

  // ----- the scope of a delegation

  datatype Scope = Scope(
    tools: seq<Text>,
    classes: seq<Text>,
    constraints: seq<Text>,
    ttl: Option<int>,
    maxDepth: Option<int>)

  const TOOLS: Text := Name("tools")
  const CLASSES: Text := Name("data_classifications")
  const CONSTRAINTS: Text := Name("constraints")
  const TTL: Text := Name("ttl_seconds")
  const MAX_DELEGATION: Text := Name("max_delegation_depth")

  predicate AllText(items: seq<Value>) {
    forall i :: 0 <= i < |items| ==> items[i].Str?
  }

  function Texts(items: seq<Value>): (ts: seq<Text>)
    requires AllText(items)
    ensures |ts| == |items| && forall i :: 0 <= i < |ts| ==> ts[i] == items[i].s
  {
    seq(|items|, i requires 0 <= i < |items| => items[i].s)
  }

  /** A list of strings; absent is empty. */
  function ReadTexts(v: Option<Value>): Option<seq<Text>> {
    match v
    case None => Some([])
    case Some(Array(items, false)) => if AllText(items) then Some(Texts(items)) else None
    case Some(_) => None
  }

  /** A whole number; absent, or null where that is allowed, is None inside. */
  function ReadNumber(v: Option<Value>, nullable: bool): Option<Option<int>> {
    if v.None? || (nullable && v.value.Null?) then Some(None)
    else if WholeNumber(v.value).Some? then Some(WholeNumber(v.value))
    else None
  }

  /** `_validate_scope_structure`, the types; the ranges are checked with the hop. */
  function ReadScope(grant: Value): Option<Scope> {
    if !grant.Dict? then None
    else
      var d := grant.members;
      var tools, classes, constraints :=
        ReadTexts(Get(d, TOOLS)), ReadTexts(Get(d, CLASSES)), ReadTexts(Get(d, CONSTRAINTS));
      var depth, ttl := ReadNumber(Get(d, MAX_DELEGATION), false), ReadNumber(Get(d, TTL), true);
      if tools.None? || classes.None? || constraints.None? || depth.None? || ttl.None? then None
      else Some(Scope(tools.value, classes.value, constraints.value, ttl.value, depth.value))
  }

  lemma TextMeaning(v: Value)
    requires v.Str?
    ensures MeaningOf(v, true) == MStr(v.s)
  {
  }

  lemma SameTextsRead(v: Option<Value>, w: Option<Value>)
    requires ReadTexts(v).Some? && ReadTexts(w).Some? && FieldMeaning(v) == FieldMeaning(w)
    ensures ReadTexts(v) == ReadTexts(w)
  {
    if v.Some? && w.Some? {
      var xs, ys := v.value.items, w.value.items;
      var m, n := MeaningOf(v.value, true).items, MeaningOf(w.value, true).items;
      assert |xs| == |m| == |n| == |ys|;
      forall i | 0 <= i < |xs|
        ensures Texts(xs)[i] == Texts(ys)[i]
      {
        TextMeaning(xs[i]);
        TextMeaning(ys[i]);
        assert m[i] == MeaningOf(xs[i], true) && n[i] == MeaningOf(ys[i], true);
      }
      assert Texts(xs) == Texts(ys);
    }
  }

  lemma SameNumberRead(v: Option<Value>, w: Option<Value>, nullable: bool)
    requires ReadNumber(v, nullable).Some? && ReadNumber(w, nullable).Some? && FieldMeaning(v) == FieldMeaning(w)
    ensures ReadNumber(v, nullable) == ReadNumber(w, nullable)
  {
    if v.Some? && !v.value.Null? {
      WholeNumberExact(v.value, WholeNumber(v.value).value);
      WholeNumberExact(w.value, WholeNumber(v.value).value);
    }
  }

  /** What is signed settles what is enforced: grants that look the same under every key
      are read as the same scope. */
  lemma SameGrantSameScope(g: seq<Member>, h: seq<Member>)
    requires ReadScope(Dict(g)).Some? && ReadScope(Dict(h)).Some? && Agree(g, h)
    ensures ReadScope(Dict(g)) == ReadScope(Dict(h))
  {
    SameTextsRead(Get(g, TOOLS), Get(h, TOOLS));
    SameTextsRead(Get(g, CLASSES), Get(h, CLASSES));
    SameTextsRead(Get(g, CONSTRAINTS), Get(h, CONSTRAINTS));
    SameNumberRead(Get(g, MAX_DELEGATION), Get(h, MAX_DELEGATION), false);
    SameNumberRead(Get(g, TTL), Get(h, TTL), true);
  }

  // ----- the scope of an approval

  const DURATION: Text := Name("approval_duration_seconds")
  const RISK_TIER: Text := Name("risk_tier")

  /** The approved duration, None when it is not a positive whole number in the safe range. */
  function DurationOf(scope: seq<Member>): Option<int> {
    var v := Get(scope, DURATION);
    if v.None? || WholeNumber(v.value).None? || WholeNumber(v.value).value < 1 then None else WholeNumber(v.value)
  }

  function RiskTierOf(scope: seq<Member>): Option<Text> {
    match Get(scope, RISK_TIER)
    case Some(Str(s)) => Some(s)
    case _ => None
  }

  /** The same holds of what an approval is judged by. */
  lemma SameScopeSameJudgement(g: seq<Member>, h: seq<Member>)
    requires Agree(g, h)
    ensures DurationOf(g) == DurationOf(h) && RiskTierOf(g) == RiskTierOf(h)
  {
    var v, w := Get(g, DURATION), Get(h, DURATION);
    assert FieldMeaning(v) == FieldMeaning(w);
    assert FieldMeaning(Get(g, RISK_TIER)) == FieldMeaning(Get(h, RISK_TIER));
    if v.Some? && w.Some? {
      SameWholeNumber(v.value, w.value);
    }
  }

  lemma SameWholeNumber(v: Value, w: Value)
    requires FieldMeaning(Some(v)) == FieldMeaning(Some(w))
    ensures WholeNumber(v) == WholeNumber(w)
  {
    if WholeNumber(v).Some? {
      WholeNumberExact(v, WholeNumber(v).value);
      WholeNumberExact(w, WholeNumber(v).value);
    }
    if WholeNumber(w).Some? {
      WholeNumberExact(w, WholeNumber(w).value);
      WholeNumberExact(v, WholeNumber(w).value);
    }
  }
}
