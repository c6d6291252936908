/** The canonical form of RFC 8785: Python values, the normal form they are reduced to,
    its text, and the serializer that emits the text in one pass. */
module Json {
  import opened Wrappers
  import opened Primitives
  import opened Decimals
  import opened Numerals
  import opened Strings
  import opened Sorting

  /** What the serializer can be handed.  Dict members stand in insertion order; an odd dict
      has, after the given string keys, a key that is not a string. */
  datatype Value =
    | Null
    | Bool(b: bool)
    | Int(i: int)
    | Flt(f: PyFloat)
    | Str(s: Text)
    | Array(items: seq<Value>, tuple: bool)
    | Dict(members: seq<Member>)
    | OddDict(before: seq<Text>)
    | Unsupported

  datatype Member = Member(key: Text, value: Value)

  datatype CanonError = TypeError | ValueError

  /** A normal form: one decimal per number, members in key order. */
  datatype Json =
    | JNull
    | JBool(b: bool)
    | JNum(d: Spelled)
    | JStr(s: Text)
    | JArr(items: seq<Json>)
    | JObj(members: seq<JMember>)

  datatype JMember = JMember(key: Text, value: Json)

  const MAX_DEPTH: nat := 64

  function Keys(members: seq<Member>): (ks: seq<Text>)
    ensures |ks| == |members| && forall i :: 0 <= i < |ks| ==> ks[i] == members[i].key
  {
    seq(|members|, i requires 0 <= i < |members| => members[i].key)
  }

  /** `d[k]` */
  function At(members: seq<Member>, k: Text): (v: Value)
    requires k in Keys(members)
    ensures exists i :: 0 <= i < |members| && members[i].key == k && members[i].value == v
  {
    if members[0].key == k then members[0].value
    else
      assert k in Keys(members[1..]) by {
        var i :| 0 <= i < |members| && Keys(members)[i] == k;
        assert Keys(members[1..])[i - 1] == k;
      }
      var v := At(members[1..], k);
      assert exists i :: 0 <= i < |members| && members[i].key == k && members[i].value == v by {
        var i :| 0 <= i < |members[1..]| && members[1..][i].key == k && members[1..][i].value == v;
        assert members[i + 1].key == k;
      }
      v
  }

  /** The keys in the order they are emitted. */
  function SortedKeys(members: seq<Member>): (ks: seq<Text>)
    ensures forall k :: k in ks <==> k in Keys(members)
  {
    var ks := Sort(KeyLeq, Keys(members));
    SortKeeps(KeyLeq, Keys(members));
    assert forall k :: k in ks <==> k in multiset(ks);
    assert forall k :: k in Keys(members) <==> k in multiset(Keys(members));
    ks
  }

  // ----- normal form

  /** Reduces a value, with the checks of the serializer in its order. */
  function Canonical(v: Value, excludeNone: bool, depth: nat): (r: Result<Json, CanonError>)
    decreases v
  {
    if depth > MAX_DEPTH then Err(ValueError)
    else
      match v
      case Null => Ok(JNull)
      case Bool(b) => Ok(JBool(b))
      case Int(i) => if -MAX_SAFE_INTEGER <= i <= MAX_SAFE_INTEGER then Ok(JNum(IntDecimal(i))) else Err(ValueError)
      case Flt(f) => if f.NonFinite? then Err(ValueError) else Ok(JNum(FloatDecimal(f)))
      case Str(s) => if NoSurrogates(s) then Ok(JStr(s)) else Err(ValueError)
      case Array(items, _) => ArrayResult(CanonicalItems(items, excludeNone, depth + 1))
      case Dict(members) =>
        if KeyFault(Keys(members), false).Some? then Err(KeyFault(Keys(members), false).value)
        else ObjectResult(CanonicalMembers(members, SortedKeys(members), excludeNone, depth + 1))
      case OddDict(before) => Err(KeyFault(before, true).value)
      case Unsupported => Err(TypeError)
  }

  predicate ValidKeys(keys: seq<Text>) {
    forall i :: 0 <= i < |keys| ==> NoSurrogates(keys[i])
  }

  /** What the key check raises: for the first string key with a surrogate, or for the key
      after all of them that is not a string. */
  function KeyFault(keys: seq<Text>, odd: bool): (fault: Option<CanonError>)
    ensures odd ==> fault.Some?
  {
    if !ValidKeys(keys) then Some(ValueError) else if odd then Some(TypeError) else None
  }

  function ArrayResult(r: Result<seq<Json>, CanonError>): Result<Json, CanonError> {
    if r.Ok? then Ok(JArr(r.value)) else Err(r.error)
  }

  function ObjectResult(r: Result<seq<JMember>, CanonError>): Result<Json, CanonError> {
    if r.Ok? then Ok(JObj(r.value)) else Err(r.error)
  }

  function CanonicalItems(items: seq<Value>, excludeNone: bool, depth: nat): (r: Result<seq<Json>, CanonError>)
    decreases items
  {
    if items == [] then Ok([])
    else
      var first := Canonical(items[0], excludeNone, depth);
      if first.Err? then Err(first.error)
      else
        var rest := CanonicalItems(items[1..], excludeNone, depth);
        if rest.Err? then rest else Ok([first.value] + rest.value)
  }

  /** The members under the given keys, null ones left out on request. */
  function CanonicalMembers(members: seq<Member>, keys: seq<Text>, excludeNone: bool,
                            depth: nat): (r: Result<seq<JMember>, CanonError>)
    requires forall k :: k in keys ==> k in Keys(members)
    decreases members, |keys|
  {
    if keys == [] then Ok([])
    else if excludeNone && At(members, keys[0]).Null? then CanonicalMembers(members, keys[1..], excludeNone, depth)
    else
      var first := Canonical(At(members, keys[0]), excludeNone, depth);
      if first.Err? then Err(first.error)
      else
        var rest := CanonicalMembers(members, keys[1..], excludeNone, depth);
        if rest.Err? then rest else Ok([JMember(keys[0], first.value)] + rest.value)
  }

  // ----- text

  const COMMA: CodePoint := 0x2C
  const COLON: CodePoint := 0x3A
  const OPEN_ARRAY: CodePoint := 0x5B
  const CLOSE_ARRAY: CodePoint := 0x5D
  const OPEN_OBJECT: CodePoint := 0x7B
  const CLOSE_OBJECT: CodePoint := 0x7D
  const NULL_TEXT: Text := [0x6E, 0x75, 0x6C, 0x6C]
  const TRUE_TEXT: Text := [0x74, 0x72, 0x75, 0x65]
  const FALSE_TEXT: Text := [0x66, 0x61, 0x6C, 0x73, 0x65]

  function Print(j: Json): Text
    decreases j
  {
    match j
    case JNull => NULL_TEXT
    case JBool(b) => if b then TRUE_TEXT else FALSE_TEXT
    case JNum(d) => DecimalText(d)
    case JStr(s) => QuotedText(s)
    case JArr(items) => [OPEN_ARRAY] + PrintItems(items) + [CLOSE_ARRAY]
    case JObj(members) => [OPEN_OBJECT] + PrintMembers(members) + [CLOSE_OBJECT]
  }

  function PrintItems(items: seq<Json>): Text
    decreases items
  {
    if items == [] then []
    else Print(items[0]) + (if |items| == 1 then [] else [COMMA] + PrintItems(items[1..]))
  }

  function PrintMember(m: JMember): Text
    decreases m, 1
  {
    QuotedText(m.key) + [COLON] + Print(m.value)
  }

  function PrintMembers(members: seq<JMember>): Text
    decreases members
  {
    if members == [] then []
    else PrintMember(members[0]) + (if |members| == 1 then [] else [COMMA] + PrintMembers(members[1..]))
  }

  lemma {:induction false} PrintItemsLast(items: seq<Json>, x: Json)
    ensures PrintItems(items + [x]) == (if items == [] then [] else PrintItems(items) + [COMMA]) + Print(x)
  {
    if items != [] {
      PrintItemsLast(items[1..], x);
      assert (items + [x])[1..] == items[1..] + [x];
    }
  }

  lemma {:induction false} PrintMembersLast(members: seq<JMember>, x: JMember)
    ensures PrintMembers(members + [x]) ==
            (if members == [] then [] else PrintMembers(members) + [COMMA]) + PrintMember(x)
  {
    if members != [] {
      PrintMembersLast(members[1..], x);
      assert (members + [x])[1..] == members[1..] + [x];
    }
  }

  // ----- the serializer

  function Printed(r: Result<Json, CanonError>): Result<Text, CanonError> {
    if r.Ok? then Ok(Print(r.value)) else Err(r.error)
  }

  function NumberResult(d: Spelled): Result<Text, CanonError> {
    Ok(DecimalText(d))
  }

  method SerializeInt(i: int) returns (r: Result<Text, CanonError>)
    ensures r == if -MAX_SAFE_INTEGER <= i <= MAX_SAFE_INTEGER then NumberResult(IntDecimal(i)) else Err(ValueError)
  {
    if !(-MAX_SAFE_INTEGER <= i <= MAX_SAFE_INTEGER) {
      return Err(ValueError);
    }
    IntPrintsItsDecimal(i);
    return Ok(IntText(i));
  }

  method SerializeFloat(f: PyFloat) returns (r: Result<Text, CanonError>)
    ensures r == if f.Finite? then NumberResult(FloatDecimal(f)) else Err(ValueError)
  {
    if f.Finite? {
      FloatPrintsItsValue(f);
    }
    var t := FloatToStr(f);
    return if t.None? then Err(ValueError) else Ok(t.value);
  }

  /** `_serialize` */
  method Serialize(v: Value, excludeNone: bool, depth: nat) returns (r: Result<Text, CanonError>)
    ensures r == Printed(Canonical(v, excludeNone, depth))
    decreases v, 1
  {
    if depth > MAX_DEPTH {
      return Err(ValueError);
    }
    match v {
      case Null => r := Ok(NULL_TEXT);
      case Bool(b) => r := Ok(if b then TRUE_TEXT else FALSE_TEXT);
      case Int(i) => r := SerializeInt(i);
      case Flt(f) => r := SerializeFloat(f);
      case Str(s) =>
        var t := Quote(s);
        r := if t.None? then Err(ValueError) else Ok(t.value);
      case Array(items, tuple) => r := SerializeItems(items, excludeNone, depth + 1);
      case Dict(members) => r := SerializeDict(members, excludeNone, depth + 1);
      case OddDict(before) =>
        var fault := CheckKeys(before, true);
        r := Err(fault.value);
      case Unsupported => r := Err(TypeError);
    }
  }

  /** Results so far put before the results of what is left. */
  function Joined<T>(done: seq<T>, rest: Result<seq<T>, CanonError>): Result<seq<T>, CanonError> {
    if rest.Ok? then Ok(done + rest.value) else rest
  }

  lemma JoinedNext<T>(done: seq<T>, x: T, rest: Result<seq<T>, CanonError>)
    ensures Joined(done, if rest.Err? then rest else Ok([x] + rest.value)) == Joined(done + [x], rest)
  {
    if rest.Ok? {
      assert done + ([x] + rest.value) == (done + [x]) + rest.value;
    }
  }

  lemma JoinedNothing<S, T>(all: seq<S>, s: seq<S>, r: Result<seq<T>, CanonError>)
    requires all == s[0..]
    ensures all == s && Joined([], r) == r
  {
    if r.Ok? {
      assert [] + r.value == r.value;
    }
  }

  lemma ItemsDone(left: seq<Value>, excludeNone: bool, depth: nat, done: seq<Json>,
                  whole: Result<seq<Json>, CanonError>)
    requires left == [] && whole == Joined(done, CanonicalItems(left, excludeNone, depth))
    ensures Printed(ArrayResult(whole)) == Ok([OPEN_ARRAY] + PrintItems(done) + [CLOSE_ARRAY])
  {
    assert done + [] == done;
  }

  method SerializeItems(items: seq<Value>, excludeNone: bool, depth: nat) returns (r: Result<Text, CanonError>)
    ensures r == Printed(ArrayResult(CanonicalItems(items, excludeNone, depth)))
    decreases items
  {
    var joined: Text := [];
    ghost var done: seq<Json> := [];
    ghost var whole := CanonicalItems(items, excludeNone, depth);
    JoinedNothing(items[0..], items, whole);
    for i := 0 to |items|
      invariant |done| == i && joined == PrintItems(done)
      invariant whole == Joined(done, CanonicalItems(items[i..], excludeNone, depth))
    {
      var item := Serialize(items[i], excludeNone, depth);
      if item.Err? {
        return Err(item.error);
      }
      ghost var j := Canonical(items[i], excludeNone, depth).value;
      assert items[i..][1..] == items[i + 1..];
      JoinedNext(done, j, CanonicalItems(items[i + 1..], excludeNone, depth));
      PrintItemsLast(done, j);
      joined := (if i == 0 then [] else joined + [COMMA]) + item.value;
      done := done + [j];
    }
    ItemsDone(items[|items|..], excludeNone, depth, done, whole);
    return Ok([OPEN_ARRAY] + joined + [CLOSE_ARRAY]);
  }

  /** The loop over the keys in insertion order. */
  method CheckKeys(keys: seq<Text>, odd: bool) returns (fault: Option<CanonError>)
    ensures fault == KeyFault(keys, odd)
  {
    for i := 0 to |keys|
      invariant ValidKeys(keys[..i])
    {
      if !NoSurrogates(keys[i]) {
        return Some(ValueError);
      }
    }
    assert keys[..|keys|] == keys;
    if odd {
      return Some(TypeError);
    }
    return None;
  }

  /** `_serialize_dict` */
  method SerializeDict(members: seq<Member>, excludeNone: bool, depth: nat) returns (r: Result<Text, CanonError>)
    ensures r == if KeyFault(Keys(members), false).Some? then Err(KeyFault(Keys(members), false).value)
                 else Printed(ObjectResult(CanonicalMembers(members, SortedKeys(members), excludeNone, depth)))
    decreases members, 2
  {
    var fault := CheckKeys(Keys(members), false);
    if fault.Some? {
      return Err(fault.value);
    }
    r := SerializeMembers(members, SortedKeys(members), excludeNone, depth);
  }

  lemma KeyIsValid(members: seq<Member>, k: Text)
    requires ValidKeys(Keys(members)) && k in Keys(members)
    ensures NoSurrogates(k)
  {
  }

  lemma MembersStep(members: seq<Member>, keys: seq<Text>, i: nat, excludeNone: bool, depth: nat, done: seq<JMember>)
    requires i < |keys| && forall k :: k in keys ==> k in Keys(members)
    ensures var rest := CanonicalMembers(members, keys[i + 1..], excludeNone, depth);
            var c := Canonical(At(members, keys[i]), excludeNone, depth);
            Joined(done, CanonicalMembers(members, keys[i..], excludeNone, depth)) ==
            (if excludeNone && At(members, keys[i]).Null? then Joined(done, rest)
             else if c.Err? then Err(c.error)
             else Joined(done + [JMember(keys[i], c.value)], rest))
  {
    assert keys[i..][0] == keys[i] && keys[i..][1..] == keys[i + 1..];
    var c := Canonical(At(members, keys[i]), excludeNone, depth);
    if c.Ok? {
      JoinedNext(done, JMember(keys[i], c.value), CanonicalMembers(members, keys[i + 1..], excludeNone, depth));
    }
  }

  lemma MembersDone(members: seq<Member>, left: seq<Text>, excludeNone: bool, depth: nat, done: seq<JMember>,
                    whole: Result<seq<JMember>, CanonError>)
    requires left == [] && whole == Joined(done, CanonicalMembers(members, left, excludeNone, depth))
    ensures Printed(ObjectResult(whole)) == Ok([OPEN_OBJECT] + PrintMembers(done) + [CLOSE_OBJECT])
  {
    assert done + [] == done;
  }

  /** The loop over the sorted keys. */
  method SerializeMembers(members: seq<Member>, keys: seq<Text>, excludeNone: bool,
                          depth: nat) returns (r: Result<Text, CanonError>)
    requires ValidKeys(Keys(members)) && forall k :: k in keys ==> k in Keys(members)
    ensures r == Printed(ObjectResult(CanonicalMembers(members, keys, excludeNone, depth)))
    decreases members, 1
  {
    var joined: Text := [];
    ghost var done: seq<JMember> := [];
    ghost var whole := CanonicalMembers(members, keys, excludeNone, depth);
    JoinedNothing(keys[0..], keys, whole);
    for i := 0 to |keys|
      invariant joined == PrintMembers(done) && (joined == [] <==> done == [])
      invariant whole == Joined(done, CanonicalMembers(members, keys[i..], excludeNone, depth))
    {
      var k := keys[i];
      var v := At(members, k);
      MembersStep(members, keys, i, excludeNone, depth, done);
      if excludeNone && v.Null? {
        continue;
      }
      KeyIsValid(members, k);
      var key := Quote(k);
      if key.None? {
        return Err(ValueError);
      }
      var value := Serialize(v, excludeNone, depth);
      if value.Err? {
        return Err(value.error);
      }
      ghost var m := JMember(k, Canonical(v, excludeNone, depth).value);
      PrintMembersLast(done, m);
      joined := (if joined == [] then [] else joined + [COMMA]) + (key.value + [COLON] + value.value);
      done := done + [m];
    }
    MembersDone(members, keys[|keys|..], excludeNone, depth, done, whole);
    return Ok([OPEN_OBJECT] + joined + [CLOSE_OBJECT]);
  }
}
