/** What a value means as JSON, and that canonical text is the same exactly for values of
    the same meaning. */
module JsonMeaning {
  import opened Wrappers
  import opened Decimals
  import opened Numerals
  import opened Strings
  import opened Sorting
  import opened Json
  import opened JsonParser

  /** Meaning forgets insertion order, list against tuple, int against float and the sign
      of zero; numbers are exact reals and objects are maps. */
  datatype Meaning =
    | MNull
    | MBool(b: bool)
    | MNum(r: real)
    | MStr(s: Text)
    | MArr(items: seq<Meaning>)
    | MObj(members: map<Text, Meaning>)

  /** A member that is emitted: null ones are dropped on request. */
  predicate Kept(members: seq<Member>, k: Text, excludeNone: bool) {
    k in Keys(members) && !(excludeNone && At(members, k).Null?)
  }

  ghost function MeaningOf(v: Value, excludeNone: bool): Meaning
    decreases v
  {
    match v
    case Null => MNull
    case Bool(b) => MBool(b)
    case Int(i) => MNum(i as real)
    case Flt(f) => if f.Finite? then MNum(FloatValue(f)) else MNull
    case Str(s) => MStr(s)
    case Array(items, _) => MArr(seq(|items|, i requires 0 <= i < |items| => MeaningOf(items[i], excludeNone)))
    case Dict(members) =>
      MObj(map k | k in Keys(members) && Kept(members, k, excludeNone) :: MeaningOf(At(members, k), excludeNone))
    case OddDict(_) => MNull
    case Unsupported => MNull
  }

  ghost predicate Distinct<T>(s: seq<T>) {
    forall i, j :: 0 <= i < j < |s| ==> s[i] != s[j]
  }

  /** What every Python value satisfies: the keys of a dict are distinct. */
  ghost predicate WellFormed(v: Value)
    decreases v
  {
    match v
    case Array(items, _) => forall i :: 0 <= i < |items| ==> WellFormed(items[i])
    case Dict(members) => Distinct(Keys(members)) && forall i :: 0 <= i < |members| ==> WellFormed(members[i].value)
    case _ => true
  }

  // ----- normal forms

  predicate KeyLess(a: Text, b: Text) {
    KeyLeq(a, b) && a != b
  }

  ghost predicate StrictKeys(members: seq<JMember>) {
    forall i, j :: 0 <= i < j < |members| ==> KeyLess(members[i].key, members[j].key)
  }

  /** Numbers normal, members strictly increasing in key order. */
  ghost predicate Ordered(j: Json)
    decreases j
  {
    match j
    case JNum(d) => Normal(d)
    case JArr(items) => forall i :: 0 <= i < |items| ==> Ordered(items[i])
    case JObj(members) => StrictKeys(members) && forall i :: 0 <= i < |members| ==> Ordered(members[i].value)
    case _ => true
  }

  ghost function Denotes(j: Json): Meaning
    decreases j
  {
    match j
    case JNull => MNull
    case JBool(b) => MBool(b)
    case JNum(d) => MNum(ValueOf(d))
    case JStr(s) => MStr(s)
    case JArr(items) => MArr(seq(|items|, i requires 0 <= i < |items| => Denotes(items[i])))
    case JObj(members) => MObj(DenotesMembers(members))
  }

  ghost function DenotesMembers(members: seq<JMember>): (m: map<Text, Meaning>)
    decreases members
  {
    if members == [] then map[] else DenotesMembers(members[1..])[members[0].key := Denotes(members[0].value)]
  }

  lemma {:induction false} OrderedIsReadable(j: Json)
    requires Ordered(j)
    ensures Readable(j)
  {
    match j
    case JArr(items) =>
      forall i | 0 <= i < |items| ensures Readable(items[i]) {
        OrderedIsReadable(items[i]);
      }
    case JObj(members) =>
      forall i | 0 <= i < |members| ensures Readable(members[i].value) {
        OrderedIsReadable(members[i].value);
      }
    case _ =>
  }

  lemma {:induction false} MemberDenoted(members: seq<JMember>, k: Text)
    ensures k in DenotesMembers(members) <==> exists i :: 0 <= i < |members| && members[i].key == k
  {
    if members != [] {
      MemberDenoted(members[1..], k);
      if exists i :: 0 <= i < |members| && members[i].key == k {
        var i :| 0 <= i < |members| && members[i].key == k;
        assert i > 0 ==> members[1..][i - 1].key == k;
      }
      if exists i :: 0 <= i < |members[1..]| && members[1..][i].key == k {
        var i :| 0 <= i < |members[1..]| && members[1..][i].key == k;
        assert members[i + 1].key == k;
      }
    }
  }

  /** The first key of a strictly ordered object is the least one it has. */
  lemma FirstKeyLeast(members: seq<JMember>, k: Text)
    requires StrictKeys(members) && k in DenotesMembers(members)
    ensures members != [] && (k == members[0].key || KeyLess(members[0].key, k))
  {
    MemberDenoted(members, k);
  }

  lemma CutKey<K, V>(m: map<K, V>, rest: map<K, V>, k: K, v: V)
    requires m == rest[k := v] && k !in rest
    ensures rest == m - {k}
  {
  }

  lemma FirstKeyOnce(members: seq<JMember>)
    requires members != [] && StrictKeys(members)
    ensures DenotesMembers(members[1..]) == DenotesMembers(members) - {members[0].key}
  {
    var rest := members[1..];
    MemberDenoted(rest, members[0].key);
    forall i | 0 <= i < |rest|
      ensures rest[i].key != members[0].key
    {
      assert KeyLess(members[0].key, members[i + 1].key);
    }
    CutKey(DenotesMembers(members), DenotesMembers(rest), members[0].key, Denotes(members[0].value));
  }

  /** Ordered normal forms of one meaning are one normal form. */
  lemma {:induction false} DenotesUnique(j: Json, l: Json)
    requires Ordered(j) && Ordered(l) && Denotes(j) == Denotes(l)
    ensures j == l
    decreases j, 1
  {
    match j
    case JNum(d) => ValueUnique(d, l.d);
    case JArr(items) =>
      assert |items| == |Denotes(j).items| == |Denotes(l).items| == |l.items|;
      forall i | 0 <= i < |items|
        ensures items[i] == l.items[i]
      {
        assert Denotes(j).items[i] == Denotes(l).items[i];
        DenotesUnique(items[i], l.items[i]);
      }
    case JObj(members) => MembersUnique(members, l.members);
    case _ =>
  }

  lemma SameFirstKey(a: seq<JMember>, b: seq<JMember>)
    requires StrictKeys(a) && StrictKeys(b) && DenotesMembers(a) == DenotesMembers(b) && a != []
    ensures b != [] && a[0].key == b[0].key && Denotes(a[0].value) == Denotes(b[0].value)
  {
    FirstKeyLeast(b, a[0].key);
    FirstKeyLeast(a, b[0].key);
    KeyOrderTotal();
    assert DenotesMembers(a)[a[0].key] == Denotes(a[0].value);
    assert DenotesMembers(b)[b[0].key] == Denotes(b[0].value);
  }

  lemma {:induction false} MembersUnique(a: seq<JMember>, b: seq<JMember>)
    requires StrictKeys(a) && StrictKeys(b) && DenotesMembers(a) == DenotesMembers(b)
    requires forall i :: 0 <= i < |a| ==> Ordered(a[i].value)
    requires forall i :: 0 <= i < |b| ==> Ordered(b[i].value)
    ensures a == b
    decreases a, 0
  {
    if a == [] {
      if b != [] {
        SameFirstKey(b, a);
      }
    } else {
      SameFirstKey(a, b);
      DenotesUnique(a[0].value, b[0].value);
      FirstKeyOnce(a);
      FirstKeyOnce(b);
      MembersUnique(a[1..], b[1..]);
      assert a == [a[0]] + a[1..] && b == [b[0]] + b[1..];
    }
  }

  // ----- the normal form keeps the meaning

  ghost predicate Increasing(keys: seq<Text>) {
    forall i, j :: 0 <= i < j < |keys| ==> KeyLess(keys[i], keys[j])
  }

  lemma {:induction false} OnceEach<T>(s: seq<T>, x: T)
    requires Distinct(s)
    ensures multiset(s)[x] <= 1
  {
    if s != [] {
      OnceEach(s[1..], x);
      assert s == [s[0]] + s[1..];
      assert s[0] !in s[1..];
    }
  }

  lemma TwiceSeen<T>(s: seq<T>, i: nat, j: nat)
    requires i < j < |s| && s[i] == s[j]
    ensures multiset(s)[s[i]] >= 2
  {
    assert s == s[..i] + [s[i]] + s[i + 1..j] + [s[j]] + s[j + 1..];
  }

  /** The emitted keys are strictly increasing in UTF-16 code-unit order. */
  lemma SortedKeysIncrease(members: seq<Member>)
    requires Distinct(Keys(members))
    ensures Increasing(SortedKeys(members))
  {
    var ks := SortedKeys(members);
    KeyOrderTotal();
    SortSorts(KeyLeq, Keys(members));
    SortKeeps(KeyLeq, Keys(members));
    forall i, j | 0 <= i < j < |ks|
      ensures ks[i] != ks[j]
    {
      OnceEach(Keys(members), ks[i]);
      if ks[i] == ks[j] {
        TwiceSeen(ks, i, j);
      }
    }
  }

  lemma UnitOrder(a: Text, b: Text)
    ensures KeyLess(a, b) <==> LexLeq(Utf16(a), Utf16(b)) && a != b
  {
    ByteOrderIsUnitOrder(Utf16(a), Utf16(b));
  }

  /** The normal form is ordered and means what the value means. */
  ghost predicate Keeps(j: Json, v: Value, excludeNone: bool) {
    Ordered(j) && Denotes(j) == MeaningOf(v, excludeNone)
  }

  lemma {:induction false} CanonicalKeeps(v: Value, excludeNone: bool, depth: nat)
    requires WellFormed(v) && Canonical(v, excludeNone, depth).Ok?
    ensures Keeps(Canonical(v, excludeNone, depth).value, v, excludeNone)
    decreases v, 1
  {
    match v
    case Array(items, _) =>
      CanonicalItemsKeep(items, excludeNone, depth + 1);
      ArrayKeeps(items, CanonicalItems(items, excludeNone, depth + 1).value, v, excludeNone);
    case Dict(members) => DictKeeps(members, SortedKeys(members), v, excludeNone, depth);
    case _ => ScalarKeeps(v, excludeNone, depth);
  }

  lemma ScalarKeeps(v: Value, excludeNone: bool, depth: nat)
    requires !v.Array? && !v.Dict? && WellFormed(v) && Canonical(v, excludeNone, depth).Ok?
    ensures Keeps(Canonical(v, excludeNone, depth).value, v, excludeNone)
  {
    match v
    case Int(i) => IntDecimalValue(i);
    case Flt(f) => FloatKeeps(f);
    case _ =>
  }

  lemma FloatKeeps(f: PyFloat)
    requires f.Finite?
    ensures Normal(FloatDecimal(f)) && ValueOf(FloatDecimal(f)) == FloatValue(f)
  {
    FloatPrintsItsValue(f);
  }

  lemma {:induction false} DictKeeps(members: seq<Member>, keys: seq<Text>, v: Value, excludeNone: bool, depth: nat)
    requires v == Dict(members) && WellFormed(v) && keys == SortedKeys(members)
    requires CanonicalMembers(members, keys, excludeNone, depth + 1).Ok?
    ensures Keeps(JObj(CanonicalMembers(members, keys, excludeNone, depth + 1).value), v, excludeNone)
    decreases v, 0
  {
    SortedKeysIncrease(members);
    CanonicalMembersKeep(members, keys, excludeNone, depth + 1);
    ObjectKeeps(members, keys, CanonicalMembers(members, keys, excludeNone, depth + 1).value, v, excludeNone);
  }

  lemma ArrayKeeps(items: seq<Value>, js: seq<Json>, v: Value, excludeNone: bool)
    requires v.Array? && v.items == items && |js| == |items|
    requires forall i :: 0 <= i < |items| ==> Keeps(js[i], items[i], excludeNone)
    ensures Keeps(JArr(js), v, excludeNone)
  {
  }

  lemma ObjectKeeps(members: seq<Member>, keys: seq<Text>, ms: seq<JMember>, v: Value, excludeNone: bool)
    requires v == Dict(members) && (forall k :: k in keys <==> k in Keys(members))
    requires Emits(ms, members, keys, excludeNone)
    ensures Keeps(JObj(ms), v, excludeNone)
  {
    assert Denotes(JObj(ms)).members == MeaningOf(v, excludeNone).members;
  }

  lemma {:induction false} CanonicalItemsKeep(items: seq<Value>, excludeNone: bool, depth: nat)
    requires (forall i :: 0 <= i < |items| ==> WellFormed(items[i])) && CanonicalItems(items, excludeNone, depth).Ok?
    ensures var js := CanonicalItems(items, excludeNone, depth).value;
            |js| == |items| && forall i :: 0 <= i < |items| ==> Keeps(js[i], items[i], excludeNone)
    decreases items
  {
    if items != [] {
      CanonicalKeeps(items[0], excludeNone, depth);
      CanonicalItemsKeep(items[1..], excludeNone, depth);
    }
  }

  /** The members emitted for the keys: all of them kept ones, in order, with their meaning. */
  ghost predicate Emits(ms: seq<JMember>, members: seq<Member>, keys: seq<Text>, excludeNone: bool) {
    && StrictKeys(ms)
    && (forall i :: 0 <= i < |ms| ==> Ordered(ms[i].value) && ms[i].key in keys)
    && (forall k :: k in DenotesMembers(ms) <==> k in keys && Kept(members, k, excludeNone))
    && (forall k :: k in DenotesMembers(ms) ==>
        k in Keys(members) && DenotesMembers(ms)[k] == MeaningOf(At(members, k), excludeNone))
  }

  lemma {:induction false} CanonicalMembersKeep(members: seq<Member>, keys: seq<Text>, excludeNone: bool, depth: nat)
    requires forall i :: 0 <= i < |members| ==> WellFormed(members[i].value)
    requires (forall k :: k in keys ==> k in Keys(members)) && Increasing(keys)
    requires CanonicalMembers(members, keys, excludeNone, depth).Ok?
    ensures Emits(CanonicalMembers(members, keys, excludeNone, depth).value, members, keys, excludeNone)
    decreases members, |keys|
  {
    if keys != [] {
      var v := At(members, keys[0]);
      CanonicalMembersKeep(members, keys[1..], excludeNone, depth);
      if !(excludeNone && v.Null?) {
        CanonicalKeeps(v, excludeNone, depth);
        var rest := CanonicalMembers(members, keys[1..], excludeNone, depth).value;
        EmitsFirst(rest, members, keys, JMember(keys[0], Canonical(v, excludeNone, depth).value), excludeNone);
      }
    }
  }

  lemma StrictFirst(rest: seq<JMember>, keys: seq<Text>, m: JMember)
    requires keys != [] && Increasing(keys) && StrictKeys(rest) && m.key == keys[0]
    requires forall i :: 0 <= i < |rest| ==> rest[i].key in keys[1..]
    ensures StrictKeys([m] + rest)
  {
  }

  lemma EmitsFirst(rest: seq<JMember>, members: seq<Member>, keys: seq<Text>, m: JMember, excludeNone: bool)
    requires keys != [] && Increasing(keys) && Emits(rest, members, keys[1..], excludeNone)
    requires m.key == keys[0] && Kept(members, keys[0], excludeNone)
    requires Ordered(m.value) && Denotes(m.value) == MeaningOf(At(members, keys[0]), excludeNone)
    ensures Emits([m] + rest, members, keys, excludeNone)
  {
    StrictFirst(rest, keys, m);
    assert ([m] + rest)[1..] == rest;
    assert DenotesMembers([m] + rest) == DenotesMembers(rest)[m.key := Denotes(m.value)];
    MembershipFirst(keys);
  }

  lemma MembershipFirst(keys: seq<Text>)
    requires keys != []
    ensures forall k :: k in keys <==> k == keys[0] || k in keys[1..]
  {
  }

  // ----- canonicalization

  ghost function Canonicalized(v: Value, excludeNone: bool): Result<Text, CanonError> {
    Printed(Canonical(v, excludeNone, 0))
  }

  /** `canonicalize`, as text. */
  method Canonicalize(v: Value, excludeNone: bool) returns (r: Result<Text, CanonError>)
    ensures r == Canonicalized(v, excludeNone)
  {
    r := Serialize(v, excludeNone, 0);
  }

  /** Round trip: canonical text is read back whole, to the ordered normal form that means
      what the value means. */
  lemma CanonicalRoundTrip(v: Value, excludeNone: bool)
    requires WellFormed(v) && Canonicalized(v, excludeNone).Ok?
    ensures var read := Parse(Canonicalized(v, excludeNone).value);
            read.Some? && Ordered(read.value) && Denotes(read.value) == MeaningOf(v, excludeNone)
  {
    CanonicalKeeps(v, excludeNone, 0);
    OrderedIsReadable(Canonical(v, excludeNone, 0).value);
    PrintReadsBack(Canonical(v, excludeNone, 0).value);
  }

  /** Two values share their canonical text exactly when they mean the same. */
  lemma SameTextSameMeaning(v: Value, w: Value, excludeNone: bool)
    requires WellFormed(v) && WellFormed(w)
    requires Canonicalized(v, excludeNone).Ok? && Canonicalized(w, excludeNone).Ok?
    ensures Canonicalized(v, excludeNone) == Canonicalized(w, excludeNone) <==>
            MeaningOf(v, excludeNone) == MeaningOf(w, excludeNone)
  {
    CanonicalRoundTrip(v, excludeNone);
    CanonicalRoundTrip(w, excludeNone);
    var j, l := Canonical(v, excludeNone, 0).value, Canonical(w, excludeNone, 0).value;
    CanonicalKeeps(v, excludeNone, 0);
    CanonicalKeeps(w, excludeNone, 0);
    if MeaningOf(v, excludeNone) == MeaningOf(w, excludeNone) {
      DenotesUnique(j, l);
    }
  }
}
