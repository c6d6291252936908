/** Which values serialize, why others do not, and how the texts of containers, literals and
    strings are spelled. */
module JsonForms {
  import opened Wrappers
  import opened Decimals
  import opened Strings
  import opened Json
  import opened JsonMeaning
  import opened Signing
  import N = Nesting
  import Utf8

  // ----- which values serialize

  predicate PlainText(s: Text) {
    forall i :: 0 <= i < |s| ==> !(0xD800 <= s[i] <= 0xDFFF)
  }

  /** Not nested too deep, and made of numbers in range, finite floats, text without lone
      surrogates, and what JSON has; members that are left out may hold anything. */
  predicate Serializable(v: Value, excludeNone: bool, depth: nat)
    decreases v
  {
    depth <= 64 &&
    match v
    case Null => true
    case Bool(_) => true
    case Int(i) => -9_007_199_254_740_991 <= i <= 9_007_199_254_740_991
    case Flt(f) => f.Finite?
    case Str(s) => PlainText(s)
    case Array(items, _) => forall i :: 0 <= i < |items| ==> Serializable(items[i], excludeNone, depth + 1)
    case Dict(members) =>
      && (forall i :: 0 <= i < |members| ==> PlainText(members[i].key))
      && (forall i :: 0 <= i < |members| ==>
            (excludeNone && members[i].value == Null) || Serializable(members[i].value, excludeNone, depth + 1))
    case OddDict(_) => false
    case Unsupported => false
  }

  lemma {:induction false} SerializesExactly(v: Value, excludeNone: bool, depth: nat)
    requires WellFormed(v)
    ensures Canonical(v, excludeNone, depth).Ok? <==> Serializable(v, excludeNone, depth)
    decreases v, 2
  {
    match v
    case Array(items, _) => ItemsSerialize(items, excludeNone, depth + 1);
    case Dict(members) => DictSerializes(members, excludeNone, depth);
    case _ =>
  }

  lemma {:induction false} ItemsSerialize(items: seq<Value>, excludeNone: bool, depth: nat)
    requires forall i :: 0 <= i < |items| ==> WellFormed(items[i])
    ensures CanonicalItems(items, excludeNone, depth).Ok? <==>
            forall i :: 0 <= i < |items| ==> Serializable(items[i], excludeNone, depth)
    decreases items
  {
    if items != [] {
      SerializesExactly(items[0], excludeNone, depth);
      ItemsSerialize(items[1..], excludeNone, depth);
      assert forall i :: 0 < i < |items| ==> items[i] == items[1..][i - 1];
    }
  }

  /** Left out, or serializable. */
  predicate Passes(v: Value, excludeNone: bool, depth: nat) {
    (excludeNone && v == Null) || Serializable(v, excludeNone, depth)
  }

  predicate AllPass(vs: seq<Value>, excludeNone: bool, depth: nat) {
    forall i :: 0 <= i < |vs| ==> Passes(vs[i], excludeNone, depth)
  }

  lemma AllPassNext(vs: seq<Value>, excludeNone: bool, depth: nat)
    requires vs != []
    ensures AllPass(vs, excludeNone, depth) <==>
            Passes(vs[0], excludeNone, depth) && AllPass(vs[1..], excludeNone, depth)
  {
    assert forall i :: 0 < i < |vs| ==> vs[i] == vs[1..][i - 1];
  }

  lemma AllPassMoves(vs: seq<Value>, ws: seq<Value>, excludeNone: bool, depth: nat)
    requires (forall x :: x in vs ==> x in ws) && AllPass(ws, excludeNone, depth)
    ensures AllPass(vs, excludeNone, depth)
  {
    forall i | 0 <= i < |vs|
      ensures Passes(vs[i], excludeNone, depth)
    {
      assert vs[i] in ws;
    }
  }

  lemma {:induction false} MembersSerialize(members: seq<Member>, keys: seq<Text>, excludeNone: bool, depth: nat)
    requires forall i :: 0 <= i < |members| ==> WellFormed(members[i].value)
    requires forall k :: k in keys ==> k in Keys(members)
    ensures CanonicalMembers(members, keys, excludeNone, depth).Ok? <==>
            AllPass(N.Under(members, keys), excludeNone, depth)
    decreases members, |keys|
  {
    if keys != [] {
      MembersSerialize(members, keys[1..], excludeNone, depth);
      SerializesExactly(At(members, keys[0]), excludeNone, depth);
      N.UnderRest(members, keys);
      AllPassNext(N.Under(members, keys), excludeNone, depth);
    }
  }

  lemma {:induction false} DictSerializes(members: seq<Member>, excludeNone: bool, depth: nat)
    requires WellFormed(Dict(members))
    ensures Canonical(Dict(members), excludeNone, depth).Ok? <==> Serializable(Dict(members), excludeNone, depth)
    decreases Dict(members), 1
  {
    var keys := SortedKeys(members);
    MembersSerialize(members, keys, excludeNone, depth + 1);
    UnderKeys(members, keys, excludeNone, depth + 1);
    PlainKeys(members);
    DictExactly(members, excludeNone, depth, CanonicalMembers(members, keys, excludeNone, depth + 1));
  }

  lemma PlainKeys(members: seq<Member>)
    ensures ValidKeys(Keys(members)) <==> forall i :: 0 <= i < |members| ==> PlainText(members[i].key)
  {
    assert forall i :: 0 <= i < |members| ==> (NoSurrogates(Keys(members)[i]) <==> PlainText(members[i].key));
  }

  lemma DictExactly(members: seq<Member>, excludeNone: bool, depth: nat, r: Result<seq<JMember>, CanonError>)
    requires r == CanonicalMembers(members, SortedKeys(members), excludeNone, depth + 1)
    requires r.Ok? <==> AllPass(N.MemberValues(members), excludeNone, depth + 1)
    requires ValidKeys(Keys(members)) <==> forall i :: 0 <= i < |members| ==> PlainText(members[i].key)
    ensures Canonical(Dict(members), excludeNone, depth).Ok? <==> Serializable(Dict(members), excludeNone, depth)
  {
    ValuesPass(members, excludeNone, depth + 1);
  }

  lemma ValuesPass(members: seq<Member>, excludeNone: bool, depth: nat)
    ensures AllPass(N.MemberValues(members), excludeNone, depth) <==>
            forall i :: 0 <= i < |members| ==> Passes(members[i].value, excludeNone, depth)
  {
    if AllPass(N.MemberValues(members), excludeNone, depth) {
      forall i | 0 <= i < |members|
        ensures Passes(members[i].value, excludeNone, depth)
      {
        assert N.MemberValues(members)[i] == members[i].value;
      }
    }
  }

  lemma UnderKeys(members: seq<Member>, keys: seq<Text>, excludeNone: bool, depth: nat)
    requires Distinct(Keys(members)) && keys == SortedKeys(members)
    ensures AllPass(N.Under(members, keys), excludeNone, depth) <==>
            AllPass(N.MemberValues(members), excludeNone, depth)
  {
    var u, w := N.Under(members, keys), N.MemberValues(members);
    forall x
      ensures x in u <==> x in w
    {
      N.SameValuesUnderKeys(members, x);
    }
    if AllPass(u, excludeNone, depth) {
      AllPassMoves(w, u, excludeNone, depth);
    }
    if AllPass(w, excludeNone, depth) {
      AllPassMoves(u, w, excludeNone, depth);
    }
  }

  // ----- why a value does not

  /** The errors of values that hold no others. */
  lemma ScalarFaults(v: Value, excludeNone: bool, depth: nat)
    requires !v.Array? && !v.Dict? && !Serializable(v, excludeNone, depth)
    ensures Canonical(v, excludeNone, depth) ==
            if depth <= 64 &&
               (v == Unsupported || (v.OddDict? && forall i :: 0 <= i < |v.before| ==> PlainText(v.before[i])))
            then Err(TypeError)
            else Err(ValueError)
  {
  }

  /** A list has the error of its first item that has one. */
  lemma {:induction false} FirstItemFaults(items: seq<Value>, i: nat, excludeNone: bool, depth: nat)
    requires i < |items| && Canonical(items[i], excludeNone, depth).Err?
    requires forall j :: 0 <= j < i ==> Canonical(items[j], excludeNone, depth).Ok?
    ensures CanonicalItems(items, excludeNone, depth) == Err(Canonical(items[i], excludeNone, depth).error)
    decreases i
  {
    if i > 0 {
      FirstItemFaults(items[1..], i - 1, excludeNone, depth);
    }
  }

  /** Lists and dicts too deep, and dicts with a key that has a lone surrogate, are errors of
      value. */
  lemma ContainerFaults(v: Value, excludeNone: bool, depth: nat)
    requires v.Array? || v.Dict?
    ensures depth > 64 ==> Canonical(v, excludeNone, depth) == Err(ValueError)
    ensures v.Dict? && (exists i :: 0 <= i < |v.members| && !PlainText(v.members[i].key)) ==>
              Canonical(v, excludeNone, depth) == Err(ValueError)
    ensures v.Array? && depth <= 64 && CanonicalItems(v.items, excludeNone, depth + 1).Err? ==>
              Canonical(v, excludeNone, depth) == Err(CanonicalItems(v.items, excludeNone, depth + 1).error)
  {
    if v.Dict? && exists i :: 0 <= i < |v.members| && !PlainText(v.members[i].key) {
      var i :| 0 <= i < |v.members| && !PlainText(v.members[i].key);
      assert !NoSurrogates(Keys(v.members)[i]);
    }
  }

  // ----- texts

  lemma Literals()
    ensures Print(JNull) == Name("null") && Print(JBool(true)) == Name("true") && Print(JBool(false)) == Name("false")
    ensures Print(JArr([])) == Name("[]") && Print(JObj([])) == Name("{}")
  {
  }

  lemma Punctuation()
    ensures [OPEN_ARRAY] == Name("[") && [CLOSE_ARRAY] == Name("]") && [COMMA] == Name(",")
    ensures [OPEN_OBJECT] == Name("{") && [CLOSE_OBJECT] == Name("}") && [COLON] == Name(":")
  {
  }

  lemma ContainerTexts(items: seq<Json>, members: seq<JMember>)
    ensures Print(JArr(items)) == Name("[") + PrintItems(items) + Name("]")
    ensures Print(JObj(members)) == Name("{") + PrintMembers(members) + Name("}")
  {
    Punctuation();
  }

  /** Items are joined by commas. */
  lemma ItemsJoin(first: Json, rest: seq<Json>)
    ensures PrintItems([]) == [] && PrintItems([first]) == Print(first)
    ensures rest != [] ==> PrintItems([first] + rest) == Print(first) + (Name(",") + PrintItems(rest))
  {
    Punctuation();
    assert ([first] + rest)[1..] == rest;
  }

  /** So are members, each a quoted key, a colon and a value. */
  lemma MembersJoin(first: JMember, rest: seq<JMember>)
    ensures PrintMember(first) == QuotedText(first.key) + Name(":") + Print(first.value)
    ensures PrintMembers([]) == [] && PrintMembers([first]) == PrintMember(first)
    ensures rest != [] ==> PrintMembers([first] + rest) == PrintMember(first) + (Name(",") + PrintMembers(rest))
  {
    Punctuation();
    assert ([first] + rest)[1..] == rest;
  }

  /** How each character stands in a string: two-character escapes for quote, backslash and
      five controls, lower-case \\u escapes for the other controls, and itself otherwise. */
  lemma Escapes(c: CodePoint)
    ensures EscapeChar(c) ==
            if c == 0x22 then [0x5C, 0x22]
            else if c == 0x5C then [0x5C, 0x5C]
            else if c == 0x08 then Name("\\b")
            else if c == 0x0C then Name("\\f")
            else if c == 0x0A then Name("\\n")
            else if c == 0x0D then Name("\\r")
            else if c == 0x09 then Name("\\t")
            else if c < 0x20 then Name("\\u00") + [Name("0123456789abcdef")[c / 16], Name("0123456789abcdef")[c % 16]]
            else [c]
  {
  }

  /** UTF-16 units: characters beyond the basic plane take a high and a low surrogate. */
  lemma SurrogatePairs(c: CodePoint)
    requires !(0xD800 <= c <= 0xDFFF)
    ensures c < 0x10000 ==> Utf16Char(c) == [c]
    ensures c >= 0x10000 ==>
              var u := Utf16Char(c);
              && |u| == 2 && 0xD800 <= u[0] < 0xDC00 <= u[1] < 0xE000
              && c == 0x10000 + (u[0] - 0xD800) * 0x400 + (u[1] - 0xDC00)
  {
  }

  /** UTF-8 octets: leading octets of RFC 3629 section 3, then continuations of six bits. */
  lemma Octets(c: CodePoint)
    ensures var b := Utf8.Utf8Char(c);
            && (c < 0x80 ==> b == [c])
            && (0x80 <= c < 0x800 ==> |b| == 2 && 0xC0 <= b[0] < 0xE0)
            && (0x800 <= c < 0x10000 ==> |b| == 3 && 0xE0 <= b[0] < 0xF0)
            && (0x10000 <= c ==> |b| == 4 && 0xF0 <= b[0] < 0xF8)
            && (forall i :: 1 <= i < |b| ==> 0x80 <= b[i] < 0xC0)
            && Utf8.CharOf(b) == c
  {
    Utf8.CharOfOctets(c);
  }
}
