/** The one-pass nesting scanner of the COSE payload gate, on canonical text. */
module Nesting {
  import opened Wrappers
  import opened Decimals
  import opened Strings
  import opened Json
  import opened JsonParser
  import opened JsonMeaning
  import opened Signing

  const MAX_PAYLOAD_NESTING: int := 64

  /** The scanner's four variables. */
  datatype Scan = Scan(depth: int, deepest: int, inString: bool, escaped: bool)

  function Max(a: int, b: int): int {
    if a < b then b else a
  }

  function ScanChar(s: Scan, c: CodePoint): Scan {
    if s.inString then
      if s.escaped then s.(escaped := false)
      else if c == BACKSLASH then s.(escaped := true)
      else if c == QUOTE then s.(inString := false)
      else s
    else if c == QUOTE then s.(inString := true)
    else if c == OPEN_OBJECT || c == OPEN_ARRAY then s.(depth := s.depth + 1, deepest := Max(s.deepest, s.depth + 1))
    else if c == CLOSE_OBJECT || c == CLOSE_ARRAY then s.(depth := s.depth - 1)
    else s
  }

  function ScanText(s: Scan, t: Text): Scan
    decreases |t|
  {
    if t == [] then s else ScanText(ScanChar(s, t[0]), t[1..])
  }

  /** `_payload_nesting_depth` */
  method PayloadNestingDepth(text: Text) returns (deepest: int)
    ensures deepest == ScanText(Scan(0, 0, false, false), text).deepest
  {
    var depth := 0;
    deepest := 0;
    var inString, escaped := false, false;
    for i := 0 to |text|
      invariant ScanText(Scan(depth, deepest, inString, escaped), text[i..]) == ScanText(Scan(0, 0, false, false), text)
    {
      var ch := text[i];
      assert text[i..][0] == ch && text[i..][1..] == text[i + 1..];
      if inString {
        if escaped {
          escaped := false;
        } else if ch == BACKSLASH {
          escaped := true;
        } else if ch == QUOTE {
          inString := false;
        }
        continue;
      }
      if ch == QUOTE {
        inString := true;
      } else if ch == OPEN_OBJECT || ch == OPEN_ARRAY {
        depth := depth + 1;
        deepest := Max(deepest, depth);
      } else if ch == CLOSE_OBJECT || ch == CLOSE_ARRAY {
        depth := depth - 1;
      }
    }
  }

  // ----- structural nesting

  /** Containers on the longest way into a value. */
  function NestingOf(j: Json): (n: nat)
    decreases j
  {
    match j
    case JArr(items) => 1 + ItemsNesting(items)
    case JObj(members) => 1 + MembersNesting(members)
    case _ => 0
  }

  function ItemsNesting(items: seq<Json>): nat
    decreases items
  {
    if items == [] then 0 else Max(NestingOf(items[0]), ItemsNesting(items[1..]))
  }

  function MembersNesting(members: seq<JMember>): nat
    decreases members
  {
    if members == [] then 0 else Max(NestingOf(members[0].value), MembersNesting(members[1..]))
  }

  lemma {:induction false} ScanConcat(s: Scan, a: Text, b: Text)
    ensures ScanText(s, a + b) == ScanText(ScanText(s, a), b)
    decreases |a|
  {
    if a == [] {
      assert a + b == b;
    } else {
      ScanConcat(ScanChar(s, a[0]), a[1..], b);
      assert (a + b)[1..] == a[1..] + b;
    }
  }

  lemma ScanOne(s: Scan, c: CodePoint)
    ensures ScanText(s, [c]) == ScanChar(s, c)
  {
  }

  /** Characters that neither quote nor bracket leave the scanner alone. */
  predicate Inert(c: CodePoint) {
    c !in {QUOTE, OPEN_ARRAY, OPEN_OBJECT, CLOSE_ARRAY, CLOSE_OBJECT}
  }

  lemma {:induction false} ScanInert(s: Scan, t: Text)
    requires !s.inString && forall i :: 0 <= i < |t| ==> Inert(t[i])
    ensures ScanText(s, t) == s
  {
    if t != [] {
      ScanInert(s, t[1..]);
    }
  }

  lemma {:induction false} ScanPlainInString(s: Scan, t: Text)
    requires s.inString && !s.escaped && forall i :: 0 <= i < |t| ==> t[i] != QUOTE && t[i] != BACKSLASH
    ensures ScanText(s, t) == s
  {
    if t != [] {
      ScanPlainInString(s, t[1..]);
    }
  }

  /** An escaped character never ends the string it stands in. */
  lemma ScanEscape(s: Scan, c: CodePoint)
    requires s.inString && !s.escaped
    ensures ScanText(s, EscapeChar(c)) == s
  {
    var e := EscapeChar(c);
    if e[0] == BACKSLASH {
      assert ScanText(s, e) == ScanText(s.(escaped := true), e[1..]) == ScanText(s, e[1..][1..]);
      ScanPlainInString(s, e[1..][1..]);
    } else {
      ScanOne(s, c);
    }
  }

  lemma {:induction false} ScanEscapes(s: Scan, t: Text)
    requires s.inString && !s.escaped
    ensures ScanText(s, EscapeText(t)) == s
  {
    if t != [] {
      ScanEscape(s, t[0]);
      ScanEscapes(s, t[1..]);
      ScanConcat(s, EscapeChar(t[0]), EscapeText(t[1..]));
    }
  }

  /** Whatever a string holds, its quoted text leaves the scanner alone. */
  lemma ScanString(s: Scan, t: Text)
    requires !s.inString && !s.escaped
    ensures ScanText(s, QuotedText(t)) == s
  {
    var in' := s.(inString := true);
    ScanOne(s, QUOTE);
    ScanEscapes(in', t);
    ScanOne(in', QUOTE);
    ScanConcat(s, [QUOTE], EscapeText(t));
    ScanConcat(s, [QUOTE] + EscapeText(t), [QUOTE]);
  }

  /** Outside strings, at depth d with the deepest seen m. */
  function Outside(d: int, m: int): Scan {
    Scan(d, m, false, false)
  }

  lemma ScanScalar(j: Json, d: int, m: int)
    requires Readable(j) && !j.JArr? && !j.JObj? && d <= m
    ensures ScanText(Outside(d, m), Print(j)) == Outside(d, Max(m, d + NestingOf(j)))
  {
    match j
    case JStr(s) => ScanString(Outside(d, m), s);
    case JNum(n) =>
      DecimalChars(n);
      ScanInert(Outside(d, m), Print(j));
    case _ => ScanInert(Outside(d, m), Print(j));
  }

  /** A bracketed text returns to its depth and has seen one more level than its inside. */
  lemma ScanBracketed(open: CodePoint, inner: Text, close: CodePoint, d: int, m: int, n: nat)
    requires open in {OPEN_ARRAY, OPEN_OBJECT} && close in {CLOSE_ARRAY, CLOSE_OBJECT} && d <= m
    requires ScanText(Outside(d + 1, Max(m, d + 1)), inner) == Outside(d + 1, Max(Max(m, d + 1), d + 1 + n))
    ensures ScanText(Outside(d, m), [open] + inner + [close]) == Outside(d, Max(m, d + (1 + n)))
  {
    var s := Outside(d, m);
    ScanOne(s, open);
    ScanConcat(s, [open], inner);
    ScanConcat(s, [open] + inner, [close]);
    ScanOne(Outside(d + 1, Max(m, d + (1 + n))), close);
  }

  lemma {:induction false} ScanPrinted(j: Json, d: int, m: int)
    requires Readable(j) && d <= m
    ensures ScanText(Outside(d, m), Print(j)) == Outside(d, Max(m, d + NestingOf(j)))
    decreases j, 1
  {
    if j.JArr? {
      ScanArray(j, d, m);
    } else if j.JObj? {
      ScanObject(j, d, m);
    } else {
      ScanScalar(j, d, m);
    }
  }

  lemma {:induction false} ScanArray(j: Json, d: int, m: int)
    requires j.JArr? && Readable(j) && d <= m
    ensures ScanText(Outside(d, m), Print(j)) == Outside(d, Max(m, d + NestingOf(j)))
    decreases j, 0
  {
    ScanItems(j.items, d + 1, Max(m, d + 1));
    ScanBracketed(OPEN_ARRAY, PrintItems(j.items), CLOSE_ARRAY, d, m, ItemsNesting(j.items));
  }

  lemma {:induction false} ScanObject(j: Json, d: int, m: int)
    requires j.JObj? && Readable(j) && d <= m
    ensures ScanText(Outside(d, m), Print(j)) == Outside(d, Max(m, d + NestingOf(j)))
    decreases j, 0
  {
    ScanMembers(j.members, d + 1, Max(m, d + 1));
    ScanBracketed(OPEN_OBJECT, PrintMembers(j.members), CLOSE_OBJECT, d, m, MembersNesting(j.members));
  }

  /** Scanning one text, then perhaps a comma and another. */
  lemma ScanJoin(first: Text, rest: Text, d: int, m: int, n: nat, k: nat)
    requires ScanText(Outside(d, m), first) == Outside(d, Max(m, d + n))
    requires ScanText(Outside(d, Max(m, d + n)), rest) == Outside(d, Max(Max(m, d + n), d + k))
    ensures ScanText(Outside(d, m), first + ([COMMA] + rest)) == Outside(d, Max(m, d + Max(n, k)))
  {
    var s := Outside(d, Max(m, d + n));
    ScanOne(s, COMMA);
    ScanConcat(s, [COMMA], rest);
    ScanConcat(Outside(d, m), first, [COMMA] + rest);
  }

  lemma {:induction false} ScanItems(items: seq<Json>, d: int, m: int)
    requires (forall i :: 0 <= i < |items| ==> Readable(items[i])) && d <= m
    ensures ScanText(Outside(d, m), PrintItems(items)) == Outside(d, Max(m, d + ItemsNesting(items)))
    decreases items
  {
    if items != [] {
      var n := NestingOf(items[0]);
      ScanPrinted(items[0], d, m);
      if |items| == 1 {
        assert PrintItems(items) == Print(items[0]);
      } else {
        ScanItems(items[1..], d, Max(m, d + n));
        ScanJoin(Print(items[0]), PrintItems(items[1..]), d, m, n, ItemsNesting(items[1..]));
      }
    }
  }

  lemma {:induction false} ScanMember(x: JMember, d: int, m: int)
    requires Readable(x.value) && d <= m
    ensures ScanText(Outside(d, m), PrintMember(x)) == Outside(d, Max(m, d + NestingOf(x.value)))
    decreases x
  {
    var s := Outside(d, m);
    ScanString(s, x.key);
    ScanOne(s, COLON);
    ScanPrinted(x.value, d, m);
    ScanConcat(s, QuotedText(x.key), [COLON]);
    ScanConcat(s, QuotedText(x.key) + [COLON], Print(x.value));
  }

  lemma {:induction false} ScanMembers(members: seq<JMember>, d: int, m: int)
    requires (forall i :: 0 <= i < |members| ==> Readable(members[i].value)) && d <= m
    ensures ScanText(Outside(d, m), PrintMembers(members)) == Outside(d, Max(m, d + MembersNesting(members)))
    decreases members
  {
    if members != [] {
      var n := NestingOf(members[0].value);
      ScanMember(members[0], d, m);
      if |members| == 1 {
        assert PrintMembers(members) == PrintMember(members[0]);
      } else {
        ScanMembers(members[1..], d, Max(m, d + n));
        ScanJoin(PrintMember(members[0]), PrintMembers(members[1..]), d, m, n, MembersNesting(members[1..]));
      }
    }
  }

  // ----- how deep canonical text gets

  /** An empty container stands inside exactly n others. */
  ghost predicate EmptyInside(j: Json, n: nat)
    decreases j
  {
    match j
    case JArr(items) =>
      if n == 0 then items == [] else exists i :: 0 <= i < |items| && EmptyInside(items[i], n - 1)
    case JObj(members) =>
      if n == 0 then members == [] else exists i :: 0 <= i < |members| && EmptyInside(members[i].value, n - 1)
    case _ => false
  }

  /** The depth cap of the serializer, as a bound on what it emits below this depth. */
  ghost predicate Capped(j: Json, depth: nat) {
    && NestingOf(j) + depth <= MAX_DEPTH + 1
    && depth <= MAX_DEPTH
    && (NestingOf(j) + depth == MAX_DEPTH + 1 <==> EmptyInside(j, MAX_DEPTH - depth))
  }

  lemma {:induction false} ItemsCapped(items: seq<Json>, depth: nat)
    requires items != [] && forall i :: 0 <= i < |items| ==> Capped(items[i], depth)
    ensures depth <= MAX_DEPTH && ItemsNesting(items) + depth <= MAX_DEPTH + 1
    ensures ItemsNesting(items) + depth == MAX_DEPTH + 1 <==>
            exists i :: 0 <= i < |items| && EmptyInside(items[i], MAX_DEPTH - depth)
  {
    if |items| > 1 {
      ItemsCapped(items[1..], depth);
      if exists i :: 0 <= i < |items[1..]| && EmptyInside(items[1..][i], MAX_DEPTH - depth) {
        var i :| 0 <= i < |items[1..]| && EmptyInside(items[1..][i], MAX_DEPTH - depth);
        assert EmptyInside(items[i + 1], MAX_DEPTH - depth);
      }
      if exists i :: 0 <= i < |items| && EmptyInside(items[i], MAX_DEPTH - depth) {
        var i :| 0 <= i < |items| && EmptyInside(items[i], MAX_DEPTH - depth);
        assert i > 0 ==> EmptyInside(items[1..][i - 1], MAX_DEPTH - depth);
      }
    } else {
      assert ItemsNesting(items) == NestingOf(items[0]);
    }
  }

  function Values(members: seq<JMember>): (js: seq<Json>)
    ensures |js| == |members| && forall i :: 0 <= i < |js| ==> js[i] == members[i].value
  {
    seq(|members|, i requires 0 <= i < |members| => members[i].value)
  }

  lemma {:induction false} MembersNestLikeItems(members: seq<JMember>)
    ensures MembersNesting(members) == ItemsNesting(Values(members))
  {
    if members != [] {
      MembersNestLikeItems(members[1..]);
      assert Values(members)[1..] == Values(members[1..]);
    }
  }

  lemma {:induction false} CanonicalIsCapped(v: Value, excludeNone: bool, depth: nat)
    requires Canonical(v, excludeNone, depth).Ok?
    ensures Capped(Canonical(v, excludeNone, depth).value, depth)
    decreases v, 1
  {
    match v
    case Array(items, _) =>
      CanonicalItemsCapped(items, excludeNone, depth + 1);
      ArrayCapped(CanonicalItems(items, excludeNone, depth + 1).value, depth);
    case Dict(members) =>
      CanonicalMembersCapped(members, SortedKeys(members), excludeNone, depth + 1);
      ObjectCapped(CanonicalMembers(members, SortedKeys(members), excludeNone, depth + 1).value, depth);
    case _ => ScalarCapped(v, excludeNone, depth);
  }

  lemma ScalarCapped(v: Value, excludeNone: bool, depth: nat)
    requires !v.Array? && !v.Dict? && Canonical(v, excludeNone, depth).Ok?
    ensures Capped(Canonical(v, excludeNone, depth).value, depth)
  {
  }

  lemma ArrayCapped(js: seq<Json>, depth: nat)
    requires depth <= MAX_DEPTH && forall i :: 0 <= i < |js| ==> Capped(js[i], depth + 1)
    ensures Capped(JArr(js), depth)
  {
    if js != [] {
      ItemsCapped(js, depth + 1);
    }
  }

  lemma ObjectCapped(ms: seq<JMember>, depth: nat)
    requires depth <= MAX_DEPTH && forall i :: 0 <= i < |ms| ==> Capped(ms[i].value, depth + 1)
    ensures Capped(JObj(ms), depth)
  {
    MembersNestLikeItems(ms);
    if ms != [] {
      var inside := MAX_DEPTH - depth;
      ItemsCapped(Values(ms), depth + 1);
      forall i | 0 <= i < |ms| && EmptyInside(ms[i].value, inside - 1)
        ensures EmptyInside(Values(ms)[i], inside - 1)
      {
      }
    }
  }

  lemma {:induction false} CanonicalItemsCapped(items: seq<Value>, excludeNone: bool, depth: nat)
    requires CanonicalItems(items, excludeNone, depth).Ok?
    ensures forall i :: 0 <= i < |CanonicalItems(items, excludeNone, depth).value| ==>
              Capped(CanonicalItems(items, excludeNone, depth).value[i], depth)
    decreases items
  {
    if items != [] {
      CanonicalIsCapped(items[0], excludeNone, depth);
      CanonicalItemsCapped(items[1..], excludeNone, depth);
    }
  }

  lemma {:induction false} CanonicalMembersCapped(members: seq<Member>, keys: seq<Text>, excludeNone: bool, depth: nat)
    requires (forall k :: k in keys ==> k in Keys(members)) && CanonicalMembers(members, keys, excludeNone, depth).Ok?
    ensures forall i :: 0 <= i < |CanonicalMembers(members, keys, excludeNone, depth).value| ==>
              Capped(CanonicalMembers(members, keys, excludeNone, depth).value[i].value, depth)
    decreases members, |keys|
  {
    if keys != [] {
      CanonicalMembersCapped(members, keys[1..], excludeNone, depth);
      if !(excludeNone && At(members, keys[0]).Null?) {
        CanonicalIsCapped(At(members, keys[0]), excludeNone, depth);
      }
    }
  }

  // ----- the same on the value that is serialized

  predicate LeftOut(v: Value, excludeNone: bool) {
    excludeNone && v.Null?
  }

  /** An empty container stands inside exactly n others: a list without items, or a dict
      none of whose members is emitted. */
  ghost predicate HollowInside(v: Value, excludeNone: bool, n: nat)
    decreases v
  {
    match v
    case Array(items, _) =>
      if n == 0 then items == [] else exists i :: 0 <= i < |items| && HollowInside(items[i], excludeNone, n - 1)
    case Dict(members) =>
      if n == 0 then forall i :: 0 <= i < |members| ==> LeftOut(members[i].value, excludeNone)
      else exists i :: 0 <= i < |members| && HollowInside(members[i].value, excludeNone, n - 1)
    case _ => false
  }

  ghost predicate SomeEmpty(js: seq<Json>, n: nat) {
    exists i :: 0 <= i < |js| && EmptyInside(js[i], n)
  }

  ghost predicate SomeHollow(vs: seq<Value>, excludeNone: bool, n: nat) {
    exists i :: 0 <= i < |vs| && HollowInside(vs[i], excludeNone, n)
  }

  lemma SomeEmptyFirst(j: Json, rest: seq<Json>, n: nat)
    ensures SomeEmpty([j] + rest, n) <==> EmptyInside(j, n) || SomeEmpty(rest, n)
  {
    var js := [j] + rest;
    assert js[0] == j;
    if SomeEmpty(rest, n) {
      var i :| 0 <= i < |rest| && EmptyInside(rest[i], n);
      assert js[i + 1] == rest[i];
    }
  }

  lemma SomeHollowFirst(vs: seq<Value>, excludeNone: bool, n: nat)
    requires vs != []
    ensures SomeHollow(vs, excludeNone, n) <==>
            HollowInside(vs[0], excludeNone, n) || SomeHollow(vs[1..], excludeNone, n)
  {
  }

  /** The values under the keys, in their order. */
  function Under(members: seq<Member>, keys: seq<Text>): (vs: seq<Value>)
    requires forall k :: k in keys ==> k in Keys(members)
    ensures |vs| == |keys|
    ensures forall i :: 0 <= i < |keys| ==> vs[i] == At(members, keys[i])
  {
    seq(|keys|, i requires 0 <= i < |keys| => At(members, keys[i]))
  }

  predicate AllLeftOut(vs: seq<Value>, excludeNone: bool) {
    forall i :: 0 <= i < |vs| ==> LeftOut(vs[i], excludeNone)
  }

  function MemberValues(members: seq<Member>): (vs: seq<Value>)
    ensures |vs| == |members| && forall i :: 0 <= i < |vs| ==> vs[i] == members[i].value
  {
    seq(|members|, i requires 0 <= i < |members| => members[i].value)
  }

  lemma {:induction false} AtIndex(members: seq<Member>, i: nat)
    requires i < |members| && Distinct(Keys(members))
    ensures At(members, members[i].key) == members[i].value
  {
  }

  /** The values under the sorted keys are the values of the members. */
  lemma SameValuesUnderKeys(members: seq<Member>, x: Value)
    requires Distinct(Keys(members))
    ensures x in Under(members, SortedKeys(members)) <==> x in MemberValues(members)
  {
    var keys, vs := SortedKeys(members), Under(members, SortedKeys(members));
    if x in vs {
      var i :| 0 <= i < |vs| && vs[i] == x;
      assert keys[i] in Keys(members);
      var j :| 0 <= j < |members| && Keys(members)[j] == keys[i];
      AtIndex(members, j);
      assert MemberValues(members)[j] == x;
    }
    if x in MemberValues(members) {
      var j :| 0 <= j < |members| && MemberValues(members)[j] == x;
      AtIndex(members, j);
      assert Keys(members)[j] in keys;
      var i :| 0 <= i < |keys| && keys[i] == members[j].key;
      assert vs[i] == x;
    }
  }

  lemma SameHollow(vs: seq<Value>, ws: seq<Value>, excludeNone: bool, n: nat)
    requires forall x :: x in vs <==> x in ws
    ensures SomeHollow(vs, excludeNone, n) <==> SomeHollow(ws, excludeNone, n)
    ensures AllLeftOut(vs, excludeNone) <==> AllLeftOut(ws, excludeNone)
  {
    MovesOver(vs, ws, excludeNone, n);
    MovesOver(ws, vs, excludeNone, n);
  }

  lemma MovesOver(vs: seq<Value>, ws: seq<Value>, excludeNone: bool, n: nat)
    requires forall x :: x in vs ==> x in ws
    ensures SomeHollow(vs, excludeNone, n) ==> SomeHollow(ws, excludeNone, n)
    ensures AllLeftOut(ws, excludeNone) ==> AllLeftOut(vs, excludeNone)
  {
    if SomeHollow(vs, excludeNone, n) {
      var i :| 0 <= i < |vs| && HollowInside(vs[i], excludeNone, n);
      assert vs[i] in ws;
    }
    if AllLeftOut(ws, excludeNone) {
      forall i | 0 <= i < |vs|
        ensures LeftOut(vs[i], excludeNone)
      {
        assert vs[i] in ws;
      }
    }
  }

  /** The condition can be read off the value before it is serialized. */
  lemma {:induction false} HollowIsEmpty(v: Value, excludeNone: bool, depth: nat, n: nat)
    requires WellFormed(v) && Canonical(v, excludeNone, depth).Ok?
    ensures EmptyInside(Canonical(v, excludeNone, depth).value, n) <==> HollowInside(v, excludeNone, n)
    decreases v, 2
  {
    match v
    case Array(items, _) =>
      var js := CanonicalItems(items, excludeNone, depth + 1).value;
      HollowItems(items, excludeNone, depth + 1, n);
      ArrayHollow(v, items, js, excludeNone, n);
    case Dict(members) => HollowDict(v, members, SortedKeys(members), excludeNone, depth, n);
    case _ =>
  }

  lemma ArrayHollow(v: Value, items: seq<Value>, js: seq<Json>, excludeNone: bool, n: nat)
    requires v.Array? && v.items == items && ItemsMirror(js, items, excludeNone, n)
    ensures EmptyInside(JArr(js), n) <==> HollowInside(v, excludeNone, n)
  {
  }

  lemma DictHollow(v: Value, members: seq<Member>, ms: seq<JMember>, excludeNone: bool, n: nat)
    requires v == Dict(members) && (ms == [] <==> AllLeftOut(MemberValues(members), excludeNone))
    requires n > 0 ==> (SomeEmpty(Values(ms), n - 1) <==> SomeHollow(MemberValues(members), excludeNone, n - 1))
    ensures EmptyInside(JObj(ms), n) <==> HollowInside(v, excludeNone, n)
  {
  }

  lemma {:induction false} HollowDict(v: Value, members: seq<Member>, keys: seq<Text>, excludeNone: bool, depth: nat,
                                      n: nat)
    requires v == Dict(members) && WellFormed(v) && keys == SortedKeys(members)
    requires CanonicalMembers(members, keys, excludeNone, depth + 1).Ok?
    ensures EmptyInside(JObj(CanonicalMembers(members, keys, excludeNone, depth + 1).value), n) <==>
            HollowInside(v, excludeNone, n)
    decreases v, 1
  {
    HollowMembers(members, keys, excludeNone, depth + 1, n);
    forall x
      ensures x in Under(members, keys) <==> x in MemberValues(members)
    {
      SameValuesUnderKeys(members, x);
    }
    SameHollow(Under(members, keys), MemberValues(members), excludeNone, if n > 0 then n - 1 else 0);
    DictHollow(v, members, CanonicalMembers(members, keys, excludeNone, depth + 1).value, excludeNone, n);
  }

  lemma {:induction false} HollowItems(items: seq<Value>, excludeNone: bool, depth: nat, n: nat)
    requires (forall i :: 0 <= i < |items| ==> WellFormed(items[i])) && CanonicalItems(items, excludeNone, depth).Ok?
    ensures ItemsMirror(CanonicalItems(items, excludeNone, depth).value, items, excludeNone, n)
    decreases items
  {
    if items != [] {
      HollowItems(items[1..], excludeNone, depth, n);
      ItemsUnfold(items, excludeNone, depth);
      if n > 0 {
        HollowIsEmpty(items[0], excludeNone, depth, n - 1);
      }
      ItemsMirrorNext(Canonical(items[0], excludeNone, depth).value,
                      CanonicalItems(items[1..], excludeNone, depth).value,
                      items, excludeNone, n);
    }
  }

  ghost predicate ItemsMirror(js: seq<Json>, items: seq<Value>, excludeNone: bool, n: nat) {
    && (js == [] <==> items == [])
    && (n > 0 ==> (SomeEmpty(js, n - 1) <==> SomeHollow(items, excludeNone, n - 1)))
  }

  lemma ItemsMirrorNext(j: Json, rest: seq<Json>, items: seq<Value>, excludeNone: bool, n: nat)
    requires items != [] && ItemsMirror(rest, items[1..], excludeNone, n)
    requires n > 0 ==> (EmptyInside(j, n - 1) <==> HollowInside(items[0], excludeNone, n - 1))
    ensures ItemsMirror([j] + rest, items, excludeNone, n)
  {
    if n > 0 {
      SomeHollowFirst(items, excludeNone, n - 1);
      SomeEmptyFirst(j, rest, n - 1);
    }
  }

  lemma ItemsUnfold(items: seq<Value>, excludeNone: bool, depth: nat)
    requires items != [] && CanonicalItems(items, excludeNone, depth).Ok?
    ensures var first, rest := Canonical(items[0], excludeNone, depth), CanonicalItems(items[1..], excludeNone, depth);
            first.Ok? && rest.Ok? && CanonicalItems(items, excludeNone, depth).value == [first.value] + rest.value
  {
  }

  /** Nothing is emitted exactly when every value is left out, and some emitted value is
      hollow exactly when some value is. */
  ghost predicate Mirrors(ms: seq<JMember>, vs: seq<Value>, excludeNone: bool, n: nat) {
    && (ms == [] <==> AllLeftOut(vs, excludeNone))
    && (n > 0 ==> (SomeEmpty(Values(ms), n - 1) <==> SomeHollow(vs, excludeNone, n - 1)))
  }

  lemma MembersUnfold(members: seq<Member>, keys: seq<Text>, excludeNone: bool, depth: nat)
    requires keys != [] && (forall k :: k in keys ==> k in Keys(members))
    requires CanonicalMembers(members, keys, excludeNone, depth).Ok?
    ensures var v, rest := At(members, keys[0]), CanonicalMembers(members, keys[1..], excludeNone, depth);
            var ms := CanonicalMembers(members, keys, excludeNone, depth).value;
            && rest.Ok?
            && (if LeftOut(v, excludeNone) then ms == rest.value
                else Canonical(v, excludeNone, depth).Ok? &&
                     ms == [JMember(keys[0], Canonical(v, excludeNone, depth).value)] + rest.value)
  {
  }

  lemma {:induction false} HollowMembers(members: seq<Member>, keys: seq<Text>, excludeNone: bool, depth: nat, n: nat)
    requires forall i :: 0 <= i < |members| ==> WellFormed(members[i].value)
    requires (forall k :: k in keys ==> k in Keys(members)) && CanonicalMembers(members, keys, excludeNone, depth).Ok?
    ensures Mirrors(CanonicalMembers(members, keys, excludeNone, depth).value, Under(members, keys), excludeNone, n)
    decreases members, |keys|
  {
    if keys != [] {
      HollowMembers(members, keys[1..], excludeNone, depth, n);
      HollowFirst(members, keys, excludeNone, depth, n);
      UnderRest(members, keys);
      MembersUnfold(members, keys, excludeNone, depth);
      MirrorsNext(keys[0], Canonical(At(members, keys[0]), excludeNone, depth),
                  CanonicalMembers(members, keys[1..], excludeNone, depth).value,
                  CanonicalMembers(members, keys, excludeNone, depth).value, Under(members, keys), excludeNone, n);
    }
  }

  lemma {:induction false} HollowFirst(members: seq<Member>, keys: seq<Text>, excludeNone: bool, depth: nat, n: nat)
    requires forall i :: 0 <= i < |members| ==> WellFormed(members[i].value)
    requires keys != [] && (forall k :: k in keys ==> k in Keys(members))
    requires CanonicalMembers(members, keys, excludeNone, depth).Ok?
    ensures var v := At(members, keys[0]);
            n > 0 && !LeftOut(v, excludeNone) ==>
              Canonical(v, excludeNone, depth).Ok? &&
              (EmptyInside(Canonical(v, excludeNone, depth).value, n - 1) <==> HollowInside(v, excludeNone, n - 1))
    decreases members, 0
  {
    var v := At(members, keys[0]);
    if n > 0 && !LeftOut(v, excludeNone) {
      HollowIsEmpty(v, excludeNone, depth, n - 1);
    }
  }

  lemma UnderRest(members: seq<Member>, keys: seq<Text>)
    requires keys != [] && (forall k :: k in keys ==> k in Keys(members))
    ensures Under(members, keys)[0] == At(members, keys[0]) && Under(members, keys)[1..] == Under(members, keys[1..])
  {
  }

  lemma MirrorsNext(key: Text, c: Result<Json, CanonError>, rest: seq<JMember>, ms: seq<JMember>, vs: seq<Value>,
                    excludeNone: bool, n: nat)
    requires vs != [] && Mirrors(rest, vs[1..], excludeNone, n)
    requires if LeftOut(vs[0], excludeNone) then ms == rest else c.Ok? && ms == [JMember(key, c.value)] + rest
    requires n > 0 && !LeftOut(vs[0], excludeNone) ==>
               (EmptyInside(c.value, n - 1) <==> HollowInside(vs[0], excludeNone, n - 1))
    ensures Mirrors(ms, vs, excludeNone, n)
  {
    if LeftOut(vs[0], excludeNone) {
      LeftOutFirst(rest, vs, excludeNone, n);
    } else {
      EmittedFirst(JMember(key, c.value), rest, vs, excludeNone, n);
    }
  }

  lemma LeftOutFirst(rest: seq<JMember>, vs: seq<Value>, excludeNone: bool, n: nat)
    requires vs != [] && Mirrors(rest, vs[1..], excludeNone, n) && LeftOut(vs[0], excludeNone)
    ensures Mirrors(rest, vs, excludeNone, n)
  {
  }

  lemma EmittedFirst(m: JMember, rest: seq<JMember>, vs: seq<Value>, excludeNone: bool, n: nat)
    requires vs != [] && Mirrors(rest, vs[1..], excludeNone, n) && !LeftOut(vs[0], excludeNone)
    requires n > 0 ==> (EmptyInside(m.value, n - 1) <==> HollowInside(vs[0], excludeNone, n - 1))
    ensures Mirrors([m] + rest, vs, excludeNone, n)
  {
    assert ([m] + rest)[0] == m && !AllLeftOut(vs, excludeNone) by {
      assert !LeftOut(vs[0], excludeNone);
    }
    if n > 0 {
      SomeHollowFirst(vs, excludeNone, n - 1);
      SomeEmptyFirst(m.value, Values(rest), n - 1);
      assert Values([m] + rest) == [m.value] + Values(rest);
    }
  }

  // ----- the gate

  /** On canonical text the scanner returns the structural nesting, whatever its strings
      hold; it is at most 65, and 65 exactly for a value with an empty container inside 64
      others, which the payload gate then refuses. */
  lemma ScannerIsRight(v: Value, excludeNone: bool)
    requires WellFormed(v) && Canonicalized(v, excludeNone).Ok?
    ensures var j := Canonical(v, excludeNone, 0).value;
            var deepest := ScanText(Scan(0, 0, false, false), Canonicalized(v, excludeNone).value).deepest;
            && deepest == NestingOf(j) <= MAX_PAYLOAD_NESTING + 1
            && (deepest > MAX_PAYLOAD_NESTING <==> HollowInside(v, excludeNone, 64))
  {
    var j := Canonical(v, excludeNone, 0).value;
    CanonicalKeeps(v, excludeNone, 0);
    OrderedIsReadable(j);
    ScanWhole(j);
    CanonicalIsCapped(v, excludeNone, 0);
    HollowIsEmpty(v, excludeNone, 0, 64);
  }

  lemma ScanWhole(j: Json)
    requires Readable(j)
    ensures ScanText(Scan(0, 0, false, false), Print(j)).deepest == NestingOf(j)
  {
    ScanPrinted(j, 0, 0);
  }

  /** Lists around an empty list. */
  function Nested(n: nat): Value {
    Array(if n == 0 then [] else [Nested(n - 1)], false)
  }

  lemma {:induction false} NestedSerializes(n: nat, excludeNone: bool, depth: nat)
    requires n + depth <= MAX_DEPTH
    ensures WellFormed(Nested(n)) && HollowInside(Nested(n), excludeNone, n)
    ensures Canonical(Nested(n), excludeNone, depth).Ok?
  {
    if n > 0 {
      NestedSerializes(n - 1, excludeNone, depth + 1);
      var items := [Nested(n - 1)];
      assert items[0] == Nested(n - 1) && items[1..] == [];
      assert CanonicalItems(items, excludeNone, depth + 1).Ok?;
    }
  }

  /** The payload gate refuses exactly the manifests whose payload has a container that
      emits nothing inside exactly 64 others. */
  lemma PayloadGate(manifest: seq<Member>)
    requires WellFormedDict(manifest) && Canonicalized(Dict(PayloadDict(manifest)), true).Ok?
    ensures ScanText(Scan(0, 0, false, false), Canonicalized(Dict(PayloadDict(manifest)), true).value).deepest >
              MAX_PAYLOAD_NESTING <==>
            HollowInside(Dict(PayloadDict(manifest)), true, 64)
  {
    PayloadKeeps(manifest);
    ScannerIsRight(Dict(PayloadDict(manifest)), true);
  }

  const INTENT: Text := Name("intent")

  /** A manifest with nothing but a field of nested lists. */
  function NestedManifest(n: nat): seq<Member> {
    [Member(INTENT, Nested(n))]
  }

  lemma NestedPayload(n: nat)
    ensures PayloadDict(NestedManifest(n)) == NestedManifest(n)
  {
    var m := NestedManifest(n);
    assert |INTENT| == 6 && |NON_PAYLOAD_FIELDS[0]| == 9 && |NON_PAYLOAD_FIELDS[1]| == 11 &&
           |NON_PAYLOAD_FIELDS[2]| == 22;
    assert INTENT !in NON_PAYLOAD_FIELDS;
    assert m[0].key == INTENT && m[1..] == [] && Without(m, NON_PAYLOAD_FIELDS) == m;
    assert |HITL_RECORD| == 11 && !Has(m, HITL_RECORD);
  }

  lemma OneKey(n: nat)
    ensures SortedKeys(NestedManifest(n)) == [INTENT] && At(NestedManifest(n), INTENT) == Nested(n)
    ensures ValidKeys(Keys(NestedManifest(n)))
  {
    assert Keys(NestedManifest(n)) == [INTENT];
  }

  lemma NestedManifestSerializes(n: nat)
    requires n + 1 <= MAX_DEPTH
    ensures WellFormedDict(NestedManifest(n)) && HollowInside(Dict(NestedManifest(n)), true, n + 1)
    ensures Canonicalized(Dict(NestedManifest(n)), true).Ok?
  {
    var m := NestedManifest(n);
    NestedSerializes(n, true, 1);
    OneKey(n);
    assert m[0].value == Nested(n);
    assert CanonicalMembers(m, [INTENT], true, 1).Ok? by {
      assert [INTENT][1..] == [];
    }
  }

  /** Serialized, and refused: a manifest whose one field is an empty list inside 63 others. */
  lemma EmittedIsRefused()
    ensures WellFormedDict(NestedManifest(63)) && Canonicalized(Dict(PayloadDict(NestedManifest(63))), true).Ok?
    ensures ScanText(Scan(0, 0, false, false),
                     Canonicalized(Dict(PayloadDict(NestedManifest(63))), true).value).deepest ==
            MAX_PAYLOAD_NESTING + 1
  {
    NestedPayload(63);
    NestedManifestSerializes(63);
    ScannerIsRight(Dict(NestedManifest(63)), true);
  }
}
