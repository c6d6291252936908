/** A reader for canonical JSON text, and the proof that it inverts the printer. */
module JsonParser {
  import opened Wrappers
  import opened Decimals
  import opened Numerals
  import opened Strings
  import opened Json

  predicate IsNumberChar(c: CodePoint) {
    IsDigit(c) || c == MINUS || c == PLUS || c == POINT || c == EXP
  }

  function NumberLength(t: Text): (n: nat)
    ensures n <= |t|
  {
    if t != [] && IsNumberChar(t[0]) then 1 + NumberLength(t[1..]) else 0
  }

  /** Reads one value: the value and the text after it. */
  function ParseValue(t: Text): (r: Option<(Json, Text)>)
    ensures r.Some? ==> |r.value.1| < |t|
    decreases |t|, 0
  {
    if t == [] then None
    else if t[0] == QUOTE then
      var r := ReadChars(t[1..]);
      if r.None? then None else Some((JStr(r.value.0), r.value.1))
    else if t[0] == OPEN_ARRAY then
      if |t| > 1 && t[1] == CLOSE_ARRAY then Some((JArr([]), t[2..]))
      else
        var r := ParseItems(t[1..]);
        if r.None? then None else Some((JArr(r.value.0), r.value.1))
    else if t[0] == OPEN_OBJECT then
      if |t| > 1 && t[1] == CLOSE_OBJECT then Some((JObj([]), t[2..]))
      else
        var r := ParseMembers(t[1..]);
        if r.None? then None else Some((JObj(r.value.0), r.value.1))
    else if IsNumberChar(t[0]) then ParseNumber(t)
    else ParseLiteral(t)
  }

  function ParseLiteral(t: Text): (r: Option<(Json, Text)>)
    ensures r.Some? ==> |r.value.1| < |t|
  {
    if NULL_TEXT <= t then Some((JNull, t[4..]))
    else if TRUE_TEXT <= t then Some((JBool(true), t[4..]))
    else if FALSE_TEXT <= t then Some((JBool(false), t[5..]))
    else None
  }

  function ParseNumber(t: Text): (r: Option<(Json, Text)>)
    ensures r.Some? ==> |r.value.1| < |t|
  {
    var n := NumberLength(t);
    var d := ReadNumeral(t[..n]);
    if n == 0 || d.None? || d.value.digits == [] then None else Some((JNum(d.value), t[n..]))
  }

  /** Reads values separated by commas up to the closing bracket. */
  function ParseItems(t: Text): (r: Option<(seq<Json>, Text)>)
    ensures r.Some? ==> |r.value.1| < |t|
    decreases |t|, 1
  {
    var first := ParseValue(t);
    if first.None? || first.value.1 == [] then None
    else
      var rest := first.value.1;
      if rest[0] == CLOSE_ARRAY then Some(([first.value.0], rest[1..]))
      else if rest[0] != COMMA then None
      else
        var more := ParseItems(rest[1..]);
        if more.None? then None else Some(([first.value.0] + more.value.0, more.value.1))
  }

  function ParseMember(t: Text): (r: Option<(JMember, Text)>)
    ensures r.Some? ==> |r.value.1| < |t|
    decreases |t|, 1
  {
    if t == [] || t[0] != QUOTE then None
    else
      var key := ReadChars(t[1..]);
      if key.None? || key.value.1 == [] || key.value.1[0] != COLON then None
      else
        var value := ParseValue(key.value.1[1..]);
        if value.None? then None else Some((JMember(key.value.0, value.value.0), value.value.1))
  }

  function ParseMembers(t: Text): (r: Option<(seq<JMember>, Text)>)
    ensures r.Some? ==> |r.value.1| < |t|
    decreases |t|, 2
  {
    var first := ParseMember(t);
    if first.None? || first.value.1 == [] then None
    else
      var rest := first.value.1;
      if rest[0] == CLOSE_OBJECT then Some(([first.value.0], rest[1..]))
      else if rest[0] != COMMA then None
      else
        var more := ParseMembers(rest[1..]);
        if more.None? then None else Some(([first.value.0] + more.value.0, more.value.1))
  }

  /** Reads a whole text as one value. */
  function Parse(t: Text): Option<Json> {
    var r := ParseValue(t);
    if r.None? || r.value.1 != [] then None else Some(r.value.0)
  }

  // ----- what is read back

  /** Every number is in normal form. */
  ghost predicate Readable(j: Json)
    decreases j
  {
    match j
    case JNum(d) => Normal(d)
    case JArr(items) => forall i :: 0 <= i < |items| ==> Readable(items[i])
    case JObj(members) => forall i :: 0 <= i < |members| ==> Readable(members[i].value)
    case _ => true
  }

  /** The text after a value cannot be mistaken for more of a number. */
  predicate Stops(rest: Text) {
    rest == [] || !IsNumberChar(rest[0])
  }

  lemma {:induction false} NumberEnds(t: Text, rest: Text)
    requires (forall i :: 0 <= i < |t| ==> IsNumberChar(t[i])) && Stops(rest)
    ensures NumberLength(t + rest) == |t|
  {
    if t == [] {
      assert t + rest == rest;
    } else {
      NumberEnds(t[1..], rest);
      assert (t + rest)[1..] == t[1..] + rest;
    }
  }

  lemma PlacedChars(digits: Text, n: int)
    requires digits != [] && AllDigits(digits)
    ensures var t := PlaceDigits(digits, n);
            t != [] && IsDigit(t[0]) && forall i :: 0 <= i < |t| ==> IsNumberChar(t[i])
  {
  }

  lemma DecimalChars(d: Spelled)
    requires Normal(d)
    ensures var t := DecimalText(d);
            t != [] && (IsDigit(t[0]) || t[0] == MINUS) && forall i :: 0 <= i < |t| ==> IsNumberChar(t[i])
  {
    PlacedChars(d.digits, d.exp);
  }

  lemma NumberTokenReadsBack(d: Spelled, p: Text, rest: Text, t: Text)
    requires Normal(d) && Stops(rest) && p == DecimalText(d) && t == p + rest
    ensures ParseNumber(t) == Some((JNum(d), rest))
  {
    DecimalChars(d);
    NumberEnds(p, rest);
    DecimalReadsBack(d);
    assert t[..|p|] == p && t[|p|..] == rest;
  }

  lemma NumberDispatch(t: Text, r: Option<(Json, Text)>)
    requires t != [] && IsNumberChar(t[0]) && r == ParseNumber(t)
    ensures ParseValue(t) == r
  {
  }

  lemma NumberReadsBack(d: Spelled, rest: Text, t: Text)
    requires Normal(d) && Stops(rest) && t == DecimalText(d) + rest
    ensures ParseValue(t) == Some((JNum(d), rest))
  {
    var p := DecimalText(d);
    DecimalChars(d);
    assert t[0] == p[0];
    NumberTokenReadsBack(d, p, rest, t);
    NumberDispatch(t, Some((JNum(d), rest)));
  }

  lemma StringReadsBack(s: Text, rest: Text, t: Text)
    requires t == QuotedText(s) + rest
    ensures t != [] && t[0] == QUOTE && ReadChars(t[1..]) == Some((s, rest))
  {
    QuoteReadsBack(s, rest);
    assert t[1..] == EscapeText(s) + [QUOTE] + rest;
  }

  lemma LiteralReadsBack(j: Json, rest: Text, t: Text)
    requires (j.JNull? || j.JBool?) && t == Print(j) + rest
    ensures ParseValue(t) == Some((j, rest))
  {
  }

  lemma ItemsStart(items: seq<Json>, p: Text)
    requires items != [] && Readable(items[0]) && p == PrintItems(items)
    ensures p != [] && p[0] != CLOSE_ARRAY
  {
  }

  lemma ArrayStep(items: seq<Json>, inner: Text, rest: Text, t: Text)
    requires t == [OPEN_ARRAY] + inner && inner != [] && inner[0] != CLOSE_ARRAY
    requires ParseItems(inner) == Some((items, rest))
    ensures ParseValue(t) == Some((JArr(items), rest))
  {
  }

  lemma ObjectStep(members: seq<JMember>, inner: Text, rest: Text, t: Text)
    requires t == [OPEN_OBJECT] + inner && inner != [] && inner[0] != CLOSE_OBJECT
    requires ParseMembers(inner) == Some((members, rest))
    ensures ParseValue(t) == Some((JObj(members), rest))
  {
  }

  lemma EmptyReadsBack(j: Json, rest: Text, t: Text)
    requires (j == JArr([]) || j == JObj([])) && t == Print(j) + rest
    ensures ParseValue(t) == Some((j, rest))
  {
  }

  lemma {:induction false} ValueReadsBack(j: Json, rest: Text, t: Text)
    requires Readable(j) && Stops(rest) && t == Print(j) + rest
    ensures ParseValue(t) == Some((j, rest))
    decreases j, 1
  {
    match j
    case JNum(d) => NumberReadsBack(d, rest, t);
    case JStr(s) => StringReadsBack(s, rest, t);
    case JArr(items) => ArrayReadsBack(items, j, PrintItems(items), rest, t);
    case JObj(members) => ObjectReadsBack(members, j, PrintMembers(members), rest, t);
    case _ => LiteralReadsBack(j, rest, t);
  }

  lemma {:induction false} ArrayReadsBack(items: seq<Json>, j: Json, p: Text, rest: Text, t: Text)
    requires (forall i :: 0 <= i < |items| ==> Readable(items[i])) && j == JArr(items)
    requires p == PrintItems(items) && t == [OPEN_ARRAY] + p + [CLOSE_ARRAY] + rest
    ensures ParseValue(t) == Some((j, rest))
    decreases j, 0
  {
    if items == [] {
      EmptyReadsBack(j, rest, t);
    } else {
      var inner := p + ([CLOSE_ARRAY] + rest);
      ItemsStart(items, p);
      assert inner[0] == p[0];
      ItemsReadBack(items, rest, inner);
      ArrayStep(items, inner, rest, t);
    }
  }

  lemma {:induction false} ObjectReadsBack(members: seq<JMember>, j: Json, p: Text, rest: Text, t: Text)
    requires (forall i :: 0 <= i < |members| ==> Readable(members[i].value)) && j == JObj(members)
    requires p == PrintMembers(members) && t == [OPEN_OBJECT] + p + [CLOSE_OBJECT] + rest
    ensures ParseValue(t) == Some((j, rest))
    decreases j, 0
  {
    if members == [] {
      EmptyReadsBack(j, rest, t);
    } else {
      var inner := p + ([CLOSE_OBJECT] + rest);
      assert inner[0] == p[0] == PrintMember(members[0])[0] == QUOTE;
      MembersReadBack(members, rest, inner);
      ObjectStep(members, inner, rest, t);
    }
  }

  lemma {:induction false} ItemsReadBack(items: seq<Json>, rest: Text, t: Text)
    requires items != [] && (forall i :: 0 <= i < |items| ==> Readable(items[i]))
    requires t == PrintItems(items) + ([CLOSE_ARRAY] + rest)
    ensures ParseItems(t) == Some((items, rest))
    decreases items
  {
    if |items| == 1 {
      assert t == Print(items[0]) + ([CLOSE_ARRAY] + rest);
      ValueReadsBack(items[0], [CLOSE_ARRAY] + rest, t);
      assert ([CLOSE_ARRAY] + rest)[1..] == rest && [items[0]] == items;
    } else {
      var more := PrintItems(items[1..]) + ([CLOSE_ARRAY] + rest);
      Regroup(Print(items[0]), [COMMA], PrintItems(items[1..]), [CLOSE_ARRAY] + rest);
      ValueReadsBack(items[0], [COMMA] + more, t);
      assert ([COMMA] + more)[1..] == more;
      ItemsReadBack(items[1..], rest, more);
      assert [items[0]] + items[1..] == items;
    }
  }

  lemma MemberStep(m: JMember, after: Text, rest: Text, t: Text)
    requires t == QuotedText(m.key) + ([COLON] + after) && ParseValue(after) == Some((m.value, rest))
    ensures ParseMember(t) == Some((m, rest))
  {
    StringReadsBack(m.key, [COLON] + after, t);
    assert ([COLON] + after)[1..] == after;
  }

  lemma {:induction false} MemberReadsBack(m: JMember, rest: Text, t: Text)
    requires Readable(m.value) && Stops(rest) && t == PrintMember(m) + rest
    ensures ParseMember(t) == Some((m, rest))
    decreases m, 0
  {
    var after := Print(m.value) + rest;
    assert t == QuotedText(m.key) + ([COLON] + after);
    ValueReadsBack(m.value, rest, after);
    MemberStep(m, after, rest, t);
  }

  lemma {:induction false} LastMemberReadsBack(m: JMember, rest: Text, t: Text)
    requires Readable(m.value) && t == PrintMember(m) + ([CLOSE_OBJECT] + rest)
    ensures ParseMembers(t) == Some(([m], rest))
    decreases m, 1
  {
    MemberReadsBack(m, [CLOSE_OBJECT] + rest, t);
    assert ([CLOSE_OBJECT] + rest)[1..] == rest;
  }

  lemma {:induction false} FirstMemberReadsBack(m: JMember, ms: seq<JMember>, more: Text, rest: Text, t: Text)
    requires Readable(m.value) && t == PrintMember(m) + ([COMMA] + more) && ParseMembers(more) == Some((ms, rest))
    ensures ParseMembers(t) == Some(([m] + ms, rest))
    decreases m, 1
  {
    MemberReadsBack(m, [COMMA] + more, t);
    assert ([COMMA] + more)[1..] == more;
  }

  lemma Regroup(a: Text, b: Text, c: Text, rest: Text)
    ensures a + (b + c) + rest == a + (b + (c + rest))
  {
  }

  lemma {:induction false} MembersReadBack(members: seq<JMember>, rest: Text, t: Text)
    requires members != [] && (forall i :: 0 <= i < |members| ==> Readable(members[i].value))
    requires t == PrintMembers(members) + ([CLOSE_OBJECT] + rest)
    ensures ParseMembers(t) == Some((members, rest))
    decreases members
  {
    if |members| == 1 {
      assert t == PrintMember(members[0]) + ([CLOSE_OBJECT] + rest);
      LastMemberReadsBack(members[0], rest, t);
      assert [members[0]] == members;
    } else {
      var more := PrintMembers(members[1..]) + ([CLOSE_OBJECT] + rest);
      Regroup(PrintMember(members[0]), [COMMA], PrintMembers(members[1..]), [CLOSE_OBJECT] + rest);
      MembersReadBack(members[1..], rest, more);
      FirstMemberReadsBack(members[0], members[1..], more, rest, t);
      assert [members[0]] + members[1..] == members;
    }
  }

  /** Printed text reads back to the value it came from, all of it. */
  lemma PrintReadsBack(j: Json)
    requires Readable(j)
    ensures Parse(Print(j)) == Some(j)
  {
    assert Print(j) + [] == Print(j);
    ValueReadsBack(j, [], Print(j));
  }
}
