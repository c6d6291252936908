/** The characters Python strips, and splitting a text into lines. */
module Whitespace {
  const SPACES: set<char> :=
    {'\t', '\n', '\U{0B}', '\U{0C}', '\r', '\U{1C}', '\U{1D}', '\U{1E}', '\U{1F}', ' ', '\U{85}', '\U{A0}', '\U{1680}',
     '\U{2000}', '\U{2001}', '\U{2002}', '\U{2003}', '\U{2004}', '\U{2005}', '\U{2006}', '\U{2007}', '\U{2008}',
     '\U{2009}', '\U{200A}', '\U{2028}', '\U{2029}', '\U{202F}', '\U{205F}', '\U{3000}'}

  /** Nothing is left of the text when it is stripped. */
  predicate Blank(s: string) {
    forall i :: 0 <= i < |s| ==> s[i] in SPACES
  }

  /** `s.strip()` */
  function Strip(s: string): string {
    if s == "" then ""
    else if s[0] in SPACES then Strip(s[1..])
    else if s[|s| - 1] in SPACES then Strip(s[..|s| - 1])
    else s
  }

  lemma {:induction false} StripBlank(s: string)
    ensures Strip(s) == "" <==> Blank(s)
  {
    if s != "" {
      if s[0] in SPACES {
        StripBlank(s[1..]);
        assert s == [s[0]] + s[1..];
      } else if s[|s| - 1] in SPACES {
        StripBlank(s[..|s| - 1]);
        assert s == s[..|s| - 1] + [s[|s| - 1]];
      }
    }
  }

  /** A text with ink at both ends. */
  predicate Tight(s: string) {
    s != "" && s[0] !in SPACES && s[|s| - 1] !in SPACES
  }

  lemma {:induction false} StripLeading(blank: string, s: string)
    requires Blank(blank) && Tight(s)
    ensures Strip(blank + s) == s
  {
    if blank == "" {
      assert blank + s == s;
    } else {
      StripLeading(blank[1..], s);
      assert (blank + s)[1..] == blank[1..] + s;
    }
  }

  /** Line ends as text files read them.  A carriage return and a line feed in a row end a
      line and an empty one, which no reader of non-blank lines can tell from one end. */
  predicate EndsLine(c: char) {
    c == '\n' || c == '\r'
  }

  /** The lines of a text, the last one being what follows the last line end. */
  function Lines(s: string): (lines: seq<string>)
    ensures lines != []
  {
    if s == "" then [""] else Push(s[0], Lines(s[1..]))
  }

  function Push(c: char, lines: seq<string>): (r: seq<string>)
    requires lines != []
    ensures r != []
  {
    if EndsLine(c) then [""] + lines else [[c] + lines[0]] + lines[1..]
  }

  function LastLine(s: string): string {
    var lines := Lines(s);
    lines[|lines| - 1]
  }

  predicate OneLine(s: string) {
    forall i :: 0 <= i < |s| ==> !EndsLine(s[i])
  }

  lemma {:induction false} LinesOfText(s: string)
    requires OneLine(s)
    ensures Lines(s) == [s]
  {
    if s != "" {
      LinesOfText(s[1..]);
      assert [s[0]] + s[1..] == s;
    }
  }

  lemma {:induction false} LinesOfOne(s: string)
    requires OneLine(s)
    ensures Lines(s + "\n") == [s, ""]
  {
    if s == "" {
      assert s + "\n" == "\n";
      assert Lines("\n"[1..]) == [""];
    } else {
      LinesOfOne(s[1..]);
      assert (s + "\n")[1..] == s[1..] + "\n";
      assert [s[0]] + s[1..] == s;
    }
  }

  /** The lines of two texts put together: the second continues the last line of the first. */
  function Join(x: seq<string>, y: seq<string>): seq<string>
    requires x != [] && y != []
  {
    x[..|x| - 1] + [x[|x| - 1] + y[0]] + y[1..]
  }

  lemma JoinPush(c: char, x: seq<string>, y: seq<string>)
    requires x != [] && y != []
    ensures Join(Push(c, x), y) == Push(c, Join(x, y))
  {
    if !EndsLine(c) && |x| == 1 {
      assert ([c] + x[0]) + y[0] == [c] + (x[0] + y[0]);
    }
  }

  lemma {:induction false} LinesAppend(a: string, b: string)
    ensures Lines(a + b) == Join(Lines(a), Lines(b))
  {
    if a == "" {
      assert a + b == b;
      assert "" + Lines(b)[0] == Lines(b)[0];
    } else {
      LinesAppend(a[1..], b);
      assert (a + b)[1..] == a[1..] + b;
      JoinPush(a[0], Lines(a[1..]), Lines(b));
    }
  }

  /** Appending a line and its end. */
  lemma LinesAppendLine(a: string, line: string)
    requires OneLine(line)
    ensures Lines(a + (line + "\n")) == Lines(a)[..|Lines(a)| - 1] + [LastLine(a) + line] + [""]
  {
    LinesAppend(a, line + "\n");
    LinesOfOne(line);
  }
}
