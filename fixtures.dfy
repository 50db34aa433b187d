/** The string fixtures of the injector's test suite, as facts about the model. */
module Fixtures {
  import opened Text
  import opened Errors
  import opened NewLine
  import opened Indent
  import opened Lines
  import opened Injector

  const Content: string := "a: {\n  a: '1'\n}"
  const DestBetween: string := "module.exports = {\n  // injector:start\n  // endinjector\n};"
  const DestOneTag: string := "module.exports = {\n  // injector\n};"

  const BetweenResult: string := "module.exports = {\n  // injector:start\n  a: {\n    a: '1'\n  }\n  // endinjector\n};"
  const BeforeResult: string := "module.exports = {\n  a: {\n    a: '1'\n  }\n  // injector\n};"
  const AfterResult: string := "module.exports = {\n  // injector\n  a: {\n    a: '1'\n  }\n};"

  const StartTag: string := "// injector:start"
  const EndTag: string := "// endinjector"
  const Tag: string := "// injector"

  /** The same texts as lines. */
  const ContentLines: seq<string> := ["a: {", "  a: '1'", "}"]
  const IndentedContentLines: seq<string> := ["  a: {", "    a: '1'", "  }"]
  const DestBetweenLines: seq<string> := ["module.exports = {", "  // injector:start", "  // endinjector", "};"]
  const DestOneTagLines: seq<string> := ["module.exports = {", "  // injector", "};"]
  const BetweenLines: seq<string> :=
    ["module.exports = {", "  // injector:start", "  a: {", "    a: '1'", "  }", "  // endinjector", "};"]
  const BeforeLines: seq<string> :=
    ["module.exports = {", "  a: {", "    a: '1'", "  }", "  // injector", "};"]
  const AfterLines: seq<string> :=
    ["module.exports = {", "  // injector", "  a: {", "    a: '1'", "  }", "};"]

  /** The options of a string-destination test, with the defaults merged in. */
  function Opts(intoStr: string, between: Option<Between>, before: string, after: string): Options {
    Options("", intoStr, between, before, after, "code", "auto")
  }

  /** Lines free of both `'\r'` and `'\n'`. */
  predicate Plain(lines: seq<string>) {
    forall i :: 0 <= i < |lines| ==> '\r' !in lines[i] && '\n' !in lines[i]
  }

  /** A character missing from every line and from the separator is missing
      from the joined text. */
  lemma {:induction false} JoinWithout(c: char, lines: seq<string>, sep: string)
    requires c !in sep && forall i :: 0 <= i < |lines| ==> c !in lines[i]
    ensures c !in Join(lines, sep)
    decreases |lines|
  {
    if |lines| > 1 {
      JoinWithout(c, lines[1..], sep);
      assert c !in lines[0];
    } else if |lines| == 1 {
      assert c !in lines[0];
    }
  }

  /** A text without `'\r'` uses `"\n"` under `"auto"`, and its `"\n"`
      rewrite is itself; split at `"\n"` it gives back the lines it joins. */
  lemma LfText(lines: seq<string>, text: string)
    requires |lines| >= 1 && text == Join(lines, LF) && Plain(lines)
    ensures GetNewLineChar("auto", text) == LF
    ensures NormalisedLines(text, LF) == lines
  {
    JoinWithout('\r', lines, LF);
    ReplaceLf(text);
    SplitJoin(lines, LF);
  }

  /** Joining a short list of lines, written out. */
  lemma Join2(a: string, b: string, sep: string)
    ensures Join([a, b], sep) == a + sep + b
  {
    assert [a, b][1..] == [b];
  }

  lemma Join3(a: string, b: string, c: string, sep: string)
    ensures Join([a, b, c], sep) == a + sep + b + sep + c
  {
    assert [a, b, c][1..] == [b, c];
    Join2(b, c, sep);
    assert a + sep + (b + sep + c) == a + sep + b + sep + c;
  }

  lemma Join4(a: string, b: string, c: string, d: string, sep: string)
    ensures Join([a, b, c, d], sep) == a + sep + b + sep + c + sep + d
  {
    assert [a, b, c, d][1..] == [b, c, d];
    Join3(b, c, d, sep);
    assert a + sep + (b + sep + c + sep + d) == a + sep + b + sep + c + sep + d;
  }

  lemma Join6(a: string, b: string, c: string, d: string, e: string, f: string, sep: string)
    ensures Join([a, b, c, d, e, f], sep) == a + sep + b + sep + c + sep + d + sep + e + sep + f
  {
    assert [a, b, c, d, e, f][1..] == [b, c, d, e, f];
    assert [b, c, d, e, f][1..] == [c, d, e, f];
    Join4(c, d, e, f, sep);
    var t := c + sep + d + sep + e + sep + f;
    assert a + sep + (b + sep + t) == a + sep + b + sep + t;
    assert a + sep + b + sep + t == a + sep + b + sep + c + sep + d + sep + e + sep + f;
  }

  lemma Join7(a: string, b: string, c: string, d: string, e: string, f: string, g: string, sep: string)
    ensures Join([a, b, c, d, e, f, g], sep) == a + sep + b + sep + c + sep + d + sep + e + sep + f + sep + g
  {
    assert [a, b, c, d, e, f, g][1..] == [b, c, d, e, f, g];
    Join6(b, c, d, e, f, g, sep);
    var t := b + sep + c + sep + d + sep + e + sep + f + sep + g;
    assert a + sep + t == a + sep + b + sep + c + sep + d + sep + e + sep + f + sep + g;
  }

  /** A line lacking some character of `t` does not contain `t`. */
  lemma LacksChar(s: string, t: string, c: char)
    requires c in t && c !in s
    ensures !Contains(s, t)
  {
  }

  lemma ContentJoined1() ensures "a: {" + LF + "  a: '1'" == "a: {\n  a: '1'" {}
  lemma ContentJoined2() ensures "a: {\n  a: '1'" + LF + "}" == Content {}

  /** The lines of `Content`, joined with `"\n"`, give `Content`. */
  lemma ContentJoin()
    ensures Join(ContentLines, LF) == Content
  {
    Join3("a: {", "  a: '1'", "}", LF);
    ContentJoined1();
    ContentJoined2();
  }

  lemma DestBetweenJoined1() ensures "module.exports = {" + LF + "  // injector:start" == "module.exports = {\n  // injector:start" {}
  lemma DestBetweenJoined2() ensures "module.exports = {\n  // injector:start" + LF + "  // endinjector" == "module.exports = {\n  // injector:start\n  // endinjector" {}
  lemma DestBetweenJoined3() ensures "module.exports = {\n  // injector:start\n  // endinjector" + LF + "};" == DestBetween {}

  /** The lines of `DestBetween`, joined with `"\n"`, give `DestBetween`. */
  lemma DestBetweenJoin()
    ensures Join(DestBetweenLines, LF) == DestBetween
  {
    Join4("module.exports = {", "  // injector:start", "  // endinjector", "};", LF);
    DestBetweenJoined1();
    DestBetweenJoined2();
    DestBetweenJoined3();
  }

  lemma DestOneTagJoined1() ensures "module.exports = {" + LF + "  // injector" == "module.exports = {\n  // injector" {}
  lemma DestOneTagJoined2() ensures "module.exports = {\n  // injector" + LF + "};" == DestOneTag {}

  /** The lines of `DestOneTag`, joined with `"\n"`, give `DestOneTag`. */
  lemma DestOneTagJoin()
    ensures Join(DestOneTagLines, LF) == DestOneTag
  {
    Join3("module.exports = {", "  // injector", "};", LF);
    DestOneTagJoined1();
    DestOneTagJoined2();
  }

  lemma BetweenJoined1() ensures "module.exports = {" + LF + "  // injector:start" == "module.exports = {\n  // injector:start" {}
  lemma BetweenJoined2() ensures "module.exports = {\n  // injector:start" + LF + "  a: {" == "module.exports = {\n  // injector:start\n  a: {" {}
  lemma BetweenJoined3() ensures "module.exports = {\n  // injector:start\n  a: {" + LF + "    a: '1'" == "module.exports = {\n  // injector:start\n  a: {\n    a: '1'" {}
  lemma BetweenJoined4() ensures "module.exports = {\n  // injector:start\n  a: {\n    a: '1'" + LF + "  }" == "module.exports = {\n  // injector:start\n  a: {\n    a: '1'\n  }" {}
  lemma BetweenJoined5() ensures "module.exports = {\n  // injector:start\n  a: {\n    a: '1'\n  }" + LF + "  // endinjector" == "module.exports = {\n  // injector:start\n  a: {\n    a: '1'\n  }\n  // endinjector" {}
  lemma BetweenJoined6() ensures "module.exports = {\n  // injector:start\n  a: {\n    a: '1'\n  }\n  // endinjector" + LF + "};" == BetweenResult {}

  /** The lines of `BetweenResult`, joined with `"\n"`, give `BetweenResult`. */
  lemma BetweenJoin()
    ensures Join(BetweenLines, LF) == BetweenResult
  {
    Join7("module.exports = {", "  // injector:start", "  a: {", "    a: '1'", "  }", "  // endinjector", "};", LF);
    BetweenJoined1();
    BetweenJoined2();
    BetweenJoined3();
    BetweenJoined4();
    BetweenJoined5();
    BetweenJoined6();
  }

  lemma BeforeJoined1() ensures "module.exports = {" + LF + "  a: {" == "module.exports = {\n  a: {" {}
  lemma BeforeJoined2() ensures "module.exports = {\n  a: {" + LF + "    a: '1'" == "module.exports = {\n  a: {\n    a: '1'" {}
  lemma BeforeJoined3() ensures "module.exports = {\n  a: {\n    a: '1'" + LF + "  }" == "module.exports = {\n  a: {\n    a: '1'\n  }" {}
  lemma BeforeJoined4() ensures "module.exports = {\n  a: {\n    a: '1'\n  }" + LF + "  // injector" == "module.exports = {\n  a: {\n    a: '1'\n  }\n  // injector" {}
  lemma BeforeJoined5() ensures "module.exports = {\n  a: {\n    a: '1'\n  }\n  // injector" + LF + "};" == BeforeResult {}

  /** The lines of `BeforeResult`, joined with `"\n"`, give `BeforeResult`. */
  lemma BeforeJoin()
    ensures Join(BeforeLines, LF) == BeforeResult
  {
    Join6("module.exports = {", "  a: {", "    a: '1'", "  }", "  // injector", "};", LF);
    BeforeJoined1();
    BeforeJoined2();
    BeforeJoined3();
    BeforeJoined4();
    BeforeJoined5();
  }

  lemma AfterJoined1() ensures "module.exports = {" + LF + "  // injector" == "module.exports = {\n  // injector" {}
  lemma AfterJoined2() ensures "module.exports = {\n  // injector" + LF + "  a: {" == "module.exports = {\n  // injector\n  a: {" {}
  lemma AfterJoined3() ensures "module.exports = {\n  // injector\n  a: {" + LF + "    a: '1'" == "module.exports = {\n  // injector\n  a: {\n    a: '1'" {}
  lemma AfterJoined4() ensures "module.exports = {\n  // injector\n  a: {\n    a: '1'" + LF + "  }" == "module.exports = {\n  // injector\n  a: {\n    a: '1'\n  }" {}
  lemma AfterJoined5() ensures "module.exports = {\n  // injector\n  a: {\n    a: '1'\n  }" + LF + "};" == AfterResult {}

  /** The lines of `AfterResult`, joined with `"\n"`, give `AfterResult`. */
  lemma AfterJoin()
    ensures Join(AfterLines, LF) == AfterResult
  {
    Join6("module.exports = {", "  // injector", "  a: {", "    a: '1'", "  }", "};", LF);
    AfterJoined1();
    AfterJoined2();
    AfterJoined3();
    AfterJoined4();
    AfterJoined5();
  }

  lemma ContentPlain() ensures Plain(ContentLines) {}
  lemma DestBetweenPlain() ensures Plain(DestBetweenLines) {}
  lemma DestOneTagPlain() ensures Plain(DestOneTagLines) {}

  lemma ContentText()
    ensures GetNewLineChar("auto", Content) == LF
    ensures NormalisedLines(Content, LF) == ContentLines
  {
    ContentJoin();
    ContentPlain();
    LfText(ContentLines, Content);
  }

  lemma DestBetweenText()
    ensures GetNewLineChar("auto", DestBetween) == LF
    ensures NormalisedLines(DestBetween, LF) == DestBetweenLines
  {
    DestBetweenJoin();
    DestBetweenPlain();
    LfText(DestBetweenLines, DestBetween);
  }

  lemma DestOneTagText()
    ensures GetNewLineChar("auto", DestOneTag) == LF
    ensures NormalisedLines(DestOneTag, LF) == DestOneTagLines
  {
    DestOneTagJoin();
    DestOneTagPlain();
    LfText(DestOneTagLines, DestOneTag);
  }

  lemma TwoSpaces() ensures Spaces(2) == "  " {}

  lemma StartTagLine()
    ensures Contains(DestBetweenLines[1], StartTag)
    ensures IndentWidth(DestBetweenLines[1], StartTag) == 2
  {
    TwoSpaces();
    assert DestBetweenLines[1] == Spaces(2) + StartTag + "";
    SpacedTag(2, StartTag, "");
  }

  lemma EndTagLine()
    ensures Contains(DestBetweenLines[2], EndTag)
  {
    TwoSpaces();
    assert DestBetweenLines[2] == Spaces(2) + EndTag + "";
    SpacedTag(2, EndTag, "");
  }

  lemma StartTagNotOnFirstLine()
    ensures !Contains(DestBetweenLines[0], StartTag)
  {
    LacksChar(DestBetweenLines[0], StartTag, '/');
  }

  lemma StartTagFound()
    ensures FindLine(DestBetweenLines, StartTag) == 1
  {
    StartTagLine();
    StartTagNotOnFirstLine();
    assert FindLine(DestBetweenLines[1..], StartTag) == 0;
  }

  lemma EndTagNotOnFirstLine()
    ensures !Contains(DestBetweenLines[0], EndTag)
  {
    LacksChar(DestBetweenLines[0], EndTag, '/');
  }

  lemma EndTagNotOnStartLine()
    ensures !Contains(DestBetweenLines[1], EndTag)
  {
    LacksChar(DestBetweenLines[1], EndTag, 'd');
  }

  lemma EndTagFound()
    ensures FindLine(DestBetweenLines, EndTag) == 2
  {
    var d := DestBetweenLines;
    EndTagLine();
    EndTagNotOnFirstLine();
    EndTagNotOnStartLine();
    assert FindLine(d[2..], EndTag) == 0;
    assert FindLine(d[1..], EndTag) == 1 by { assert d[1..][1..] == d[2..]; }
  }

  lemma BetweenTagLines()
    ensures FindLine(DestBetweenLines, StartTag) == 1
    ensures FindLine(DestBetweenLines, EndTag) == 2
    ensures IndentWidth(DestBetweenLines[1], StartTag) == 2
  {
    StartTagLine();
    StartTagFound();
    EndTagFound();
  }

  lemma TagLine()
    ensures Contains(DestOneTagLines[1], Tag)
    ensures IndentWidth(DestOneTagLines[1], Tag) == 2
  {
    TwoSpaces();
    assert DestOneTagLines[1] == Spaces(2) + Tag + "";
    SpacedTag(2, Tag, "");
  }

  lemma TagNotOnFirstLine()
    ensures !Contains(DestOneTagLines[0], Tag)
  {
    LacksChar(DestOneTagLines[0], Tag, '/');
  }

  lemma OneTagLine()
    ensures FindLine(DestOneTagLines, Tag) == 1
    ensures IndentWidth(DestOneTagLines[1], Tag) == 2
  {
    TagLine();
    TagNotOnFirstLine();
    assert FindLine(DestOneTagLines[1..], Tag) == 0;
  }

  lemma IndentedContent()
    ensures Reindent(2, ContentLines) == IndentedContentLines
  {
    TwoSpaces();
    var r := Reindent(2, ContentLines);
    assert r[0] == "  " + "a: {" == "  a: {";
    assert r[1] == "  " + "  a: '1'" == "    a: '1'";
    assert r[2] == "  " + "}" == "  }";
  }

  lemma BetweenLinesSpliced()
    ensures DestBetweenLines[..2] + IndentedContentLines + DestBetweenLines[2..] == BetweenLines
  {
  }

  lemma BeforeLinesSpliced()
    ensures DestOneTagLines[..1] + IndentedContentLines + DestOneTagLines[1..] == BeforeLines
  {
  }

  lemma AfterLinesSpliced()
    ensures DestOneTagLines[..2] + IndentedContentLines + DestOneTagLines[2..] == AfterLines
  {
  }

  /** The `between` test: the content lands between the tags, indented by
      the start tag's two spaces. */
  lemma BetweenExample()
    ensures Inject(Content, Opts(DestBetween, Some(Between(StartTag, EndTag)), "", ""), "") == Ok(Returned(BetweenResult))
  {
    var opts := Opts(DestBetween, Some(Between(StartTag, EndTag)), "", "");
    ContentText();
    DestBetweenText();
    BetweenTagLines();
    IndentedContent();
    BetweenLinesSpliced();
    assert CodeLines(Content, DestBetween, opts) == Ok(BetweenLines);
    BetweenJoin();
    assert InjectedText(Content, DestBetween, opts) == Ok(BetweenResult);
  }

  /** The `before` test: the content goes above the tag line. */
  lemma BeforeExample()
    ensures Inject(Content, Opts(DestOneTag, None, Tag, ""), "") == Ok(Returned(BeforeResult))
  {
    var opts := Opts(DestOneTag, None, Tag, "");
    ContentText();
    DestOneTagText();
    OneTagLine();
    IndentedContent();
    BeforeLinesSpliced();
    assert CodeLines(Content, DestOneTag, opts) == Ok(BeforeLines);
    BeforeJoin();
    assert InjectedText(Content, DestOneTag, opts) == Ok(BeforeResult);
  }

  /** The `after` test: the content goes below the tag line. */
  lemma AfterExample()
    ensures Inject(Content, Opts(DestOneTag, None, "", Tag), "") == Ok(Returned(AfterResult))
  {
    var opts := Opts(DestOneTag, None, "", Tag);
    ContentText();
    DestOneTagText();
    OneTagLine();
    IndentedContent();
    AfterLinesSpliced();
    assert CodeLines(Content, DestOneTag, opts) == Ok(AfterLines);
    AfterJoin();
    assert InjectedText(Content, DestOneTag, opts) == Ok(AfterResult);
  }
}
