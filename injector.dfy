/** The injector: its options, their validation, the raw (text) splice, the
    code-mode splice of whole lines, and the exported entry point. */
module Injector {
  import opened Text
  import opened Errors
  import opened NewLine
  import opened Indent
  import opened Lines

  datatype Option<T> = None | Some(value: T)

  /** The `between` option: the tags that open and close the region. */
  datatype Between = Between(starttag: string, endtag: string)

  /** The options once the defaults (`contentType: 'code'`,
      `newLine: 'auto'`) are merged in. A string option the caller left out
      is `""`: the injector only ever tests them for truthiness, and both are
      falsy. `between` is an object, truthy whatever its tags are. */
  datatype Options = Options(
    into: string,
    intoStr: string,
    between: Option<Between>,
    before: string,
    after: string,
    contentType: string,
    newLine: string)

  /** The validation of the exported function: a destination is given, a
      `between` has both tags, and one of `between`, `before`, `after` is set. */
  predicate ValidArguments(opts: Options) {
    !((opts.into == "" && opts.intoStr == "") ||
      (opts.between.Some? && (opts.between.value.starttag == "" || opts.between.value.endtag == "")) ||
      (opts.between.None? && opts.before == "" && opts.after == ""))
  }

  /** Raw mode, as written: `between` splices the content between the end of
      the start tag and the start of the end tag; the `before` and `after`
      branches read `opts.between.before` / `opts.between.after` while
      `opts.between` is unset, and fail. */
  function RawInject(content: string, dest: string, opts: Options): (r: Result<string>)
    requires ValidArguments(opts)
    ensures opts.between.None? <==> r == Err(BetweenUndefined)
    ensures opts.between.Some? ==>
      r == RawBetween(content, dest, opts.between.value.starttag, opts.between.value.endtag)
  {
    if opts.between.Some? then
      RawBetween(content, dest, opts.between.value.starttag, opts.between.value.endtag)
    else
      Err(BetweenUndefined)
  }

  /** The raw `between` splice: `dest.slice(0, dest.indexOf(starttag) +
      starttag.length) + content + dest.slice(dest.indexOf(endtag))`. It never
      fails: a missing tag turns into index -1 and `slice` resolves it. */
  function RawBetween(content: string, dest: string, starttag: string, endtag: string): (r: Result<string>)
    requires starttag != []
    ensures r.Ok?
    ensures var ks, ke := IndexOf(dest, starttag), IndexOf(dest, endtag);
      ks >= 0 && ke >= 0 ==> r.value == dest[..ks + |starttag|] + content + dest[ke..]
    ensures IndexOf(dest, endtag) < 0 && dest != [] ==>
      |r.value| >= 1 && r.value[|r.value| - 1] == dest[|dest| - 1]
  {
    Ok(Slice(dest, 0, IndexOf(dest, starttag) + |starttag|) + content + SliceFrom(dest, IndexOf(dest, endtag)))
  }

  /** Raw mode with the `before` and `after` branches using the tag they
      matched, as intended: the content goes in just before the tag, or just
      after it. */
  function RawInjectFixed(content: string, dest: string, opts: Options): (r: Result<string>)
    requires ValidArguments(opts)
    ensures r.Ok?
    ensures opts.between.Some? ==> r == RawInject(content, dest, opts)
    ensures opts.between.None? && opts.before != "" && IndexOf(dest, opts.before) >= 0 ==>
      var k := IndexOf(dest, opts.before);
      r.value == dest[..k] + content + dest[k..] && dest[k..k + |opts.before|] == opts.before
    ensures opts.between.None? && opts.before == "" && IndexOf(dest, opts.after) >= 0 ==>
      var k := IndexOf(dest, opts.after) + |opts.after|;
      r.value == dest[..k] + content + dest[k..] && dest[k - |opts.after|..k] == opts.after
  {
    if opts.between.Some? then
      RawBetween(content, dest, opts.between.value.starttag, opts.between.value.endtag)
    else if opts.before != "" then
      Ok(Slice(dest, 0, IndexOf(dest, opts.before)) + content + SliceFrom(dest, IndexOf(dest, opts.before)))
    else
      Ok(Slice(dest, 0, IndexOf(dest, opts.after) + |opts.after|) + content +
         SliceFrom(dest, IndexOf(dest, opts.after) + |opts.after|))
  }

  /** As written, raw `before` and `after` fail on every input, even when the
      tag is in the destination, where the intended splice succeeds. */
  lemma RawSingleTagFails(content: string, dest: string, opts: Options)
    requires ValidArguments(opts) && opts.between.None?
    ensures RawInject(content, dest, opts) == Err(BetweenUndefined)
    ensures RawInjectFixed(content, dest, opts).Ok?
  {
  }

  /** A text rewritten to the newline `nl` and split into lines at `nl`. */
  function NormalisedLines(text: string, nl: string): (lines: seq<string>)
    requires nl == LF || nl == CRLF
    ensures |lines| >= 1 && LinesWithoutLf(lines)
  {
    NormalisedLinesWithoutLf(nl, text);
    Split(ReplaceNewLineChars(nl, text), nl)
  }

  /** The tag a `before`/`after` injection anchors on: `opts.before || opts.after`. */
  function SingleTag(opts: Options): (tag: string)
    ensures tag == opts.before || tag == opts.after
    ensures opts.before != "" ==> tag == opts.before
    ensures tag != "" <==> opts.before != "" || opts.after != ""
  {
    if opts.before != "" then opts.before else opts.after
  }

  /** Code mode, up to the final join: the destination's lines after the
      splice. Destination and content are each rewritten to the newline
      resolved from their own text and split at it. */
  function CodeLines(content: string, dest: string, opts: Options): (r: Result<seq<string>>)
    requires ValidArguments(opts)
    ensures r.Ok? ==> |r.value| >= 1 && LinesWithoutLf(r.value)
    ensures r.Err? ==> r.error == (if opts.between.Some? then TagsNotFound else TagNotFound)
    ensures var d := NormalisedLines(dest, GetNewLineChar(opts.newLine, dest));
      r.Err? <==>
        if opts.between.Some? then
          FindLine(d, opts.between.value.starttag) < 0 || FindLine(d, opts.between.value.endtag) < 0
        else
          FindLine(d, SingleTag(opts)) < 0
    ensures var d, c := NormalisedLines(dest, GetNewLineChar(opts.newLine, dest)),
        NormalisedLines(content, GetNewLineChar(opts.newLine, content));
      r == if opts.between.Some? then
          SpliceBetween(d, c, opts.between.value.starttag, opts.between.value.endtag)
        else
          SpliceSingle(d, c, SingleTag(opts), opts.before != "")
  {
    var destLines := NormalisedLines(dest, GetNewLineChar(opts.newLine, dest));
    var contentLines := NormalisedLines(content, GetNewLineChar(opts.newLine, content));
    var r :=
      if opts.between.Some? then
        SpliceBetween(destLines, contentLines, opts.between.value.starttag, opts.between.value.endtag)
      else
        SpliceSingle(destLines, contentLines, SingleTag(opts), opts.before != "");
    SplicedLinesWithoutLf(destLines, contentLines, r, opts);
    r
  }

  /** Slices of lines without `'\n'` have none either. */
  lemma SlicesWithoutLf(d: seq<string>, i: nat)
    requires i <= |d| && LinesWithoutLf(d)
    ensures LinesWithoutLf(d[..i]) && LinesWithoutLf(d[i..])
  {
    forall j | 0 <= j < |d| - i
      ensures d[i..][j] == d[i + j]
    {
    }
  }

  /** Concatenations of lines without `'\n'` have none either. */
  lemma ConcatWithoutLf(a: seq<string>, b: seq<string>, e: seq<string>)
    requires LinesWithoutLf(a) && LinesWithoutLf(b) && LinesWithoutLf(e)
    ensures LinesWithoutLf(a + b + e)
  {
    forall j | 0 <= j < |a + b + e|
      ensures '\n' !in (a + b + e)[j]
    {
      if j < |a| {
        assert (a + b + e)[j] == a[j];
      } else if j < |a| + |b| {
        assert (a + b + e)[j] == b[j - |a|];
      } else {
        assert (a + b + e)[j] == e[j - |a| - |b|];
      }
    }
  }

  /** Every line of a splice result comes from the destination or is a
      reindented content line, so none holds a `'\n'`. */
  lemma SplicedLinesWithoutLf(d: seq<string>, c: seq<string>, r: Result<seq<string>>, opts: Options)
    requires ValidArguments(opts) && |d| >= 1 && LinesWithoutLf(d) && LinesWithoutLf(c)
    requires r == if opts.between.Some? then
        SpliceBetween(d, c, opts.between.value.starttag, opts.between.value.endtag)
      else
        SpliceSingle(d, c, SingleTag(opts), opts.before != "")
    ensures r.Ok? ==> |r.value| >= 1 && LinesWithoutLf(r.value)
  {
    if r.Ok? {
      var tag := if opts.between.Some? then opts.between.value.starttag else SingleTag(opts);
      var t := FindLine(d, tag);
      var body := Reindent(IndentWidth(d[t], tag), c);
      assert LinesWithoutLf(body);
      if opts.between.Some? {
        var e := FindLine(d, opts.between.value.endtag);
        var k := if t < e then e else t + 1;
        SlicesWithoutLf(d, t + 1);
        SlicesWithoutLf(d, k);
        ConcatWithoutLf(d[..t + 1], body, d[k..]);
      } else {
        var k := if opts.before != "" then t else t + 1;
        SlicesWithoutLf(d, k);
        ConcatWithoutLf(d[..k], body, d[k..]);
      }
    }
  }

  /** Lines without `'\n'`, joined with either newline, split back into
      themselves; joined with `"\r\n"` they use `"\r\n"` only. */
  lemma JoinedLines(lines: seq<string>, nl: string)
    requires |lines| >= 1 && LinesWithoutLf(lines) && (nl == LF || nl == CRLF)
    ensures Split(Join(lines, nl), nl) == lines
    ensures nl == CRLF ==> EveryLfAfterCr(Join(lines, nl))
  {
    SplitJoin(lines, nl);
    if nl == CRLF {
      JoinCrlfOnly(lines);
    }
  }

  /** `injectIntoString`, as a value: code mode joins the spliced lines with
      the destination's newline; any other content type is the raw splice. */
  function InjectedText(content: string, dest: string, opts: Options): (r: Result<string>)
    requires ValidArguments(opts)
    ensures r.Err? ==> r.error != InvalidArguments
    ensures opts.contentType == "code" ==>
      var nl := GetNewLineChar(opts.newLine, dest);
      var lines := CodeLines(content, dest, opts);
      (lines.Err? ==> r == Err(lines.error)) && (lines.Ok? ==> r.Ok?) &&
      (r.Ok? ==> Split(r.value, nl) == lines.value) &&
      (r.Ok? && nl == CRLF ==> EveryLfAfterCr(r.value))
    ensures opts.contentType != "code" ==> r == RawInjectFixed(content, dest, opts)
  {
    if opts.contentType == "code" then
      var nl := GetNewLineChar(opts.newLine, dest);
      match CodeLines(content, dest, opts)
      case Ok(lines) =>
        JoinedLines(lines, nl);
        Ok(Join(lines, nl))
      case Err(e) => Err(e)
    else
      RawInjectFixed(content, dest, opts)
  }

  /** When both `before` and `after` are set, `after` is ignored, in code
      mode and in raw mode alike. */
  lemma BeforeTakesPrecedence(content: string, dest: string, opts: Options)
    requires ValidArguments(opts) && opts.between.None? && opts.before != ""
    ensures InjectedText(content, dest, opts) == InjectedText(content, dest, opts.(after := ""))
  {
  }

  /** `injectIntoString`, step by step: the normalised texts replace the
      inputs, the destination's line sequence is reassigned with `Splice`,
      and the lines are joined again. */
  method InjectIntoString(content: string, dest: string, opts: Options) returns (r: Result<string>)
    requires ValidArguments(opts)
    ensures r == InjectedText(content, dest, opts)
  {
    if opts.contentType == "code" {
      var newLineCharDest := GetNewLineChar(opts.newLine, dest);
      var newLineCharContent := GetNewLineChar(opts.newLine, content);
      var destText := ReplaceNewLineChars(newLineCharDest, dest);
      var contentText := ReplaceNewLineChars(newLineCharContent, content);
      var destLines := Split(destText, newLineCharDest);
      var contentLines := Split(contentText, newLineCharContent);
      assert destLines == NormalisedLines(dest, newLineCharDest);
      assert contentLines == NormalisedLines(content, newLineCharContent);
      ghost var spliced: Result<seq<string>>;
      if opts.between.Some? {
        var starttag, endtag := opts.between.value.starttag, opts.between.value.endtag;
        spliced := SpliceBetween(destLines, contentLines, starttag, endtag);
        var startLineIdx := FindLine(destLines, starttag);
        var endLineIdx := FindLine(destLines, endtag);
        if startLineIdx < 0 || endLineIdx < 0 {
          assert CodeLines(content, dest, opts) == Err(TagsNotFound);
          return Err(TagsNotFound);
        }
        var indentNb := GetIndentation(destLines[startLineIdx], starttag);
        destLines := Splice(destLines, startLineIdx + 1, endLineIdx - startLineIdx - 1,
                            Reindent(indentNb, contentLines));
      } else {
        var tag := if opts.before != "" then opts.before else opts.after;
        spliced := SpliceSingle(destLines, contentLines, tag, opts.before != "");
        var tagLineIdx := FindLine(destLines, tag);
        if tagLineIdx < 0 {
          assert CodeLines(content, dest, opts) == Err(TagNotFound);
          return Err(TagNotFound);
        }
        var indentNb := GetIndentation(destLines[tagLineIdx], tag);
        if opts.before != "" {
          destLines := Splice(destLines, tagLineIdx, 0, Reindent(indentNb, contentLines));
        } else if opts.after != "" {
          destLines := Splice(destLines, tagLineIdx + 1, 0, Reindent(indentNb, contentLines));
        }
      }
      assert spliced == Ok(destLines);
      assert CodeLines(content, dest, opts) == Ok(destLines);
      r := Ok(Join(destLines, newLineCharDest));
    } else {
      r := RawInjectFixed(content, dest, opts);
    }
  }

  /** What a successful call does: write the text back to the `into` file,
      or return it. */
  datatype Effect = WriteFile(path: string, text: string) | Returned(text: string)

  /** The exported function, sync or async alike (an error is thrown, or the
      promise rejects with it). `fileText` is what reading `opts.into` gives. */
  function Inject(content: string, opts: Options, fileText: string): (r: Result<Effect>)
    ensures r == Err(InvalidArguments) <==> !ValidArguments(opts)
    ensures opts.into == "" && opts.intoStr == "" ==> r == Err(InvalidArguments)
    ensures opts.between.Some? && opts.between.value.starttag == "" ==> r == Err(InvalidArguments)
    ensures opts.between.Some? && opts.between.value.endtag == "" ==> r == Err(InvalidArguments)
    ensures opts.between.None? && opts.before == "" && opts.after == "" ==> r == Err(InvalidArguments)
    ensures r.Ok? && opts.into != "" ==> r.value.WriteFile? && r.value.path == opts.into
    ensures r.Ok? && opts.into == "" ==> r.value.Returned?
    ensures ValidArguments(opts) ==>
      var t := InjectedText(content, if opts.into != "" then fileText else opts.intoStr, opts);
      (t.Err? ==> r == Err(t.error)) && (t.Ok? ==> r.Ok? && r.value.text == t.value)
  {
    if !ValidArguments(opts) then Err(InvalidArguments)
    else if opts.into != "" then
      match InjectedText(content, fileText, opts)
      case Ok(text) => Ok(WriteFile(opts.into, text))
      case Err(e) => Err(e)
    else
      match InjectedText(content, opts.intoStr, opts)
      case Ok(text) => Ok(Returned(text))
      case Err(e) => Err(e)
  }
}
