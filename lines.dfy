/** The line-level part of code-mode injection: finding the tag lines and
    splicing reindented content lines into the destination's lines. */
module Lines {
  import opened Text
  import opened Errors
  import opened Indent

  /** `findIndex(lines, line => line.indexOf(tag) >= 0)`: the first line
      holding `tag`, or -1. */
  function FindLine(lines: seq<string>, tag: string): (i: int)
    ensures -1 <= i < |lines|
    ensures i >= 0 ==> Contains(lines[i], tag)
    ensures forall j :: 0 <= j < |lines| && Contains(lines[j], tag) ==> 0 <= i <= j
  {
    if lines == [] then -1
    else if Contains(lines[0], tag) then 0
    else
      var k := FindLine(lines[1..], tag);
      if k < 0 then -1 else k + 1
  }

  /** A tag is missing exactly when no line holds it. */
  lemma FindLineMissing(lines: seq<string>, tag: string)
    ensures FindLine(lines, tag) < 0 <==> forall i :: 0 <= i < |lines| ==> !Contains(lines[i], tag)
  {
  }

  /** The number of elements `splice` removes: `deleteCount` clamped to
      what lies between `start` and the end. */
  function DeleteCount(len: nat, start: nat, deleteCount: int): (n: nat)
    requires start <= len
    ensures n <= len - start
    ensures 0 <= deleteCount <= len - start ==> n == deleteCount
    ensures deleteCount < 0 ==> n == 0
    ensures deleteCount > len - start ==> n == len - start
  {
    if deleteCount < 0 then 0
    else if deleteCount > len - start then len - start
    else deleteCount
  }

  /** The array `a.splice(start, deleteCount, ...items)` leaves behind. */
  function Splice<T>(a: seq<T>, start: int, deleteCount: int, items: seq<T>): (r: seq<T>)
    ensures var s := RelativeIndex(start, |a|);
      var n := DeleteCount(|a|, s, deleteCount);
      |r| == |a| - n + |items| &&
      r[..s] == a[..s] && r[s..s + |items|] == items && r[s + |items|..] == a[s + n..]
  {
    var s := RelativeIndex(start, |a|);
    a[..s] + items + a[s + DeleteCount(|a|, s, deleteCount)..]
  }

  /** Code mode with `between`: the lines strictly between the first line
      holding `starttag` and the first line holding `endtag` are replaced by
      the content lines, reindented to the start tag's indentation. When the
      end tag's line is not after the start tag's, `splice` gets a negative
      count and nothing is removed. */
  function SpliceBetween(d: seq<string>, c: seq<string>, starttag: string, endtag: string)
    : (r: Result<seq<string>>)
    ensures r.Err? <==> FindLine(d, starttag) < 0 || FindLine(d, endtag) < 0
    ensures r.Err? ==> r.error == TagsNotFound
    ensures r.Ok? ==>
      var s, e := FindLine(d, starttag), FindLine(d, endtag);
      var body := Reindent(IndentWidth(d[s], starttag), c);
      (s < e ==> r.value == d[..s + 1] + body + d[e..] &&
                 |r.value| == |d| - (e - s - 1) + |c| &&
                 r.value[s] == d[s] && r.value[s + 1 + |c|] == d[e]) &&
      (e <= s ==> r.value == d[..s + 1] + body + d[s + 1..] &&
                  |r.value| == |d| + |c|)
  {
    var startLineIdx := FindLine(d, starttag);
    var endLineIdx := FindLine(d, endtag);
    if startLineIdx < 0 || endLineIdx < 0 then Err(TagsNotFound)
    else
      var indentNb := IndentWidth(d[startLineIdx], starttag);
      Ok(Splice(d, startLineIdx + 1, endLineIdx - startLineIdx - 1, Reindent(indentNb, c)))
  }

  /** Code mode with `before` or `after`: the reindented content lines go in
      just before, or just after, the first line holding `tag`; no line of
      the destination is removed. */
  function SpliceSingle(d: seq<string>, c: seq<string>, tag: string, before: bool)
    : (r: Result<seq<string>>)
    ensures r.Err? <==> FindLine(d, tag) < 0
    ensures r.Err? ==> r.error == TagNotFound
    ensures r.Ok? ==>
      var t := FindLine(d, tag);
      var body := Reindent(IndentWidth(d[t], tag), c);
      |r.value| == |d| + |c| &&
      (before ==> r.value == d[..t] + body + d[t..]) &&
      (!before ==> r.value == d[..t + 1] + body + d[t + 1..])
  {
    var tagLineIdx := FindLine(d, tag);
    if tagLineIdx < 0 then Err(TagNotFound)
    else
      var indentNb := IndentWidth(d[tagLineIdx], tag);
      var body := Reindent(indentNb, c);
      if before then Ok(Splice(d, tagLineIdx, 0, body))
      else Ok(Splice(d, tagLineIdx + 1, 0, body))
  }

  /** After an `after` injection the tag is still first found on the same
      line, and the next line is the first reindented content line. */
  lemma AfterKeepsTagLine(d: seq<string>, c: seq<string>, tag: string)
    requires SpliceSingle(d, c, tag, false).Ok? && |c| >= 1
    ensures var t, r := FindLine(d, tag), SpliceSingle(d, c, tag, false).value;
      FindLine(r, tag) == t && r[t] == d[t] &&
      r[t + 1] == Spaces(IndentWidth(d[t], tag)) + c[0]
  {
    var t, r := FindLine(d, tag), SpliceSingle(d, c, tag, false).value;
    assert r[..t + 1] == d[..t + 1];
    assert forall j :: 0 <= j <= t ==> r[j] == d[j];
  }

  /** Prefixing spaces cannot create an occurrence of a tag that does not
      start with a space. */
  lemma IndentedContains(n: nat, line: string, tag: string)
    requires tag != [] && tag[0] != ' ' && !Contains(line, tag)
    ensures !Contains(Spaces(n) + line, tag)
  {
    var s := Spaces(n) + line;
    var j := IndexOf(s, tag);
    if j >= 0 {
      assert s[j] == tag[0];
      assert j >= n;
      assert s[n..] == line;
      assert s[j..j + |tag|] == s[n..][j - n..j - n + |tag|];
      assert s[j..j + |tag|] == line[j - n..j - n + |tag|];
      assert OccursAt(line, tag, j - n);
    }
  }

  /** The first line holding `tag` is `i` when line `i` holds it and no
      earlier line does. */
  lemma FindLineAt(lines: seq<string>, tag: string, i: int)
    requires 0 <= i < |lines| && Contains(lines[i], tag)
    requires forall j :: 0 <= j < i ==> !Contains(lines[j], tag)
    ensures FindLine(lines, tag) == i
  {
  }

  /** No reindented content line holds a tag that the content lacks and
      that does not start with a space. */
  lemma ReindentLacks(n: nat, c: seq<string>, tag: string)
    requires tag != [] && tag[0] != ' '
    requires forall i :: 0 <= i < |c| ==> !Contains(c[i], tag)
    ensures forall i :: 0 <= i < |c| ==> !Contains(Reindent(n, c)[i], tag)
  {
    forall i | 0 <= i < |c|
      ensures !Contains(Reindent(n, c)[i], tag)
    {
      IndentedContains(n, c[i], tag);
    }
  }

  /** In the lines a `between` injection produces, the start tag is still
      first found on its old line and the end tag right after the content,
      provided no content line holds the end tag. */
  lemma TagLinesAfterBetween(d: seq<string>, c: seq<string>, starttag: string, endtag: string, n: nat)
    requires 0 <= FindLine(d, starttag) < FindLine(d, endtag)
    requires endtag != [] && endtag[0] != ' '
    requires forall i :: 0 <= i < |c| ==> !Contains(c[i], endtag)
    ensures var s, e := FindLine(d, starttag), FindLine(d, endtag);
      var r := d[..s + 1] + Reindent(n, c) + d[e..];
      FindLine(r, starttag) == s && FindLine(r, endtag) == s + 1 + |c| &&
      r[s] == d[s] && r[..s + 1] == d[..s + 1] && r[s + 1 + |c|..] == d[e..]
  {
    var s, e := FindLine(d, starttag), FindLine(d, endtag);
    var r := d[..s + 1] + Reindent(n, c) + d[e..];
    var body := Reindent(n, c);
    var e' := s + 1 + |c|;
    assert r[..s + 1] == d[..s + 1];
    assert r[s + 1..e'] == body;
    assert r[e'..] == d[e..];
    ReindentLacks(n, c, endtag);
    forall j | 0 <= j <= s
      ensures !Contains(r[j], endtag) && (j < s ==> !Contains(r[j], starttag))
    {
      assert r[j] == r[..s + 1][j];
    }
    forall j | s < j < e'
      ensures !Contains(r[j], endtag)
    {
      assert r[j] == r[s + 1..e'][j - s - 1];
    }
    assert r[e'] == r[e'..][0];
    FindLineAt(r, starttag, s);
    FindLineAt(r, endtag, e');
  }

  /** Injecting the same content between the same tags a second time leaves
      the result unchanged: the whole region is replaced, not appended to. */
  lemma BetweenIdempotent(d: seq<string>, c: seq<string>, starttag: string, endtag: string)
    requires 0 <= FindLine(d, starttag) < FindLine(d, endtag)
    requires endtag != [] && endtag[0] != ' '
    requires forall i :: 0 <= i < |c| ==> !Contains(c[i], endtag)
    ensures SpliceBetween(d, c, starttag, endtag).Ok?
    ensures var r := SpliceBetween(d, c, starttag, endtag).value;
      SpliceBetween(r, c, starttag, endtag) == Ok(r)
  {
    var s, e := FindLine(d, starttag), FindLine(d, endtag);
    var n := IndentWidth(d[s], starttag);
    var r := d[..s + 1] + Reindent(n, c) + d[e..];
    assert SpliceBetween(d, c, starttag, endtag) == Ok(r);
    TagLinesAfterBetween(d, c, starttag, endtag, n);
    assert SpliceBetween(r, c, starttag, endtag) == Ok(r[..s + 1] + Reindent(n, c) + r[s + 1 + |c|..]);
  }
}
