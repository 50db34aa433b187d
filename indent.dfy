/** Measuring the indentation of a tag and reindenting injected lines. */
module Indent {
  import opened Text

  /** The characters counted as indentation: a space or a tab, one each. */
  predicate IsBlank(c: char) {
    c == ' ' || c == '\t'
  }

  /** The number of spaces and tabs that end `s`. */
  function TrailingBlanks(s: string): (n: nat)
    ensures n <= |s|
    ensures forall j :: |s| - n <= j < |s| ==> IsBlank(s[j])
    ensures n < |s| ==> !IsBlank(s[|s| - n - 1])
  {
    if |s| == 0 || !IsBlank(s[|s| - 1]) then 0
    else 1 + TrailingBlanks(s[..|s| - 1])
  }

  /** The indentation of `tag` in `line`: the run of spaces and tabs directly
      before its first occurrence, or 0 when `line` does not hold `tag`. */
  function IndentWidth(line: string, tag: string): (n: nat)
    ensures IndexOf(line, tag) < 0 ==> n == 0
    ensures var k := IndexOf(line, tag);
      k >= 0 ==>
        n <= k &&
        (forall j :: k - n <= j < k ==> IsBlank(line[j])) &&
        (n < k ==> !IsBlank(line[k - n - 1]))
  {
    var k := IndexOf(line, tag);
    if k < 0 then 0 else TrailingBlanks(line[..k])
  }

  /** The three facts about the run before the tag determine its length. */
  lemma IndentWidthUnique(line: string, tag: string, n: nat)
    requires var k := IndexOf(line, tag);
      k >= 0 && n <= k &&
      (forall j :: k - n <= j < k ==> IsBlank(line[j])) &&
      (n < k ==> !IsBlank(line[k - n - 1]))
    ensures n == IndentWidth(line, tag)
  {
  }

  /** A tag that follows `n` spaces, and does not itself start with a
      space, is found at offset `n` and has indentation `n`. */
  lemma SpacedTag(n: nat, tag: string, rest: string)
    requires tag != [] && tag[0] != ' '
    ensures IndexOf(Spaces(n) + tag + rest, tag) == n
    ensures IndentWidth(Spaces(n) + tag + rest, tag) == n
  {
    var line := Spaces(n) + tag + rest;
    assert line[n..n + |tag|] == tag;
    assert OccursAt(line, tag, n);
    IndentWidthUnique(line, tag, n);
  }

  /** `getIndentation`: walk back from just before the tag, counting spaces
      and tabs. */
  method GetIndentation(tagLine: string, tag: string) returns (indentNb: nat)
    ensures indentNb == IndentWidth(tagLine, tag)
  {
    var tagIdx := IndexOf(tagLine, tag);
    indentNb := 0;
    var i := tagIdx - 1;
    while i >= 0 && IsBlank(tagLine[i])
      invariant tagIdx < 0 ==> i == tagIdx - 1 && indentNb == 0
      invariant tagIdx >= 0 ==>
        -1 <= i < tagIdx && indentNb == tagIdx - 1 - i &&
        TrailingBlanks(tagLine[..tagIdx]) == indentNb + TrailingBlanks(tagLine[..i + 1])
    {
      assert tagLine[..i + 1][..i] == tagLine[..i];
      indentNb := indentNb + 1;
      i := i - 1;
    }
  }

  /** `n` spaces: `times(n, () => ' ').join('')`. */
  function Spaces(n: nat): (r: string)
    ensures |r| == n
    ensures forall i :: 0 <= i < n ==> r[i] == ' '
  {
    if n == 0 then "" else Spaces(n - 1) + " "
  }

  /** `reindent`: every line, blank lines included, prefixed with `n` spaces. */
  function Reindent(n: nat, lines: seq<string>): (r: seq<string>)
    ensures |r| == |lines|
    ensures forall i :: 0 <= i < |lines| ==> r[i] == Spaces(n) + lines[i]
  {
    if lines == [] then [] else [Spaces(n) + lines[0]] + Reindent(n, lines[1..])
  }
}
