/** Strings as the injector sees them: substring search (`indexOf`), and
    JavaScript's `split`, `join` and `slice` on strings. */
module Text {

  /** `t` occurs in `s` at offset `k`. */
  predicate OccursAt(s: string, t: string, k: int) {
    0 <= k && k + |t| <= |s| && s[k..k + |t|] == t
  }

  /** The first offset at or after `from` where `t` occurs in `s`, or -1. */
  function IndexFrom(s: string, t: string, from: nat): (k: int)
    ensures k == -1 || (from <= k && OccursAt(s, t, k))
    ensures forall j :: from <= j && OccursAt(s, t, j) ==> from <= k <= j
    decreases |s| - from
  {
    if from + |t| > |s| then -1
    else if s[from..from + |t|] == t then from
    else IndexFrom(s, t, from + 1)
  }

  /** JavaScript's `s.indexOf(t)`: the first offset where `t` occurs, or -1. */
  function IndexOf(s: string, t: string): (k: int)
    ensures k == -1 || OccursAt(s, t, k)
    ensures forall j :: OccursAt(s, t, j) ==> 0 <= k <= j
  {
    IndexFrom(s, t, 0)
  }

  /** `s.indexOf(t) >= 0`, the test the injector uses to find a tag in a line. */
  predicate Contains(s: string, t: string) {
    IndexOf(s, t) >= 0
  }

  /** A character is in `s` exactly when the one-character string is. */
  lemma ContainsChar(s: string, c: char)
    ensures Contains(s, [c]) <==> c in s
  {
    if c in s {
      var i :| 0 <= i < |s| && s[i] == c;
      assert s[i..i + 1] == [c];
      assert OccursAt(s, [c], i);
    }
    if Contains(s, [c]) {
      var k := IndexOf(s, [c]);
      assert s[k] == s[k..k + 1][0];
    }
  }

  /** Nothing before the first occurrence of a non-empty `t` contains `t`. */
  lemma PrefixBeforeFirst(s: string, t: string, k: int)
    requires t != [] && k == IndexOf(s, t) && k >= 0
    ensures !Contains(s[..k], t)
  {
    if Contains(s[..k], t) {
      var j := IndexOf(s[..k], t);
      assert s[..k][j..j + |t|] == s[j..j + |t|];
      assert OccursAt(s, t, j);
    }
  }

  /** JavaScript's `s.split(sep)` for a non-empty separator: the pieces
      between the non-overlapping occurrences of `sep`, left to right. */
  function Split(s: string, sep: string): (parts: seq<string>)
    requires sep != []
    ensures |parts| >= 1
    ensures forall i :: 0 <= i < |parts| ==> !Contains(parts[i], sep)
    decreases |s|
  {
    var k := IndexOf(s, sep);
    if k < 0 then [s]
    else
      PrefixBeforeFirst(s, sep, k);
      [s[..k]] + Split(s[k + |sep|..], sep)
  }

  /** JavaScript's `parts.join(sep)`. */
  function Join(parts: seq<string>, sep: string): string
  {
    if |parts| == 0 then ""
    else if |parts| == 1 then parts[0]
    else parts[0] + sep + Join(parts[1..], sep)
  }

  /** Joining a first part onto at least one more puts the separator
      between it and the join of the rest. */
  lemma JoinCons(a: string, rest: seq<string>, sep: string)
    requires |rest| >= 1
    ensures Join([a] + rest, sep) == a + sep + Join(rest, sep)
  {
    assert ([a] + rest)[1..] == rest;
  }

  /** Joining the pieces of a split with the same separator gives back the string. */
  lemma {:induction false} JoinSplit(s: string, sep: string)
    requires sep != []
    ensures Join(Split(s, sep), sep) == s
    decreases |s|
  {
    var k := IndexOf(s, sep);
    if k >= 0 {
      var rest := s[k + |sep|..];
      JoinSplit(rest, sep);
      SplitFirst(s, sep);
      JoinCons(s[..k], Split(rest, sep), sep);
      RejoinAt(s, sep, k);
    }
  }

  /** Splitting at a separator that occurs: the piece before its first
      occurrence, then the split of what follows it. */
  lemma SplitFirst(s: string, sep: string)
    requires sep != [] && IndexOf(s, sep) >= 0
    ensures var k := IndexOf(s, sep);
      Split(s, sep) == [s[..k]] + Split(s[k + |sep|..], sep)
  {
  }

  /** A text is the part before an occurrence of `sep`, `sep`, and the rest. */
  lemma RejoinAt(s: string, sep: string, k: int)
    requires OccursAt(s, sep, k)
    ensures s == s[..k] + sep + s[k + |sep|..]
  {
    assert s == s[..k] + s[k..k + |sep|] + s[k + |sep|..];
  }

  /** The last character of `sep` appears nowhere else in `sep`. */
  predicate LastCharUnique(sep: string)
    requires sep != []
  {
    forall i :: 0 <= i < |sep| - 1 ==> sep[i] != sep[|sep| - 1]
  }

  /** A string without the last character of `sep` holds no occurrence of it. */
  lemma NoSeparatorIn(p: string, sep: string)
    requires sep != [] && sep[|sep| - 1] !in p
    ensures IndexOf(p, sep) == -1
  {
  }

  /** In `p + sep + rest`, the first separator is the one after `p`. */
  lemma FirstSeparatorAfter(p: string, sep: string, rest: string)
    requires sep != [] && LastCharUnique(sep) && sep[|sep| - 1] !in p
    ensures IndexOf(p + sep + rest, sep) == |p|
  {
    var s := p + sep + rest;
    assert s[|p|..|p| + |sep|] == sep;
    assert OccursAt(s, sep, |p|);
  }

  /** Splitting `p + sep + rest` where the first separator follows `p`. */
  lemma SplitAtFirst(p: string, sep: string, rest: string)
    requires sep != [] && LastCharUnique(sep) && sep[|sep| - 1] !in p
    ensures Split(p + sep + rest, sep) == [p] + Split(rest, sep)
  {
    var s := p + sep + rest;
    FirstSeparatorAfter(p, sep, rest);
    assert s[..|p|] == p;
    assert s[|p| + |sep|..] == rest;
  }

  /** Splitting at `sep` undoes a join with `sep`, provided no piece holds the
      separator's last character and that character is unique in `sep`. */
  lemma {:induction false} SplitJoin(parts: seq<string>, sep: string)
    requires |parts| >= 1 && sep != [] && LastCharUnique(sep)
    requires forall i :: 0 <= i < |parts| ==> sep[|sep| - 1] !in parts[i]
    ensures Split(Join(parts, sep), sep) == parts
    decreases |parts|
  {
    if |parts| == 1 {
      NoSeparatorIn(parts[0], sep);
    } else {
      var rest := Join(parts[1..], sep);
      SplitAtFirst(parts[0], sep, rest);
      SplitJoin(parts[1..], sep);
      assert parts == [parts[0]] + parts[1..];
    }
  }

  /** How JavaScript's `slice` resolves an index against a length: a negative
      index counts from the end, and the result is clamped to `[0, len]`. */
  function RelativeIndex(i: int, len: nat): (r: nat)
    ensures r <= len
    ensures 0 <= i <= len ==> r == i
    ensures i < 0 && -i <= len ==> r == len + i
    ensures i > len ==> r == len
    ensures i < 0 && -i > len ==> r == 0
  {
    if i < 0 then (if len + i < 0 then 0 else len + i)
    else if i > len then len
    else i
  }

  /** JavaScript's `s.slice(start, end)`. */
  function Slice(s: string, start: int, end: int): (r: string)
    ensures var b, e := RelativeIndex(start, |s|), RelativeIndex(end, |s|);
      |r| == (if b < e then e - b else 0) && r == s[b..b + |r|]
  {
    var b, e := RelativeIndex(start, |s|), RelativeIndex(end, |s|);
    if b < e then s[b..e] else ""
  }

  /** JavaScript's `s.slice(start)`. */
  function SliceFrom(s: string, start: int): (r: string)
    ensures r == s[RelativeIndex(start, |s|)..]
  {
    Slice(s, start, |s|)
  }
}
