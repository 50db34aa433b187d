/** Choosing a newline convention and rewriting a text to it. */
module NewLine {
  import opened Text

  const LF: string := "\n"
  const CRLF: string := "\r\n"

  /** Some `'\r'` is immediately followed by `'\n'` in `s`. */
  ghost predicate HasCrlf(s: string) {
    exists i :: 0 <= i < |s| - 1 && s[i] == '\r' && s[i + 1] == '\n'
  }

  /** The newline to use: with `"auto"` the one `content` already uses
      (`"\r\n"` as soon as it holds one), `"\r\n"` for `"crlf"` and `"\r\n"`,
      and `"\n"` for every other option value. */
  function GetNewLineChar(opt: string, content: string): (nl: string)
    ensures nl == LF || nl == CRLF
    ensures nl == CRLF <==> (opt == "auto" && HasCrlf(content)) || opt == "crlf" || opt == "\r\n"
  {
    CrlfSearch(content);
    if opt == "auto" then (if IndexOf(content, CRLF) < 0 then LF else CRLF)
    else if opt == "crlf" || opt == "\r\n" then CRLF
    else LF
  }

  /** `indexOf("\r\n")` finds an occurrence exactly when there is one. */
  lemma CrlfSearch(s: string)
    ensures IndexOf(s, CRLF) >= 0 <==> HasCrlf(s)
  {
    if HasCrlf(s) {
      var i :| 0 <= i < |s| - 1 && s[i] == '\r' && s[i + 1] == '\n';
      assert s[i..i + 2] == CRLF;
      assert OccursAt(s, CRLF, i);
    }
    var k := IndexOf(s, CRLF);
    if k >= 0 {
      assert s[k] == s[k..k + 2][0] && s[k + 1] == s[k..k + 2][1];
    }
  }

  /** `s.replace(/\r\n/g, '\n')`: every `"\r\n"`, scanned left to right,
      becomes `"\n"`. */
  function CollapseCrlf(s: string): string
  {
    if |s| < 2 then s
    else if s[0] == '\r' && s[1] == '\n' then LF + CollapseCrlf(s[2..])
    else [s[0]] + CollapseCrlf(s[1..])
  }

  /** `s.replace(/\n/g, '\r\n')`: every `'\n'` becomes `"\r\n"`. */
  function ExpandLf(s: string): string
  {
    if s == [] then []
    else (if s[0] == '\n' then CRLF else [s[0]]) + ExpandLf(s[1..])
  }

  /** `replaceNewLineChars`: collapse every `"\r\n"` to `"\n"`, then, for the
      `"\r\n"` convention, expand every `"\n"` back to `"\r\n"`. */
  function ReplaceNewLineChars(nl: string, s: string): string
    requires nl == LF || nl == CRLF
  {
    if nl == LF then CollapseCrlf(s) else ExpandLf(CollapseCrlf(s))
  }

  /** Independent reference for the collapse: drop each `'\r'` whose
      successor is `'\n'`, keep every other character. */
  function DropCrBeforeLf(s: string): string
  {
    if s == [] then []
    else if |s| >= 2 && s[0] == '\r' && s[1] == '\n' then DropCrBeforeLf(s[1..])
    else [s[0]] + DropCrBeforeLf(s[1..])
  }

  /** Number of occurrences of `c` in `s`. */
  function Count(c: char, s: string): nat
  {
    if s == [] then 0 else (if s[0] == c then 1 else 0) + Count(c, s[1..])
  }

  lemma CountCons(c: char, x: char, s: string)
    ensures Count(c, [x] + s) == (if x == c then 1 else 0) + Count(c, s)
  {
    assert ([x] + s)[1..] == s;
  }

  lemma {:induction false} CountConcat(c: char, a: string, b: string)
    ensures Count(c, a + b) == Count(c, a) + Count(c, b)
  {
    if a == [] {
      assert a + b == b;
    } else {
      assert (a + b)[1..] == a[1..] + b;
      CountConcat(c, a[1..], b);
    }
  }

  /** Every `'\n'` in `s` directly follows a `'\r'`: `s` uses `"\r\n"` only. */
  predicate EveryLfAfterCr(s: string) {
    forall i :: 0 <= i < |s| && s[i] == '\n' ==> 0 < i && s[i - 1] == '\r'
  }

  /** The collapse removes exactly the `'\r'`s that directly precede a `'\n'`. */
  lemma {:induction false} CollapseDropsCr(s: string)
    ensures CollapseCrlf(s) == DropCrBeforeLf(s)
    decreases |s|
  {
    if |s| >= 2 {
      if s[0] == '\r' && s[1] == '\n' {
        CollapseDropsCr(s[2..]);
        assert s[1..][1..] == s[2..];
      } else {
        CollapseDropsCr(s[1..]);
      }
    } else if |s| == 1 {
      assert DropCrBeforeLf(s) == [s[0]] + DropCrBeforeLf([]);
    }
  }

  /** The collapse keeps every `'\n'`. */
  lemma {:induction false} CollapseKeepsLf(s: string)
    ensures Count('\n', CollapseCrlf(s)) == Count('\n', s)
    decreases |s|
  {
    if |s| >= 2 {
      assert s == [s[0]] + s[1..];
      CountCons('\n', s[0], s[1..]);
      if s[0] == '\r' && s[1] == '\n' {
        CollapseKeepsLf(s[2..]);
        CountCons('\n', '\n', CollapseCrlf(s[2..]));
        assert s[1..] == [s[1]] + s[2..];
        CountCons('\n', s[1], s[2..]);
      } else {
        CollapseKeepsLf(s[1..]);
        CountCons('\n', s[0], CollapseCrlf(s[1..]));
      }
    }
  }

  /** Without any `'\r'` the collapse changes nothing. */
  lemma {:induction false} CollapseWithoutCr(s: string)
    requires '\r' !in s
    ensures CollapseCrlf(s) == s
    decreases |s|
  {
    if |s| >= 2 {
      assert s[0] in s;
      assert forall c :: c in s[1..] ==> c in s;
      CollapseWithoutCr(s[1..]);
    }
  }

  /** The collapse is not idempotent: `"\r\r\n"` collapses to `"\r\n"`, which
      collapses again to `"\n"`. */
  lemma CollapseNotIdempotent()
    ensures CollapseCrlf("\r\r\n") == CRLF
    ensures CollapseCrlf(CollapseCrlf("\r\r\n")) == LF
  {
    assert "\r\r\n"[1..] == CRLF;
    assert CRLF[2..] == "";
  }

  /** The expansion never starts with `'\n'`. */
  lemma ExpandHead(s: string)
    requires s != []
    ensures ExpandLf(s) != [] && ExpandLf(s)[0] != '\n'
  {
  }

  /** The expansion keeps the number of `'\n'`s. */
  lemma {:induction false} ExpandKeepsLf(s: string)
    ensures Count('\n', ExpandLf(s)) == Count('\n', s)
    decreases |s|
  {
    if s != [] {
      ExpandKeepsLf(s[1..]);
      var h := if s[0] == '\n' then CRLF else [s[0]];
      CountConcat('\n', h, ExpandLf(s[1..]));
      assert s == [s[0]] + s[1..];
      CountCons('\n', s[0], s[1..]);
      assert Count('\n', CRLF) == 1 by { assert CRLF == ['\r'] + LF; CountCons('\n', '\r', LF); }
    }
  }

  /** After the expansion every `'\n'` directly follows a `'\r'`. */
  lemma {:induction false} ExpandOnlyCrlf(s: string)
    ensures EveryLfAfterCr(ExpandLf(s))
    decreases |s|
  {
    if s != [] {
      ExpandOnlyCrlf(s[1..]);
      var h := if s[0] == '\n' then CRLF else [s[0]];
      var t := ExpandLf(s[1..]);
      assert ExpandLf(s) == h + t;
      if t != [] {
        ExpandHead(s[1..]);
      }
      forall i | 0 <= i < |h + t| && (h + t)[i] == '\n'
        ensures 0 < i && (h + t)[i - 1] == '\r'
      {
        if i >= |h| {
          assert (h + t)[i] == t[i - |h|];
        }
      }
    }
  }

  /** Collapsing undoes expanding. */
  lemma {:induction false} CollapseExpand(t: string)
    ensures CollapseCrlf(ExpandLf(t)) == t
    decreases |t|
  {
    if t != [] {
      var e := ExpandLf(t[1..]);
      CollapseExpand(t[1..]);
      if t[0] == '\n' {
        assert ExpandLf(t) == CRLF + e;
        assert (CRLF + e)[2..] == e;
      } else {
        assert ExpandLf(t) == [t[0]] + e;
        if e != [] {
          ExpandHead(t[1..]);
        }
        assert ([t[0]] + e)[1..] == e;
      }
      assert t == [t[0]] + t[1..];
    }
  }

  /** Both conventions keep the number of lines. */
  lemma ReplaceKeepsLf(nl: string, s: string)
    requires nl == LF || nl == CRLF
    ensures Count('\n', ReplaceNewLineChars(nl, s)) == Count('\n', s)
  {
    CollapseKeepsLf(s);
    ExpandKeepsLf(CollapseCrlf(s));
  }

  /** With `"\r\n"` the output uses `"\r\n"` only, and a second rewrite
      changes nothing. */
  lemma ReplaceCrlf(s: string)
    ensures EveryLfAfterCr(ReplaceNewLineChars(CRLF, s))
    ensures ReplaceNewLineChars(CRLF, ReplaceNewLineChars(CRLF, s)) == ReplaceNewLineChars(CRLF, s)
  {
    ExpandOnlyCrlf(CollapseCrlf(s));
    CollapseExpand(CollapseCrlf(s));
  }

  /** With `"\n"` the rewrite removes exactly the `'\r'`s before a `'\n'`,
      and is the identity on a text with no `'\r'`. */
  lemma ReplaceLf(s: string)
    ensures ReplaceNewLineChars(LF, s) == DropCrBeforeLf(s)
    ensures '\r' !in s ==> ReplaceNewLineChars(LF, s) == s
  {
    CollapseDropsCr(s);
    if '\r' !in s {
      CollapseWithoutCr(s);
    }
  }

  /** No line of `lines` holds a `'\n'`. */
  predicate LinesWithoutLf(lines: seq<string>) {
    forall i :: 0 <= i < |lines| ==> '\n' !in lines[i]
  }

  /** Splitting a text that uses `"\r\n"` only at `"\r\n"` leaves no `'\n'`
      in any line. */
  lemma {:induction false} SplitCrlfLines(s: string)
    requires EveryLfAfterCr(s)
    ensures LinesWithoutLf(Split(s, CRLF))
    decreases |s|
  {
    var k := IndexOf(s, CRLF);
    if k < 0 {
      if '\n' in s {
        var i :| 0 <= i < |s| && s[i] == '\n';
        assert s[i - 1..i + 1] == CRLF;
        assert OccursAt(s, CRLF, i - 1);
      }
    } else {
      var rest := s[k + 2..];
      if '\n' in s[..k] {
        var i :| 0 <= i < k && s[..k][i] == '\n';
        assert s[i - 1..i + 1] == CRLF;
        assert OccursAt(s, CRLF, i - 1);
      }
      assert s[k + 1] == s[k..k + 2][1] == '\n';
      forall i | 0 <= i < |rest| && rest[i] == '\n'
        ensures 0 < i && rest[i - 1] == '\r'
      {
        assert rest[i] == s[k + 2 + i];
        if i > 0 {
          assert rest[i - 1] == s[k + 1 + i];
        }
      }
      SplitCrlfLines(rest);
    }
  }

  /** The lines of a text rewritten to `nl` and split at `nl` hold no `'\n'`. */
  lemma NormalisedLinesWithoutLf(nl: string, s: string)
    requires nl == LF || nl == CRLF
    ensures LinesWithoutLf(Split(ReplaceNewLineChars(nl, s), nl))
  {
    var parts := Split(ReplaceNewLineChars(nl, s), nl);
    if nl == LF {
      forall i | 0 <= i < |parts|
        ensures '\n' !in parts[i]
      {
        ContainsChar(parts[i], '\n');
      }
    } else {
      ReplaceCrlf(s);
      SplitCrlfLines(ReplaceNewLineChars(nl, s));
    }
  }

  /** Joining lines without `'\n'` at `"\r\n"` gives a text that uses
      `"\r\n"` only. */
  lemma {:induction false} JoinCrlfOnly(lines: seq<string>)
    requires LinesWithoutLf(lines)
    ensures EveryLfAfterCr(Join(lines, CRLF))
    decreases |lines|
  {
    if |lines| == 1 {
      assert '\n' !in lines[0];
    } else if |lines| > 1 {
      var rest := Join(lines[1..], CRLF);
      JoinCrlfOnly(lines[1..]);
      var s := lines[0] + CRLF + rest;
      assert '\n' !in lines[0];
      forall i | 0 <= i < |s| && s[i] == '\n'
        ensures 0 < i && s[i - 1] == '\r'
      {
        if i >= |lines[0]| + 2 {
          assert s[i] == rest[i - |lines[0]| - 2];
        }
      }
    }
  }
}
