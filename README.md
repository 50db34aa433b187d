# inject-code, modelled in Dafny

inject-code puts a snippet of text into a destination text at marker tags:
between a start tag and an end tag, just before a tag, or just after one.
In `code` mode it works line by line:

1. It resolves a newline for the destination and for the content, each from its own text.
2. It rewrites both to that newline and splits them into lines.
3. It finds the first line holding each tag and measures the tag's indentation.
4. It reindents the content lines by that many spaces.
5. It splices them into the destination's lines and joins the lines again.

In any other content type it splices the raw text at the tags' offsets.

The model covers the whole of `src/index.js` except its I/O, the sync/async dispatch and the merge of default options (see Left out). Each module holds one part:

- `Text` defines the JavaScript string operations the code relies on:
  - `indexOf`, `split` and `join`;
  - `slice`, with negative and out-of-range indices.
- `NewLine` holds newline resolution and the two global replacements of newline normalisation.
- `Indent` holds the indentation count, written as a loop proved against a specification function, and reindentation.
- `Lines` holds the first-line search (`findIndex`) and `Array.prototype.splice`, with its clamped start and count. It also holds the two code-mode splices of whole lines.
- `Injector` holds:
  - the options record and their validation;
  - the raw splice;
  - `injectIntoString`, both as a function and as a method that follows the code step by step, reassigning its line sequence with `Splice`;
  - the exported entry point.
- `Fixtures` states the string fixtures of the test suite as facts about the entry point.

The options record has the defaults (`contentType: 'code'`, `newLine: 'auto'`) already merged in. A string option the caller leaves out is the empty string: the code only tests these options for truthiness, and both values are falsy.

Three behaviours of the code that a reader may not expect:

- Newline normalisation to `"\n"` does not remove every `"\r\n"`, although the doc comment at src/index.js:35-37 says it replaces every new line character. The replacement runs once, left to right, so `"\r\r\n"` becomes `"\r\n"`. See `NewLine.CollapseNotIdempotent`.
- Validation does not demand exactly one destination and exactly one of `between`, `before` and `after`. It demands at least one of each. When both `before` and `after` are set, `before` wins.
- In `between` mode, an end tag found on or above the start tag's line is not rejected. The `splice` count is then negative, JavaScript clamps it to zero, and the content is only inserted.

## Model

| member | source | states |
|---|---|---|
| Text.IndexOf | src/index.js:59 | the result is -1 or an offset where the tag occurs, and no earlier offset holds it |
| Text.Split | src/index.js:92-93 | `split` with a non-empty separator gives at least one piece, and no piece holds the separator |
| Text.JoinSplit | src/index.js:92-93 | joining the pieces of a split with the same separator gives back the text |
| Text.SplitJoin | src/index.js:130 | splitting at the separator undoes a join, when no piece holds the separator's last character and that character is unique in it |
| Text.RelativeIndex | src/index.js:134-144 | `slice` resolves an index: an index in `[0, len]` is kept, a negative one counts from the end, one past the end gives `len`, and one before `-len` gives 0 |
| Text.Slice | src/index.js:134-144 | `s.slice(start, end)` is the part of `s` from the resolved start up to the resolved end, and empty when the end does not follow the start |
| Text.SliceFrom | src/index.js:136 | `s.slice(start)` is the suffix of `s` from the resolved start |
| Text.Join | src/index.js:130 | `join`; its meaning is stated by `Text.JoinSplit` and `Text.SplitJoin` |
| NewLine.GetNewLineChar | src/index.js:21-33 | the result is `"\n"` or `"\r\n"`; it is `"\r\n"` exactly for `'auto'` on a text holding `"\r\n"`, and for `'crlf'` and `'\r\n'` |
| NewLine.CrlfSearch | src/index.js:24 | `indexOf("\r\n") >= 0` holds exactly when some `'\r'` is directly followed by `'\n'` |
| NewLine.ReplaceNewLineChars | src/index.js:42-50 | `replaceNewLineChars` for the two newlines `getNewLineChar` can give; its contract is stated by `NewLine.ReplaceKeepsLf`, `NewLine.ReplaceCrlf` and `NewLine.ReplaceLf` |
| NewLine.CollapseCrlf | src/index.js:46 | the global replace of `"\r\n"` by `"\n"`; stated by `NewLine.CollapseDropsCr`, `NewLine.CollapseKeepsLf` and `NewLine.CollapseWithoutCr` |
| NewLine.ExpandLf | src/index.js:48 | the global replace of `"\n"` by `"\r\n"`; stated by `NewLine.ExpandKeepsLf`, `NewLine.ExpandOnlyCrlf` and `NewLine.CollapseExpand` |
| NewLine.CollapseDropsCr | src/index.js:46 | the collapse deletes exactly the `'\r'` characters that directly precede a `'\n'` (reference definition `DropCrBeforeLf`) |
| NewLine.CollapseKeepsLf | src/index.js:46 | the collapse keeps the number of `'\n'` characters |
| NewLine.CollapseWithoutCr | src/index.js:46 | on a text without `'\r'` the collapse is the identity |
| NewLine.CollapseNotIdempotent | src/index.js:46 | `"\r\r\n"` collapses to `"\r\n"`, which collapses again to `"\n"` |
| NewLine.ExpandKeepsLf | src/index.js:48 | expanding `'\n'` to `"\r\n"` keeps the number of `'\n'` characters |
| NewLine.ExpandOnlyCrlf | src/index.js:48 | after the expansion every `'\n'` directly follows a `'\r'` |
| NewLine.CollapseExpand | src/index.js:48 | the collapse undoes the expansion |
| NewLine.ReplaceKeepsLf | src/index.js:42-50 | normalisation to either newline keeps the number of `'\n'` characters |
| NewLine.ReplaceCrlf | src/index.js:47-48 | normalising to `"\r\n"` leaves every `'\n'` after a `'\r'`, and doing it twice is doing it once |
| NewLine.ReplaceLf | src/index.js:45-46 | normalising to `"\n"` deletes exactly the `'\r'` characters before a `'\n'`; on a text without `'\r'` it is the identity |
| NewLine.SplitCrlfLines | src/index.js:92 | splitting a CRLF-only text at `"\r\n"` leaves no `'\n'` in any line |
| NewLine.NormalisedLinesWithoutLf | src/index.js:88-93 | a normalised text split at its own newline has no `'\n'` in any line |
| NewLine.JoinCrlfOnly | src/index.js:130 | lines without `'\n'` joined with `"\r\n"` have every `'\n'` after a `'\r'` |
| Indent.TrailingBlanks | src/index.js:61-63 | the count is the length of the run of spaces and tabs ending the text: all of them blank, and the character before them not |
| Indent.IndentWidth | src/index.js:58-65 | with `k` the first offset of the tag and `n` the width: `n <= k`, `line[k-n..k]` is spaces and tabs, `line[k-n-1]` is neither when `n < k`, and the width is 0 when the tag is absent |
| Indent.IndentWidthUnique | src/index.js:58-65 | the three facts about the run before the tag determine the width |
| Indent.GetIndentation | src/index.js:58-65 | the backward counting loop returns `IndentWidth` of the line and tag |
| Indent.SpacedTag | src/index.js:58-65 | a tag after `n` spaces, not itself starting with a space, is found at `n` with width `n` |
| Indent.Spaces | src/index.js:75 | the indent string has length `n` and is all spaces |
| Indent.Reindent | src/index.js:74-77 | same number of lines, and line `i` is `n` spaces followed by input line `i` |
| Lines.FindLine | src/index.js:97-98 | the result is -1 or the index of a line holding the tag, and no earlier line holds it |
| Lines.FindLineMissing | src/index.js:100 | the search gives -1 exactly when no line holds the tag |
| Lines.DeleteCount | src/index.js:107 | `splice` removes the requested count when it fits, none when it is negative, and exactly the elements after the start when it asks for more |
| Lines.Splice | src/index.js:107 | `a.splice(start, count, ...items)` keeps `a` up to the resolved start, then holds `items`, then the rest of `a` after the removed elements; its length changes by `|items|` minus the removed count |
| Lines.SpliceBetween | src/index.js:95-107 | fails with `TagsNotFound` exactly when either tag is missing; with start line `s` before end line `e` the lines are `d[..s+1]`, the reindented content, then `d[e..]`, so both tag lines are kept; with `e <= s` nothing is removed |
| Lines.SpliceSingle | src/index.js:109-126 | fails with `TagNotFound` exactly when the tag is missing; otherwise no line is removed, and the reindented content goes in at the tag line `t` for `before` or at `t+1` for `after` |
| Lines.AfterKeepsTagLine | src/index.js:123-125 | after an `after` injection the tag is still first found on the same line, and the next line is the first reindented content line |
| Lines.TagLinesAfterBetween | src/index.js:95-107 | in a `between` result the start tag is still first found on its old line and the end tag just after the content |
| Lines.BetweenIdempotent | src/index.js:95-107 | injecting the same content between the same tags again leaves the lines unchanged: the region is replaced, not appended to |
| Injector.ValidArguments | src/index.js:207-209 | the validation expression; `Injector.Inject` states that each of its three conditions rejects the arguments |
| Injector.SingleTag | src/index.js:110 | the tag `opts.before`, or `opts.after` when `before` is falsy: it is one of the two, `before` when it is set, and it is non-empty whenever one of them is |
| Injector.RawInject | src/index.js:131-146 | raw mode as written: it fails with `BetweenUndefined` exactly when `between` is unset, and with `between` set it is the raw `between` splice |
| Injector.RawBetween | src/index.js:133-136 | when both tags occur, the result is the destination up to the end of the start tag, the content, then the destination from the end tag on; it never fails |
| Injector.RawInjectFixed | src/index.js:137-145 | with the matched tag used throughout, raw `before` puts the content just before the tag's first occurrence and raw `after` just after it |
| Injector.RawSingleTagFails | src/index.js:137-145 | as written, raw `before` and `after` fail on every input, while the corrected splice succeeds |
| Injector.NormalisedLines | src/index.js:86-93 | a normalised text split at its newline has at least one line, and none holds `'\n'` |
| Injector.CodeLines | src/index.js:83-127 | code-mode lines fail exactly when a needed tag is missing from the normalised destination, with the error of the mode; the result is the `between` splice of the normalised content into the normalised destination lines, or the `before`/`after` splice at the tag `SingleTag` picks; on success there is at least one line and none holds `'\n'` |
| Injector.BeforeTakesPrecedence | src/index.js:110-126 | when both `before` and `after` are set, the result is the one for `before` alone |
| Injector.InjectedText | src/index.js:82-148 | in code mode it succeeds exactly when the line splice does, and a missing tag gives the splice's error (`TagsNotFound` or `TagNotFound`); the text splits back into those lines at the destination's newline; with `"\r\n"` every `'\n'` follows a `'\r'`; any other content type is the raw splice `RawInjectFixed` |
| Injector.InjectIntoString | src/index.js:82-148 | the step-by-step version, which reassigns its line sequence with `Splice`, computes `InjectedText` |
| Injector.Inject | src/index.js:200-222 | fails with `InvalidArguments` exactly when validation rejects the options, for each of the three conditions; otherwise a missing tag's error reaches the caller unchanged, and on success it writes the injected text (into the text read from `into`, else into `intoStr`) back to `into`, or returns it |
| Fixtures.BetweenExample | tests/injector.test.js:25-34 | the `between` fixture gives the expected text, indented by two spaces |
| Fixtures.BeforeExample | tests/injector.test.js:77-83 | the `before` fixture gives the expected text |
| Fixtures.AfterExample | tests/injector.test.js:117-123 | the `after` fixture gives the expected text |

## Left out

- File I/O is left out: `readFileSync`, `writeFileSync`, `readFile` and `writeFile`. `Injector.Inject` takes the file's text as a parameter and returns a `WriteFile` effect instead of writing.
- The `sync` flag and the Promise wrapper are left out. Both paths run the same transform; a thrown error and a rejected promise are both an `Err` result.
- `Injector.InjectIntoString`: the in-place `splice` of the line array (src/index.js:107, 122, 125) is modelled by value. The method reassigns a `seq` of lines with `Splice`; a JavaScript array changes length under `splice`, which a Dafny array cannot. The model does not capture aliasing of that array, which the code never shares.
- `lodash.merge` is not modelled. The options record arrives with the defaults filled in.
- Option values that are not strings are not modelled, for example a number passed as a tag. JavaScript `undefined` and `""` are one value, because the code only tests their truthiness.
- `Injector.InjectIntoString`, `Injector.InjectedText`, `Injector.Inject`: in raw mode they use the corrected `before`/`after` splice (see Findings), not the failing one as written. `Injector.RawInject` models the code as written.
- The JavaScript regular-expression engine is not modelled. The two global replacements are written as explicit recursive functions with the same left-to-right, non-overlapping matching.
- Text.Split: modelled only for a non-empty separator. The code only ever splits at `"\n"` or `"\r\n"`.
- JavaScript strings are sequences of UTF-16 code units; the model's strings are sequences of characters. Offsets differ for characters outside the Basic Multilingual Plane, which take two units in JavaScript and one character here.

## Findings

| source | as written | input that shows it | evidently intended | confidence | as-written member | corrected member |
|---|---|---|---|---|---|---|
| src/index.js:137-145 | the raw `before` and `after` branches compute their second offset from `opts.between.before` / `opts.between.after`, and `opts.between` is unset on those branches, so the call throws a `TypeError` | `contentType: 'text'`, `intoStr: 'x'`, `before: 'x'` | use the matched tag (`opts.before`, `opts.after`) for both offsets: the content goes just before the tag, or just after it | not executed | Injector.RawInject | Injector.RawInjectFixed |
