# KnowTheDiff diff core in Dafny

This project models the pure logic of the KnowTheDiff text-comparison app and proves properties about it. It covers four TypeScript modules:

- **Diff result builder** (`lib/diff/parser.ts`). `parseDiffChanges` takes the runs of a line aligner. Each run holds newline-terminated text flagged `added`, `removed` or neither. The builder expands each run into addressed lines. It keeps two independent line counters: left for the original text, right for the modified text. It emits one chunk per run that yields lines and tallies statistics. `splitIntoLines` turns a run's value into lines. The result shapes of `lib/diff/types.ts` are datatypes. Their `DiffLine` is a tagged variant, so a line's classification always agrees with which of its numbers are present (`diff_types.dfy`, `diff_parser.dfy`).
- **LCS character diff** (`utils/diff_helper.ts`). It fills a dynamic-programming table of longest-common-subsequence lengths (`build_lcs`). It backtracks to recover one longest common subsequence (`extract_lcs`). It then turns that subsequence into a script of single-character `remove`/`add`/`equal` operations (`diff_using_lcs`). `diff` chains the three (`diff_helper.dfy`).
- **Positional line diff** (`utils/line_diff.ts`). `lineDiff` compares two texts line by line at the same index. JavaScript truthiness treats an empty or missing line as absent (`line_diff.dfy`).
- **File helpers** (`lib/utils.ts`, `lib/constants.ts`). These are the extension extractor, the supported-file check, the syntax-language lookup and the unit choice of the byte formatter (`file_utils.dfy`).

Each source function with a loop becomes a Dafny `method` with loops and invariants, in the source's own step order. `splitIntoLines`, whose only mutation is one `pop` of a trailing empty part, is the function `SplitIntoLines` on values. `ParseDiffChanges`, `ExplodeChange` and `LineDiff` are proved equal to a specification function (`Parse`, `Expand` with the counter functions, `OpsUpTo`). Their properties are then proved about those functions as lemmas. The LCS methods (`BuildLcs`, `ExtractLcs`, `RemoveUntilAnchor`, `AddUntilAnchor`, `EmitAnchor`, `RemoveRest`, `AddRest`, `DiffUsingLcs`, `Diff`) carry property contracts instead. Those contracts state the table recurrence, the subsequence and length facts, and the round trip and counts of the edit script. `text.dfy` models the JavaScript `split("\n")` that the core relies on, together with its inverse `join("\n")`.

Main results:

- The builder **reconstructs** both sides. Removed and unchanged lines are the lines of every non-added run. Added and unchanged lines are the lines of every non-removed run.
- Every left or right number is the 1-based position of its content on that side.
- The statistics count every line exactly once.
- The LCS table entry `dp[i, j]` is the LCS length of the prefixes.
- The backtrack returns a common subsequence of that greatest length.
- The edit script reads the old string and writes the new one.
- Its number of removals plus additions is the minimum over all single-character scripts.

## Model

| member | source | states |
|---|---|---|
| `Text.SplitJoins` | KnowTheDiff/know_the_diff/utils/line_diff.ts:15-16 | the parts of `split("\n")` hold no newline and join back, with newlines, to the text |
| `Text.Split` | KnowTheDiff/know_the_diff/utils/line_diff.ts:15-16 | `split("\n")` always yields at least one part (`""` gives one empty part); `Text.SplitJoins` characterises the parts |
| `Text.Max` | KnowTheDiff/know_the_diff/utils/line_diff.ts:19 | `Math.max`: at least both arguments, and equal to one of them |
| `DiffParser.SplitIntoLines` | KnowTheDiff/know_the_diff/lib/diff/parser.ts:21-26 | the lines hold no newline and are the split parts, or the split parts minus one trailing `""`; `SplitIntoLinesWritesBack` and `SplitIntoLinesUnique` pin them down exactly |
| `DiffParser.Walk` | KnowTheDiff/know_the_diff/lib/diff/parser.ts:39-87 | The loop state after the runs, with the total not yet summed. The left counter is 1 + removed + unchanged and the right counter is 1 + added + unchanged. `ParseChunks` states the chunks |
| `DiffParser.Parse` | KnowTheDiff/know_the_diff/lib/diff/parser.ts:89-96 | `total` is the sum of the three statistics; `originalLineCount` and `modifiedLineCount` are the final left and right counters minus 1; `ParseChunks`, `ParseReconstructs`, `ParseStats` and `ParseLineNumbers` state the rest |
| `DiffParser.SplitIntoLinesWritesBack` | KnowTheDiff/know_the_diff/lib/diff/parser.ts:21-26 | `splitIntoLines` gives newline-free lines. Writing each back with a newline gives the value, plus a newline if the value lacked one. So exactly one trailing empty part is dropped |
| `DiffParser.SplitIntoLinesUnique` | KnowTheDiff/know_the_diff/lib/diff/parser.ts:21-26 | newline-free lines whose newline-terminated text is the value are exactly what `splitIntoLines` returns |
| `DiffParser.SplitIntoLinesEmpty` | KnowTheDiff/know_the_diff/lib/diff/parser.ts:21-26 | `""` yields no line |
| `DiffParser.SplitIntoLinesExamples` | KnowTheDiff/know_the_diff/lib/diff/parser.ts:21-26 | `"a\nb\n"` yields `["a","b"]`, with no ghost empty last line; `"a\n\n"` yields `["a",""]`, so a genuinely empty last line is kept |
| `DiffParser.ExpandNumbering` | KnowTheDiff/know_the_diff/lib/diff/parser.ts:51-78 | A removed run takes consecutive left numbers from the left counter and has no right number. An added run takes consecutive right numbers and has no left number. An unchanged run takes both, in lockstep. Every run keeps one line per content line, in order |
| `DiffParser.ExplodeChange` | KnowTheDiff/know_the_diff/lib/diff/parser.ts:48-79 | The inner loops for one run, in `removed`-then-`added`-then-neither order. They produce the run's numbered lines. They advance only the counters the classification uses, by the run's line count. They bump only that classification's statistic |
| `DiffParser.ParseDiffChanges` | KnowTheDiff/know_the_diff/lib/diff/parser.ts:38-97 | the imperative builder computes exactly `Parse`, the walk over the runs followed by the total and the two derived counts |
| `DiffParser.ParseChunks` | KnowTheDiff/know_the_diff/lib/diff/parser.ts:47-87 | There is one non-empty chunk per run that yields lines, in run order. Each chunk holds that run's lines with the run's classification. A run flagged both added and removed counts as removed. `isUnchanged` holds iff the run is neither added nor removed. Every line is numbered by the counters |
| `DiffParser.ParseReconstructs` | KnowTheDiff/know_the_diff/lib/diff/parser.ts:47-79 | removed+unchanged contents, in order, are the lines of all non-added runs; added+unchanged contents are those of all non-removed runs |
| `DiffParser.ParseStats` | KnowTheDiff/know_the_diff/lib/diff/parser.ts:40-96 | each statistic counts its lines; `total = added + removed + unchanged` = number of lines; `originalLineCount = removed + unchanged` = original line count; `modifiedLineCount = added + unchanged` = modified line count |
| `DiffParser.ParseLineNumbers` | KnowTheDiff/know_the_diff/lib/diff/parser.ts:42-79 | every left number is the 1-based position of its content among the original lines, every right number among the modified lines |
| `DiffParser.ConsecutiveNumbers` | KnowTheDiff/know_the_diff/lib/diff/parser.ts:56-75 | two neighbouring lines that both carry a left (right) number carry consecutive numbers: counters never skip |
| `DiffParser.ParseMixedChangesExample` | KnowTheDiff/know_the_diff/__tests__/diff/parser.test.ts:48-73 | For the runs keep1+keep2 unchanged, then old removed, then new added: the numbers are 1/1 and 2/2, then left 3, then right 3. The stats are 1/1/2/4 and both line counts are 3 |
| `DiffHelper.LcsLengthIsUpperBound` | KnowTheDiff/know_the_diff/utils/diff_helper.ts:11-19 | no common subsequence of two strings is longer than the length the table recurrence computes |
| `DiffHelper.BuildLcs` | KnowTheDiff/know_the_diff/utils/diff_helper.ts:3-24 | an `(m+1)×(n+1)` table, zero on row 0 and column 0, whose entry `[i, j]` is the LCS length of `str1[..i]` and `str2[..j]` |
| `DiffHelper.Reverse` | KnowTheDiff/know_the_diff/utils/diff_helper.ts:47 | the reversed string has the same length and holds at position `k` the character at `len(s) - 1 - k` |
| `DiffHelper.ExtractLcs` | KnowTheDiff/know_the_diff/utils/diff_helper.ts:27-48 | the backtrack from the corner of a filled table returns a subsequence of both strings whose length is the LCS length |
| `DiffHelper.RemoveUntilAnchor` | KnowTheDiff/know_the_diff/utils/diff_helper.ts:60-62 | when the anchors ahead are a subsequence of the rest of `oldStr`, the scan stops inside `oldStr` on the first occurrence of the anchor. It keeps the operations it was given as a prefix and appends exactly one removal of `oldStr[p]` for each skipped position `p`, in order |
| `DiffHelper.AddUntilAnchor` | KnowTheDiff/know_the_diff/utils/diff_helper.ts:64-66 | likewise for `newStr`: it stops on the first occurrence of the anchor and appends one addition of `newStr[p]` per skipped position, in order, after the operations it was given |
| `DiffHelper.EmitAnchor` | KnowTheDiff/know_the_diff/utils/diff_helper.ts:57-72 | one outer round. The operations it was given stay a prefix. It appends the removals of the old characters before the first occurrence of the anchor, then the additions of the new characters before its first occurrence, then one `equal` anchor. Both indices move just past the anchor and the remaining anchors stay a subsequence of both remainders |
| `DiffHelper.RemoveRest` | KnowTheDiff/know_the_diff/utils/diff_helper.ts:75-77 | after the last anchor, appends one removal of `oldStr[p]` for each remaining position `p`, in order, keeping the earlier operations as a prefix; the script then reads all of `oldStr` |
| `DiffHelper.AddRest` | KnowTheDiff/know_the_diff/utils/diff_helper.ts:79-81 | appends one addition of `newStr[p]` for each remaining position, in order, keeping the earlier operations as a prefix; the script then writes all of `newStr` |
| `DiffHelper.DiffUsingLcs` | KnowTheDiff/know_the_diff/utils/diff_helper.ts:53-83 | Every op holds one character. No addition comes right before a removal. Remove+equal values rebuild `oldStr`, add+equal values rebuild `newStr`, and the equal values are `lcs`. There are `len(lcs)` equals, `len(oldStr) - len(lcs)` removes and `len(newStr) - len(lcs)` adds |
| `DiffHelper.Diff` | KnowTheDiff/know_the_diff/utils/diff_helper.ts:86-90 | `diff` rebuilds both strings with LCS-length anchors and `len(old) + len(new) - 2·LCS` removals and additions |
| `DiffHelper.AnchorsAreCommon` | KnowTheDiff/know_the_diff/utils/diff_helper.ts:53-83 | the equal values of any single-character script are a common subsequence of the texts it reads and writes |
| `DiffHelper.ScriptMinimal` | KnowTheDiff/know_the_diff/utils/diff_helper.ts:53-90 | any single-character script from `a` to `b` has at most LCS-length anchors, hence at least `len(a) + len(b) - 2·LCS` removals and additions: the count `Diff` attains is minimal |
| `PositionalDiff.LineDiff` | KnowTheDiff/know_the_diff/utils/line_diff.ts:14-66 | the loop over every index below `max(len(oldLines), len(newLines))` of the unfiltered `split("\n")` produces exactly the concatenated per-index operations |
| `PositionalDiff.IndexOps` | KnowTheDiff/know_the_diff/utils/line_diff.ts:23-62 | one index yields at most two operations, all numbered `i+1`, never `modify`, and two of them are a removal then an addition; `IndexOpsProperties` and `IndexOpsCover` say which |
| `PositionalDiff.OpsUpTo` | KnowTheDiff/know_the_diff/utils/line_diff.ts:22-63 | the first `t` indices yield at most `2t` operations; `OpsUpToSound` adds that they are numbered 1 to `t` and never `modify`, and `OpsUpToComplete` and `ContentsUpTo` state the rest |
| `PositionalDiff.ContentsUpTo` | KnowTheDiff/know_the_diff/utils/line_diff.ts:22-63 | after any prefix of indices, the equal and removed contents are the old lines minus the empty ones facing a different line, and the equal and added contents are the new lines minus the empty ones facing a different line |
| `PositionalDiff.LineDiffContents` | KnowTheDiff/know_the_diff/utils/line_diff.ts:14-66 | for any two texts, each side comes back in order, minus exactly its empty lines at indices where the sides differ |
| `PositionalDiff.LineDiffIdentical` | KnowTheDiff/know_the_diff/utils/line_diff.ts:14-66 | a text against itself gives back all its lines on both sides, empty ones included (`"a\n"` against `"a\n"`) |
| `PositionalDiff.IndexOpsProperties` | KnowTheDiff/know_the_diff/utils/line_diff.ts:26-62 | Each index yields 0 to 2 operations, all numbered `i+1`. An `equal` op carries the identical line on both sides. A `remove` op carries a non-empty old line that differs from the new one, and an `add` op the reverse. Two ops at one index are a removal then an addition |
| `PositionalDiff.OpsUpToSound` | KnowTheDiff/know_the_diff/utils/line_diff.ts:22-63 | Over the whole walk: at most two ops per index, every op agrees with the line lists, `lineNumber` never decreases, and `modify` never appears |
| `PositionalDiff.OpsUpToComplete` | KnowTheDiff/know_the_diff/utils/line_diff.ts:26-62 | An identical index yields an `equal` op. At a differing index, a non-empty old line yields a `remove` and a non-empty new line yields an `add` |
| `PositionalDiff.LineDiffLossless` | KnowTheDiff/know_the_diff/utils/line_diff.ts:15-63 | when neither text has an empty line, equal+remove contents are the old lines and equal+add contents the new lines |
| `PositionalDiff.EmptyTextsAreOneEqualLine` | KnowTheDiff/know_the_diff/utils/line_diff.ts:15-33 | `""` against `""` is one empty line, reported `equal` at line 1 |
| `PositionalDiff.TrailingNewLineIgnored` | KnowTheDiff/know_the_diff/utils/line_diff.ts:15-63 | `"a\n"` against `"a"` yields only the equal first line: the extra empty line is absent |
| `PositionalDiff.BlankLineReplacedIsOnlyAdded` | KnowTheDiff/know_the_diff/utils/line_diff.ts:34-62 | an empty old line against `"x"` yields a lone `add`, no `remove` |
| `FileUtils.ToLower` | KnowTheDiff/know_the_diff/lib/utils.ts:32 | lower-casing keeps the length and maps each character through ASCII lower-casing |
| `FileUtils.LastIndexOf` | KnowTheDiff/know_the_diff/lib/utils.ts:30 | absent iff the character does not occur; otherwise a position holding it with no occurrence after it |
| `FileUtils.GetFileExtension` | KnowTheDiff/know_the_diff/lib/utils.ts:29-33 | `""` for a dotless name; otherwise a lower-case string starting with `.` and holding no other `.` |
| `FileUtils.ExtensionIffSuffix` | KnowTheDiff/know_the_diff/lib/utils.ts:29-33 | for a well-formed extension `e`, the extension is `e` iff the lower-cased name ends with `e` |
| `FileUtils.ExtensionCaseInsensitive` | KnowTheDiff/know_the_diff/lib/utils.ts:29-33 | lower-casing the name first does not change its extension |
| `FileUtils.DotFileExtension` | KnowTheDiff/know_the_diff/lib/utils.ts:29-33 | `".env"` is its own extension |
| `FileUtils.UpperCaseExtension` | KnowTheDiff/know_the_diff/lib/utils.ts:29-33 | the extension of `"App.TSX"` is `".tsx"` |
| `FileUtils.SupportedExtensionsWellFormed` | KnowTheDiff/know_the_diff/lib/constants.ts:16-39 | the list holds 22 entries, each a dot followed by lower-case ASCII letters only, hence a well-formed extension (one dot, no capital) |
| `FileUtils.IsSupportedFileType` | KnowTheDiff/know_the_diff/lib/utils.ts:39-42 | a supported name has a dot and a well-formed extension; `SupportedIffListedSuffix` characterises support exactly |
| `FileUtils.SupportedIffListedSuffix` | KnowTheDiff/know_the_diff/lib/utils.ts:39-42 | a name is supported iff its lower-cased form ends with one of the listed extensions |
| `FileUtils.DotlessNeverSupported` | KnowTheDiff/know_the_diff/lib/utils.ts:39-42 | a name without a dot is never supported |
| `FileUtils.SupportCaseInsensitive` | KnowTheDiff/know_the_diff/lib/utils.ts:39-42 | support does not depend on letter case |
| `FileUtils.SupportExamples` | KnowTheDiff/know_the_diff/lib/utils.ts:39-42 | `"App.TSX"` and `".env"` are supported, `"Makefile"` is not |
| `FileUtils.LangFromExtension` | KnowTheDiff/know_the_diff/lib/utils.ts:49-61 | one of the 16 table keys gives one of the table's languages; any other extension gives `"plaintext"`, and only then (inherited object keys aside, see Left out) |
| `FileUtils.LanguageKeysAreSupported` | KnowTheDiff/know_the_diff/lib/utils.ts:50-59 | every key of the language table is a supported extension |
| `FileUtils.LanguageExamples` | KnowTheDiff/know_the_diff/lib/utils.ts:49-61 | `".tsx"`→typescript and `".env"`→bash. `".TS"`, `"ts"` and `".txt"` all give plaintext: the lookup is an exact key with no case folding |
| `FileUtils.LanguageOfFileIsCaseInsensitive` | KnowTheDiff/know_the_diff/lib/utils.ts:29-61 | the language of a name's extension does not depend on the name's letter case |
| `FileUtils.SizeUnitOf` | KnowTheDiff/know_the_diff/lib/utils.ts:18-21 | B exactly below 1024 and MB exactly from 1048576 (so KB in between); `SizeUnitMonotone` and `SizeUnitBoundaries` relate the choices |
| `FileUtils.FormatBytes` | KnowTheDiff/know_the_diff/lib/utils.ts:18-21 | the byte text exactly below 1024, otherwise a scaled unit other than B, MB exactly from 1048576; `FormatBytesProperties` states the byte text |
| `FileUtils.SizeUnitMonotone` | KnowTheDiff/know_the_diff/lib/utils.ts:18-21 | a larger byte count never gets a smaller unit |
| `FileUtils.SizeUnitBoundaries` | KnowTheDiff/know_the_diff/lib/utils.ts:18-21 | B below 1024, KB from 1024 below 1048576, MB from 1048576; negative counts are B |
| `FileUtils.IntTextRoundTrip` | KnowTheDiff/know_the_diff/lib/utils.ts:19 | the interpolated text of an integer reads back as that integer |
| `FileUtils.FormatBytesProperties` | KnowTheDiff/know_the_diff/lib/utils.ts:18-21 | the byte branch is taken iff the unit is B, and prints the count unchanged followed by `" B"`; the other branches carry the chosen unit |

## Left out

- The line aligner is not modelled. `lib/diff/engine.ts` calls the `diffLines` of the jsdiff library, which is not part of this model. Its output reaches `DiffParser.ParseDiffChanges` as an arbitrary sequence of `Change` runs, so nothing here claims minimality for the line-level path. Whitespace-insensitive comparison lives in that wrapper too and is also left out.
- `computeInlineCharDiff` only forwards to jsdiff's `diffChars`, so it is left out.
- The `count` field of jsdiff's `Change` is not modelled, because the parser never reads it.
- The store, the server action and its size guard, the hooks, the React components and `cn` are UI glue or I/O, so they are left out.
- The KB and MB text of `formatBytes` is left out: it divides floating-point numbers and formats them with `toFixed`. Only the unit choice is modelled, plus the exact text of the byte branch. The byte count is modelled as an integer.
- `DiffHelper.DiffUsingLcs`: requires `lcs` to be a subsequence of both strings. On other input, the source's scanning loops read past the end of a string (`undefined`) and never stop. Its only caller, `diff`, always passes the LCS that `extract_lcs` recovers.
- `DiffHelper.ExtractLcs`: requires the table filled by `build_lcs`, which is exactly what `diff` passes it.
- Strings are sequences of characters. JavaScript's UTF-16 code-unit indexing is not modelled. Neither is Unicode `toLowerCase`: lower-casing covers ASCII letters only.
- JavaScript numbers are modelled as unbounded mathematical integers. Line numbers, counts and lengths are naturals. The byte count of `formatBytes` is an integer and may be negative. Precision loss past 2^53 is not modelled, and neither are fractional or non-finite byte counts. `FileUtils.IntText` prints every integer in plain decimal, whereas JavaScript's `${n}` switches to exponent form once |n| >= 10^21 (for example `-1e+21`), so `FileUtils.FormatBytesProperties` claims the count is printed unchanged only for integers below that magnitude in the source.
- The statistic the source calls `unchanged` is the field `unchangedCount`, because `unchanged` is a reserved word in Dafny.
- The `DiffOp` type is imported by `utils/diff_helper.ts` from a `Types` module that is not part of this model. It is defined here as an operation kind (`remove`/`add`/`equal`) and a string value.
- `langFromExtension` has 16 keys in the source table, and the model follows the code.
- FileUtils.LangFromExtension: models the table as a map holding only its 16 own keys. The source looks the key up in a plain object literal, which also inherits the `Object.prototype` members. So `"constructor"`, `"toString"` or `"__proto__"` return an inherited member in the source, not `"plaintext"`, and the model does not capture that. The callers pass the output of `getFileExtension` or `".txt"`. Those are empty or start with `.`, and no inherited key does.
- The app's line aligner is jsdiff's `diffLines`, a Myers search (`lib/diff/engine.ts`), which is not part of this model. `utils/diff_helper.ts` is a separate quadratic LCS character diff, and no module shown here calls it. The model follows that code and proves its edit script minimal.
