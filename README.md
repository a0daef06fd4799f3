# wiseimport — a Dafny model of the `sap.ui.define` header locator

wiseimport is a VS Code extension for UI5 JavaScript modules. Given the word
under the cursor, it finds a module file in the workspace and adds it to the
module's `sap.ui.define([...], function (...) {` header. The module path is
appended to the dependency list and the word to the factory's parameter
list. Both versions look only at the parameter list. When it is empty, both
texts go in inline at the insertion points, so a non-empty dependency list
gets the new path glued to its last entry without a comma. Otherwise each
text goes on a new line with the indentation ("filler") of the existing
entries, behind a comma. The current version leaves that comma out when its
walk has seen the line it stopped on end with one. The earlier version always
adds it.

The header is found purely textually. A forward scanner looks for
`sap.ui.define`, `[` and `]`, then for `function`, `(` and `)`. A backward
walker moves each closing delimiter back over blank text. It stops at
non-blank text, or just below a line holding `//`. A splitter cuts each list
into fragments and drops those whose trimmed text is empty or starts with
`//`. The model covers the current version (`helper.js`) and the earlier
one (`extension.js`). They differ in the walker (any number of steps against
at most one), the search-result rule, the path conversion, the comma rule,
the duplicate message and the hard-coded table (only `helper.js` has one).

The document is a sequence of lines (`seq<string>`, no `'\n'` inside a
line). Positions are `(y, x)` pairs ordered lexicographically. The result of
the workspace file search is an input sequence of paths. The editor's
messages and insertions are returned as an `Outcome` value holding two
`Edit`s, and `ApplyEdit` states what an insertion does to the lines.

| file | module | source |
|---|---|---|
| `wrappers.dfy` | `Wrappers` | `Option`, standing for `null`/`undefined` results |
| `text.dfy` | `Text` | the JavaScript string operations used: `trim`, `indexOf`, `lastIndexOf`, `split`, `join`, `toLowerCase`, `replace` |
| `document.dfy` | `Document` | lines, positions, `getText` |
| `scanner.dfy` | `Scanner` | `search` |
| `boundary.dfy` | `Boundary` | both `toLastCharacter`s |
| `splitter.dfy` | `Splitter` | `split`, `removeCrLf`, `getFiller` |
| `locator.dfy` | `Locator` | both `getDefines`s |
| `resolver.dfy` | `Resolver` | `findWinner`, `getTarget`, the `fsPath` conversion |
| `importer.dfy` | `Importer` | `findImport` (both versions), `processFile`, `HARD_CODED`, the insertions |
| `word.dfy` | `Word` | `getWordAtCursor` |
| `scenarios.dfy` | `Examples` | worked examples |

`split`, `search`, `getFiller`, `getText`, `removeCrLf` and
`getWordAtCursor` are the same, line for line, in both files. Each is
modelled once and cited in `helper.js`. `getDefines` differs only in the
walker it calls, so `Locator` takes a `Version` (`Current` for `helper.js`,
`Early` for `extension.js`).

`findWinner` does not replace backslashes in the import path
(helper.js:90-104). Only the earlier version replaces them, in the quoted
literal (extension.js:202, `Importer.Slashed`).

## Model

| member | source | states |
|---|---|---|
| Text.Trim | helper.js:128 | `trim()` is empty iff the input is blank, and otherwise neither starts nor ends with whitespace; it is never longer than the input |
| Text.TrimSlice | helper.js:128 | `trim()` removes exactly the leading and trailing whitespace: the result is the slice of the input after its leading whitespace, and only whitespace lies outside it |
| Text.IndexOfSpec | helper.js:195 | `indexOf(pat, from)`, with a start beyond the end clamped as in JavaScript: the result is an occurrence at or after the start with no occurrence before it, and `None` means there is none |
| Text.TrimIdempotent | helper.js:272 | trimming twice is trimming once, so the trimmed parameters are their own trim |
| Text.ContainsIff | helper.js:214 | `lastIndexOf('//') !== -1` holds iff the literal occurs somewhere in the line |
| Text.TrimEndsWithIff | helper.js:219 | the comma flag computed from the last non-space character is `line.trim().endsWith(',')` |
| Text.JoinPieces | helper.js:124 | joining the pieces of `split('\n')` with `'\n'` gives the string back |
| Text.PiecesJoin | helper.js:124 | splitting a join of separator-free parts gives the parts back |
| Document.GetText | helper.js:138-143 | the text between two positions, split at `'\n'`, is exactly the tail of the first line, the lines in between and the head of the last line; on one line it is the column slice |
| Scanner.Find | helper.js:173-186 | the result is an occurrence of the literal, not before the start, with no occurrence between the start and it; `None` iff no occurrence at or after the start (including a start line past the end) |
| Scanner.Search | helper.js:173-186 | the for-loop (start line from `point.x`, later lines from column 0) returns exactly `Find` |
| Scanner.FindIsFirstOccurrence | helper.js:173-186 | whenever the literal occurs at or after the start, the search finds something, and nothing later than that occurrence |
| Scanner.FindIsThatOccurrence | helper.js:173-186 | an occurrence with no earlier one after the start is the search result |
| Scanner.FindSkipsBlank | helper.js:247 | searching `function` from the refined importPoint finds what a search from the `]` itself finds, because only whitespace lies between them |
| Boundary.Walk | helper.js:207-223 | the walk never ends below its start; if it takes no step, the point and the comma flag are unchanged; otherwise it ends at the end of a line, and the flag is whether that line, trimmed, ends with `,` |
| Boundary.WalkAvoidsComments | helper.js:213-216 | no line the walk steps onto holds `//` |
| Boundary.WalkLeavesBlank | helper.js:211-212 | the walk leaves its start line only when the text before the start column is blank |
| Boundary.WalkPassesBlank | helper.js:212-219 | every line the walk passes over entirely is blank |
| Boundary.WalkStopsAtText | helper.js:212-216 | the walk stops at a position with non-blank text before it, or just below a line holding `//` |
| Boundary.ToLastCharacter | helper.js:207-223 | the while-loop on `x`, `y`, `comma` returns exactly `Walk` started with `comma = false` |
| Boundary.WalkAnchored | helper.js:236-241 | started at a `]` or `)` below the non-blank line of its opener, the walk is defined (`lineAt(-1)` is never reached) and never climbs above the opener's line |
| Boundary.WalkBlankBetween | helper.js:207-223 | only whitespace lies between the walk's result and its start |
| Boundary.StepBack | extension.js:97-108 | the one-step walker: unchanged iff the prefix is non-blank, otherwise the end of the previous line (blank or comment or not); never after the start, with only whitespace in between |
| Boundary.WalkAgreesWithStepBack | extension.js:97-108 | when the line above is neither blank nor a comment, both walkers end at the same position |
| Splitter.KeptIff | helper.js:128-129 | the filter test, stated on the untrimmed fragment, is `trimmed && !trimmed.startsWith('//')` |
| Splitter.KeepFirstKept | helper.js:128-131 | every fragment kept is one of the input fragments and passes the filter |
| Splitter.KeepAllConcat | helper.js:125-133 | filtering distributes over concatenation, so the order of fragments is kept |
| Splitter.Split | helper.js:122-136 | the nested loops over lines and fragments push exactly the surviving untrimmed fragments, in order (`SplitSpec`) |
| Splitter.SplitFragments | helper.js:122-136 | every fragment of `split` is non-blank and no `//` comment once trimmed, and holds neither `'\n'` nor the separator |
| Splitter.RemoveCrLfFacts | helper.js:145-147 | `removeCrLf` leaves no CR or LF, keeps only characters of its input, is the identity on text without them, is idempotent, and distributes over concatenation |
| Splitter.FillerOf | helper.js:188-205 | the filler never holds CR or LF and is always whitespace |
| Splitter.IndexOfTrim | helper.js:194-195 | `indexOf(trim())` is the length of the leading whitespace (0 for a blank part) |
| Splitter.GetFiller | helper.js:188-205 | the indexed loop with its `break` returns exactly `FillerOf`: `''` for no parts, otherwise the CR/LF-free leading whitespace of the first part that is not a `//` comment |
| Splitter.FillerOfSplit | helper.js:244-245 | on the output of `split`, the filler is the leading whitespace of the first fragment (no comment survives the split) |
| Locator.RefineList | helper.js:241 | refining the closer of a list opened by a non-blank opener is defined and lands strictly after the opener, not after the closer, on a valid position with only whitespace up to the closer; the comma flag is only set at the end of a line ending with `,` |
| Locator.LocateList | helper.js:226-241 | one list: the marker, opener and closer are the first occurrences found from the start in turn, and the refined end lies after the opener and not after the closer |
| Locator.Locate | helper.js:225-262 | both lists are found in order, and the `function` search from the refined importPoint lands strictly after the `]` |
| Locator.LocateIffChain | extension.js:110-145 | the greedy searches fail (for either version) exactly when the document has no `sap.ui.define`, `[`, `]`, `function`, `(`, `)` chain in order |
| Locator.ListFoundIfPresent | helper.js:226-241 | whenever a marker, opener and closer occur in order after the start, the greedy searches find a list, with a closer no later than the given one |
| Locator.ChainIfLocated | helper.js:225-262 | a located header is a chain of the six literals in order |
| Locator.LocatedIfChain | helper.js:225-262 | any chain of the six literals in order makes the searches succeed |
| Locator.TrimmedEntries | helper.js:266-272 | every trimmed entry of a list is non-empty, trimmed, no `//` comment, and holds neither `,` nor a line break |
| Locator.TrimmedEntry | helper.js:272 | a trimmed surviving fragment is non-empty, trimmed, no comment and keeps out what the fragment kept out |
| Locator.GetDefines | helper.js:225-276 | `None` iff no chain; the points are the refined ends of the two lists found by `Locate`, each after its opener and not after its closer; importPoint strictly before parensPoint; both points valid with a comma flag set only at the end of a line ending with `,` (never for the earlier version); every parameter is trimmed, non-empty, without comma, line break or leading `//`; both fillers are whitespace without CR or LF |
| Resolver.FirstMatch | helper.js:84 | the first path holding the marker case-insensitively, with none before it; `None` iff no path holds it |
| Resolver.CutAtLastDot | helper.js:101-104 | the result is a prefix of the path, and what is cut off is empty when there is no `.`, and otherwise starts at the last `.` |
| Resolver.FindWinner | helper.js:82-110 | `None` iff no path holds the marker; otherwise the target's path is the first path holding it, and its import path is `ImportOf` of that path |
| Resolver.ImportOfShape | helper.js:84-104 | the import path is the prefix followed by the original-case text of the path from the first case-insensitive occurrence of the marker (after it when the marker is dropped), without a leading `/`, up to the last `.` of that text, or to its end when it holds no `.` |
| Resolver.WinnersWellFormed | helper.js:11-25 | the three markers start with `/`, are lower case and hold no `.`; the `/webapp/` prefix is lower case without `.` |
| Resolver.ImportPathHead | helper.js:86-104 | the import path starts (in lower case) with the prefix followed by the marker without its leading `/`, or with the prefix alone when the marker is dropped; the cut at the last `.` never reaches into it |
| Resolver.FirstWinner | helper.js:114-117 | the first marker some path holds, with no earlier marker held by any path |
| Resolver.GetTarget | helper.js:112-120 | `None` iff no path holds any of the three markers; otherwise the result is `findWinner` for the first marker some path holds |
| Resolver.SapMFirst | helper.js:112-120 | a path holding `/sap/m/` is chosen over every other path, wherever it appears in the list |
| Resolver.SapBiWebiBeforeWebapp | helper.js:112-120 | without a `/sap/m/` path, a `/sap/bi/webi/` path is chosen over a `/webapp/` path |
| Resolver.GetTargetHead | helper.js:82-120 | every import path `getTarget` returns starts, in lower case, with `sap/m/` or `sap/bi/webi/` |
| Resolver.DropThroughColon | extension.js:192-195 | without `:` the path is kept; otherwise everything up to and including the first `:` is dropped |
| Resolver.FsPathToImport | extension.js:187-195 | after the cut at the last `.`, a path without `:` is kept, and otherwise everything through its first `:` is dropped; the result is never longer than the path |
| Importer.HardCodedKey | helper.js:293-300 | the first `HARD_CODED` key equal to the word ignoring case; `None` iff there is none |
| Importer.ProcessFile | helper.js:50-80 | no file name (missing or empty) gives no edit; otherwise the import goes to importPoint and the word to parensPoint; with no parameters they are the bare quoted path and the bare word, otherwise each is `,` (unless that point's comma flag) + `'\n'` + its own filler + the text |
| Importer.Decide | helper.js:278-310 | no define block gives `NoDefineSection`; a parameter ending with the word (ignoring case) gives `AlreadyImported` with its message shown; a hard-coded key wins over the search and is added under the key's spelling; otherwise `getTarget`'s path is added, and nothing is found iff no path holds a marker; every addition is a `processFile` |
| Importer.FindImport | helper.js:278-283 | the current `findImport` reports a missing header exactly when the document has no define chain |
| Importer.Slashed | extension.js:202 | every backslash becomes `/`, every other character is kept, and the length is unchanged |
| Importer.DecideEarly | extension.js:163-213 | the duplicate check comes first and ends silently (no message shown); no result gives not-found, several give `TooManyResults` with their count, only exactly one adds; its path is the converted `fsPath`; the import text is the quoted path with backslashes made slashes and the parameter text is the word, each preceded by `,` + `'\n'` + its list's filler whenever the parameter list is not empty, whatever the comma flags say |
| Importer.EarlyNewLines | extension.js:199-212 | on non-empty lists without comma flags, the earlier version's insertions each add one line holding the filler and the slashed path or the word, with a comma closing the entry before |
| Importer.FindImportEarly | extension.js:163-168 | the earlier `findImport` reports a missing header exactly when the document has no define chain |
| Importer.ApplyEdit | helper.js:71-76 | inserting text at a position keeps a document free of line breaks within lines, leaves every line above the position as it was, and keeps every line below it, shifted down |
| Importer.InsertWithinLine | helper.js:73-77 | text without a line break goes into its line, and no other line changes |
| Importer.InsertLineBreak | helper.js:73-77 | text with one line break splits its line in two around the position; the other lines are kept |
| Importer.AppendEntry | helper.js:59-70 | appending to a non-empty list adds exactly one line, made of the filler, the entry and the rest of the old line; the line at the insertion point then ends, trimmed, with a comma; all other lines are kept |
| Importer.NewImportLine | helper.js:67-74 | the import insertion of the current version on a located header adds exactly one line holding the filler and the quoted path; the line at importPoint then ends with a comma |
| Importer.ProcessFileImportLine | helper.js:58-74 | `processFile` on a non-empty list puts the quoted module path on the new import line, behind the import filler |
| Importer.NewParameterLine | helper.js:68-77 | the parameter insertion adds exactly one line holding the filler and the parameter; the line at parensPoint then ends with a comma |
| Importer.ProcessFileParameterLine | helper.js:58-77 | `processFile` on a non-empty list puts the parameter on the new parameter line, behind the parameter filler |
| Importer.FirstImportInline | helper.js:57-74 | on empty lists the quoted path is inserted at importPoint on the same line, and nothing else changes |
| Word.CoveringRunUnique | helper.js:164-167 | at most one `\w+` run covers a column (ends included), so the first match found is the only one |
| Word.WordInLine | helper.js:158-170 | the `regex.exec` loop finds a word iff some maximal run of `[A-Za-z0-9_]` covers the column, and the word is that run |
| Word.GetWordAtCursor | helper.js:149-171 | a multi-line selection gives `None`; a non-empty selection gives its text; an empty one gives the run covering the cursor, if any |
| Examples.ScenarioDefines | helper.js:225-276 | on the two-entry example header, `getDefines` returns the ends of `'a/b'` and `B`, the parameter `B`, two-space fillers and no comma flags |
| Examples.AddC | helper.js:50-80 | adding `a/b/C` as `C` to that header gives the header with `'a/b',` / `'a/b/C'` and `B,` / `C` |
| Examples.LoggerDecided | helper.js:290-300 | once the header is located, `logger` is decided as the hard-coded `Logger` module |
| Examples.HardCodedLogger | helper.js:290-300 | `logger` in that header adds `sap/bi/smart/core/Logger` under the parameter `Logger`, whatever the search returned |
| Examples.WindowsPath | extension.js:187-202 | the earlier version turns `c:\ws\Foo.js` into the literal `'/ws/Foo'` |
| Examples.CommaBeforeBracketDoubled | helper.js:207-223 | a `]` right behind a trailing comma on the same line leaves the comma flag unset, so appending an entry puts a second comma behind the first |
| Examples.CommaBelowComment | helper.js:212-216 | a `]` below a `//` line stops the walk there, so the comma goes on a line of its own behind an entry that already ends with one |
| Examples.GluedImportWithoutParameters | helper.js:57-59 | with an empty parameter list, both texts go in inline, and the new path is glued to the last dependency without a comma |

## Left out

- `EslintCodeProvider.js`, `activate`/`deactivate` and `openFile`: command registration and opening documents in the editor.
- `vscode.workspace.findFiles`: its glob, exclusion list, result cap and asynchrony are not modelled. Its result is an input sequence of paths; `TooManyResults` counts the paths it was given.
- The information messages: their wording is not modelled, only which one is shown (the `Outcome` constructor; for `AlreadyImported`, its `shown` flag says whether a message appears at all).
- `editor.edit`: the two insertions are returned as edits. `ApplyEdit` states the effect of one insertion, and the worked example applies the later one first. The general effect of both together is not stated.
- The definition of `HasDefineChain` is a ghost predicate: it is used to state when the locator succeeds, not to run.
- Document.GetText: requires valid, ordered positions. VS Code's clamping of out-of-range positions and swapping of reversed ones is not modelled; `getDefines` only passes ordered, valid positions (`Locator.RefineList`).
- Boundary.Walk: requires that the walk never reads line -1 (`WalkStops`). `helper.js` would throw there; inside `getDefines` this never happens (`Boundary.WalkAnchored`).
- Boundary.StepBack: requires a non-blank prefix on line 0, for the same reason (`extension.js` would read line -1).
- Text.ToLower: ASCII lower-casing only; `Text.IsSpace` is a fixed set of whitespace characters. Other Unicode case mappings and whitespace are not modelled.
- Resolver.FindWinner: the normalised `prefix` computed at helper.js:95-98 is never used (`winner.prefix` is used at helper.js:100), so it is not modelled.
- Asking twice for the same word: that the second request reports `AlreadyImported` would need `getDefines` on the edited document and is not proved.
- The `test.js` header is not used as an example: every proof about a literal document unfolds it line by line, so the worked example is the small two-entry header of `Examples`.
