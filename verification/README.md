# Verified models of the Ur/Web tooling algorithms

Dafny models of the self-contained algorithms around the Rust port of the Ur/Web compiler: the
unused-value analysis, the build script's blank-line collapse, the language server's text queries and
position mappers, diagnostic rendering, the type diff, the demo combiner and the literal printer of the
catalog generator. Each model keeps the branches, bounds and casts of the code; loops that update
variables are methods proved against a specification, and the specification is then connected to an
independent description of what the code promises.

`dafny verify dfyconfig.toml` checks the whole project.

| file | models |
|---|---|
| `Elaborated.dfy`, `NamedPaths.dfy`, `UnusedValues.dfy` | `src/lsp_unused.rs`: a set of used ids grown in place for a capped number of rounds |
| `BlankLines.dfy` | `build.rs`: sixty-four rounds of non-overlapping replacement, CRLF then LF |
| `EditorText.dfy`, `Rename.dfy` | `src/lsp_semantics.rs`: word at cursor, whole-word search, highlights, rename |
| `Folding.dfy`, `SemanticTokens.dfy` | `src/lsp_semantics.rs`: folding regions, token delta encoding |
| `SourcePositions.dfy` | `src/error_types.rs`: offsets to positions and placeholder remapping; `byte_offset_to_lsp` of `src/lsp_semantics.rs` |
| `Templates.dfy` | `src/diagnostics/render.rs`: filling message templates one argument after the other |
| `Diagnostics.dfy`, `DiagnosticReading.dfy`, `ColouredDiffs.dfy`, `Painted.dfy`, `Sgr.dfy` | `src/error_types.rs`, `src/diagnostics/render.rs`: plain and coloured rendering |
| `TypeDiff.dfy`, `DiffReading.dfy` | `src/diagnostics/type_diff.rs`: longest common subsequence of type tokens and its colouring |
| `Demo.dfy`, `DemoPages.dfy`, `DemoFiles.dfy` | `src/demo.rs`: the prose state machine, the merging of jobs, and the pages on disk |
| `RustLiteral.dfy` | `scripts/gen_diagnostic_catalog.py`: the Rust string-literal printer |
| `Strings.dfy`, `TextRows.dfy`, `Utf8.dfy`, `Wrappers.dfy` | the Rust library operations the others use |

Integers are unbounded except where the code casts: `AsU32` is the truncating `as u32` cast and
`SaturatingSub` the saturating subtraction. A `str` is a sequence of Unicode scalar values, and its
bytes are `Utf8.Encode`. A value the code reads from outside (lexer output, `.urp` files, catalog
templates, letter case, existing source files) is a parameter.

## Where the code falls short of what it aims at

Each is an exact condition together with an input at which it fails.

- The round cap of the unused analysis is not always enough. A file that begins with a recursive group in
  which each function calls the one before, and a task that runs the last, has its first function found
  exactly when the group has at most one member more than the cap (`CapCanBeTooSmall`); beyond that the
  function is used and reported unused (`ReachableIsReported`). In general an id is found exactly when
  some walk to it has at most as many ascending runs of declaration positions as there are rounds
  (`RoundsMarkExactly`), the report is right exactly when each reachable binding of the open file has such
  a walk (`ReportIsRightIff`), and as many rounds as bindings always suffice (`FewBindingsSuffice`).
- Sixty-four rounds collapse a run of line ends exactly when it is at most 301970036319 long
  (`CollapseOutcome`, `OverlongRunStays`).
- `from_offsets` answers column 0 on the line feed of a non-empty line, so that position leads back to
  another offset; `byte_offset_to_lsp` answers the start of the next line there, and so gives a line feed
  and the byte after it one position (`PositionRoundTrip`, `NewlineCollides`; "a\n" in
  `LineFeedLosesPlace`).
- Highlights are in byte columns, cursors and renames in character columns. The renamed range is a
  highlight exactly when the bytes of the line hold the word, whole, at the character column
  (`RenameRangeHighlightedIff`): always after ASCII text (`AsciiRenameIsHighlighted`), not in "é x"
  (`AccentShiftsHighlight`), and by chance in "€x x" (`EuroAgreesByChance`).
- `prepare_rename` fails on a qualifier such as `M` in `M.x`, yet accepts one that spells what follows the
  word's last dot, as in `x.x` (`RenameOfferedIff`, `QualifierRefusedOrNot`).
- A demo's description page is written where its frameset looks for it exactly when the first letter of
  the project's name survives being capitalized and uncapitalized (`DescriptionFoundIff`; on ASCII letters
  when it is no capital, `AsciiDescriptionFoundIff`, and not for `Foo.urp`, `FooDescriptionIsLost`).
- No page of a demo replaces another exactly when the names are apart (`PathsDistinctIff`): no two
  projects share a description, none is called `index`, `intro` or `demos`, and none is named like
  another's description. A project named `index` replaces the entry page (`IndexIsReplaced`), one named
  `intro` the introduction (`IntroIsReplaced`). Paths are compared as text; `./intro.urp` names the same
  file as `intro.urp` by another path, and the model does not see that.
- Template arguments are replaced one after the other. That stays in step with filling all slots at once,
  after every argument, exactly when no stray placeholder turns up on the way (`InStepIff`). The condition
  is exact for staying in step only: an argument that spells a later placeholder is filled again
  (`ArgumentIsFilledAgain`), but may come back to the same final text (`OutOfStepAndBack`).
- Folding numbers lines as `u32`: the folds are kept exactly when each ends before line 2^32 - 1, counted
  from zero (`CastsAreExactIff`); in a text of 2^32 lines one that ends on the last line is lost
  (`CastLosesFold`).

Where comments and code differ, the model follows the code. The comment on `from_offsets` speaks of line
starts, the table holds line feeds. The comment on `diff_type_strings` speaks of ASCII white space, the
split is on Unicode white space. The module comment of `lsp_unused.rs` names export, table and view
roots; index, task and policy declarations are roots too, a signature names nothing, and values bound
inside a structure are neither roots nor followed.

## Model

| member | source | states |
|---|---|---|
| UnusedValues.CollectNamedIdsExpr | src/lsp_unused.rs:14-71 | walking an expression adds exactly its named value ids to the set, solved unification variables and let groups included |
| NamedPaths.NamedExactly | src/lsp_unused.rs:14-71 | an id is among them exactly when a path of immediate subexpressions leads from the expression to a use of it: fields, case arms, both kinds of let binding and the solution of a unification variable included |
| UnusedValues.CollectNamedFromStructureRoots | src/lsp_unused.rs:73-92 | a structure adds what the root declarations inside it name |
| UnusedValues.CollectNamedFromSignatureRoots | src/lsp_unused.rs:94-107 | the walk over a signature leaves the set as it was |
| UnusedValues.CollectNamedFromSignatureItemRoots | src/lsp_unused.rs:109-116 | nor does a signature item change it |
| UnusedValues.CollectNamedFromDeclarationRoots | src/lsp_unused.rs:119-150 | a declaration adds the ids it names as a root; value bindings add none |
| NamedPaths.RootsExactly | src/lsp_unused.rs:73-150 | the roots of a file are exactly the ids so used by an expression of a table, view, index, task or policy, at any depth of structures and exports |
| NamedPaths.BindingsExactly | src/lsp_unused.rs:158-178 | the bindings visited are exactly the top-level `val`s and the members of top-level `val rec`s |
| UnusedValues.BindingsInOrder | src/lsp_unused.rs:156-178 | and they are visited in the order of the declarations |
| UnusedValues.VisitBinding | src/lsp_unused.rs:158-165 | a marked binding marks all its body names; the flag is set exactly when the set changed |
| UnusedValues.ExpandOnce | src/lsp_unused.rs:155-180 | one round is one in-order pass over all bindings, group members included, and reports whether anything was added |
| UnusedValues.ExpandUsedFromRoots | src/lsp_unused.rs:152-185 | leaving the loop early gives the same set as running all capped rounds |
| UnusedValues.RoundsStable | src/lsp_unused.rs:181-183 | once a round adds nothing, no later round does |
| UnusedValues.PassIsReached | src/lsp_unused.rs:156-178 | everything marked in mid-round is reached by a walk that fits the rounds so far |
| UnusedValues.WalkIsMarked | src/lsp_unused.rs:156-178 | a walk of r ascending runs is fully marked as soon as round r has visited its last binding |
| UnusedValues.RoundsMarkExactly | src/lsp_unused.rs:152-185 | r rounds mark exactly the ids some walk of at most r ascending runs reaches |
| UnusedValues.ExpandingRoundsEnlargeLive | src/lsp_unused.rs:158-176 | each round that adds something strictly enlarges the set of bindings found live when visited |
| UnusedValues.EnoughRounds | src/lsp_unused.rs:153-154 | after as many rounds as bindings nothing more can be added |
| UnusedValues.RoundsAreLeastClosed | src/lsp_unused.rs:152-185 | the result is then the least set with the roots that a live binding's body does not leave |
| UnusedValues.UsedAgainstReachable | src/lsp_unused.rs:152-185 | for any cap: the roots are used, only reachable ids are, and all are exactly when each has a walk the cap allows |
| UnusedValues.FewBindingsSuffice | src/lsp_unused.rs:153-154 | with no more bindings than rounds, used is reachable |
| UnusedValues.CapCanBeTooSmall | src/lsp_unused.rs:153-154 | in a file that begins with a backward chain of functions and a task running its end, the reachable first function is marked exactly when the chain has at most one member more than the cap, whatever declarations follow |
| UnusedValues.CapInFigures | src/lsp_unused.rs:153 | the cap is 512 for up to eight declarations and 64 for each declaration above |
| UnusedValues.ShortFileChain | src/lsp_unused.rs:153-154 | alone in its file, such a chain is found to its end exactly up to 513 functions |
| UnusedValues.ReportDeclaration | src/lsp_unused.rs:201-232 | warnings pushed for one declaration, in order, with the kind of warning for group members |
| UnusedValues.ReportUnusedTopLevelValues | src/lsp_unused.rs:188-234 | the reporter gains exactly the warnings of the analysis, in source order, after what it held |
| UnusedValues.WarnedPositions | src/lsp_unused.rs:201-232 | ascending positions of exactly the warned bindings |
| UnusedValues.WarningsReportExactly | src/lsp_unused.rs:201-232 | one warning for each warned binding, in that order, with its name, its place and whether it is a member of a group |
| UnusedValues.PathsMatchExactly | src/lsp_semantics.rs:140-157 | two paths match when equal, when the declaration's ends with the open one after a slash, or when the open one ends with the declaration's |
| UnusedValues.BackslashPathMatches | src/lsp_semantics.rs:117-137 | backslashes count as slashes |
| UnusedValues.ReportForEveryCap | src/lsp_unused.rs:187-234 | for every file: one warning, in source order, for exactly the bindings of the open file that no walk within the cap reaches |
| UnusedValues.ReportIsRightIff | src/lsp_unused.rs:187-234 | the report is the unreachable bindings of the open file, and no others, exactly when each reachable one has a walk within the cap |
| UnusedValues.FewBindingsReportRight | src/lsp_unused.rs:187-234 | it is right with no more bindings than rounds |
| UnusedValues.ReachableIsReported | src/lsp_unused.rs:187-234 | a chain longer than that has its first function, although reachable, reported |
| UnusedValues.UnreachableIsReported | src/lsp_unused.rs:187-234 | whatever the cap, no unreachable binding of the open file goes unreported |
| BlankLines.ReplaceRun | build.rs:32 | one replace turns a run of m line ends into m - m/3 |
| BlankLines.OneRound | build.rs:32 | one replace shrinks every run of the text that way and moves nothing else |
| BlankLines.ShrinkBelowIff | build.rs:28-33 | exactly which run lengths r rounds bring down to a target |
| BlankLines.LimitOfSixtyFourRounds | build.rs:28 | sixty-four rounds reach two from exactly up to 301970036319, which is above 2^37 |
| BlankLines.EarlyExit | build.rs:29-31 | stopping when no triple is left is the same as running all rounds |
| BlankLines.MappedContains | build.rs:29 | a shrunk text holds n line ends in a row exactly when the original held the matching number |
| BlankLines.PassOutcome | build.rs:28-33 | one pass leaves no triple exactly when no run exceeds the limit, and then each run of k is min(k, 2) |
| BlankLines.LfMapKeepsCrlf | build.rs:26 | the LF pass neither makes nor removes runs of CRLF |
| BlankLines.CrlfMapKeepsLf | build.rs:26 | the CRLF pass neither makes nor removes runs of LF |
| BlankLines.CollapseOutcome | build.rs:25-34 | after both passes neither triple is left exactly when both kinds of run in the input were within the limit |
| BlankLines.OverlongRunStays | build.rs:25-34 | one line feed more than the limit, and three in a row are left |
| BlankLines.CollapseBlankLines | build.rs:25-34 | the nested bounded loops compute the two passes and meet that condition |
| EditorText.ScanBack | src/lsp_semantics.rs:44-50 | the backward scan stops at the start of the identifier run, never at its bound |
| EditorText.WordAtCursor | src/lsp_semantics.rs:36-74 | the word is the run before the cursor and the qualified word after it, or none |
| EditorText.IdentCharsAre | src/lsp_semantics.rs:19-21 | identifier characters are ASCII letters and digits, the underscore and the prime |
| EditorText.PrimedWord | src/lsp_semantics.rs:36-74 | in "x1'" the word at both ends is the line |
| EditorText.WordShape | src/lsp_semantics.rs:51-73 | identifier characters and dots before identifier characters, maximal on both sides, ending in an identifier character |
| EditorText.LastSegmentIsIdent | src/lsp_semantics.rs:458-461 | its last segment is a non-empty identifier |
| EditorText.LastSegment | src/lsp_semantics.rs:458 | the dot-free suffix after the last dot |
| EditorText.NextOccurrence | src/lsp_semantics.rs:486-488 | the first occurrence from a byte on, and no whole word before it |
| EditorText.SearchRound | src/lsp_semantics.rs:485-505 | a round accepts the least whole word, skips safely past a rejected occurrence, or shows there is none |
| EditorText.SkipIsSafe | src/lsp_semantics.rs:492-501 | no whole word starts inside a skipped occurrence |
| EditorText.BoundaryAfterOccurrence | src/lsp_semantics.rs:486 | a skip lands on a character boundary of the UTF-8 text |
| EditorText.FindWord | src/lsp_semantics.rs:480-508 | the least whole word at or after the start, none exactly when there is none; the rounds never run out |
| EditorText.WholeWordsExact | src/lsp_semantics.rs:463-476 | the listed occurrences ascend and are exactly the whole words |
| EditorText.WholeWordsListed | src/lsp_semantics.rs:463-476 | and do not overlap |
| EditorText.HighlightLine | src/lsp_semantics.rs:464-475 | searching again from each end finds every whole word of the line once; the budget never ends it |
| EditorText.DocumentHighlights | src/lsp_semantics.rs:454-478 | every whole word of the cursor's last segment on every line, in order, none without a word |
| Rename.ScanForward | src/lsp_semantics.rs:683-689 | the forward scan stops at the end of the identifier run |
| Rename.PrepareRename | src/lsp_semantics.rs:670-697 | the range of the identifier run when it spells the last segment |
| Rename.RenameShape | src/lsp_semantics.rs:670-697 | a renamed range is the maximal identifier run at the cursor and spells the word's last segment |
| Rename.RenameOfferedIff | src/lsp_semantics.rs:690-692 | succeeds exactly when there is a word at the cursor and, if a dot and identifier follow the run, the characters after the word's last dot spell the run |
| Rename.QualifierRefusedOrNot | src/lsp_semantics.rs:690-692 | refused on the qualifier of "M.x", offered on that of "x.x" |
| Rename.RenamedRunIsHighlighted | src/lsp_semantics.rs:454-478 | the renamed run is one of the highlights, at its byte offset |
| Rename.HighlightedIff | src/lsp_semantics.rs:463-476 | a range is among the highlights exactly when a whole word of its line starts at that byte |
| Rename.RenameRangeHighlightedIff | src/lsp_semantics.rs:670-697 | at one cursor, the range to rename is among the highlights exactly when the bytes of the line hold the word, whole, at its character column |
| Rename.AsciiRenameIsHighlighted | src/lsp_semantics.rs:670-697 | which is always so after ASCII text |
| Rename.AsciiOffset | src/lsp_semantics.rs:470-473 | byte and character columns agree exactly after ASCII text |
| Rename.AccentShiftsHighlight | src/lsp_semantics.rs:470-473 | after a two-byte letter the range to rename is no highlight |
| Rename.EuroAgreesByChance | src/lsp_semantics.rs:470-473 | after a three-byte sign it is one, on account of another word |
| Folding.BlockEnd | src/lsp_semantics.rs:970-980 | the inner loop finds the next header or the end of the text |
| Folding.HeaderExactly | src/lsp_semantics.rs:967-968 | a header is a line with `fun ` or `val ` after nothing but white space |
| Folding.ValIsHeader | src/lsp_semantics.rs:967-968 | an indented `val` line is one, an `and` line is not |
| Folding.FoldingRanges | src/lsp_semantics.rs:958-998 | line numbers cast, both bounds idle: the folds of the text in order, if and only if each ends before line 2^32 - 1 |
| Folding.CastsAreExactIff | src/lsp_semantics.rs:969-982 | the casts change nothing exactly when every fold ends before line 2^32 - 1 |
| Folding.FewLinesEndBelow | src/lsp_semantics.rs:969-982 | as all do in a text of fewer than 2^32 lines |
| Folding.CastLosesFold | src/lsp_semantics.rs:981-982 | at 2^32 lines the fold of the whole text is lost |
| Folding.FoldsMember | src/lsp_semantics.rs:967-992 | exactly the headers with lines under them, up to the next header or the last line |
| Folding.FoldsInOrder | src/lsp_semantics.rs:967-992 | folds ascend and do not overlap |
| Folding.BodyLineIsFolded | src/lsp_semantics.rs:967-992 | every line under a header is in a fold |
| SourcePositions.NewlineTableExact | src/error_types.rs:140-145 | the table ascends and holds exactly the byte offsets of line feeds |
| Utf8.EncodedCodePoint | src/error_types.rs:140-145 | the bytes of a character stand for it in UTF-8 |
| SourcePositions.InsertionIndex | src/error_types.rs:118 | the contract of a binary search on an ascending table |
| SourcePositions.SearchMeaning | src/error_types.rs:116-131 | a hit is a line feed, and the index counts the line feeds before the offset |
| SourcePositions.PositionMeaning | src/error_types.rs:115-137 | line is one more than the line feeds before, at every offset; column is the distance to the line start, or 0 on a line feed |
| SourcePositions.LineStartIsLatest | src/error_types.rs:124 | the line start used there follows a line feed or opens the text, with no line feed after it |
| SourcePositions.PositionRoundTrip | src/error_types.rs:115-137 | a position leads back to its offset exactly off the line feeds of non-empty lines |
| SourcePositions.PositionInjective | src/error_types.rs:115-137 | distinct offsets that are no line feeds get distinct positions |
| SourcePositions.LspMeaning | src/lsp_semantics.rs:1000-1009 | exact off line feeds, the start of the next line on them |
| SourcePositions.LineFeedLosesPlace | src/error_types.rs:115-137 | in "a\n" the line feed has the position of the letter, and in the other mapper that of the end |
| SourcePositions.MappersAgreeAt | src/lsp_semantics.rs:85-90 | the two mappers agree exactly off line feeds, and how they differ there |
| SourcePositions.MappersAgree | src/lsp_semantics.rs:85-90 | the same for the two ends of a span |
| SourcePositions.LspMonotone | src/lsp_semantics.rs:1000-1009 | later offsets never get earlier positions, line feeds included |
| SourcePositions.NewlineCollides | src/lsp_semantics.rs:1001-1002 | a line feed shares its position with the byte after it, unless that is a line feed too |
| SourcePositions.SpanCell.EnsureFileLabel | src/error_types.rs:97-101 | only an empty label is replaced |
| SourcePositions.SpanCell.RemapAfterLalrpopParseWithLineTable | src/error_types.rs:157-185 | the guarded in-place remap with its clamping |
| SourcePositions.SpanCell.RemapAfterLalrpopParse | src/error_types.rs:151-154 | the same with the table of the buffer |
| SourcePositions.RemapIdempotent | src/error_types.rs:157-185 | a second remap changes nothing, for every span, label, buffer and ascending table |
| SourcePositions.RemapReadsPlaceholder | src/error_types.rs:147-185 | in every non-empty buffer, the placeholder of bytes l to r gets at each end the position of that byte, or of the last byte for an end past the buffer |
| SourcePositions.RemapKeepsOthers | src/error_types.rs:163-180 | whatever is no placeholder keeps its positions and gets the label if it had none |
| SourcePositions.LastDeclarationEnd | src/error_types.rs:181-184 | in "val x = 1" the exclusive end 9 becomes 1:8 |
| SemanticTokens.EncodeTokens | src/lsp_semantics.rs:833-883 | one entry for each token with its length, type and saturating deltas; nothing on a lexer failure |
| SemanticTokens.ClientSeesToken | src/lsp_semantics.rs:794-816 | a client finds the token's end by its length and the name of its class in the legend |
| SemanticTokens.DecodeEncodeIff | src/lsp_semantics.rs:863-868 | client decoding recovers every place exactly when the places are in order |
| SemanticTokens.PlacesSorted | src/lsp_semantics.rs:861 | tokens sorted by start give places in order |
| SemanticTokens.SortedTokensDecode | src/lsp_semantics.rs:849-878 | so sorted tokens decode to exactly the places the server gave them |
| TypeDiff.ComputeLcsTable | src/diagnostics/type_diff.rs:27-43 | every cell holds the recurrence for its two prefixes |
| TypeDiff.LcsIsLongest | src/diagnostics/type_diff.rs:17-26 | no common subsequence is longer than the recurrence says |
| TypeDiff.BacktrackLcs | src/diagnostics/type_diff.rs:56-77 | the pushed and reversed matches are those of the backward walk |
| TypeDiff.MatchesAreLongest | src/diagnostics/type_diff.rs:45-55 | they form a common subsequence of maximal length |
| TypeDiff.MarkMatched | src/diagnostics/type_diff.rs:115-121 | the mask marks exactly the matched positions |
| TypeDiff.ColourTokens | src/diagnostics/type_diff.rs:123-136 | tokens joined by spaces, the unmatched ones coloured |
| TypeDiff.ComputeDiff | src/diagnostics/type_diff.rs:98-153 | both coloured sides, or the originals when a side is empty or they are equal |
| DiffReading.DiffShowsLongestCommon | src/diagnostics/type_diff.rs:79-88 | in the two texts of a diff the words outside colours are the same list, a common subsequence of both types, and none is longer |
| DiffReading.DiffColours | src/diagnostics/type_diff.rs:81-86 | the other words are the types' own, on red in the inferred type and on green in the expected one |
| DiffReading.NoDiffWithoutDifference | src/diagnostics/type_diff.rs:102-111 | equal types, and types one of which is blank, come back as they are |
| TypeDiff.PlainTokensAgree | src/diagnostics/type_diff.rs:81-86 | both sides leave the same tokens plain, as many as the recurrence says |
| TypeDiff.DiffErases | src/diagnostics/type_diff.rs:79-97 | erasing the colours gives each side back, white space normalised where it was coloured |
| Templates.ReplaceFillsIff | src/diagnostics/render.rs:24-27 | one replacement fills exactly the template's slots if and only if no stray placeholder of that number is in the text, or the argument is that placeholder |
| Templates.InStepIff | src/diagnostics/render.rs:22-30 | the replacements agree with simultaneous substitution after each argument exactly when no stray placeholder ever turns up |
| Templates.SafeBracesFill | src/diagnostics/render.rs:22-30 | the result is the simultaneous substitution when no brace of the template's text or of an argument but the last can begin a placeholder; record types written in braces are such arguments |
| Templates.SubstitutedSafe | src/diagnostics/render.rs:56-63 | a rendered suffix is again an argument of that kind |
| Templates.ArgumentIsFilledAgain | src/diagnostics/render.rs:22-30 | an argument that spells a later placeholder is replaced in turn |
| Templates.OutOfStepAndBack | src/diagnostics/render.rs:22-30 | three arguments with which the replacements leave the simultaneous substitution and end equal to it |
| Diagnostics.SplitUndoesWithHint | src/error_types.rs:337-349 | splitting undoes appending a hint trailer, up to trimming |
| Diagnostics.FormatForUser | src/error_types.rs:729-793 | the text that the next rows read back |
| DiagnosticReading.SpanReads | src/error_types.rs:188-194 | the text of a span, read from its end, gives back the file and both positions |
| DiagnosticReading.LocatedErrorReads | src/error_types.rs:648-675 | the rows of an error with a place tell its kind, the lines of its trimmed body, its place and its hint |
| DiagnosticReading.PlainErrorReads | src/error_types.rs:735-737 | those of a plain error its kind and its body |
| DiagnosticReading.IoErrorReads | src/error_types.rs:778-790 | those of an I/O error its kind, the prelude and the system's message |
| DiagnosticReading.KindWords | src/error_types.rs:735-790 | the word of each kind of error |
| DiagnosticReading.BannerWidth | src/error_types.rs:305-326 | a banner is 62 bytes wide, or wider with eight dashes |
| DiagnosticReading.PayloadReads | src/diagnostics/render.rs:75-90 | a formatted payload is split into its rendered body and its hint again |
| DiagnosticReading.RenderShows | src/diagnostics/render.rs:56-63 | each slot of a template shows the argument of its number, or the suffix after those |
| DiagnosticReading.ColouredRows | src/error_types.rs:465-494 | the coloured rows are the plain ones with the banner in its colour, the place in cyan and the hint in green |
| DiagnosticReading.BannerColours | src/error_types.rs:411-443 | the colour of each severity |
| Diagnostics.FormatForTerminal | src/error_types.rs:530-610 | the plain text without colour; with colour, text that erases to the plain text of every variant without diff hints |
| Diagnostics.SameWithoutDiffHints | src/diagnostics/render.rs:108-134 | the coloured payload renderer is the plain one when no diff is asked for |
| Diagnostics.RenderEscapeFree | src/diagnostics/render.rs:56-63 | rendering escape-free texts writes no escape |
| Diagnostics.TerminalErasesToUser | src/error_types.rs:530-610 | erasing SGR sequences from the coloured text gives the plain text, for every variant |
| ColouredDiffs.DiffIsArgument | src/diagnostics/render.rs:114-125 | a diff of two arguments, diffed before or not, leaves the plain arguments' words in colours, white space normalised |
| ColouredDiffs.RenderedErases | src/diagnostics/render.rs:108-134 | erasing the colours of a payload gives its plain rendering with the diffed arguments white-space normalised |
| ColouredDiffs.ExplanationErases | src/error_types.rs:648-675 | trimming and splitting coloured text into lines commutes with erasing |
| ColouredDiffs.WithHintErases | src/error_types.rs:337-349 | splitting off the hint finds the same hint under the colours |
| ColouredDiffs.TerminalErasesToNormalized | src/error_types.rs:530-610 | with diff hints, the coloured text of every variant erases to the plain text of the error with its diffed arguments normalised |
| Painted.PaintsContains | src/error_types.rs:337-339 | a text without escapes that starts with a line feed, found in coloured text, is found under the colours |
| Sgr.ErasesWrapped | src/error_types.rs:478 | text between a colour and a reset erases to the text |
| Demo.CombinedJob.MergeSources | src/demo.rs:174-178 | sources become the first occurrences of everything so far |
| Demo.CombinedJob.Merge | src/demo.rs:159-187 | the merged state is that of all jobs so far; it fails exactly on a different database, and says which two |
| Demo.GatheredInOrder | src/demo.rs:180-183 | rewrites, filters and safe gets are concatenated in job order |
| Demo.FirstOccurrencesMeaning | src/demo.rs:174-178 | each source once, at its first position, none dropped |
| Demo.LargestTimeout | src/demo.rs:185-187 | the maximum of the timeouts |
| Demo.DatabasesAgreeOneMore | src/demo.rs:160-172 | comparing with the first named database is comparing with all |
| TextRows.LinesAreRows | src/demo.rs:113 | the lines of a text are what stands between its line feeds, without one carriage return before each, and a last piece if it is not empty |
| Demo.SectionsKeepLines | src/demo.rs:113-242 | the prose is the introduction and then each section's head and lines: none lost, added or moved |
| Demo.SectionsSplitAtUrpLines | src/demo.rs:114 | section heads are the `.urp` lines and nothing else is |
| Demo.Machine.ProseLine | src/demo.rs:230-241 | a prose line goes to the open section, or to the introduction |
| Demo.Machine.UrpLine | src/demo.rs:114-229 | a `.urp` line flushes what was open, writes its entries and frameset, merges its job, and fails exactly as stated |
| Demo.ExpectedAfterProse | src/demo.rs:230-241 | that is the state that belongs to the longer prose |
| Demo.ExpectedAfterUrp | src/demo.rs:114-229 | likewise for a `.urp` line |
| Demo.Machine.Finish | src/demo.rs:244-267 | the last flush, or the failure without a `.urp` line |
| Demo.Make | src/demo.rs:103-267 | succeeds exactly when there is a `.urp` line, all projects parse and databases agree, with the pages and job of all sections; otherwise it tells that there is no demo, leaving the introduction, or why the first failing line fails |
| DemoPages.DescriptionFoundIff | src/demo.rs:124 | a frameset finds its description page exactly when the first letter of the name survives being capitalized and uncapitalized |
| DemoPages.AsciiDescriptionFoundIff | src/demo.rs:124 | on ASCII letters, exactly when it is no capital |
| DemoPages.FooDescriptionIsLost | src/demo.rs:124 | the description of "Foo.urp" is not found |
| DemoPages.AllPageOrder | src/demo.rs:60-267 | entry page, signature and introduction come first, navigation and main program last |
| DemoPages.AllPagesAt | src/demo.rs:113-253 | in between, each section's frameset and description, in that order |
| DemoFiles.UnlinesRows | src/demo.rs:233-240 | a page's lines are read back from its rows |
| DemoFiles.EntryPageIs | src/demo.rs:60-78 | the texts of the entry page and of the signature |
| DemoFiles.KeptIff | src/demo.rs:128 | a page is on disk at the end exactly when the last page of its path has the same content |
| DemoFiles.PathsDistinctIff | src/demo.rs:113-267 | no path is written twice exactly when the projects' names are apart from each other and from `index`, `intro` and `demos` |
| DemoFiles.IndexIsReplaced | src/demo.rs:60-67 | the frameset of a project named `index` is what stays of the entry page |
| DemoFiles.IntroIsReplaced | src/demo.rs:131-153 | the frameset of a project named `intro` is what stays of the introduction |
| DemoFiles.MakeDemo | src/demo.rs:60-267 | a successful run writes the entry page, the signature, the introduction with the prose before the first project, each section's frameset and its description with the section's lines, a navigation with one item and a program with one link for each section in order; no path is written twice exactly when the names are apart, and then all pages are on disk |
| RustLiteral.EscapedIsOneEscape | scripts/gen_diagnostic_catalog.py:11-16 | the four replacements are one simultaneous escape |
| RustLiteral.LiteralRoundTrip | scripts/gen_diagnostic_catalog.py:9-17 | the literal lexer reads the text back and stops right after the literal |
| RustLiteral.LiteralIsOneLine | scripts/gen_diagnostic_catalog.py:14-15 | the literal holds no raw line end |

## Left out

- The compiler passes (lexing, parsing, elaboration, monomorphisation, code generation): not part of this model; token lists and elaborated declarations are inputs.
- The other replacements of `postprocess_grammar_rs` (attribute lines, type aliases) and its file access.
- Unification variables whose solution is cyclic or locked by another thread: a solution is a finite subtree.
- File access of the demo builder: pages are collected as path and content in the order they are written, and `OnDisk` says what stays of them. Pages and the `demo.urs` and `demo.ur` beside their directory are told apart by their paths as text; links, `.` and `..` are not resolved.
- `demo.urp` and the compilation after it: written last, under a name no page has.
- Letter case outside ASCII: case mapping is a parameter; `AsciiCasing` fixes it for ASCII letters only.
- Rust literal escapes the printer never writes: the lexer model reads the simple escapes and rejects `\x`, `\u` and line continuations.
- TerminalErasesToUser: covers errors without diff hints, for all templates; `TerminalErasesToNormalized` covers errors with them.
- TerminalErasesToNormalized: asks that no brace of a template text or an argument can begin a placeholder, that a diffed argument does not end with such a brace open, that each slot of a template has an argument, and that the body of a located error does not itself spell the hint trailer.
- LocatedErrorReads: speaks of files whose name holds no line feed, which a reader of rows could not tell from a row end.
- The mapping from single lexer tokens to the classes of `TokenClass` (`src/lsp_semantics.rs:803-816`): a token comes with its class.
- Folding from elaborated spans, hover, completion, definitions and symbols: easy walks over declarations.
- Writing to standard error, tracing, terminal detection and catalog texts.
