# Verified models of polka

polka patches PHP configuration files in place, resolves the value expressions of
framework manifests, keeps dotenv files, owns the files of PECL packages, loads
scripts and replays a captured MSVC environment. This project models that logic in
Dafny and proves what each part is for. To check it, run
`dafny verify dfyconfig.toml`.

## What is modelled

**The PHP patcher** (`plugins/framework_php.go`). A source is a sequence of pieces:
HTML, blanks, comments and tokens. `PhpLexer` defines the scan and proves the splice
theorem: pieces may be exchanged for others without disturbing the rest of the scan.
`PhpTokens` treats brackets as Dyck words, `PhpArray` and `PhpDefines` give literal
arrays and `define` calls their meaning on tokens, and the `Patch`, `Laws`, `Runs` and
`Exact` modules carry this over to the text that the three patchers produce. The
functions of these modules are the specification; the loops of the program are the
methods of `PhpScanner`, `PhpArrayReader`, `PhpArrayPatcher`, `PhpConstantPatcher`,
`PhpIncludePatcher` and `PhpEdits`, which compute exactly those functions. What the
functions find is stated a second time with the characters and words spelled out:
`PhpGrammar` is a grammar of sources, `PhpReturned` says which `return` counts and which
tokens are a literal array, `PhpCalls` which are `define` calls, `PhpConstantPlace` and
`PhpConstantBytes` where new calls go in and as what text. A source is described there
by its outline (`PhpOutline`), the tokens with each call as one item.

**The manifest values** (`plugins/manifest_values.go`). The checker is a class that
marks named values; the evaluator is a class with a memo. Acceptance is equivalent to
well-formedness without a reference cycle, and it makes evaluation total.
`ManifestMeaning` spells out the words of the language: what is accepted, and what each
reference, branch and formatter reads.

**The framework actions** (`plugins/framework_actions.go`). One action resolves all its
values, edits one text and writes it once, or not at all.

**The dotenv files** (`plugins/framework_composer.go`, `cli/env_runtime.go`). The writer
works line by line on a sequence that it overwrites; the reader undoes the quoting.
`DotenvReads` says what every form of value and of line reads as.

**PECL packages** (`backend/pecl.go`). A class holds the files under the install root
and the recorded packages. SHA-256 is injective. A file that is in use can be neither
replaced nor deleted, so that steps can fail half-way; a run is any sequence of
installs, upgrades and removals, failing ones included.

**The script loader** (`script/script.go`). A script is the list of names it loads, and
whether it runs apart from them.

**Worker commands** (`config/workers.go`), **UTF-16LE** and the **MSVC environment**
(`backend/msvc.go`, `cli/command_sh.go`).

## What is not true of the code

These families were found while proving. Each is bounded by a condition that is proved
in both directions.

- A line comment ends before `?>`. A value whose first token is a `?>` that ends a line
  comment cannot be overwritten: the new text lands in the comment
  (`PhpArraySwallow.WritableExactly`, `PhpConstantExact.ConstantsWritableExactly`;
  `PhpExamples.ReturnedLost`, `PhpExamples.CommentedLost`).
- `patchPHPConstants` does not look at what stands before the place where it adds calls.
  Behind `$`, `->`, `::`, `function` or a qualified name the first new call is not a
  call of the global `define` (`PhpConstantExact.ConstantsWritableExactly`,
  `PhpExamples.DollarLost`).
- `patchPHPInclude` deletes the raw text between the markers when it moves the block,
  and does not look at what meets there. The application's code survives exactly when
  the brackets outside the block are balanced and, unless the block is at the end
  already, the code behind it may follow the code before it (`PhpIncludeExact.IncludeKeeps`).
  A word right in front of the block runs into a word behind it
  (`PhpIncludeExact.JoinedLost`).
- A run of `patchPHPInclude` may make the first CRLF of a file: a lone carriage return
  stands where the block goes, or meets a line feed where the old block is taken out, or
  the name of the included file has a CRLF. Then, and only then, the second run rewrites
  the block with other line breaks (`PhpIncludeBreaks.IncludeIdempotent`,
  `PhpIncludeBreaks.LoneReturn`).
- The dotenv writer escapes `$`, which the reader refuses (`Dotenv.RenderParse`), and
  each run of the writer drops one carriage return from lines that end in several
  (`DotenvText.UpsertIdempotentExactly`, `DotenvText.DotenvActionIdempotent`).
- An upgrade may overwrite a companion that another package shares, and leaves that
  package's recorded digest behind (`PeclRoundTrip.InstallAccurate`,
  `PeclRoundTrip.StaleDigest`).
- Removing a freshly installed package does not undo the installation when another
  package's record names a file that was missing, or one that differs only in letters
  that fold together on a disk that tells them apart (`PeclRoundTrip.InstallThenRemove`).
- Records compare paths without regard to case, also on a disk that tells case apart.
  There a file that no record lists is safe unless a step installs it while a record has
  a variant of it (`PeclLaws.UnlistedSafe`). Module names are lower-cased before they
  become targets, so no two of them differ in case, with two exceptions: the long s and
  the Greek letter mu fold to other lower-case letters (`PeclLaws.ApartSafe`,
  `PeclLaws.LowerApart`, `PeclRoundTrip.CaseVariant`).

## Model

| member | source | states |
|---|---|---|
| PhpLexer.ScanLexes | plugins/framework_php.go:19-105 | no byte of a scanned source is lost or invented: the pieces flatten to the source |
| PhpLexer.LexesScan | plugins/framework_php.go:19-105 | pieces that lex in order are what scanning their text returns, whatever follows them |
| PhpLexer.Splice | plugins/framework_php.go:19-105 | replacing pieces by a text gives the old prefix, the new pieces and the old suffix if and only if the text may follow the pieces before it |
| PhpLexer.SplitScan | plugins/framework_php.go:19-105 | a scan can be cut between any two pieces, and the rest scans to the remaining pieces |
| PhpGrammar.ScansExactly | plugins/framework_php.go:19-105 | a text scans into given pieces if and only if these make it up, each is of the form of its kind and ends where the next begins: HTML, tags, blanks, both forms of comments, strings, names, operators |
| PhpGrammar.ScanRefuses | plugins/framework_php.go:19-105 | a scan is refused with a reason if and only if, behind pieces of the grammar, an opening tag that is not `<?php`, a comment or string without an end, a heredoc or a backtick follows |
| PhpTokens.CheckIsBalanced | plugins/framework_php.go:109-119 | the bracket check accepts exactly the Dyck words over the three kinds of brackets |
| PhpTokens.MatchIsGroup | plugins/framework_php.go:161-182 | the bracket that is found closes a bracketed group |
| PhpTokens.GroupMatches | plugins/framework_php.go:161-182 | every bracketed group is found, whatever follows it |
| PhpGrammar.BalancedIs | plugins/framework_php.go:109-119 | balanced tokens are none, or one that is no bracket and balanced ones, or a bracket, balanced ones, the bracket of its kind that closes it, and balanced ones |
| PhpGrammar.BracketsRefused | plugins/framework_php.go:161-182 | brackets are refused as unterminated if more tokens would balance them, and as unbalanced if none would |
| PhpScanner.LineComment | plugins/framework_php.go:49-55 | the loop stops at the line break, the `?>` or the end that ends the comment |
| PhpScanner.QuotedString | plugins/framework_php.go:68-85 | the loop stops behind the first quote that no backslash escapes, or reports that there is none |
| PhpScanner.IdentifierRest | plugins/framework_php.go:89-93 | the loop stops behind the longest identifier |
| PhpScanner.WordToken | plugins/framework_php.go:68-104 | strings, identifiers and symbols: the piece that the scan has there, with its span, or the unterminated string |
| PhpScanner.PhpToken | plugins/framework_php.go:37-104 | each branch in PHP code returns the piece that the scan has there, with its span |
| PhpScanner.HtmlToken | plugins/framework_php.go:23-36 | outside PHP code the next opening tag is found, or refused when it is not `<?php` |
| PhpScanner.Matching | plugins/framework_php.go:161-182 | the stack loop finds the bracket that closes the given one, with the same errors |
| PhpScanner.CheckAll | plugins/framework_php.go:109-119 | the final loop accepts exactly what the check on lexemes accepts |
| PhpScanner.ScanPHP | plugins/framework_php.go:19-121 | the scanning loop accepts exactly the sources that parse, and returns their tokens and comments with their offsets |
| PhpGrammar.ParsesSource | plugins/framework_php.go:19-121 | a source is read as given tokens and what stands between them if and only if these make it up by the grammar, there is a token, and the brackets are balanced |
| PhpGrammar.ParsesNothing | plugins/framework_php.go:106-108 | a source without a token is refused as such |
| PhpScanner.LexemeSpans | plugins/framework_php.go:9-15 | token i of the document stands at the offsets of lexeme i |
| PhpSpans.SpansSound | plugins/framework_php.go:19-121 | spans are in bounds, strictly ordered and disjoint, comments included, and their text is the source's |
| PhpSpans.SpansCover | plugins/framework_php.go:19-121 | in PHP code every byte outside all spans is a blank |
| PhpLiterals.DecodeEscaped | plugins/framework_php.go:128-158 | decoding a key undoes single-quoting, for every text |
| PhpLiterals.DecodeRefuses | plugins/framework_php.go:128-158 | in double quotes the escapes of backslash, quote, dollar, line feed, carriage return and tab are decoded; a variable and every other escape are refused |
| PhpLiterals.EscapedIs | plugins/framework_composer.go:154-159 | the two replacements amount to escaping each character once |
| PhpLiterals.QuotedScans | plugins/framework_composer.go:154-159 | a quoted string scans as one token, whatever follows, and reads back as the text |
| PhpScalars.RenderedIsLiteral | plugins/framework_php.go:560-580 | every rendered scalar scans to plain tokens, the last of which does not run into what follows |
| PhpScalars.RenderedReads | plugins/framework_php.go:560-580 | what was rendered reads back as the scalar itself: null, the same boolean, the same number, the same text; exactly the numbers that are not finite are refused |
| PhpScalars.LiteralLexes | plugins/framework_php.go:560-580 | a literal scans to the same tokens in front of everything that can follow a value |
| PhpArrayReader.ReadKey | plugins/framework_php.go:128-158 | the loop decodes a key, and refuses interpolation and unknown escapes |
| PhpArrayReader.Segments | plugins/framework_php.go:186-211 | the loop splits at exactly the commas outside all brackets |
| PhpArrayReader.EntryKey | plugins/framework_php.go:245-253 | a segment has a key exactly when it is a literal string, `=>` and a value |
| PhpArrayReader.Entries | plugins/framework_php.go:243-260 | the loop returns all entries, or the first error, a duplicate key included |
| PhpArrayReader.ParseTokens | plugins/framework_php.go:224-261 | accepts exactly the token ranges that are literal arrays, and returns their entries with their ranges, or the first reason to refuse the range |
| PhpArrayReader.ReturnValue | plugins/framework_php.go:285-303 | what stands behind a return is accepted exactly when it is a literal array and a semicolon; otherwise the reason is where the array fails to end or to parse |
| PhpArrayReader.ReturnedArray | plugins/framework_php.go:265-311 | returns the one array behind the only `return` outside all brackets, which is not the name of a variable or member, or reports that there is none, for the reason that the specification gives |
| PhpReturned.ReturnedExactly | plugins/framework_php.go:265-311 | tokens s to e are the returned array if and only if the token before s is the only one that spells `return`, in any case, with balanced tokens before it and none of `$`, `->` and `::`, and a literal array and a semicolon stand behind it |
| PhpReturned.NoneReturned | plugins/framework_php.go:307-309 | without such a `return` there is no returned array |
| PhpReturned.ManyReturned | plugins/framework_php.go:282-284 | with another one behind the first array there are too many |
| PhpReturned.ParsesExactly | plugins/framework_php.go:224-261 | tokens are a literal array if and only if they are `[` to `]`, or `array` in any case and a bracket pair, around entries of a literal key, `=>` and one expression, with one comma between each two and perhaps one behind the last, and no key twice |
| PhpReturned.LookupEntry | plugins/framework_php.go:350-383 | a path goes on in the value of the entry that has its first key, and nowhere when there is none |
| PhpReturned.LookupEnds | plugins/framework_php.go:345-356 | the empty path ends at its value, and no path leads through what is no literal array |
| PhpReturned.PatchedExactly | plugins/framework_php.go:336-390 | a patch is made if and only if the path is not empty, the source scans and returns an array, and the path leads through literal arrays |
| PhpArray.ParseUnparse | plugins/framework_php.go:224-261 | the parsed structure writes out as the parsed tokens |
| PhpArray.UnparseParse | plugins/framework_php.go:224-261 | a well-formed structure parses back to itself |
| PhpArray.ReturnedSplice | plugins/framework_php.go:265-311 | exchanging the returned array for another one keeps it the returned array |
| PhpArray.PutLookup | plugins/framework_php.go:381-383 | below a replaced value one finds what lies below the new one |
| PhpArray.PutFrame | plugins/framework_php.go:381-383 | every path that parts from the replaced one finds the same tokens |
| PhpArray.AppendLookup | plugins/framework_php.go:357-380 | an appended entry is found, and every other key keeps its value |
| PhpEntries.NestedLookup | plugins/framework_php.go:327-332 | through the new nested arrays the keys lead to the value, and to it only |
| PhpEntries.ReadsNested | plugins/framework_php.go:327-332 | the rendered text of nested arrays scans to their tokens |
| PhpArrayPatch.ReplaceValue | plugins/framework_php.go:382 | replacing a value's span replaces its tokens and no others |
| PhpArrayPatch.InsertEntryAt | plugins/framework_php.go:374-379 | an entry inserted before a closing bracket adds its tokens and no others |
| PhpArrayPatch.InsertComma | plugins/framework_php.go:359-364 | the comma behind the last entry adds one token |
| PhpArrayPatcher.FindEntry | plugins/framework_php.go:350-356 | the loop finds the entry of the key, or none |
| PhpArrayPatcher.AddEntry | plugins/framework_php.go:357-380 | computes the text with the new entry: comma, indentation, line break and nesting |
| PhpArrayPatcher.PatchArrayValue | plugins/framework_php.go:336-390 | the descending loop succeeds exactly when the specification does, with the same text; otherwise it reports the empty path, the scan, the returned array or the first value on the path that is no literal array |
| PhpArrayLaws.PatchReads | plugins/framework_php.go:336-390 | what was written is read back, and every path that parts from it reads the same tokens as before |
| PhpArrayLaws.PatchSame | plugins/framework_php.go:382 | writing what is there already changes no byte |
| PhpArrayLaws.PatchIdempotent | plugins/framework_php.go:336-390 | a second run changes nothing |
| PhpArrayLaws.PatchBytes | plugins/framework_php.go:357-383 | every byte outside the value's own span survives; a new entry is one line before the closing bracket of the last array on the path, with the line break of the file and as far in as the first entry or four spaces further than the array, and a comma comes in exactly behind an entry that has none |
| PhpArraySwallow.WritableExactly | plugins/framework_php.go:49-55 | a value can be overwritten by every literal if and only if its first token is not a `?>` that ends a line comment |
| PhpArrayActions.ActionReads | plugins/framework_actions.go:169-185 | after a fold over prefix-free paths every path reads back its own value |
| PhpArrayActions.ActionFrame | plugins/framework_actions.go:169-185 | after the fold every path that parts from all written ones reads the same tokens |
| PhpArrayActions.ActionIdempotent | plugins/framework_actions.go:169-185 | running the fold a second time returns the source |
| PhpArrayActions.WritesCommute | plugins/framework_actions.go:169-185 | the order of two writes that do not meet makes no difference to what is read |
| PhpEdits.Apply | plugins/framework_php.go:398-417 | the loop from right to left computes the specified text or error |
| PhpEdits.EditsRefine | plugins/framework_php.go:398-417 | edits apply exactly when in bounds and disjoint, and then equal the simultaneous replacement of all spans |
| PhpEdits.EditsGrowth | plugins/framework_php.go:398-417 | the length changes by the sum of the edit deltas |
| PhpEdits.EditsOrder | plugins/framework_php.go:398-417 | the order of the edits is irrelevant when no two insertions share an offset |
| PhpDefines.SetValue | plugins/framework_php.go:468-474 | replacing the value of one call changes that entry and no other |
| PhpOutline.SetOutline | plugins/framework_php.go:468-474 | and it leaves everything around the calls as it was |
| PhpDefines.InsertCalls | plugins/framework_php.go:482-497 | inserted calls add exactly their entries, in place, unless suppressed |
| PhpOutline.InsertOutline | plugins/framework_php.go:482-497 | the inserted calls stand together where they were inserted, and everything else as before |
| PhpConstants.EndsInPhp | plugins/framework_php.go:429-443 | when no fallback point is found the source ends in PHP code |
| PhpConstants.LineInGaps | plugins/framework_php.go:488-491 | moving the insertion to the start of a blank line stays between tokens |
| PhpConstantText.InsertBlock | plugins/framework_php.go:492-496 | the inserted lines scan to the tokens of the new calls and disturb nothing |
| PhpConstantPatch.EditsDown | plugins/framework_php.go:468-498 | applying the value edits from right to left settles every managed call |
| PhpConstantPatcher.StartsDefine | plugins/framework_php.go:444-452 | recognizes exactly the calls of the global function |
| PhpCalls.DefinesExactly | plugins/framework_php.go:444-452 | a token starts a call if and only if it spells `define`, in any case, with `(` behind it, none of `$`, `->`, `::` and `function` before it, and no name and backslash before it |
| PhpConstantPatcher.DefineCall | plugins/framework_php.go:453-464 | returns key and value range, or the specified reason why the call is not a literal define |
| PhpCalls.CallsExactly | plugins/framework_php.go:453-464 | a call is read if and only if its arguments are a literal string, a comma, one expression, and perhaps a third argument and a last comma; then the key and the range of the second argument are these |
| PhpCalls.WalksExactly | plugins/framework_php.go:431-476 | given calls are found if and only if they are literal calls of the global function, in order, and every other token that starts such a call belongs to one of them |
| PhpConstantPatcher.MissingLines | plugins/framework_php.go:481-486 | one line for every managed key that was not found, in order |
| PhpConstantPatcher.Finish | plugins/framework_php.go:487-498 | the block goes to the line start or behind a line break, together with the edits |
| PhpConstantPatcher.PatchConstantsIn | plugins/framework_php.go:421-499 | the loop succeeds exactly when the specification does, with the same text; otherwise it reports what comes first, a call that cannot be read or a managed key met twice |
| PhpConstantRuns.ConstantsRun | plugins/framework_php.go:421-499 | a run succeeds when no managed key is defined twice, keeps the calls of other keys in order, and sets the managed ones if and only if it does not lose the first call that it adds |
| PhpConstantRuns.ConstantsWritten | plugins/framework_php.go:421-499 | every managed key ends up in exactly one call with its value, and all other calls are the same tokens in the same order |
| PhpConstantPlace.PlaceIs | plugins/framework_php.go:439-479 | new calls belong before the first call outside braces that defines the anchor; without one, before the first closing tag or `require`, `require_once`, `include` or `include_once` outside braces; without one, at the end |
| Text.LowersListed | plugins/framework_php.go:439 | lower-casing exchanges the letters of ASCII in their order and two others, and keeps every other character |
| PhpConstantPlace.ConstantsPlaced | plugins/framework_php.go:421-499 | a run adds one call for each key that has none, in the given order, at that place but for spaces, and leaves the order of all other calls and tokens as it was |
| PhpConstantPlace.ConstantsBefore | docs/framework-manifests.md:110 | in the result the first anchor stands right behind the added calls; without an anchor none of them stands behind a closing tag or a bootstrap include outside braces |
| PhpConstantBytes.ConstantsBytes | plugins/framework_php.go:480-498 | without a missing key only values change; else the missing calls come in as one line each, with the line break of the file, at the start of the line where they belong, or behind a line break of their own if something else than spaces stands there |
| PhpConstantRuns.ConstantsSame | plugins/framework_php.go:421-499 | a source that holds the values already is left alone |
| PhpConstantRuns.ConstantsIdempotent | plugins/framework_php.go:421-499 | a second run is the identity where the constants can be set |
| PhpConstantRuns.ConstantsAgain | plugins/framework_php.go:421-499 | where no value falls into a comment, a second run is the identity if and only if the first one did not lose a call that it added; otherwise the text grows |
| PhpConstantExact.SuppressedLost | plugins/framework_php.go:439-452 | where no value falls into a comment, a run sets all constants if and only if the token before the insertion point does not suppress the calls to be added |
| PhpConstantExact.SwallowedKeyLost | plugins/framework_php.go:473 | where a managed value starts at the end of a comment, some literal for its key is not found after the run, whatever the other values are |
| PhpConstantExact.ConstantsWritableExactly | plugins/framework_php.go:421-499 | a set of constants can be set to all literals if and only if the source is scanned and defines none of them twice, the value of none starts at the end of a comment, and the calls to be added are not suppressed |
| PhpExamples.DollarLost | plugins/framework_php.go:447-449 | behind a dollar sign at the end of a file no constant can be added |
| PhpExamples.CommentedLost | plugins/framework_php.go:47-56 | a concrete define whose value cannot be overwritten |
| PhpExamples.ReturnedLost | plugins/framework_php.go:47-56 | a concrete array entry whose value cannot be overwritten |
| PhpIncludeBlock.ReadsBlock | plugins/framework_php.go:529-530 | the rendered block scans to its pieces, markers and quoted file name included |
| PhpIncludeBlock.BlockSays | plugins/framework_php.go:529-530 | between its markers the block says, token by token: if the file exists below `__DIR__`, include it |
| PhpIncludeBlock.BlockBalanced | plugins/framework_php.go:530 | the block is bracket balanced |
| PhpIncludeFresh.FreshInclude | plugins/framework_php.go:528-555 | the file that is made of an empty PHP file, line by line |
| PhpIncludePatcher.MarkerComments | plugins/framework_php.go:510-524 | finds the marker comments, and reports duplicates, and nothing else, as such |
| PhpInclude.MarkersExactly | plugins/framework_php.go:509-527 | there is a block if and only if each marker comment stands there once, the start before the end; none, a marker that is there twice, and everything else are told apart |
| PhpIncludePatcher.FindBlock | plugins/framework_php.go:510-527 | finds the span of the block, or reports the duplicate or the missing or misplaced marker |
| PhpIncludePatcher.LastPosition | plugins/framework_php.go:531-539 | the loop computes the end of the last PHP section |
| PhpIncludePatcher.PutBlock | plugins/framework_php.go:552-555 | the block goes in on a line of its own |
| PhpIncludePatcher.PatchIncludeIn | plugins/framework_php.go:504-556 | computes the specified text, or the specified error |
| PhpIncludeRuns.IncludeManaged | plugins/framework_php.go:504-556 | afterwards exactly one block exists, only spaces separate it from the end of the last section, and the application's tokens, comments and HTML are unchanged |
| PhpIncludeRuns.IncludeParses | plugins/framework_php.go:540-555 | where the code behind the block may follow the code before it, or the block is at the end already, the result can be scanned again if and only if the brackets are balanced without the old block |
| PhpIncludeExact.IncludeKeeps | plugins/framework_php.go:504-556 | for every source whose markers are found, the run keeps the application's code if and only if the brackets are balanced without the old block and, unless the block is at the end already, the code behind it may follow the code before it |
| PhpIncludeExact.JoinedLost | plugins/framework_php.go:546-550 | a balanced source in which two words become one |
| PhpIncludeRuns.IncludeAgain | plugins/framework_php.go:528-555 | a second run changes nothing if and only if the first kept the line break of the file |
| PhpIncludeBreaks.EolStays | plugins/framework_php.go:313-318 | a run keeps the line break of the file if and only if the file uses CRLF or the run does not make the first one |
| PhpIncludeBreaks.IncludeIdempotent | plugins/framework_php.go:504-556 | a second run changes nothing if and only if the file uses CRLF, or there is no CRLF in the file name, no carriage return where the block goes, and none that meets a line feed where the old block was |
| PhpIncludeBreaks.LoneReturn | plugins/framework_php.go:552-555 | a lone carriage return makes the second run differ |
| PhpIncludeHistory.AppendRun | plugins/framework_php.go:540-555 | after a text was appended that does not run into the file the block moves behind it and nothing of it is lost |
| PhpIncludeHistory.IncludeHistory | plugins/framework_php.go:504-556 | over any run of appending and patching, in PHP code and behind closing tags, the block is alone and at the end and the application's code is all that was written, in order |
| PhpIncludeHistory.CodeExtended | plugins/framework_php.go:504-556 | PHP code may be appended to PHP code any number of times, whether or not it ends in a line break |
| PhpIncludeHistory.HistoryAgain | plugins/framework_php.go:504-556 | patching the end of such a run again changes nothing if and only if the last run read CRLF or did not make the first one |
| PhpIncludeHistory.HistoryIdempotent | plugins/framework_php.go:504-556 | so it does on every CRLF file, and wherever neither the file nor what is added has a carriage return |
| ManifestValues.RankedAcyclic | plugins/manifest_values.go:260-274 | a graph in which references fall in rank has no cycle |
| ManifestChecker.ValueChecker.Check | plugins/manifest_values.go:226-258 | accepts an expression only if it and all its branches are sound and their references finished; refuses it only for a fault or a cycle |
| ManifestChecker.ValueChecker.Visit | plugins/manifest_values.go:260-274 | each named value is gone through at most once, and one in progress closes a cycle |
| ManifestChecker.ValueChecker.CheckActions | plugins/manifest_values.go:276-296 | accepts the actions only if all bindings and dotenv names are sound |
| ManifestChecker.CheckNames | plugins/manifest_values.go:206-224 | accepts exactly the manifests whose runtime names are valid and not declared twice |
| ManifestMeaning.VariablesAccepted | plugins/manifest_values.go:299-310 | a variable name has letters, digits, underscores and dots, and no digit or dot in front |
| ManifestChecker.ValidateValues | plugins/manifest_values.go:162-175 | accepts a manifest if and only if it is well-formed and its reference graph, unused branches and formatter operands included, has no cycle; acceptance gives a ranking |
| ManifestMeaning.ReferencesAccepted | plugins/manifest_values.go:238-250 | exactly the server URL, the mail port, the seven fields of the database and the declared values and runtime variables may be referred to |
| ManifestMeaning.BranchesAccepted | plugins/manifest_values.go:231-237 | branches are accepted if and only if they are for the four engines, each sound, and there is one for every declared engine |
| ManifestMeaning.FormatsAccepted | plugins/manifest_values.go:113-153 | exactly four shapes of formatters are accepted, with the operands that each must and may have |
| ManifestChecker.AllSettled | plugins/manifest_values.go:260-274 | the order in which named values finish ranks the references |
| ManifestEvaluator.SameEval | plugins/manifest_values.go:394-420 | the outcome does not depend on how references are ranked |
| ManifestEvaluator.NeverUnknown | plugins/manifest_values.go:346-385 | on an accepted manifest evaluation never meets an unknown reference, whatever the credentials |
| ManifestEvaluator.AcceptedEvaluates | plugins/manifest_values.go:345-420 | on an accepted manifest every accepted expression has one outcome: a value or a runtime error |
| ManifestMeaning.BuiltinReads | plugins/manifest_values.go:350-371 | each of the seven database fields, the server URL and the mail port reads the field of its own name; without credentials a database field is an error |
| ManifestMeaning.NamedReads | plugins/manifest_values.go:372-391 | a reference to a named value reads what that value evaluates to, runtime variables before those of the database |
| ManifestMeaning.BranchReads | plugins/manifest_values.go:401-409 | the branch of the credentials' engine is read, and no other |
| ManifestMeaning.LiteralReads | plugins/manifest_values.go:395-419 | a literal reads itself; the default stands in for null and the empty text, and only for these |
| ManifestMeaning.OperandShows | plugins/manifest_values.go:422-439 | an operand shows its value: nothing when it is missing or null, otherwise its text |
| ManifestMeaning.VersionReads | plugins/manifest_values.go:449-460 | a version loses the blanks around it and the named prefix, in any case, gets the new prefix and zeros up to the wanted number of parts |
| ManifestMeaning.VersionBare | plugins/manifest_values.go:449-460 | of a text that is nothing but the prefix the zeros are left |
| ManifestMeaning.VersionBlank | plugins/manifest_values.go:449-452 | a blank text has no version |
| ManifestMeaning.HostPortReads | plugins/manifest_values.go:471-485 | the host alone, or host and port with brackets around a host with a colon, or the error for an empty host or a bad port |
| ManifestMeaning.UrlReads | plugins/manifest_values.go:486-508 | each part of the URL is the text of the operand of its own name; credentials are there if an operand for them is |
| ManifestMeaning.QueryReads | plugins/manifest_values.go:491-500 | the query has the parameters whose text is not empty, in order |
| ManifestMeaning.PortIs | plugins/manifest_values.go:474-479 | a port is a decimal number from 1 to 65535, perhaps behind a plus sign |
| ManifestEvaluator.ValueState.ReferenceValue | plugins/manifest_values.go:345-392 | with any memo of earlier results, returns what memo-free evaluation returns |
| ManifestEvaluator.ValueState.EvalValue | plugins/manifest_values.go:394-420 | the same for expressions, defaults included, with each fixed reference reading the field of its own name; it terminates by rank and then by size |
| ManifestEvaluator.ValueState.TextValue | plugins/manifest_values.go:422-432 | the same for optional operands |
| ManifestEvaluator.ValueState.FormatValue | plugins/manifest_values.go:441-510 | the same for formatters, with their errors |
| FrameworkActions.OrderedKeys | plugins/manifest_values.go:513-521 | the loop returns the given order and then the remaining keys |
| FrameworkActions.OrderedIsAll | plugins/manifest_values.go:513-521 | these are all the keys, each once, the given order first |
| FrameworkActions.ResolveAll | plugins/framework_actions.go:139-147 | succeeds exactly when every key has a value, and returns each key's own |
| FrameworkActions.RenderAll | plugins/framework_actions.go:187-194 | succeeds exactly when every value has a literal, and returns each key's own |
| FrameworkActions.WriteUpdate | plugins/framework_actions.go:171-184 | the inner loop continues the fold with the writes of one update, and fails exactly when a value or a patch fails |
| FrameworkActions.ArrayAction | plugins/framework_actions.go:169-185 | the nested loops compute the fold of the patches over all declared paths, or fail exactly when it fails |
| FrameworkActions.DotenvBranch | plugins/framework_actions.go:159-168 | the assignments carry the values in order, and the line breaks of the file are kept |
| FrameworkActions.RunAction | plugins/framework_actions.go:134-220 | for each of the five kinds of action, one complete write of the edited text to the target, or an error and no write at all |
| FrameworkActions.WriteBranch | plugins/framework_actions.go:196-211 | the loop binds every key to its own text or literal, or fails exactly when one has none, and fills the template |
| Templates.SubstituteFills | plugins/framework_actions.go:209-211 | however a template is cut at its placeholders, the text between them stays and each becomes its value, which is not read again |
| Templates.HeadIs | plugins/framework_actions.go:209-211 | a placeholder is a name between double braces, and nothing else is |
| Templates.Chunks | plugins/framework_actions.go:209-211 | every template can be cut so |
| FrameworkRuns.ArrayDeclared | plugins/framework_actions.go:169-185 | after the action PHP reads at every declared key the scalar that its own expression evaluates to, and all other paths are as before |
| FrameworkRuns.ConstantsDeclared | plugins/framework_actions.go:186-195 | after the action every declared constant has one call, from which PHP reads the scalar that its own expression evaluates to, and the other calls are as before |
| FrameworkRuns.FileDeclared | plugins/framework_actions.go:196-211 | a written file is the template with each placeholder replaced by the value of its own expression, as a literal that reads as this scalar or as its text |
| FrameworkRuns.DotenvDeclared | plugins/framework_actions.go:159-168 | every line that assigns a declared name assigns the text of its own expression, which is read back if and only if it has no dollar sign |
| FrameworkRuns.FileRead | plugins/framework_actions.go:98-123 | an action edits the file itself if it is there, then its fallback, then the template |
| FrameworkRuns.FreshFile | plugins/framework_actions.go:124-130 | without any of these php-include writes a file with nothing but the block, dotenv starts from nothing, and the others are refused |
| FrameworkRuns.EditedTwice | plugins/framework_actions.go:158-217 | an action that patches a file gives the same text on what it produced if and only if the line breaks of the file allow it |
| FrameworkRuns.ActionTwice | plugins/framework_actions.go:134-220 | a second run of a successful action leaves every file as it is, for write-file always, for the others if and only if the line breaks allow it |
| DotenvWriter.ActiveNames | plugins/framework_composer.go:52-58 | the names of all lines that assign without a comment sign |
| Text.SpacesListed | plugins/framework_composer.go:95 | the spaces are the 25 characters with the property White_Space |
| DotenvWriter.RewriteLines | plugins/framework_composer.go:60-77 | the loop that overwrites lines computes the new lines and the names it wrote |
| DotenvWriter.MissingLines | plugins/framework_composer.go:79-84 | lines for exactly the assignments whose names no line mentions |
| DotenvWriter.UpsertAssignments | plugins/framework_composer.go:39-91 | the whole rewriting computes the specified text |
| DotenvLaws.UpsertCarries | plugins/framework_composer.go:60-77 | every active line of a managed name carries the new value |
| DotenvLaws.UpsertActivates | plugins/framework_composer.go:60-88 | every managed name has an active line |
| DotenvLaws.UpsertOnce | plugins/framework_composer.go:60-88 | a managed name keeps the places of its active lines; without one it gets exactly one, in place of the first line that mentions it if there is one |
| DotenvLaws.UpsertKeeps | plugins/framework_composer.go:60-88 | all other lines stay, in order, with at most one blank line added |
| DotenvLaws.UpsertApart | plugins/framework_composer.go:79-88 | new lines stand at the end, behind a blank line unless nothing is before them, and that line is added only where there is none |
| DotenvLaws.LinesIdempotent | plugins/framework_composer.go:39-91 | a second run over the lines changes nothing |
| DotenvText.UpsertIdempotentExactly | plugins/framework_composer.go:39-91 | a second run over the text changes nothing if and only if every line that ends in a further carriage return is rewritten |
| DotenvText.DotenvActionIdempotent | plugins/framework_actions.go:159-168 | the action, which restores CRLF, is idempotent if and only if the file uses CRLF, no kept line ends in a further carriage return, or the result is a single line |
| DotenvText.LoneReturnLine | plugins/framework_composer.go:45-49 | a line that ends in two carriage returns makes the second run differ |
| Dotenv.ParseDoubleQuoted | cli/env_runtime.go:257-282 | the loop finds the quote that no backslash escapes, checks what follows and decodes |
| Dotenv.ParseSingleQuoted | cli/env_runtime.go:284-299 | the loop finds the closing quote and checks what follows |
| Dotenv.StripInlineComment | cli/env_runtime.go:301-315 | the loop cuts at the first sign that starts the value or follows a space |
| Dotenv.RenderParse | plugins/framework_composer.go:122-151 | reading a written value returns it if and only if it has no dollar sign |
| DotenvReads.SingleReads | cli/env_runtime.go:284-299 | in single quotes the text up to the next quote is the value, and only spaces and a comment may stand behind |
| DotenvReads.DoubleReads | cli/env_runtime.go:257-282 | in double quotes the text up to the first quote that is not escaped is decoded, and only spaces and a comment may stand behind |
| DotenvReads.PlainReads | cli/env_runtime.go:301-315 | without quotes the value is what stands before the comment, without the spaces around it |
| DotenvReads.LettersRead | cli/env_runtime.go:271 | the escapes with a letter or a sign, and that there are no others |
| DotenvReads.NumberedReads | cli/env_runtime.go:271 | the escapes with a hexadecimal number, surrogates and too large numbers refused |
| DotenvReads.OctalReads | cli/env_runtime.go:271 | the escapes with three octal digits |
| DotenvReads.CharactersRead | cli/env_runtime.go:271 | every other character stands for itself; line feeds, quotes and unknown escapes are refused |
| DotenvReads.ByteSpaces | cli/env_runtime.go:309 | which characters a comment sign may stand behind: the last byte decides, taken as a character |
| DotenvReads.LineReads | plugins/framework_composer.go:94-115 | a line assigns its name behind any spaces, comment sign and `export`, and is commented if and only if the sign is there |
| Pecl.KeySame | backend/pecl.go:866-874 | two paths of one file are the same path to the records, on every system |
| Pecl.SameLetters | backend/pecl.go:866-874 | the records take two paths for the same if and only if, after cleaning, their names have the same letters up to case |
| Pecl.RecordContainsPath | backend/pecl.go:866-874 | whether a record names the path, up to case |
| Pecl.FileReferencedByOtherPackage | backend/pecl.go:853-864 | whether the record of another package names the path |
| Pecl.InstallRoot.CopyArtifact | backend/pecl.go:890-918 | the target holds the artifact, or nothing changed |
| Pecl.InstallRoot.InstallArtifact | backend/pecl.go:923-960 | creates a missing file, replaces an owned one, shares or leaves an identical companion, and refuses everything else without a change |
| Pecl.InstallRoot.InstallPayload | backend/pecl.go:449-476 | the artifacts one after the other, until the first error |
| Pecl.InstallRoot.RecordFiles | backend/pecl.go:398-410 | the record has every tracked path with the digest of what is on disk |
| Pecl.InstallRoot.RemoveSuperseded | backend/pecl.go:416-428 | deletes exactly the old files that no record names any more and nobody changed |
| Pecl.InstallRoot.Install | backend/pecl.go:370-431 | one install or upgrade, also when it fails half-way, is the specified step |
| Pecl.InstallRoot.Remove | backend/pecl.go:198-225 | one removal deletes exactly the unshared, unmodified files up to the first that cannot be removed, and forgets the record exactly when there is none |
| Pecl.OneArtifact | backend/pecl.go:923-960 | one artifact leaves every other file alone and changes an existing file only if the package owns it |
| Pecl.PayloadKeeps | backend/pecl.go:923-960 | a payload deletes nothing and changes only owned files, even when it fails |
| Pecl.InstallAllReadable | backend/pecl.go:398-403 | every tracked artifact is a readable file at the end |
| PeclLaws.ChangedTracked | backend/pecl.go:449-476 | everything that a payload created or changed is tracked |
| PeclLaws.TrackedTrackable | backend/pecl.go:923-960 | a tracked path lies inside the root and is new, owned or another package's |
| PeclLaws.StepFrame | backend/pecl.go:177-227 | a step deletes a file only with the contents its record hashed and with no other record naming it, and changes it only if its record names it |
| PeclLaws.StepUnnamed | backend/pecl.go:923-960 | one step leaves a file that no record names as it is, and unnamed if and only if it does not put a new case variant of it on record |
| PeclLaws.UnnamedSafe | backend/pecl.go:923-960 | over any run a file that no record names stays unnamed if and only if no step puts a case variant of it on record, and until then it is neither changed nor deleted |
| PeclLaws.WindowsSafe | backend/pecl.go:868 | on Windows no step does so |
| PeclLaws.InstallSucceeds | backend/pecl.go:449-476 | a payload is installed completely if and only if each artifact finds an owned or missing file that is not in use, or shares the same contents |
| PeclLaws.InstallDeletes | backend/pecl.go:412-428 | a successful install deletes a file if and only if the old record has it with its contents, inside the root and not in use, and neither another record nor the new one names it; it changes no other record |
| PeclLaws.InstallRecords | backend/pecl.go:400-413 | a successful install has an artifact on record if and only if it is new, the package's own or on another package's record, nothing else, and the digest of what is on disk |
| PeclLaws.RemoveDeletes | backend/pecl.go:198-225 | a removal forgets the record if and only if no file of its own is in the way, and has then deleted exactly its own unmodified files |
| PeclLaws.StepUnlisted | backend/pecl.go:923-960 | where case tells files apart, a step never deletes a file that no record lists, and leaves it as it is and unlisted unless it installs it while a record has a variant of it |
| PeclLaws.UnlistedSafe | backend/pecl.go:923-960 | the same over any run; and if the installs succeed, exactly then the file is put on record |
| PeclLaws.ApartSafe | backend/pecl.go:535 | where no two recorded paths or targets differ in case only, no run touches a file that no record lists |
| PeclLaws.LowerApart | backend/pecl.go:330 | lower-case names without a long s or a Greek mu do not differ in case only |
| PeclLaws.OwnerSafe | backend/pecl.go:198-201 | over any run that leaves a package alone, no file of its record is deleted |
| PeclRoundTrip.InstallThenRemove | backend/pecl.go:198-225 | installing a package without a record and removing it restores all files and records if and only if no created file was named by another record |
| PeclRoundTrip.PresentUnclaimed | backend/pecl.go:853-864 | on Windows this is so whenever every recorded file exists |
| PeclRoundTrip.InstallAccurate | backend/pecl.go:938-940 | an install keeps all recorded digests in step with the disk if and only if it brings no other contents for a shared companion |
| PeclRoundTrip.RemoveAccurate | backend/pecl.go:198-225 | a removal keeps the digests of all other packages in step, even when it stops early |
| PeclRoundTrip.StaleDigest | backend/pecl.go:938-940 | an upgrade of a shared companion leaves the other owner's digest stale |
| PeclRoundTrip.CaseVariant | backend/pecl.go:866-874 | where the disk tells case apart, a file that no record lists is overwritten by an upgrade whose lower-case module name folds to the recorded one |
| ScriptLoader.ModuleLoader.Execute | script/script.go:118-143 | runs the loads in order; fails only if a file cannot be run or a path leads back to itself |
| ScriptLoader.ModuleLoader.Load | script/script.go:146-173 | a finished file is not run again, a file in progress closes a cycle |
| ScriptLoader.NamesAccepted | script/script.go:147-155 | a name is accepted if and only if there is a load directory and it is made of proper elements with slashes between them, the last with the ending `.star` |
| ScriptLoader.LocatedBelow | script/script.go:157 | the file is the name below the load directory |
| ScriptLoader.NoTrouble | script/script.go:146-173 | files that finish after what they load are on no cycle |
| ScriptLoader.LoadScript | script/script.go:83-107 | loading terminates, starts no file twice, finishes each file after what it loads, and succeeds if and only if no reachable file is faulty and no path leads back to itself |
| WorkerCommand.SplitWorkerCommand | config/workers.go:113-153 | the loop over the characters computes the specified split or error |
| WorkerCommand.SplitsWords | config/workers.go:113-153 | for every cut of a line into spaces, bare and quoted bits the words are the bits between spaces, an open quote and a line without words being refused |
| WorkerCommand.CutsLine | config/workers.go:113-153 | every line can be cut so |
| WorkerCommand.SplitQuoted | backend/store.go:2680-2682 | splitting arguments that were quoted for the shell returns them, empty ones and mixed quotes included |
| Utf16.OrDisjoint | backend/msvc.go:493-497 | the or of words without a common bit is their sum |
| Utf16.UnitIs | backend/msvc.go:493 | the shifted or of two bytes is the little-endian unit |
| Utf16.PairIs | backend/msvc.go:497 | the shift, or and add expression is the arithmetic definition of a surrogate pair |
| Utf16.DecodeUtf16le | backend/msvc.go:487-506 | the loop computes the specified decoding, lone surrogates and odd lengths included |
| Utf16.DecodeOdd | backend/msvc.go:488-490 | data of odd length and no data are passed through, and nothing else is |
| Utf16.DecodeEncode | backend/msvc.go:487-506 | decoding inverts the encoding of RFC 2781, sections 2.1 and 2.2, for every nonempty text |
| Utf16.DecodeLone | backend/msvc.go:498-506 | a surrogate that is not half of a pair becomes U+FFFD, and nothing around it changes |
| PathLists.SplitSemicolonList | backend/msvc.go:543-552 | the trimmed, nonempty entries in order |
| PathLists.AddedListEntries | backend/msvc.go:556-572 | the loop computes the added entries |
| PathLists.AddedLaws | backend/msvc.go:556-572 | added entries are captured, absent from the baseline and without duplicates, and together they cover what was captured |
| PathLists.AddedOrder | backend/msvc.go:556-572 | added entries keep their order |
| PathLists.JoinPathList | cli/command_sh.go:601-613 | the nonempty entries, trimmed and joined |
| PathLists.JoinEntries | cli/command_sh.go:601-613 | splitting what was joined gives the prepended entries and then the entries of the old list |
| PathLists.JoinSplits | cli/command_sh.go:601-613 | the joined list splits at the separator of the system into the entries again |
| Msvc.LookupEnvValue | cli/command_sh.go:550-562 | finds the first entry of the name |
| Msvc.ReplaceEnvValue | cli/command_sh.go:564-591 | the loop rewrites the first entry of the name, drops the others and appends when there is none |
| Msvc.ReplaceReads | cli/command_sh.go:564-591 | afterwards the name reads the new value, and every other name what it read before |
| Msvc.DiffEnvironment | backend/msvc.go:511-540 | the loops compute the specified difference |
| Msvc.ApplyToolchain | cli/command_sh.go:275-307 | the loops compute the specified overlay, for any order of the keys |
| MsvcReplay.SetAllReads | cli/command_sh.go:281-288 | in any environment each plain variable reads its captured value afterwards, and no other name changes |
| MsvcReplay.PrependAllReads | cli/command_sh.go:290-304 | in any environment each list variable reads the added entries in front of what it read before, and no other name changes |
| MsvcReplay.NamesSpelled | backend/msvc.go:36-51 | the list variables and the ignored ones, name by name |
| MsvcReplay.ReplayPlain | cli/command_sh.go:285-292 | replayed on its own baseline, every captured plain variable reads its captured value |
| MsvcReplay.ReplayList | cli/command_sh.go:294-304 | a list variable other than PATH reads the added entries and then all entries of the baseline |
| MsvcReplay.ReplayCovers | backend/msvc.go:556-572 | these cover every captured entry, and no added entry is a duplicate |
| MsvcReplay.ReplayRest | backend/msvc.go:523-525 | PATH, ignored names and names that were not captured read what they read before |

## Left out

- Msvc.ApplyToolchain: the keys come in the order of the caller, so sorting is not modelled; the results hold for every order.
- Pecl.InstallRoot.CopyArtifact: a copy that fails leaves the target as it was; the program removes the target before it renames the new file, so a rename that fails after that would lose it.
- Pecl.RecordContainsPath: letters are folded over ASCII and Latin-1 with their partners elsewhere; letters of other scripts stand for themselves.
- Pecl.FileReferencedByOtherPackage: the same folding.
- FrameworkActions.RunAction: takes the target path as contained in its base.
- FrameworkActions.ValueFor: a key of the order that has no value is an error; the program evaluates an empty expression for it. The manifest check refuses such orders.
- Msvc.LookupEnvValue: names are compared up to ASCII case; the program folds all of Unicode.
- Msvc.ReplaceEnvValue: the same comparison.
- Msvc.DiffEnvironment: names are upper-cased over ASCII only.
- Which of several errors the manifest checker and an action report.
- Text is a sequence of Unicode scalar values, not of bytes; invalid UTF-8 is not part of this model.
- Letters and digits outside ASCII are a parameter of the dotenv writer, and lower-casing covers ASCII and the two letters that lower to ASCII.
- Numeric escapes of quoted dotenv values that stand for single bytes from 128 on.
- Reading a dotenv file line by line, and the layering of environments on each other.
- The normalization of database credentials before evaluation: the evaluator takes them as normalized.
- The formatting of URLs by net/url is a parameter of the evaluator; YAML decoding is left out, and mappings are given in key order.
- Containment of action paths, symbolic links, file modes and the replacement of files: a write is one update of a map.
- Starlark: a script is its load names and whether it runs. Globals are not part of this model.
- PECL downloads, archives, builds and the state file: the records are read and written as a whole. A recorded path that leaves the install root and comes back into it is not part of this model.
- Directories, permissions and failing deletions of PECL files other than files in use.
- `filepath.Clean` on Windows path entries is a parameter of the list comparison.
- Splitting the captured MSVC output at its marker and into lines.
- Network, processes, TLS, command line, dashboards, web server configuration and database lifecycle.
