# Verified model of perfgate's checks, client fallback and parsers

This project models, in Dafny, the parts of perfgate that carry real algorithms, and proves
what they promise. `dafny verify dfyconfig.toml` checks all of it.

| files | component |
|---|---|
| `RustMasker`, `RustLexing`, `RustGrammar`, `RustReading`, `RustLimits`, `MaskerFixedPoint` | the line masker of the no-panic scan: the program's loop, the same scan over a whole file, Rust's lexical structure, which texts have it, the exact limits, masking twice |
| `NoPanicScan` | counting panic-family callsites in masked lines |
| `NoPanicPolicy`, `NoPanicReport`, `NoPanicRatchet`, `NoPanicGate`, `NoPanicHistory` | the debt policy: error collectors, what each error means, the baseline as a ratchet, the command as a step on the baseline file, the command on one source tree after another |
| `TomlString`, `TomlBaseline` | the hand-written TOML writer against a TOML reader |
| `WorkspaceGraph` | dependency reachability and the layering rules |
| `DocFences`, `DocCommands`, `DocLines`, `ShellTokens` | Markdown fences, command continuations, what is extracted told line by line, the tokenizer |
| `Retry`, `FallbackStore`, `FallbackClient` | retries with backoff, the local store, falling back to it |
| `Porcelain`, `MetricsPath` | the `git status` record parser and the metrics path normaliser |
| `Common`, `Text` | splitting, joining, lines, trimming |

Loops, counters and mutable records keep their form: methods with loop invariants and classes
whose fields the methods update. Each such method is proved equal to a function, and the
properties are lemmas about that function.

## How to read it

- **Masking.** `Lex` scans a line in one mode; `MaskRustCodeLine` is proved equal to it.
  `TextLex` scans a whole file. `Item` is a grammar after The Rust Reference, chapter "Lexical
  structure", sections "Comments" and "Tokens"; a code byte is one at which no other token
  opens, the bytes of a long character literal included. `MaskFollowsGrammar` joins all three,
  and `HasReadingIff` says for which texts.
- **The ratchet.** `Next` is one run of the command and `After` a history of runs.
  `NoPanicGate.Check` is the command on the text of the baseline file; reading what it wrote
  goes through `TomlBaseline.ReadBaseline`. `NoPanicHistory.CheckHistory` joins scan and check:
  from the bytes of the source files to the baseline left behind.
- **Markdown.** `Parse` gives a file its blocks, against which the two loops are proved. `DocLines`
  tells the same results by lines and the fences before them, with the words of the source
  written out.
- **Histories.** A store is what a sequence of saves leaves; an operation against the server is
  a function from call number to outcome.

## Where the code does less than one might expect

Each is a lemma, with the exact condition under which the code does what one expects.

- A masked line is not a fixed point of the masker when its code holds non-ASCII bytes: each byte
  is pushed as its own character and grows when the string is read as UTF-8 again
  (`FileIsFixedPointIff`, `MaskIsFixedPointIffCodeIsAscii`, `NonAsciiIsNoFixedPoint`).
- Character literals longer than one byte or one escaped byte are not masked
  (`CharLiteralBlankedIff`). An ordinary string that crosses a line is not masked for some
  continuation of the text; for others it happens to be (`StringLiteralBlankedIff`,
  `CrossingMayBeConsumed`).
- The latest baseline of a benchmark can be another benchmark's, and not only when that name
  extends `{benchmark}-`: benchmark `a` at version `1-x` is stored where `a-1` looks
  (`LatestAlwaysBelongsIff`, `ForeignWithoutExtension`). For the same reason two benchmark and
  version pairs can share a file (`VersionLookupIff`, `SharedFile`).
- The backoff multiplier overflows at the 32nd attempt. A build with overflow checks stops
  there; one without them no longer waits between attempts (`DelayIsExact`,
  `ExecuteWithRetry`). In such a build the largest `u32` as the limit is no limit
  (`LimitNeverExceededIff`, `RunEndsIff`).
- An empty quoted token is lost by the tokenizer, and no token can hold a quote
  (`QuotingRoundTrips`).
- `RetryConfig.retry_status_codes` is documented as the statuses that trigger a retry but is never
  read: 429 and everything from 500 on is retried, for instance 501, which the default list
  leaves out (`ListDecidesIff`, `DefaultListDoesNotDecide`).
- The metrics label of a stored version shows the version when the benchmark is named `versions`,
  a name benchmarks may have (crates/perfgate-types/src/error.rs:82-113): the name is taken for the
  sub-path and the sub-path for the version (`VersionIsHiddenIff`, `BenchmarkNamedVersions`).
- In a rename or copy record the second path is taken as the current one, as the code and its
  unit test have it. `git status` prints the current path first when `-z` is given (git-status
  manual page, section "Pathname Format Notes and -z"), so for its output the original path is
  reported (`CurrentPathFirstIff`, `RenameReportsOriginal`).

## Model

| member | source | states |
|---|---|---|
| RustMasker.MaskRustCodeLine | xtask/src/main.rs:2304-2409 | The masked line is the mode scanner's output for the line and the carried state; the carried state afterwards is what survives the line of the scanner's last mode |
| RustMasker.MaskInCode | xtask/src/main.rs:2379-2405 | One turn in code: opens a block comment, raw string, string or character literal, in that order, or keeps the byte |
| RustMasker.MaskInRawString | xtask/src/main.rs:2313-2328 | One turn in a raw string: closing with n hashes consumes and blanks exactly 1 + n bytes, in bounds; any other byte is blanked alone |
| RustMasker.MaskInComment | xtask/src/main.rs:2330-2345 | One turn in a block comment: a delimiter moves the depth by one and takes two bytes, any other byte is blanked |
| RustMasker.RawStringStart | xtask/src/main.rs:2411-2430 | The cursor walk returns the length and hash count of the raw opener at the index, or none |
| RustMasker.RawStringCloses | xtask/src/main.rs:2444-2446 | True exactly when the quote is followed by that many hash signs |
| RustMasker.LooksLikeCharLiteral | xtask/src/main.rs:2432-2442 | At an apostrophe: true exactly when the closing apostrophe stands two bytes on, or three after a backslash |
| RustMasker.StartsWith | xtask/src/main.rs:2448-2452 | A two-byte needle is found exactly when both bytes stand at the index, in bounds |
| RustMasker.BytesAreCharacters | xtask/src/main.rs:2310-2405 | The byte constants are the characters they are named after |
| RustMasker.LineCommentBlanks | xtask/src/main.rs:2374-2378 | After `//` the rest of the line is blank |
| RustMasker.MaskKeepsPositions | xtask/src/main.rs:2304-2409 | One output byte per input byte, each the input byte or a space, from any mode |
| RustMasker.RawAndCommentNeverBothOpen | xtask/src/main.rs:2298-2345 | A line started with no comment beneath an open raw string ends that way |
| RustLexing.TurnStaysOnLine | xtask/src/main.rs:2371-2452 | What starts at a byte depends on no byte of a later line |
| RustLexing.LineByLineIsWholeText | xtask/src/main.rs:2271-2273 | Masking line by line with threaded state equals one scan of the whole text in one mode, in which a line feed ends strings, character literals and line comments; the state left is that scan's mode, comment depth included |
| RustLexing.NormalizedPieces | xtask/src/main.rs:2272 | `str::lines` drops exactly the CR of each CR LF |
| RustLexing.FileMaskIsTextMask | xtask/src/main.rs:2271-2273 | For every file, the masked lines are the lines of one scan of the CRLF-normalized text, and the final state is that scan's |
| RustLexing.FileStateIsSound | xtask/src/main.rs:2271-2273 | After any number of lines a raw string and a block comment are not both open |
| RustGrammar.RawOpensExact | xtask/src/main.rs:2411-2430 | A raw opener is found exactly when the bytes are an optional `b`, `r`, n hashes and a quote, with that n and length |
| RustGrammar.RawClosesIsPrefix | xtask/src/main.rs:2444-2446 | A quote closes a raw string exactly when the closer stands there |
| RustGrammar.ConsumesString | xtask/src/main.rs:2347-2358 | An escaped string body and its quote are blanked, and scanning resumes in code |
| RustGrammar.ConsumesCharLit | xtask/src/main.rs:2360-2371 | A one-byte or backslash-and-byte character literal is blanked whole |
| RustGrammar.ConsumesRaw | xtask/src/main.rs:2313-2328 | A raw body without the closer, over any number of lines, is blanked up to the end of its closer |
| RustGrammar.ConsumesNest | xtask/src/main.rs:2330-2345 | A balanced comment body is blanked and returns to the depth it started at |
| RustGrammar.ConsumesItem | xtask/src/main.rs:2312-2402 | Every literal or comment is blanked from first to last byte, whatever follows, and leaves nothing open |
| RustGrammar.KeepsCodeByte | xtask/src/main.rs:2404-2405 | A byte at which no literal or comment opens is kept and opens nothing |
| RustGrammar.ScanFollowsGrammar | xtask/src/main.rs:2304-2409 | One scan of any well-formed item list keeps the code bytes, blanks all others and ends in no literal or block comment |
| RustGrammar.MaskFollowsGrammar | xtask/src/main.rs:2271-2409 | Masking a well-formed file line by line yields the expected text's lines and the default state |
| RustGrammar.CodeIsUnambiguous | xtask/src/main.rs:2304-2409 | Two well-formed readings of one text agree on what is code |
| RustReading.NestPart | xtask/src/main.rs:2330-2345 | The inside of a block comment that the scan leaves is a balanced nest up to its own closer |
| RustReading.Reading | xtask/src/main.rs:2304-2409 | A text that closes what it opens is taken apart into well-formed items that render it |
| RustReading.HasReadingIff | xtask/src/main.rs:2304-2409 | A text is well-formed exactly when the scan ends in no literal and no block comment, no line feed falls inside a string or character literal, and no literal opens at three apostrophes |
| RustReading.ClosingFileIsMasked | xtask/src/main.rs:2271-2409 | Every file that closes what it opens has a well-formed reading, and its masked lines are those of the expected text of that reading |
| RustLimits.CharLiteralBlankedIff | xtask/src/main.rs:2395-2400 | A one-line character literal of any length is blanked, and nothing else, exactly when its body is one byte or a backslash and one byte |
| RustLimits.LeaksOutside | xtask/src/main.rs:2307-2309 | A string body read outside a string keeps a backslash or ends outside code |
| RustLimits.LexBeforeLetter | xtask/src/main.rs:2371-2452 | A letter at the end of a text changes nothing before it and is kept or blanked by the mode the text ends in |
| RustLimits.StringLiteralBlankedIff | xtask/src/main.rs:2307-2309 | A string literal is blanked and scanning resumes in code, whatever follows, exactly when it crosses no line; and the masked text shows it: otherwise the literal, or a letter after it, comes out wrong for some continuation |
| RustLimits.CrossingMayBeConsumed | xtask/src/main.rs:2307-2309 | A quote, a line feed and a quote are read as a literal when a line feed follows, and not at the end of a text |
| MaskerFixedPoint.MaskedIsSettled | xtask/src/main.rs:2304-2409 | In a masked line nothing opens anywhere, from any starting mode |
| MaskerFixedPoint.EncodedIsSettled | xtask/src/main.rs:2404 | Encoding the masked characters as UTF-8 lets nothing open |
| MaskerFixedPoint.MaskedAgainIsKept | xtask/src/main.rs:2304-2409 | Masking the returned string again from the default state keeps every byte and leaves the default state |
| MaskerFixedPoint.MaskIsFixedPointIffAscii | xtask/src/main.rs:2404 | The second pass returns the masked line itself exactly when that line is ASCII; an ASCII input gives an ASCII mask |
| MaskerFixedPoint.MaskIsFixedPointIffCodeIsAscii | xtask/src/main.rs:2404 | On any well-formed line the second pass returns the masked line itself exactly when every code byte is ASCII; literals and comments may hold any byte |
| MaskerFixedPoint.FileIsFixedPointIff | xtask/src/main.rs:2271-2273 | In a well-formed file a second pass returns a masked line, inside multi-line comments and literals too, exactly when the code on it is ASCII; and every line exactly when all code is |
| MaskerFixedPoint.NonAsciiIsNoFixedPoint | xtask/src/main.rs:2404 | A two-byte character comes back as two characters, four bytes |
| NoPanicScan.PanicScan.CountMacros | xtask/src/main.rs:2274-2284 | Counts grow by one for each macro capture, at the macro identity |
| NoPanicScan.PanicScan.CountMethods | xtask/src/main.rs:2285-2294 | Counts grow by one for each method capture, at the method identity |
| NoPanicScan.PanicScan.ScanNoPanicFile | xtask/src/main.rs:2262-2296 | Each identity's count grows by its number of captures in the file's masked lines; no other identity is touched |
| NoPanicScan.PanicScan.Findings | xtask/src/main.rs:2229-2232 | One finding per counted identity, with its count |
| NoPanicScan.ScanNoPanicFamily | xtask/src/main.rs:2215-2233 | Over all files: each identity once, with the number of times it was hit, and none that was not hit |
| NoPanicScan.HitsAreSites | xtask/src/main.rs:2273-2294 | The same for the masked lines of one file |
| NoPanicScan.CallsitesAreCounted | xtask/src/main.rs:2215-2296 | Over a whole tree the hits of an identity are its places: file, line and capture, each in the masked text, with every field of the identity written out |
| NoPanicScan.HitsAreInCode | xtask/src/main.rs:2271-2295 | On a well-formed file an identity is hit as often as the macro pattern captures its family, with its callee and trimmed line, plus as often as the method pattern does, in the lines of the text with literals and comments blanked |
| NoPanicPolicy.NoErrorsIffPolicyHolds | xtask/src/main.rs:1962-2062 | The report is empty exactly when schema versions, non-blank fields, positive counts, distinct identities, exact allow counts and bounded unallowed debt all hold |
| NoPanicPolicy.IdentityFieldsAreAll | xtask/src/main.rs:2169-2182 | The same for the five text fields of a baseline entry |
| NoPanicPolicy.AllowanceFieldsAreAll | xtask/src/main.rs:2192-2207 | The field table of an allowance is without blanks exactly when its eight text fields are |
| NoPanicReport.ReportIsExact | xtask/src/main.rs:1962-2062 | Each of the twelve errors is reported exactly when findings, allowlist and baseline justify it; a blank-field error names the blank record field, one of eight for an allowance and of five for a baseline entry |
| NoPanicReport.AllowReport | xtask/src/main.rs:1980-2006 | Field, zero-count, duplicate, stale and mismatch errors of the allowlist are justified and complete; only the first allowance of an identity is compared |
| NoPanicReport.BlankAllowanceFields | xtask/src/main.rs:2192-2207 | A name is reported for an allowance exactly when the record field of that name is blank |
| NoPanicReport.ShapeReport | xtask/src/main.rs:2028-2041 | Field, zero-count and duplicate errors of the baseline are justified and complete |
| NoPanicReport.BlankIdentityFields | xtask/src/main.rs:2169-2182 | The same for a baseline entry |
| NoPanicReport.DebtReport | xtask/src/main.rs:2043-2061 | New and increased unallowed identities are reported, and nothing else |
| NoPanicReport.LastFindingCounts | xtask/src/main.rs:1976-1979 | A later finding of an identity overwrites an earlier one |
| NoPanicReport.FirstEntryCounts | xtask/src/main.rs:2028-2041 | A duplicate baseline entry does not replace the first one's count |
| NoPanicGate.BlankFieldNames | xtask/src/main.rs:2169-2182 | The names of the fields whose trimmed value is empty, in order |
| NoPanicGate.ValidateAllowance | xtask/src/main.rs:2189-2213 | Pushes the blank-field errors and then the zero-count error of an allowance |
| NoPanicGate.ValidateEntry | xtask/src/main.rs:2166-2187 | The same for a baseline entry, without the ownership fields |
| NoPanicGate.CountFindings | xtask/src/main.rs:1976-1979 | Builds the map from identity to its last count |
| NoPanicGate.CollectAllowErrors | xtask/src/main.rs:1981-2006 | The allowlist loop pushes the allowlist errors in order |
| NoPanicGate.CollectShapeErrors | xtask/src/main.rs:2028-2041 | The first baseline loop pushes the shape errors and keeps each identity's first count |
| NoPanicGate.CollectDebtErrors | xtask/src/main.rs:2043-2061 | The second baseline loop pushes the debt errors in order |
| NoPanicGate.CollectNoPanicPolicyErrors | xtask/src/main.rs:1962-2062 | The collected list is empty exactly when the policy holds, and holds exactly the justified errors |
| NoPanicGate.NoPanicGate.Check | xtask/src/main.rs:1864-1944 | The baseline read by the next run is the one the step function gives: only an accepted write replaces it. An accepted check prints the total of the findings, of the allowlist and of the baseline, the number of unbaselined identities, which is zero, and of refresh candidates; the scanned total lies between the allowlist total and that plus the baseline total |
| NoPanicHistory.TotalIsSize | xtask/src/main.rs:2215-2233 | Findings that count the callsites have as their total the number of callsites |
| NoPanicHistory.AcceptedIsWithin | xtask/src/main.rs:2043-2062 | If the policy accepts the scan of a tree, its unallowed callsites are within the baseline and all of them within baseline plus allowlist |
| NoPanicHistory.AcceptedIff | xtask/src/main.rs:1864-1904 | A run is accepted exactly when the policy holds and, for a check, there is a baseline |
| NoPanicHistory.CheckNoPanicFamily | xtask/src/main.rs:1864-1944 | Scan and check, for every baseline file: unreadable, it is reported and left; missing or readable, the outcome and the baseline left are those of the policy on the callsites counted; an accepted run finds the callsites within the baseline, and a check prints their exact number |
| NoPanicHistory.CheckHistory | xtask/src/main.rs:1864-1944 | The command on any sequence of source trees: each outcome is that of the policy on the tree and the baseline left by the runs before it; the baseline left is that of the step function over the runs, no looser than the first one; and every tree accepted anywhere keeps its unallowed callsites within the first baseline, identity by identity and in total |
| NoPanicHistory.OrderIsUnseen | xtask/src/main.rs:1962-2062 | The policy holds of the counted callsites in one order if it holds in another |
| NoPanicHistory.WrittenThenChecked | xtask/src/main.rs:1897-1927 | After an accepted write on a tree, a check of the same tree, in whatever order it finds the callsites, passes with nothing to refresh exactly when no unallowed callsite has a blank field, and is rejected otherwise |
| NoPanicRatchet.AcceptedWriteTightens | xtask/src/main.rs:2015-2062 | An accepted write raises no identity's budget, adds no identity, and does not raise the total |
| NoPanicRatchet.RatchetOnlyTightens | xtask/src/main.rs:1864-1904 | Over every history of runs with any scans and allowlists, no budget grows, no identity enters and the total does not grow, once a baseline exists |
| NoPanicRatchet.DistinctTotalBound | xtask/src/main.rs:1909-1915 | Distinct identities, each dominated by an entry of a second list, have a total no larger than the second list's |
| NoPanicRatchet.AllowedDebtIsExact | xtask/src/main.rs:1992-2005 | In an accepted check the allowed callsites total exactly the allowlist's counts |
| NoPanicRatchet.AcceptanceBoundsDebt | xtask/src/main.rs:1909-1915 | In an accepted check all scanned callsites are the allowlist's total plus the unallowed debt, which is at most the baseline's total |
| NoPanicRatchet.RefreshShrinksIffCandidates | xtask/src/main.rs:2064-2088 | Refreshing an accepted baseline lowers its total exactly when some entry is a refresh candidate |
| NoPanicRatchet.RefreshCandidates | xtask/src/main.rs:2064-2088 | The count is zero exactly when no entry is allowed, missing from the scan, or larger than the scan |
| NoPanicRatchet.CandidatesAreCounted | xtask/src/main.rs:2064-2088 | The number is that of the entries which are candidates |
| NoPanicRatchet.Unbaselined | xtask/src/main.rs:1918-1927 | The count is zero exactly when every finding is allowed or has a baseline entry |
| NoPanicRatchet.UnbaselinedAreCounted | xtask/src/main.rs:1918-1927 | The number is that of the findings neither allowed nor listed |
| NoPanicRatchet.AcceptedHasNoUnbaselined | xtask/src/main.rs:1918-1927 | An accepted check has no unbaselined identity |
| NoPanicRatchet.WriteThenCheck | xtask/src/main.rs:1897-1927 | After an accepted write the same scan has no refresh candidate and no unbaselined identity, and is accepted exactly when its unallowed findings have non-blank fields and positive counts |
| NoPanicRatchet.FreshEntries | xtask/src/main.rs:2108-2132 | The generated entries are exactly the unallowed findings with their counts |
| TomlString.TomlBasicString | xtask/src/main.rs:2141-2164 | The written string decodes to the value by TOML's rules, with nothing left over, and is printable ASCII on one line |
| TomlString.ParseHexOfHex | xtask/src/main.rs:2154-2158 | The zero-padded hexadecimal digits of a code read back as the code |
| TomlString.EscapedCharReadsBack | xtask/src/main.rs:2145-2160 | Each written character decodes to itself |
| TomlString.QuotedReadsBack | xtask/src/main.rs:2141-2164 | Decoding a written string gives the string, for every sequence of scalar values, whatever follows |
| TomlString.QuotedIsPrintable | xtask/src/main.rs:2141-2164 | Every written character is between space and tilde |
| TomlBaseline.TextLineReads | xtask/src/main.rs:2114-2128 | A written `key = string` line reads back as that pair |
| TomlBaseline.NumberLineReads | xtask/src/main.rs:2129-2131 | The written `count` line reads back as that number |
| TomlBaseline.EntryReads | xtask/src/main.rs:2112-2131 | The lines written for a finding read back as one table with its five strings and its count |
| TomlBaseline.DocumentReadsBack | xtask/src/main.rs:2097-2139 | The document written for any findings reads back as the same identities and counts, in order |
| TomlBaseline.PushEntry | xtask/src/main.rs:2112-2131 | Pushes the eight lines of an entry |
| TomlBaseline.WriteNoPanicBaseline | xtask/src/main.rs:2097-2139 | The written text is the document of the unallowed findings and reads back as the fresh baseline |
| WorkspaceGraph.ReachableWorkspaceDependencies | xtask/src/main.rs:2993-3015 | Returns exactly the packages at the end of a path of one or more edges, on every finite graph, and terminates |
| WorkspaceGraph.TakeNew | xtask/src/main.rs:3004-3011 | Taking an unseen package and stacking its unseen dependencies keeps everything reachable and loses no edge |
| WorkspaceGraph.EndOfSearch | xtask/src/main.rs:3003-3014 | With an empty stack the seen set is exactly the reachable one |
| WorkspaceGraph.WorkspaceDependencyGraph | xtask/src/main.rs:2969-2991 | Builds the graph of non-dev path dependencies on workspace packages |
| WorkspaceGraph.EdgesAreDependencies | xtask/src/main.rs:2977-2987 | An edge of a package, the last of its name, is a non-dev path dependency on a workspace package, and conversely |
| WorkspaceGraph.CheckRule | xtask/src/main.rs:2930-2963 | The errors of one rule are exactly those due |
| WorkspaceGraph.CollectArchDependencyErrors | xtask/src/main.rs:2921-2967 | The errors are exactly those due; there are none exactly when every rule's packages exist and no forbidden package is reachable from a source |
| DocFences.DataOrShell | xtask/src/main.rs:5251-5264 | No fence is both a data fence and a shell fence |
| DocFences.InfoIsFirstWord | xtask/src/main.rs:5251-5257 | The info string is the first word after the backticks in lower case, whatever attributes follow |
| DocFences.LowerCodes | xtask/src/main.rs:5430 | Lower-casing moves the code points of A to Z by 32 and no other |
| DocFences.FenceIff | xtask/src/main.rs:5317-5318 | A line is a fence exactly when three backticks follow its leading whitespace |
| DocFences.BareInfo | xtask/src/main.rs:5251-5257 | The info string of bare backticks is empty |
| DocFences.RenderOfParse | xtask/src/main.rs:5391-5413 | Every line sequence is the rendering of a well-formed block structure |
| DocFences.ParseOfRender | xtask/src/main.rs:5391-5413 | That structure is unique: parsing undoes rendering |
| DocFences.DataTurn | xtask/src/main.rs:5395-5416 | One turn of the loop keeps the snippets found plus those left equal to the file's |
| DocFences.ExtractDataSnippets | xtask/src/main.rs:5386-5420 | Returns the closed data blocks of the file with their bodies and opening line numbers, for every file |
| DocFences.SnippetsOfRendering | xtask/src/main.rs:5386-5420 | From a file written as given blocks exactly their closed data blocks come back |
| DocLines.DataIsClosedBlocks | xtask/src/main.rs:5386-5420 | For every file the snippets are its closed blocks with info word toml, json, yaml or yml, each with that kind, the number of its opening line and its body, in order; which block a line is in is told by the fences before it alone |
| DocCommands.ContinuationJoins | xtask/src/main.rs:5345-5368 | A command split over backslash continuations is read as one line joined by single spaces, and what follows is unaffected |
| DocCommands.Turn | xtask/src/main.rs:5318-5373 | One turn of the loop keeps the commands found plus those left equal to the file's |
| DocCommands.ExtractCommands | xtask/src/main.rs:5310-5383 | The commands are those of each shell block's own logical lines, block by block; a pending continuation exists only inside a scanned block |
| DocLines.FinishedAt | xtask/src/main.rs:5341-5372 | A logical line adds its one command when it ends, and its other lines add none |
| DocLines.CommandsAreShellLines | xtask/src/main.rs:5310-5383 | For every file the commands are those of its logical lines, in order: one begins at a line of a shell block that no continuation leads to, takes the lines up to the first without a trailing backslash or the end of the block, and is parsed by the number of its first line and its pieces joined by single spaces |
| DocLines.OneBlockIsRead | xtask/src/main.rs:5310-5433 | A file of prose and one block yields the command of each body line, by its number and trimmed text, if the info word is one of the eight shell words in any case, or there is none; and nothing otherwise |
| ShellTokens.ShellTokenize | xtask/src/main.rs:5508-5532 | No token is empty, and the tokens put together are the input less quotes and unquoted blanks |
| ShellTokens.TokensAreQuoteFree | xtask/src/main.rs:5508-5532 | No token of any input holds a quote |
| ShellTokens.SpreadIsRead | xtask/src/main.rs:5508-5532 | Unquoted tokens separated by any mixture of spaces and tabs come back; no other character separates |
| ShellTokens.QuotingRoundTrips | xtask/src/main.rs:5508-5532 | Quoting tokens and tokenizing returns them exactly when each is non-empty and holds no quote |
| Retry.ConnectionErrorsAreRetryable | crates/perfgate-client/src/error.rs:118-140 | The connection errors are failed connections, timeouts and `RetryExhausted`; retryable are the first two and the HTTP statuses 429 and from 500 on |
| Retry.ErrorByCode | crates/perfgate-client/src/error.rs:86-116 | Five codes of an API error have an error of their own, any other keeps the status and the code, and an unreadable body keeps the status and the body |
| Retry.ResponseIsRetriedIff | crates/perfgate-client/src/error.rs:86-140 | An HTTP response is never a connection error, and is retryable exactly when its status is 429 or at least 500 and its code is none of the five with an error of their own |
| Retry.ListDecidesIff | crates/perfgate-client/src/config.rs:46-47 | The listed statuses are those retried exactly when the list holds 429 and everything from 500 on and nothing else |
| Retry.DefaultListDoesNotDecide | crates/perfgate-client/src/config.rs:50-59 | 501 is retried and not in the default list |
| Retry.DelayIsExact | crates/perfgate-client/src/config.rs:86-90 | Up to attempt 31 the delay is base times 2^attempt under the cap, saturation never showing; from 32 on a checked build stops and an unchecked one has no delay |
| Retry.DelayGrows | crates/perfgate-client/src/config.rs:86-90 | No delay exceeds the cap; a later delay is at least an earlier one exactly when it is for an attempt below 32 or the earlier one is zero; a checked build has delays below attempt 32 only |
| Retry.Pow2Adds | crates/perfgate-client/src/config.rs:87 | The multiplier doubles with every attempt |
| Retry.DefaultDelays | crates/perfgate-client/src/config.rs:50-90 | The delays of the default configuration in nanoseconds |
| Retry.LimitNeverExceededIff | crates/perfgate-client/src/client.rs:785-795 | The wrapping attempt counter never exceeds the limit exactly when that is the largest u32 |
| Retry.RunEndsIff | crates/perfgate-client/src/client.rs:780-803 | A run ends exactly when the build is checked, the limit is below the largest u32, or some outcome is not a retryable error |
| Retry.EveryRunEndsIff | crates/perfgate-client/src/client.rs:780-803 | The run of every operation ends exactly when the build is checked or the limit is below the largest u32 |
| Retry.ExecuteWithRetry | crates/perfgate-client/src/client.rs:780-803 | Every run that ends: the result is the first outcome that is not a retryable error or that of call max_retries + 1, whichever comes first; the sleeps are the delays of the attempts, non-decreasing up to the 31st and none from the 32nd on, capped, with sum at most their number times the cap; a checked build stops exactly when 32 retries are allowed and the first 32 calls fail retryably; the largest limit of an unchecked build bounds nothing |
| FallbackClient.UnreachableOnlyAtTheEnd | crates/perfgate-client/src/fallback.rs:50-65 | If the operation never builds `RetryExhausted`, a connection error comes out only after max_retries + 1 retryable failures |
| FallbackClient.AnsweringServerIsBelieved | crates/perfgate-client/src/fallback.rs:45-66 | If every call is answered, with a result or an HTTP response, local storage is never used |
| FallbackClient.StoreIsUsedIff | crates/perfgate-client/src/fallback.rs:45-124 | Local storage is used exactly when configured, the limit can be reached, every allowed call fails by connection, timeout or a retried status, and the last one not by a status |
| FallbackClient.DownServerIsReplaced | crates/perfgate-client/src/fallback.rs:45-124 | A server that refuses every connection sends the default client to its store after four calls |
| FallbackClient.FallbackClient.GetLatestBaseline | crates/perfgate-client/src/fallback.rs:45-66 | The server run ends as the retry loop ends. Local storage answers exactly when configured and that run ended in a connection error, after every allowed attempt, and then the result is the storage's, record or error; otherwise the server's answer is returned unchanged |
| FallbackClient.FallbackClient.GetBaselineVersion | crates/perfgate-client/src/fallback.rs:69-98 | The same for one version |
| FallbackClient.FallbackClient.UploadBaseline | crates/perfgate-client/src/fallback.rs:103-124 | The store gains exactly one save under that condition and is untouched otherwise |
| FallbackStore.LocalFallbackStorage.GetLatestBaseline | crates/perfgate-client/src/fallback.rs:264-323 | For any enumeration order: a record of a matching file with none newer; not found without directory or match; a parse error if any matching file is malformed |
| FallbackStore.LocalFallbackStorage.GetBaselineVersion | crates/perfgate-client/src/fallback.rs:326-347 | The record in the version's file, a parse error if malformed, not found if absent |
| FallbackStore.LocalFallbackStorage.SaveBaseline | crates/perfgate-client/src/fallback.rs:350-420 | Writes one record under its file name, creating the directory, and changes nothing else |
| FallbackStore.SavedFields | crates/perfgate-client/src/fallback.rs:350-420 | An upload is stored under benchmark and version, the time stamp standing for a version not given, with every field of the record; no other file or project is touched |
| FallbackStore.FileHoldsLastSave | crates/perfgate-client/src/fallback.rs:384-395 | After any history a file exists exactly if something was saved under its name, and holds the last such record |
| FallbackStore.LatestIsLastSave | crates/perfgate-client/src/fallback.rs:288-322 | With an increasing clock the latest baseline is the last save whose file name passes the filter, and only that |
| FallbackStore.MatchesSpelled | crates/perfgate-client/src/fallback.rs:298 | A name passes the filter exactly when it starts with the benchmark and a dash and ends in `.json` |
| FallbackStore.MatchesIff | crates/perfgate-client/src/fallback.rs:298 | The name filter reads only the part before `.json` |
| FallbackStore.ForeignMatchIff | crates/perfgate-client/src/fallback.rs:298 | Another benchmark's file passes the filter exactly when its name extends `{benchmark}-`, or its name and the front of its version spell `{benchmark}-` |
| FallbackStore.LatestAlwaysBelongsIff | crates/perfgate-client/src/fallback.rs:288-322 | At every moment of a history with an increasing clock, any record found as latest is of the requested benchmark, exactly when no save of another benchmark in the project has a name that extends `{benchmark}-`, or a name and version front that spell it |
| FallbackStore.ForeignWithoutExtension | crates/perfgate-client/src/fallback.rs:288-322 | After saving only `a` at `1-x`, the latest baseline of `a-1` is the record of `a` |
| FallbackStore.VersionLookupIff | crates/perfgate-client/src/fallback.rs:332-346 | A version lookup gives the last record saved for it exactly when no later save of another benchmark and version spells the same file name |
| FallbackStore.SharedFile | crates/perfgate-client/src/fallback.rs:332-346 | After saving `a` at `1-x` and `a-1` at `x`, looking up the first gives the second |
| Porcelain.ParseChangedFilesSummary | crates/perfgate-cli/src/repair_context.rs:151-190 | For every input: the files are the decoded current paths; each bucket holds the number of files whose front up to the first separator it names, "." also those without a front, and there is no other bucket; the buckets sum to the number of files, which is the file count below 2^32 |
| Porcelain.RecordsRoundTrip | crates/perfgate-cli/src/repair_context.rs:155-172 | Printing records and parsing them gives their current paths in order |
| Porcelain.SecondPathIff | crates/perfgate-cli/src/repair_context.rs:163-167 | A record has a second path exactly when one of its status bytes is `R` or `C` |
| Porcelain.CurrentPathFirstIff | crates/perfgate-cli/src/repair_context.rs:155-172 | Of records that print the current path first the parser reads the current paths exactly when no renamed or copied file has another name than before |
| Porcelain.RenameReportsOriginal | crates/perfgate-cli/src/repair_context.rs:155-172 | Of the record by which `git status` says that `a` is now `b` the parser reports `a` |
| Porcelain.BeforeSeparator | crates/perfgate-cli/src/repair_context.rs:176-181 | The top-level bucket is the longest front without a separator |
| Porcelain.TopLevelIs | crates/perfgate-cli/src/repair_context.rs:176-182 | The bucket of a path is its front up to the first slash or backslash, or "." if that is empty |
| MetricsPath.NormalizePath | crates/perfgate-server/src/metrics.rs:79-126 | The label is the segment-wise normal form of the path |
| MetricsPath.Turn | crates/perfgate-server/src/metrics.rs:84-123 | Each kind of segment consumes, or keeps, the one after it as the source says |
| MetricsPath.VersionRoute | crates/perfgate-server/src/metrics.rs:87-115 | For every project and version the version route has its one label exactly when the benchmark is non-empty and not a fixed sub-path |
| MetricsPath.VersionRouteLabel | crates/perfgate-server/src/metrics.rs:87-115 | The label of the version route for every project, benchmark and version |
| MetricsPath.VersionIsHiddenIff | crates/perfgate-server/src/metrics.rs:87-115 | The label of the version route is the same for all versions exactly when the benchmark is not named `versions` |
| MetricsPath.BenchmarkNamedVersions | crates/perfgate-server/src/metrics.rs:87-115 | The version route of a benchmark named `versions` shows the version |
| MetricsPath.SubPathRoute | crates/perfgate-server/src/metrics.rs:95-106 | A fixed sub-path below `baselines` is kept |
| MetricsPath.RolesOfNormalized | crates/perfgate-server/src/metrics.rs:79-126 | Normalised segments read as the same roles |
| MetricsPath.NormalizeIsIdempotent | crates/perfgate-server/src/metrics.rs:79-126 | Normalising twice equals once and keeps the number of segments |
| MetricsPath.SamePathLabelIff | crates/perfgate-server/src/metrics.rs:79-126 | Two paths share a label exactly when they differ in consumed names only |
| Common.SplitOfJoin | crates/perfgate-server/src/metrics.rs:80-125 | Splitting undoes joining when no piece holds the separator |
| Common.JoinOfSplit | crates/perfgate-server/src/metrics.rs:80-125 | Joining undoes splitting, always |
| Text.TrimIsMiddle | xtask/src/main.rs:5341 | Trimming takes whitespace from both ends and nothing else |
| Text.WhitespaceCodes | xtask/src/main.rs:5341 | Whitespace are exactly the 25 code points with the Unicode White_Space property |
| Text.LinesOfUnlines | xtask/src/main.rs:5391 | `str::lines` gives back lines written with line feeds |

## Left out

- File walking, processes, HTTP, the async runtime and I/O failures: a directory is a map from file name to content, the server a sequence of outcomes, the clock an argument.
- The two regular expressions of the scan, `str::trim` on a raw line and the text of a line: function arguments of `Patterns`.
- The JSON codec of the fallback store: a file holds a record or does not parse.
- The JSON codec of API responses: an error body is given with its code and message, or as unreadable.
- Names with path separators in the fallback store: project, benchmark and version are plain names.
- The order in which maps and sets are enumerated: left open, so every order is covered. `BTreeMap` order of findings, and hence of baseline entries, is one of them.
- `parse_perfgate_line` and the subcommand and flag split: an argument of `ExtractCommands`; only the tokenizer it uses is modelled.
- The file name carried by snippets and commands: constant over a call.
- `u32` wrap-around of callsite and bucket counters, and the `u32` range check when a count is read back: natural numbers.
- The wording of error messages: constructors of `PolicyError` and `ArchError`.
- Fields of the baseline record the store never looks at: the type parameter `P`, named `receipt`; record ids, schema and content hash are constants or random.
- TOML outside the generated form: comments, dotted or quoted keys, literal and multi-line strings, floats, dates and inline tables are not read.
- `collect_arch_source_errors`, docs and claims checks, mutation summaries, schema mirrors: lists of string presence tests.
- `doctor`, `policy`, `decision_suggest`, `check_guidance`, `cli_parsing`, authentication, cleanup, the editor extension and fuzz targets: classification ladders and thin wrappers.
- Floating-point statistics and comparison: not part of this model.
- Retry.ExecuteWithRetry: requires that the run ends; `Retry.RunEndsIff` says exactly which runs do.
- RustGrammar.MaskFollowsGrammar: admits only strings that cross no line and counts long character literals as code, because the masker does (`RustLimits`); `RustReading.HasReadingIff` says which texts are covered.
- RustLimits.StringLiteralBlankedIff: says that a literal which crosses a line fails for some continuation, not for which ones.
