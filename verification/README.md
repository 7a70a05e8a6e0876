# Verification of the three CI verifiers

Three Python programs decide whether this repository's CI may be trusted: the release guard
(`ci/actionlint/release_guard.py`), the Cargo/Moon parity checker
(`ci/affected-graph/cargo_moon_parity.py`) and the lock file reachability guard
(`ci/osv/shipped_reachability.py`). This project models the parts of them that compute
something (graph recursions and walks, lexers, parsers, mergers and verdict engines) and
proves what each is meant to establish. What the code tests and what a field, a word, a segment or a
token is are defined apart from each other, and proved to agree. `dafny verify dfyconfig.toml`
checks all of it.

Findings that come out as theorems, each with its input and its exact condition:

- V14 promises that a holder of a write capability waits for its approval job. For
  `approve-release` itself the promise is false, because a job is on its own `needs:` path:
  `ApprovalJobMayHoldACapability` gives the workflow, `CapabilityGuardIsExact` the condition. Even
  there the job starts only after a person approved (`ApprovalBeforeCapability`).
- `ts_closure` returns a dictionary keyed by package name. Its walk meets exactly the right
  directories, but a later meeting under the same name replaces an earlier one:
  `SharedNameLosesADirectory` gives the packages, and `ClosureIsExactIffNamesDiffer` says that the
  result is the transitive closure if and only if no two first meetings share a name.
- The glob compiler agrees with matching by segments when every `**` is a whole component. Inside a
  component `**` crosses `/` (`StarsInsideAComponentCross`). For globs without a `**` component
  and without a `/` in braces the agreement is exactly the absence of `**`
  (`AgreementIffNoLooseStars`); next to a `**` component a loose one can be harmless
  (`TameIsNotNecessary`).
- A heredoc opener on an unterminated continuation line at the end of a script opens nothing and
  raises nothing, in both scanners alike: `OneUnfinishedOpener` gives the scripts,
  `UnfinishedLineOpensNothing` the family, and `StillOpenIsExact` when the scanners do fail.
- The redirection rule of the allowlist reads only what is left behind leading assignments. A segment
  that V19 accepts keeps the rule as a whole exactly when it assigns nothing or holds no angle
  bracket (`WholeSegmentRedirects`); `ValuesMayHoldAngles` gives the family that does not.

Layout of the project:

| files | subject |
|---|---|
| `Text`, `Folds`, `Graphs` | strings as Python sees them, folds, one reachability relation for every walk |
| `JobFields`, `ReleaseGate`, `Approvals`, `Runner`, `Startability`, `ReleaseCheck` | V1, V3, V4, V7, V8, V14, V20 and the runner as a state machine |
| `RunText`, `CommandLines`, `ShellWords`, `Assignments`, `Allowlist`, `RunPipeline` | the V18 to V20 command allowlist |
| `CrateClosure`, `UpstreamInputs`, `Worklists`, `PackageClosure` | `rust_closure`, A6, `task_script_closure`, `ts_closure` |
| `JsTokens`, `JsLexing`, `JsScanner` | the JavaScript scanner of A13 |
| `MoonGlobs` | the glob compiler |
| `Covers`, `ShellMask`, `ShellScan`, `CargoMatches`, `Listings`, `CargoLines`, `Waivers` | the shell scanners, the match merger and the A8 waivers |
| `Members` | Dependabot's member expansion, A9 and A11 |
| `Lockfile`, `LockfileRoundTrip`, `LockfileDocuments`, `LockfileReading`, `LockfileTables` | the lock file reader and its round trip |
| `BreadthFirst`, `Paths`, `ShippedReachability`, `ShippedVerdict` | the walk, the paths of links, the graph and the verdict of the reachability guard |

Conventions: regular expressions whose vocabulary is a list of spellings enter as predicates or
as sequences of hits; "publishes" and "holds a capability" are fields of a job; a raised error is
a constructor of the result; violations are tagged records instead of strings; `posixpath.join` and
`posixpath.normpath` are as Python's library defines them.

## Model

| member | source | states |
|---|---|---|
| `JobFields.NeedsOf` | ci/actionlint/release_guard.py:514-525 | exactly the needs of the field: none, the one name of a scalar, or the names of the list |
| `JobFields.ContinueIsExact` | ci/actionlint/release_guard.py:566-574 | V4 objects to a field exactly when it lets a failure through: `true`, or a text other than `false` between blanks |
| `JobFields.GateIsExact` | ci/actionlint/release_guard.py:528-535 | a job counts as directly gated exactly when its `if:` is the gate, bare or as one expression, with nothing but blanks around it |
| `JobFields.CallsAreExact` | ci/actionlint/release_guard.py:2460-2466 | V3 reports a function exactly when the `if:` spells its name, in any case and with any blanks, and then an opening parenthesis |
| `ReleaseGate.IsGatedIsLeastFixedPoint` | ci/actionlint/release_guard.py:579-592 | the recursion with its path-local cycle cut decides exactly the least set closed under "directly gated, or has needs and all of them are gated", on every graph |
| `ReleaseGate.GatedIffWithin` | ci/actionlint/release_guard.py:579-592 | being gated equals being derivable in a bounded number of rounds of the rule |
| `ReleaseGate.PathJobsAreReachableJobs` | ci/actionlint/release_guard.py:595-602 | the path-local recursion yields exactly the defined jobs reachable over `needs:`, the root included |
| `ReleaseGate.PathViolations` | ci/actionlint/release_guard.py:2456-2484 | the V3 and V4 rows of one gated job are exactly the spelled calls and the fields that let a failure through on its path |
| `ReleaseGate.JobRows` | ci/actionlint/release_guard.py:2433-2484 | one turn of the per-job loop reports exactly that job's V1, V3, V4 and V7 violations |
| `ReleaseGate.CheckGates` | ci/actionlint/release_guard.py:2433-2484 | the loop reports exactly the V1, V3, V4 and V7 violations, and aborts exactly on an empty job table |
| `Approvals.CheckBoundary` | ci/actionlint/release_guard.py:1289-1366 | without the kernel approval job one row and nothing else; with it, exactly the V8a, V8b and V8c violations |
| `Approvals.CheckCapabilities` | ci/actionlint/release_guard.py:1272-1286 | exactly the V14 violations |
| `Approvals.EachChainOwnsItsJobs` | ci/actionlint/release_guard.py:96-102 | every chain job is owned by its own chain's approval, although one service name may start another |
| `Approvals.ApprovalIsExact` | ci/actionlint/release_guard.py:96-102 | a chain's approval owns exactly the jobs called after the chain, and the kernel's all others |
| `Approvals.OnlyKernelApprovalOwnsItself` | ci/actionlint/release_guard.py:96-102 | the kernel approval job is the only job that is its own approval |
| `Approvals.VerifyRowsAreExact` | ci/actionlint/release_guard.py:2097-2112 | the two graph rows of V20 are absent exactly when the verify job is on the kernel approval's path |
| `Approvals.CleanPath` | ci/actionlint/release_guard.py:2456-2484 | a clean report leaves no spelled status function and no field that lets a failure through on any job of a gated path |
| `Runner.NormalisationFindsEveryCall` | ci/actionlint/release_guard.py:2460-2466 | whatever its case and spacing, a status-function call the runner honours is found by the normalised substring test |
| `Runner.NothingStartsWithTheFlagOff` | ci/actionlint/release_guard.py:2433-2484 | with V1, V3 and V4 clean and the flag off, no job outside the exempt set starts in any run of any graph, cycles and missing needs included |
| `Runner.PathPassedBeforeStart` | ci/actionlint/release_guard.py:2456-2484 | in every run, whatever is on the path of a started non-exempt job has passed already |
| `Runner.ApprovalBeforePublish` | ci/actionlint/release_guard.py:1289-1366 | in every run, a started publisher is no approval job, its own chain's approval job has passed and a person has approved |
| `Runner.VerifyBeforeApproval` | ci/actionlint/release_guard.py:2096-2112 | in every run, the verify job has passed before the kernel approval job starts |
| `Runner.ApprovalBeforeCapability` | ci/actionlint/release_guard.py:1272-1286 | in every run, a started non-exempt holder of a write capability was approved by a person, and unless it is the kernel approval job its own approval job has passed |
| `Startability.StartableIffResolvable` | ci/actionlint/release_guard.py:2456-2484 | on the paths that V3 and V4 keep clean, a job starts in some run exactly when its needs walk ends without a cycle, a missing job or a literally false `if:` |
| `Startability.CapabilityGuardIsExact` | ci/actionlint/release_guard.py:1272-1286 | the V14 promise holds of a job exactly when it is not the startable kernel approval job |
| `Startability.ApprovalJobMayHoldACapability` | ci/actionlint/release_guard.py:1272-1286 | a workflow that every graph rule of the composed check accepts, whose approval job holds a capability and starts with no approval job passed before it |
| `ReleaseCheck.CleanRunsAreSafe` | ci/actionlint/release_guard.py:2433-2509 | all graph verdicts clean: the flag, person, approval-job and verify guarantees hold together in every state of every run |
| `ReleaseCheck.CheckRelease` | ci/actionlint/release_guard.py:2433-2509 | the composed check reports nothing exactly when every verdict is clean, and then every run is safe |
| `RunText.ReadLogicalLines` | ci/actionlint/release_guard.py:1659-1701 | refuses exactly the texts with an unreadable character or `#`, and otherwise joins lines at odd runs of backslashes |
| `RunText.JoiningKeepsText` | ci/actionlint/release_guard.py:1686-1700 | joining loses no text but comment lines and the joining backslashes |
| `RunText.LinesHoldNoComment` | ci/actionlint/release_guard.py:1686-1700 | no logical line of a readable text holds a `#` |
| `CommandLines.SplitLosesNothing` | ci/actionlint/release_guard.py:1721-1771 | interleaving all segments with the recorded separators gives back the line |
| `CommandLines.SegmentsAreAtomic` | ci/actionlint/release_guard.py:1721-1771 | every segment splits again to just itself, and of a terminated line is terminated |
| `CommandLines.SplitLine` | ci/actionlint/release_guard.py:1721-1771 | the index loop refines the quote and escape automaton: refusal exactly for an open quote, the non-blank segments and all separators otherwise |
| `ShellWords.WordsAreExact` | ci/actionlint/release_guard.py:1865-1865 | however a text is taken apart into words with blanks in front and between, these are its words |
| `ShellWords.WordsExist` | ci/actionlint/release_guard.py:1865-1865 | every text is the blanks and words that the split finds |
| `ShellWords.TextPrefixIsWordPrefix` | ci/actionlint/release_guard.py:1839-1891 | the textual prefix test on joined words decides the prefix relation on word lists |
| `Assignments.AssignEndIsExact` | ci/actionlint/release_guard.py:1711-1712 | an assignment is found exactly where a name, an equals sign and a double-quoted, single-quoted or bare value end at a blank or with the text |
| `Assignments.CutIsExact` | ci/actionlint/release_guard.py:1849-1858 | however a segment is cut into leading assignments with blanks between and a rest that starts with none, the loop leaves that rest and objects exactly to a GITHUB_* name among them |
| `Allowlist.SegmentVerdict` | ci/actionlint/release_guard.py:1839-1891 | no objection exactly for a segment that is some assignments and a rest the rules of the row allow, said on the cut and not on the loop |
| `Allowlist.FlagVerdict` | ci/actionlint/release_guard.py:1815-1836 | the required-flag loop accepts exactly when every entry whose leading words match finds its flag in front of every `--`, in plain words and nowhere there with a value |
| `Allowlist.V19AcceptsOnly` | ci/actionlint/release_guard.py:2150-2173 | a segment the V19 row accepts is blank-separated assignments and nothing else, none to a GITHUB_* name, or starts with no assignment and is a listed command, tuple or prefix, with `release-plz` only as flagged `release-plz release`, `set` with listed words only and an angle bracket only in a final append to the step's output file |
| `Allowlist.WholeSegmentRedirects` | ci/actionlint/release_guard.py:1849-1864 | a segment the V19 row accepts keeps the redirection rule as a whole exactly when it assigns nothing or holds no angle bracket |
| `Allowlist.ValuesMayHoldAngles` | ci/actionlint/release_guard.py:1711-1712 | every unquoted value with an angle bracket makes an accepted assignment that does not keep it |
| `Allowlist.V20AcceptsOnly` | ci/actionlint/release_guard.py:2050-2075 | a segment the V20 row accepts is blank-separated assignments and nothing else, or the verify command with none in front |
| `RunPipeline.ReadLine` | ci/actionlint/release_guard.py:1789-1812 | a line is refused exactly when it holds a substitution, dollar quote or unreadable wrap; otherwise its commands and separators |
| `RunPipeline.UnwrapIsExact` | ci/actionlint/release_guard.py:1704-1706 | a line is unwrapped exactly when it is a name, an equals sign and one quoted substitution, and to its inside |
| `RunPipeline.JudgeRun` | ci/actionlint/release_guard.py:2001-2032 | no finding exactly for a `run:` text every line and segment of which the row accepts |
| `RunPipeline.CommandsAreAtomic` | ci/actionlint/release_guard.py:1789-1812 | every command of a readable line is non-blank, terminated and splits again to itself |
| `RunPipeline.V19Soundness` | ci/actionlint/release_guard.py:2001-2032 | in a text the V19 row accepts, no line holds a comment, a substitution or a command sent to the background, and every segment is one command of the allowed forms, with no separator outside quotes and escapes |
| `RunPipeline.V20Soundness` | ci/actionlint/release_guard.py:2001-2032 | in a text the V20 row accepts, no line holds a comment, a substitution or a command sent to the background, and every segment is one command: assignments only or the verify command |
| `CrateClosure.ReachableWithoutReturning` | ci/affected-graph/cargo_moon_parity.py:1888-1914 | refusing to re-enter the origin loses no project reachable from it |
| `CrateClosure.Visited.Visit` | ci/affected-graph/cargo_moon_parity.py:1888-1914 | the recursion on the shared set adds only projects reached from its node and leaves nothing uncovered behind an added one |
| `CrateClosure.RustClosure` | ci/affected-graph/cargo_moon_parity.py:1888-1914 | exactly the eligible Rust projects reachable from the origin, without it, in any order and with cycles |
| `UpstreamInputs.CheckUpstreamInputs` | ci/affected-graph/cargo_moon_parity.py:1917-2020 | exactly the A6 rows |
| `UpstreamInputs.CrateDirIsExact` | ci/affected-graph/cargo_moon_parity.py:2014-2018 | the directory an extra entry is looked up under is the entry up to its fourth slash |
| `UpstreamInputs.EmptyListMeansUpstreamCoverage` | ci/affected-graph/cargo_moon_parity.py:1961-2020 | an empty A6 list means every build, test and lint declares the source glob and manifest of each transitive upstream, and every extra entry is allowlisted with a reason |
| `Worklists.ScriptClosure` | ci/affected-graph/cargo_moon_parity.py:1230-1252 | the mark-on-pop queue returns each script once and exactly those the starts reach |
| `PackageClosure.TsClosure` | ci/affected-graph/cargo_moon_parity.py:2235-2292 | the two loops return the last meeting of every name, of the walk's deterministic sequence of first meetings |
| `PackageClosure.MeetingsAreExact` | ci/affected-graph/cargo_moon_parity.py:2246-2291 | every directory reachable from our own, and no other, is met, each once |
| `PackageClosure.DictionaryHoldsLastMeetings` | ci/affected-graph/cargo_moon_parity.py:2288-2290 | the dictionary holds a dependency, kind and directory included, exactly when no later meeting has its name |
| `PackageClosure.ClosureIsExactIffNamesDiffer` | ci/affected-graph/cargo_moon_parity.py:2235-2292 | the dictionary lists exactly the reachable directories if and only if no two first meetings share a name |
| `PackageClosure.SharedNameLosesADirectory` | ci/affected-graph/cargo_moon_parity.py:2285-2291 | packages whose reachable directory is missing from the dictionary |
| `PackageClosure.ClearNamesLoseNothing` | ci/affected-graph/cargo_moon_parity.py:2235-2292 | whatever the order, nothing is lost when no name stands for two directories |
| `JsScanner.ScanJs` | ci/affected-graph/cargo_moon_parity.py:2521-2658 | terminates on every text, succeeds exactly when the text falls into tokens, and then `code` is blank exactly in comments, `masked` besides `_` inside literals, every offset is kept and every literal is exact |
| `JsScanner.ScanIsOffsetExact` | ci/affected-graph/cargo_moon_parity.py:2521-2658 | `code` keeps or blanks each character and every newline, `masked` equals `code` or `_`, literals are disjoint and begin and end on the same quote |
| `JsLexing.ScanIsLexing` | ci/affected-graph/cargo_moon_parity.py:2544-2658 | the scan returns a list of tokens exactly when the text falls into them: the open backticks, holes and braces decide between code and template, and in code the text at a token's start, the character before it and the postfix rule decide between comments, strings, regex literals and plain characters |
| `JsTokens.StringCloseIsFirst` | ci/affected-graph/cargo_moon_parity.py:2596-2607 | the string loop stops at the first unescaped quote, and fails exactly when an unescaped newline or the end comes first |
| `JsTokens.RegexCloseIsFirst` | ci/affected-graph/cargo_moon_parity.py:2616-2633 | the regex loop stops at the first `/` outside escapes and classes, and fails exactly when a newline or the end comes first |
| `MoonGlobs.Compile` | ci/affected-graph/cargo_moon_parity.py:3042-3065 | the index loop emits the pieces of the glob, left to right |
| `MoonGlobs.CompiledGlobMatchesBySegments` | ci/affected-graph/cargo_moon_parity.py:3042-3065 | full-matching the compiled expression agrees, on every text, with a matcher by segments in which a final `**` takes one or more segments and any other zero or more |
| `MoonGlobs.ComponentThenRest` | ci/affected-graph/cargo_moon_parity.py:3042-3065 | a glob matches exactly when its first component takes the text up to a `/` or the end and the rest matches what follows |
| `MoonGlobs.StarsInsideAComponentCross` | ci/affected-graph/cargo_moon_parity.py:3045-3050 | a `**` inside a component matches across `/`, which no matcher by segments does |
| `MoonGlobs.LooseStarsDisagree` | ci/affected-graph/cargo_moon_parity.py:3042-3065 | every glob with a `**` but no `**` component matches some text by expression and not by segments |
| `MoonGlobs.AgreementIffNoLooseStars` | ci/affected-graph/cargo_moon_parity.py:3042-3065 | for globs without a `**` component and without a `/` in braces, agreement on every text is exactly the absence of `**` |
| `MoonGlobs.TameIsNotNecessary` | ci/affected-graph/cargo_moon_parity.py:3042-3065 | a glob with a loose `**` behind a `**` component that agrees on every text |
| `ShellMask.QuoteMaskIsExact` | ci/affected-graph/cargo_moon_parity.py:860-861 | a character is blanked exactly when it lies in one of the matched pairs, for any disjoint pairs that leave no quote with a partner outside |
| `ShellMask.SomePairs` | ci/affected-graph/cargo_moon_parity.py:860-861 | every line has such pairs |
| `ShellMask.SurvivingQuoteIsLast` | ci/affected-graph/cargo_moon_parity.py:805-822 | a quote that survives the mask has no later partner, so each kind survives at most once |
| `ShellMask.OddMeansSurvivor` | ci/affected-graph/cargo_moon_parity.py:805-822 | on a mask or its prefix an odd count is the presence of a surviving quote |
| `ShellMask.CloseIsFirstReturn` | ci/affected-graph/cargo_moon_parity.py:767-775 | the bracket found is the one place where the depth first returns to zero |
| `ShellMask.SpanIsBalanced` | ci/affected-graph/cargo_moon_parity.py:743-780 | a blanked span is balanced and no shorter one from its opening is |
| `ShellMask.SpanMaskIsExact` | ci/affected-graph/cargo_moon_parity.py:743-780 | a character is blanked exactly when it lies in one of the closed spans, for any disjoint spans that leave none opening outside |
| `ShellMask.SomeSpans` | ci/affected-graph/cargo_moon_parity.py:743-780 | every line has such spans |
| `ShellMask.BlankSpans` | ci/affected-graph/cargo_moon_parity.py:743-780 | overwriting in place yields the span mask; an unclosed span is left alone |
| `ShellMask.IsEscaped` | ci/affected-graph/cargo_moon_parity.py:783-794 | true exactly behind an odd run of backslashes |
| `ShellMask.LineRegions` | ci/affected-graph/cargo_moon_parity.py:825-886 | the mask, cut and opener loops compute the region function |
| `ShellMask.RegionIsExact` | ci/affected-graph/cargo_moon_parity.py:860-878 | the code region is a prefix of the line, cut only at the first executed, unescaped, word-start `#`, and never on a line with an unpaired double quote |
| `ShellMask.OpenerIsExact` | ci/affected-graph/cargo_moon_parity.py:879-886 | a heredoc opens exactly at an unmasked `<<` outside `<<<` on a region with no unpaired quote |
| `ShellScan.LayoutIsExact` | ci/affected-graph/cargo_moon_parity.py:1033-1074 | the blocks found are the one division of the file into logical lines and heredoc bodies; an error means there is none |
| `ShellScan.EachLineOnce` | ci/affected-graph/cargo_moon_parity.py:1033-1074 | every physical line lies in exactly one block |
| `ShellScan.StillOpenIsExact` | ci/affected-graph/cargo_moon_parity.py:1066-1074 | scanning fails exactly when a finished logical line of the layout opens a heredoc that no later line closes |
| `ShellScan.UnfinishedLineOpensNothing` | ci/affected-graph/cargo_moon_parity.py:1056-1068 | a script that ends in continued lines scans, whatever heredoc they open |
| `ShellScan.OneUnfinishedOpener` | ci/affected-graph/cargo_moon_parity.py:1056-1068 | a one-line script that opens a heredoc scans with a backslash behind the command, and fails without |
| `ShellScan.WalkScript` | ci/affected-graph/cargo_moon_parity.py:1043-1074 | the loop classifies exactly the logical lines of the layout, in order, or fails with its open delimiter |
| `ShellScan.JoinIsExact` | ci/affected-graph/cargo_moon_parity.py:889-891 | the text of a logical line is its parts without the white space and then the backslashes that end them, with one blank between |
| `ShellScan.WalkText` | ci/affected-graph/cargo_moon_parity.py:1149-1167 | the loop emits exactly the regions of the layout's logical lines, or fails with its open delimiter |
| `ShellScan.NothingExecutedIsLost` | ci/affected-graph/cargo_moon_parity.py:1130-1167 | the regions emitted are those of every line outside a heredoc body, in file order |
| `ShellScan.ScanBoth` | ci/affected-graph/cargo_moon_parity.py:1130-1167 | the two scanners fail together, and one emits exactly what the other classifies |
| `CargoMatches.DropClaimed` | ci/affected-graph/cargo_moon_parity.py:956-961 | the loop with its claimed set keeps the first match of every end offset |
| `CargoMatches.Merge` | ci/affected-graph/cargo_moon_parity.py:921-977 | on the hits of the three expressions the result is sorted by start with distinct ends and holds exactly the invocations and the redirections |
| `CargoMatches.MergeIsExact` | ci/affected-graph/cargo_moon_parity.py:921-977 | sorted by start and then kind, with distinct ends; every literal and every unclaimed indirect match kept; a prefix dropped exactly when a real match shares its end or follows it across assignments alone |
| `CargoMatches.TailEnd` | ci/affected-graph/cargo_moon_parity.py:894-918 | the loop computes the tail's end |
| `CargoMatches.TailIsExact` | ci/affected-graph/cargo_moon_parity.py:894-918 | the tail stops at the first backtick or unopened `)`, or at the hard stop |
| `CargoLines.ClassifyLine` | ci/affected-graph/cargo_moon_parity.py:1008-1030 | the loops yield the rows of every segment of the logical line |
| `CargoLines.SegmentsAreStretches` | ci/affected-graph/cargo_moon_parity.py:1011-1011 | the segments of a line are exactly its stretches free of separators and bounded by a separator or an end, each once and in order |
| `CargoLines.OneRowPerInvocation` | ci/affected-graph/cargo_moon_parity.py:1008-1030 | one row for each merged match of a segment, in order |
| `CargoLines.TailsAreDisjoint` | ci/affected-graph/cargo_moon_parity.py:1008-1014 | an earlier invocation's tail ends before a later invocation's text does |
| `CargoLines.OneFlagOneInvocation` | ci/affected-graph/cargo_moon_parity.py:1008-1030 | one `--locked` is never read by two invocations |
| `CargoLines.LockedByItsOwnFlag` | ci/affected-graph/cargo_moon_parity.py:1008-1030 | a row is locked exactly when its own invocation reads the flag in its tail |
| `CargoLines.ScriptCargoLines` | ci/affected-graph/cargo_moon_parity.py:1033-1074 | the loop fails exactly when the script has no layout, and its rows are those of the cargo invocations in the separator-free stretches of the layout's logical lines, one each and in order, with every field read off the invocation's own text |
| `Waivers.CheckScripts` | ci/affected-graph/cargo_moon_parity.py:1435-1514 | both loops together report exactly the violations, stop exactly on an unscannable script, and report nothing exactly under a one-to-one correspondence with reasons |
| `Waivers.CheckHealth` | ci/affected-graph/cargo_moon_parity.py:1498-1513 | the health loop reports exactly the stale and the ambiguous waivers |
| `Waivers.CleanMeansOneToOne` | ci/affected-graph/cargo_moon_parity.py:1435-1514 | no violation exactly when each reporting row has one waiver, each waiver one reporting row, and every reason says something |
| `Waivers.CheckGateScripts` | ci/affected-graph/cargo_moon_parity.py:1435-1514 | over the texts of the scripts: it stops exactly when a script has no layout, otherwise reports exactly the violations among the executed invocations, and none exactly when every reporting one has exactly one waiver, every waiver exactly one reporting invocation, and every reason says something |
| `Members.ExpandMember` | ci/affected-graph/cargo_moon_parity.py:1722-1754 | the listing loop yields exactly the directories one level below the literal prefix that match the entry |
| `Members.ListedIsExact` | ci/affected-graph/cargo_moon_parity.py:1746-1746 | the directory listed is the text before the first `*` up to its last `/`, or all of it without one |
| `Members.FnmatchIsExact` | ci/affected-graph/cargo_moon_parity.py:1740-1753 | a candidate matches exactly when it can be cut into one piece per character of the entry, any text for `*` and one character otherwise |
| `Members.SlashAfterStarExpandsToNothing` | ci/affected-graph/cargo_moon_parity.py:1722-1754 | on every tree a bracket-free entry with a `/` after its first `*` stands for nothing |
| `Members.SomeTreeExpands` | ci/affected-graph/cargo_moon_parity.py:1722-1754 | a bracket-free glob entry stands for something on some tree exactly when no `/` follows its first `*` |
| `Members.CheckMemberGlobs` | ci/affected-graph/cargo_moon_parity.py:1779-1823 | A9 reports exactly the empty entries, the crates no entry reaches, and an empty comparison |
| `Members.GlobEntries` | ci/affected-graph/cargo_moon_parity.py:1829-1849 | A11 reports exactly the entries with a glob character |
| `Members.LiteralMembers` | ci/affected-graph/cargo_moon_parity.py:1779-1849 | with A11 clean every entry expands to itself, and with a crate to compare A9 is clean exactly when every crate directory is listed literally |
| `Lockfile.ParseLockfile` | ci/osv/shipped_reachability.py:108-155 | the line loop reaches the state of the indentation machine over the lexed lines, and stops exactly where a line cannot be nested |
| `Lockfile.EntryIsExact` | ci/osv/shipped_reachability.py:86-105 | an entry is read as a quoted key with what follows its colon, else as a key that a final colon ends, else at the first colon and blank, else as a key alone |
| `LockfileReading.NoiseIsIgnored` | ci/osv/shipped_reachability.py:121-125 | blank lines and comments anywhere change nothing |
| `LockfileReading.RoundTrip` | ci/osv/shipped_reachability.py:93-155 | a rendered document, with skipped sections, other blocks, specifiers and any blank lines and comments, reads back as exactly its tables |
| `LockfileTables.TablesReadBack` | ci/osv/shipped_reachability.py:93-155 | any tables with writable keys have a document, and its lines, with any blank lines and comments, read back as exactly these tables |
| `LockfileTables.TablesHoldTheEntries` | ci/osv/shipped_reachability.py:108-155 | with distinct keys the tables hold exactly the document's importers and snapshots |
| `LockfileTables.DepTableHoldsTheEntries` | ci/osv/shipped_reachability.py:135-146 | with distinct names a kind holds exactly its dependencies and versions |
| `LockfileTables.KindsHoldTheBlocks` | ci/osv/shipped_reachability.py:135-146 | each kind of an importer holds the dependencies of its one block |
| `ShippedReachability.PackageOfNode` | ci/osv/shipped_reachability.py:158-176 | the node of an alias carries the real name, that of every other entry that is no link the declared name |
| `ShippedReachability.NodeIsExact` | ci/osv/shipped_reachability.py:158-170 | an entry leads to exactly one node: for `link:` the importer at the one normal path to where the link leads, for `file:` and every value without an alias mark the declared name at the value as it stands, peer suffixes included, for an alias the value itself |
| `ShippedReachability.NameIsExact` | ci/osv/shipped_reachability.py:173-176 | the name in a key is its text up to the first parenthesis or the first `@` behind the first character |
| `Paths.NormPathKeepsPlace` | ci/osv/shipped_reachability.py:162-163 | a normalised path leads where the path leads, from every directory |
| `Paths.NormalIffFixed` | ci/osv/shipped_reachability.py:162-163 | a normalised path is normal, with no empty, `.` or inner `..` part behind its leading slashes, and a path is normal exactly when normalising leaves it as it is |
| `Paths.NormPathDecidesPlace` | ci/osv/shipped_reachability.py:162-163 | two relative paths normalise to the same path exactly when they lead to the same place from every directory |
| `Paths.JoinFollows` | ci/osv/shipped_reachability.py:162-163 | a joined path leads where its second part leads from where its first leads |
| `Paths.OnePathLeadsThere` | ci/osv/shipped_reachability.py:162-163 | only one normal path with the root of the two leads to where a link leads, so a link names one importer |
| `ShippedReachability.AliasesAreExact` | ci/osv/shipped_reachability.py:166-169 | a value is read as an alias exactly when an `@` behind its first character has neither a parenthesis nor a `://` before it |
| `ShippedReachability.VersionsAreNoAliases` | ci/osv/shipped_reachability.py:166-169 | a version with or without peer suffixes is not an alias |
| `ShippedReachability.UrlsAreNoAliases` | ci/osv/shipped_reachability.py:166-169 | a URL is not an alias, whatever `@` it holds behind its scheme |
| `ShippedReachability.AliasesAreRecognised` | ci/osv/shipped_reachability.py:158-170 | `realname@version` is read as an alias whatever follows the `@`, peer suffixes and URLs included |
| `BreadthFirst.Walk` | ci/osv/shipped_reachability.py:205-221 | reaches exactly the nodes reachable from the starts, each with a parent one edge and one level above |
| `BreadthFirst.WalkedIsExact` | ci/osv/shipped_reachability.py:205-221 | a finished walk holds exactly the reachable nodes |
| `BreadthFirst.DepthIsShortest` | ci/osv/shipped_reachability.py:205-221 | no walk from any start to a node has fewer edges than the node's depth |
| `BreadthFirst.PathTo` | ci/osv/shipped_reachability.py:224-230 | following parents ends at a start; the path is a walk of the graph and a shortest one |
| `ShippedVerdict.BuildGraph` | ci/osv/shipped_reachability.py:179-198 | the graph has exactly the edges the tables declare, or some edge leads to a node they do not define |
| `ShippedVerdict.Check` | ci/osv/shipped_reachability.py:241-299 | exactly the verdict on the tables: the first failing check; with none, the first waiver whose package an `apps/` importer leads to, with a shortest path to each of its snapshots; with none, a pass, and then every waived package is reached through two edges and by unshipped importers only |
| `ShippedVerdict.FindingIffShipped` | ci/osv/shipped_reachability.py:285-299 | once no check fails, a finding exactly when an `apps/` importer leads to a waived package, and then for a package of the table and with at least one path |
| `ShippedVerdict.ControlGivesTwoEdges` | ci/osv/shipped_reachability.py:241-299 | the control walk means some importer reaches the package through at least two edges |
| `ShippedVerdict.NoAppMeansOnlyUnshipped` | ci/osv/shipped_reachability.py:241-299 | on a pass, no importer that reaches the package is an `apps/` importer or reachable from one |
| `ShippedVerdict.CheckLines` | ci/osv/shipped_reachability.py:108-299 | the verdict from the lines of the lock file on: a crash exactly on a line the reader cannot nest, and otherwise exactly the verdict on the tables it reads |

## Left out

- Loading of YAML, TOML and JSON, calls to `moon` and `git`, file access, exit codes and message texts; parsed documents, directory trees and lines of text are inputs.
- Workflow documents whose jobs or `needs:` have another shape stop the guard before the graph checks and are not in the job table.
- The regular expressions for publishing steps, secrets, write capabilities, cargo verbs, heredoc openers and assignment gaps: their verdicts or hits are inputs, any values of which are covered.
- V2, V5, V6, V8d, V8e, V9 to V13 and V15 to V17: literal pins and table equalities with no state or recursion behind them.
- The step-key, action, environment and `with:` checks of the allowlist rows and the remaining V20 rules: set memberships row by row.
- Runner.ApprovalBeforeCapability: promises no passed approval job for the kernel approval job itself, for which that is false; `Startability.CapabilityGuardIsExact` states the exact condition.
- The runner lets any waiting job be skipped and any deployment be approved at any time, which allows more runs than a real runner does.
- Lower-casing is ASCII only, which is all the searched names contain.
- Trimming of environment names before comparison is done by whoever fills in the job.
- JsScanner.ScanJs: the letter test for regex flags and the keyword test before a regex literal are parameters, so the result holds for any choice of them.
- Members.ExpandMember: returns a set, without the sorted order, and decides bracket expressions by a parameter.
- MoonGlobs.CompiledGlobMatchesBySegments: for globs whose `**` are whole components and whose closed braces hold no `/`; `**` takes no segment with a newline, as `.` does not. Outside that, disagreement is shown for globs without a `**` component; a brace with a `/` is not settled.
- PackageClosure.TsClosure: takes the resolved `workspace:` and `file:` dependencies; the rows for malformed manifests are not produced.
- Worklists.ScriptClosure: resolution of `source` statements is an input; an unresolvable one, which stops the original, has no counterpart.
- `_matching_close`, `_top_level_entries` and the other A13 readers behind the scanner, `task_inputs.py` and the error registry check: independent row checks.
- An absent or empty `members` list stops A9 and A11 with an error before anything is compared.
- Iteration orders of Python sets and dictionaries: reports over them are compared as sets of rows.
- Reading the waiver list and the configured advisories of the reachability guard: both are inputs.
