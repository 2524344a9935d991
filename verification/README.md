# Verified model of the Swaw Kit Proj core

This project models the parts of Swaw Kit Proj that hold an algorithm, a protocol or a codec, and proves what they
promise. `dafny verify dfyconfig.toml` checks all of it.

Code that works by changing things step by step is modelled in place: a class with the fields the source updates, or
a method over an array, each proved against a function of the old state. What the source promises is then proved about
those functions, over every input, every way of cutting a stream, every interleaving or every tree.

| files | models |
|---|---|
| `CommandEvent`, `OutputMerging`, `FrameScan`, `FrameStream`, `FrameConservation` | progress frames pulled out of a text that arrives in pieces, and their one-pass reading |
| `Utf8Output`, `Utf8Stream` | lossy UTF-8 decoding of a byte stream, against section 4 of RFC 3629 and section 3.9 of the Unicode Standard |
| `OutputReader`, `FrameRuns`, `BoundedReads`, `HiddenFrame` | the thread that runs both decoders on one output stream of a process, and what its bounded reads can make of the stream |
| `DependencyCheck`, `DependencyGraph`, `DependencyReport` | the budgeted dependency walk, its graph meaning, what each field and message of its document says, the execution gate and the browser's check of the document |
| `CommandIdentity`, `ResourceRoute`, `RouteErrors`, `NameRules`, `TextSplit` | command addresses, data roots, resource routes, their texts and errors, and the names that are accepted |
| `Catalog`, `CatalogContents`, `CommandModel` | breadth-first discovery of the Catalog, which directories it visits and what it reads of each |
| `NativeOwner`, `OwnerRefusal`, `ExecutionContract`, `ContractCanonical`, `NativeCommand`, `CommandRelease`, `Ordering` | native ownership, execution contracts and releases |
| `CommandRunClient`, `CommandRunView`, `CommandRunSystem`, `CommandRunEffects`, `CommandRunFidelity`, `CommandRunProgress` | the web run client as a state machine, with the Host, over every interleaving |
| `CommandRunOutput` | the bounded output log of the page |
| `WidePath`, `EntryLayout`, `RootedPath`, `EntryContext`, `LayoutInverse`, `PathRules` | the launcher's path buffers and layout, the Core's reading of paths, and its derivation of that layout |
| `Digest`, `ContentIdentity` | the byte strings behind revisions, Command Runtime ids and Runtime Release ids |
| `ByteStrings`, `Wrappers` | texts as bytes, options and results |

## Where a promise does not hold everywhere

The model follows the code. Six promises one would expect hold only under a condition. Each condition is exact, proved
in both directions.

- **Frame decoding and cutting.** How the text pushed into the frame decoder is cut is irrelevant exactly when no record
  over the 16 KiB cap hides an acceptable frame beyond the point where the decoder may give up on it
  (`FrameStream.ChunkingIsIrrelevantExactlyWhen`). Otherwise some cut in two makes the decoder give up on the long
  record and accept the frame inside it. Texts whose records all fit never do this.
- **Reads of a process.** A read returns at most 8192 bytes, so a long record cannot arrive in one piece, and the cuts
  above are not all possible. For all byte strings, how the reads fall is irrelevant exactly when every over-long record
  ends in one way, wherever a read can be the one that takes it beyond the cap
  (`BoundedReads.ReadsAreIrrelevantExactlyWhen`). For one frame at the end of a long record this means: the frame starts
  within the cap, or at least one buffer beyond it; a frame in between is accepted or not depending on the reads
  (`HiddenFrame.ReadsMatterExactlyWhen`).
- **Launcher and Core.** The Core recovers the launcher's layout exactly when the home is on a drive, or in a named share
  of a server behind a prefix that spells `UNC` in capitals, and the entry's name is not blank
  (`LayoutInverse.LayoutsAreInverse`). The launcher itself also accepts `\\?\UNC\s\ab.exe`, `\\?\unc\s\h\ab.exe` and
  `\\?\C:\h\ .exe`, which the Core refuses. The theorem takes as hypothesis that the system keeps the components of the
  two texts; where it drops the period of `C:\kit.`, the Core refuses the entry (`LayoutInverse.PeriodHomeIsRefused`).
- **Extended and DOS form.** An extended path is recovered from its DOS form exactly when it names a drive, or spells
  `UNC` in capitals before a server that does not start with `?` or `.` (`WidePath.ExtendedOfDosExactlyWhen`).
- **Restoring a run.** However the run goes on, a restore call never leaves the page waiting for nothing exactly when it
  comes while nothing runs and no start can still succeed (`CommandRunProgress.RestoreIsStallFreeExactlyWhen`). With only
  such calls an active run is always being followed, and a restore always has its read pending
  (`CommandRunProgress.NeverStalls`). A start that overtakes a restore leaves the page restoring for ever
  (`CommandRunProgress.OvertakenRestoreStalls`).
- **Resolving an alias.** A command address is resolved or refused exactly when its aliases do not lead on for ever;
  otherwise the program never returns (`DependencyCheck.ResolveEndsExactlyWhen`). Discovery writes no alias.

## Conventions

A text is its UTF-8 bytes: `seq<Byte>` where the code works on bytes or cuts at byte positions, `string` with one
character per byte elsewhere. In `WidePath`, `EntryLayout`, `RootedPath`, `EntryContext`, `LayoutInverse` and `PathRules` a `char` is
one WCHAR. Disk facts, hashes, publication checks, `std::path::absolute` and the parser of a progress payload are
parameters. `decode` and `read_output` take the reads as a list of pieces; after it the stream ends or a read fails.
`BoundedReads` takes each piece to be 1 to 8192 bytes long, as the read buffer allows. In the web run client a request is
sent in one step, answered by the Host in a later one, and its answer arrives in a third; any of these steps of different
requests may interleave.

## Model

| member | source | states |
|---|---|---|
| CommandEvent.MatchingPrefixSuffix | _lib/proj/_app/src/command_event.rs:130-136 | the tail held back starts a frame prefix and is a proper part of it |
| CommandEvent.MatchingPrefixSuffixIsLongest | _lib/proj/_app/src/command_event.rs:130-136 | no longer tail of the text starts a frame prefix |
| CommandEvent.FindPrefixFrom | _lib/proj/_app/src/command_event.rs:84-98 | the frame prefix is found at its first occurrence, or occurs nowhere |
| CommandEvent.FindNewlineFrom | _lib/proj/_app/src/command_event.rs:104-105 | the first newline, or the text has none |
| CommandEvent.CommandEventFrameDecoder.constructor | _lib/proj/_app/src/command_event.rs:64-67 | a new decoder holds nothing back |
| CommandEvent.CommandEventFrameDecoder.Push | _lib/proj/_app/src/command_event.rs:70-75 | pushing returns the events of draining what was pending followed by the text, and keeps exactly what that leaves |
| CommandEvent.CommandEventFrameDecoder.Finish | _lib/proj/_app/src/command_event.rs:77-79 | finishing returns the events of draining everything pending to the end of input |
| CommandEvent.CommandEventFrameDecoder.DrainPending | _lib/proj/_app/src/command_event.rs:81-128 | the loop in place computes the recursive drain of its pending text, and terminates because pending shrinks |
| CommandEvent.CommandEventFrameDecoder.TakeTurn | _lib/proj/_app/src/command_event.rs:83-125 | one turn takes the held-back-safe output, the output before a frame, a complete record or an over-long frame off pending, and says whether to go on |
| CommandEvent.FrameIsDelivered | _lib/proj/_app/src/command_event.rs:100-123 | a frame at the start of what is pending becomes the progress its JSON stands for: the parser is handed the JSON with neither prefix nor line end, and a frame it refuses or one beyond the cap is shown as it is, whatever follows |
| CommandEvent.NewlineFrame | _lib/proj/_app/src/command_event.rs:100-123 | one frame within the cap, ended by a newline and pushed by itself, is exactly one event and leaves nothing |
| CommandEvent.CarriageReturnFrame | _lib/proj/_app/src/command_event.rs:117-120 | the same for a frame ended by a carriage return and a newline |
| FrameScan.PushTurn | _lib/proj/_app/src/command_event.rs:83-125 | a turn before the end keeps the reading of everything pushed and still to come, unless one of the cuts exposes a hidden frame |
| FrameScan.PushDrain | _lib/proj/_app/src/command_event.rs:70-75 | a push keeps the one-pass reading of the whole stream, unless one of the cuts exposes a hidden frame |
| FrameScan.FinishDrain | _lib/proj/_app/src/command_event.rs:77-128 | finishing reads the rest as one pass does and leaves nothing pending |
| OutputMerging.SameAtomsSameMerge | _lib/proj/_app/src/command_event.rs:70-128 | event lists with the same bytes and reports are equal once adjacent outputs are merged |
| FrameStream.DecodeIsScan | _lib/proj/_app/src/command_event.rs:70-128 | a text cut where no hidden frame is exposed yields the events of one pass over the whole |
| FrameStream.OneShotIsScan | _lib/proj/_app/src/command_event.rs:70-128 | a text that arrives in one piece is read as the one-pass reference reads it, with no condition |
| FrameStream.ResynchronizingReadsDifferently | _lib/proj/_app/src/command_event.rs:104-110 | a text with a hidden frame has a cut in two whose merged events differ from the one-shot reading |
| FrameStream.CutsAreIrrelevantExactlyWhen | _lib/proj/_app/src/command_event.rs:70-136 | where a stream can be cut only at given places, all cuttings there give the merged events of the one-piece run if and only if no such cut exposes a frame hidden in an over-long record |
| FrameStream.ChunkingIsIrrelevantExactlyWhen | _lib/proj/_app/src/command_event.rs:70-136 | every cutting gives the same merged events as the whole text in one piece, if and only if no over-long record hides an acceptable frame |
| FrameStream.FittingRecordsNeverResynchronize | _lib/proj/_app/src/command_event.rs:100-110 | when no record exceeds the frame cap, no record hides a frame, so chunking is irrelevant |
| FrameStream.OverlongRecordCanResynchronize | _lib/proj/_app/src/command_event.rs:104-110 | the cap matters: any acceptable frame can be hidden in some over-long record |
| FrameConservation.PushSettles | _lib/proj/_app/src/command_event.rs:83-110 | after a push, pending is a proper prefix of the frame prefix or a newline-free frame start within the cap |
| FrameConservation.DrainConserves | _lib/proj/_app/src/command_event.rs:81-128 | the raw texts of the drained events followed by what is left are exactly what was pending |
| FrameConservation.DecodeConserves | _lib/proj/_app/src/command_event.rs:69-128 | over a whole stream every pushed byte is in exactly one event, in order, a report counting as its record |
| Utf8Output.Utf8LossyDecoder.constructor | _lib/proj/_app/src/utf8_output.rs:1-5 | a new decoder has nothing pending |
| Utf8Output.Utf8LossyDecoder.DecodeBytes | _lib/proj/_app/src/utf8_output.rs:7-45 | the loop in place returns and keeps what one pass over pending and the new bytes yields |
| Utf8Output.ValidationScans | _lib/proj/_app/src/utf8_output.rs:12-34 | the validator's error position and length split a text where one pass replaces or stops |
| Utf8Stream.GoodIsWellFormed | _lib/proj/_app/src/utf8_output.rs:12-16 | a step accepts a character exactly when it is well-formed by RFC 3629 |
| Utf8Stream.StepIsMaximalSubpart | _lib/proj/_app/src/utf8_output.rs:17-34 | a replacement spans exactly the maximal subpart of the ill-formed subsequence, and waiting happens exactly when more input could complete a character |
| Utf8Stream.LossyIsReplaced | _lib/proj/_app/src/utf8_output.rs:7-45 | the one-shot reading is the maximal-subpart replacement of section 3.9 of the Unicode Standard |
| Utf8Stream.ChunkingIsIrrelevant | _lib/proj/_app/src/utf8_output.rs:7-45 | for every byte string and every split, the concatenated results equal the one-shot decoding of the whole |
| Utf8Stream.ScanPending | _lib/proj/_app/src/utf8_output.rs:24-34 | what stays pending is at most three bytes and the unfinished start of one well-formed character |
| Utf8Stream.LossyKeepsExactlyTheValid | _lib/proj/_app/src/utf8_output.rs:7-45 | the output is always valid UTF-8, and the input passes unchanged exactly when it is valid |
| Utf8Stream.ReplacementIsFFFD | _lib/proj/_app/src/utf8_output.rs:19-22 | what replaces an ill-formed subsequence is the encoding of U+FFFD and of no other character |
| OutputReader.ReadOutput | _lib/proj/_app/src/process_runner/monitor.rs:237-258 | reads of any sizes are decoded to text, the text is pushed only when there is some, and the end of the stream flushes both decoders in order; a failing read ends the thread with the events dispatched so far |
| OutputReader.FailureKeepsAPrefix | _lib/proj/_app/src/process_runner/monitor.rs:237-258 | what a failing read leaves dispatched is the start of what the same reads dispatch when the stream ends |
| OutputReader.ReadIsDecodeOfPushes | _lib/proj/_app/src/process_runner/monitor.rs:237-258 | what is dispatched is the frame decoding of the texts that the byte decoder releases |
| OutputReader.ReadsAreIrrelevant | _lib/proj/_app/src/process_runner/monitor.rs:237-258 | how the bytes arrive is irrelevant: the merged events are those of one pass over the lossy text, unless a read can end where it exposes a hidden frame |
| OutputReader.ReadsConserve | _lib/proj/_app/src/process_runner/monitor.rs:237-258 | with no condition, the dispatched events account byte for byte for the replaced text of everything read |
| FrameRuns.TurnReading | _lib/proj/_app/src/command_event.rs:83-125 | with no condition, a turn keeps the run's reading of everything pushed and still to come |
| FrameRuns.DecodeIsReading | _lib/proj/_app/src/command_event.rs:70-136 | with no condition, the events of any cutting are the reading in which the first push beyond the cap decides how an over-long record ends |
| FrameRuns.SteadyReadsAlike | _lib/proj/_app/src/command_event.rs:70-136 | runs that cross every bound as the given crossings allow read a text alike, if each of its records has one ending |
| FrameRuns.EndingsShow | _lib/proj/_app/src/command_event.rs:70-136 | two different endings of a line show before the line is over |
| BoundedReads.ReadIsReading | _lib/proj/_app/src/process_runner/monitor.rs:237-258 | with no condition, what is dispatched is the reading of the lossy text by the run of the reads |
| BoundedReads.RunCrosses | _lib/proj/_app/src/process_runner/monitor.rs:237-258 | bounded reads cross a bound only as one read of at most 8192 bytes can |
| BoundedReads.EndingIsRun | _lib/proj/_app/src/process_runner/monitor.rs:237-258 | every way a line can end is the way it ends in some run of bounded reads |
| BoundedReads.ReadsAreIrrelevantExactlyWhen | _lib/proj/_app/src/process_runner/monitor.rs:12-258 | for all byte strings, any two ways for reads of at most 8192 bytes to fall give the same merged events if and only if every over-long record of the lossy text ends in one way |
| BoundedReads.CalmIsSteady | _lib/proj/_app/src/process_runner/monitor.rs:237-258 | where no read can expose a hidden frame, every record ends in one way |
| HiddenFrame.ReadsMatterExactlyWhen | _lib/proj/_app/src/process_runner/monitor.rs:12-258 | the reads matter for a frame at the end of a long record exactly when it starts beyond the cap by less than one buffer |
| HiddenFrame.FarFrameReadsAlike | _lib/proj/_app/src/process_runner/monitor.rs:12-258 | a frame one buffer beyond the cap is accepted however the reads fall, although a single push of the whole would not show it |
| DependencyCheck.InspectPublication | _lib/proj/_app/src/command_check/publication.rs:24-103 | a publication is ready exactly when every check passes, the export is safe and the recorded state is ready; its status says so, and only then it carries no message |
| DependencyCheck.StatusNamesFailure | _lib/proj/_app/src/command_check/publication.rs:24-103 | the status names the first check that failed, and its error is the message |
| DependencyCheck.Provider | _lib/proj/_app/src/command_check.rs:148-152 | a command of that address that is no alias, or there is none |
| DependencyCheck.ProviderIsFirst | _lib/proj/_app/src/command_check.rs:148-152 | it is the first such command of the Catalog |
| DependencyCheck.ResolveFrom | _lib/proj/_app/src/command_check.rs:308-326 | a resolved target is the only command of its address and no alias |
| DependencyCheck.ResolveEndsExactlyWhen | _lib/proj/_app/src/command_check.rs:308-326 | resolution returns exactly when the aliases of the address do not lead on for ever |
| DependencyCheck.SelfAliasIsEndless | _lib/proj/_app/src/command_check.rs:308-326 | a command that is an alias of itself is never resolved |
| DependencyCheck.DependencyWalk.constructor | _lib/proj/_app/src/command_check.rs:106-114 | a walk starts with the target active and no item spent |
| DependencyCheck.DependencyWalk.EvaluateDependency | _lib/proj/_app/src/command_check.rs:131-219 | the walk that mutates the active set and the counter gives the check, the set and the count of the state-passing specification, errors included |
| DependencyCheck.DependencyWalk.EvaluateRequirements | _lib/proj/_app/src/command_check.rs:115-129 | the same over a list of requirements, stopping at the first error |
| DependencyCheck.FirstUnready | _lib/proj/_app/src/command_check.rs:272-276 | an unready check of the list, or all are ready |
| DependencyCheck.FirstUnreadyIsFirst | _lib/proj/_app/src/command_check.rs:272-276 | it is the first unready one |
| DependencyGraph.EvaluateRefines | _lib/proj/_app/src/command_check.rs:131-268 | evaluation answers with the unbudgeted unfolding, restores the active set and spends one item a node, or fails exactly when the unfolding exceeds depth 32 or 512 nodes |
| DependencyGraph.EvaluateAllRefines | _lib/proj/_app/src/command_check.rs:106-129 | the same over a list of requirements |
| DependencyGraph.DependenciesAreTheUnfolding | _lib/proj/_app/src/command_check.rs:106-129 | a target's dependencies exist exactly when its unfolding fits the budgets, and then are that unfolding |
| DependencyGraph.ReadyMeansEveryWalk | _lib/proj/_app/src/command_check.rs:131-219 | a ready requirement answers for every walk through the requirement graph: its end is met and it never returns to a provider |
| DependencyGraph.UnreadyHasWalk | _lib/proj/_app/src/command_check.rs:131-219 | an unready requirement has a walk that ends unmet or returns to a provider |
| DependencyGraph.InspectIsSoundAndComplete | _lib/proj/_app/src/command_check.rs:57-80 | a document exists exactly when the target resolves and the unfolding fits; its ready flag holds exactly when the target is runnable and every reachable requirement is met without a cycle |
| DependencyGraph.GateOpensExactlyWhenReady | _lib/proj/_app/src/command_check.rs:82-104 | the execution gate succeeds exactly when the inspection of the same target finds every dependency ready |
| DependencyGraph.ProjectionBudget.constructor | _lib/proj/_app/web/command-check-projection-model.js:143 | the shared count starts at zero |
| DependencyGraph.ProjectionBudget.Dependency | _lib/proj/_app/web/command-check-projection-model.js:77-114 | a node is refused below depth 32, beyond 512 counted nodes, or when its ready flag disagrees with its status and children |
| DependencyGraph.ProjectionBudget.Dependencies | _lib/proj/_app/web/command-check-projection-model.js:95-97 | the same over a list of dependencies |
| DependencyGraph.CreateProjection | _lib/proj/_app/web/command-check-projection-model.js:116-159 | a document is accepted exactly when depth, count and readiness agree |
| DependencyGraph.ProjectionAcceptsAll | _lib/proj/_app/web/command-check-projection-model.js:77-114 | on consistent trees the browser's depth and count checks accept exactly those within its limits, and count every node |
| DependencyGraph.BrowserAcceptsInspections | _lib/proj/_app/web/command-check-projection-model.js:116-159 | every document the checker produces passes the browser's depth, count and readiness checks |
| DependencyGraph.SummaryReachesAMessage | _lib/proj/_app/src/command_check.rs:270-306 | the failure summary of any unready node follows unready dependencies to one with a concrete message and contains it |
| DependencyReport.UnfoldNames | _lib/proj/_app/src/command_check.rs:180-218 | every check at every depth names the provider and the export of its requirement, and below an opened one there is one check for each requirement of the command the Catalog offers as provider |
| DependencyReport.RefusalExactlyWhen | _lib/proj/_app/src/command_check.rs:141-171 | a check is a cycle exactly when its provider is being evaluated, missing exactly when the Catalog has no such command, undeclared exactly when the provider does not list the export, each with its message and with nothing below it |
| DependencyReport.OpenedDependencies | _lib/proj/_app/src/command_check.rs:173-190 | an opened provider is evaluated with itself among the active ones, and its dependencies are the checks of its own requirements in order |
| DependencyReport.StatusExactlyWhen | _lib/proj/_app/src/command_check.rs:191-218 | which states of the Catalog and of the provider's directory each status of an opened provider stands for |
| DependencyReport.MessageOf | _lib/proj/_app/src/command_check/publication.rs:24-103 | the message of a check is the first failure in its own words, or what to run |
| DependencyReport.CheckerIsTheOnlyOne | _lib/proj/_app/src/command_check.rs:221-245 | a check names a checker exactly when one and only one runnable command stands at the provider's check address in its space and namespace, and asks it for the export |
| DependencyReport.EvaluateStops | _lib/proj/_app/src/command_check.rs:247-268 | evaluation fails exactly when a check of the unfolding is beyond a budget, with the error of the first such check in document order |
| DependencyReport.WalkStopsAtFirstOver | _lib/proj/_app/src/command_check.rs:106-129 | a walk that stops names the first check, in document order, that lies deeper than 32 or is the 513th or later |
| DependencyReport.DocumentOf | _lib/proj/_app/src/command_check.rs:57-80 | the document repeats the resolved command's own fields, and without a document gate and inspection fail for the same reason |
| DependencyReport.GateReports | _lib/proj/_app/src/command_check.rs:82-104 | a gate that stays shut reports the target and one summary for each unready dependency, in order |
| DependencyReport.SummaryOfChain | _lib/proj/_app/src/command_check.rs:270-306 | the text of a summary: the names along the chain of first unready dependencies, the last one's status and message, then the invitations to the checkers from the last back to the first |
| CommandIdentity.NewIdentity | _lib/proj/_protocol/src/command_identity.rs:24-56 | an identity is made exactly when path, namespace and address length are valid, and holds what was given |
| NameRules.SegmentsExactly | _lib/proj/_protocol/src/command_name.rs:1-32 | a path segment is 1 to 64 letters, digits and hyphens, starts with a letter and is no Windows device name |
| NameRules.NamespacesExactly | _lib/proj/_protocol/src/command_name.rs:34-40 | a module namespace is such a segment other than the two space names |
| NameRules.AncestorsExactly | _lib/proj/_protocol/src/command_identity.rs:103-108 | an identity is above another exactly when further segments lead to it |
| NameRules.IdentityRefusedFor | _lib/proj/_protocol/src/command_identity.rs:24-56 | an identity is refused for its path, else its namespace, else the length of its address |
| CommandIdentity.ParseOfAddress | _lib/proj/_protocol/src/command_identity.rs:58-101 | parsing the address of a valid identity gives that identity back |
| CommandIdentity.AddressOfParse | _lib/proj/_protocol/src/command_identity.rs:58-101 | only canonical addresses are accepted, and printing what was parsed gives them back |
| CommandIdentity.AddressIsInjective | _lib/proj/_protocol/src/command_identity.rs:90-101 | different identities have different addresses |
| CommandIdentity.CommandDataRoot | _lib/proj/_protocol/src/command_identity.rs:111-126 | the loop pushes exactly the space directory and the path segments |
| CommandIdentity.DataRootsMirrorIdentity | _lib/proj/_protocol/src/command_identity.rs:103-126 | data roots are equal exactly for equal commands, and one lies strictly inside another exactly when the first command is a true descendant of the second |
| CommandIdentity.NativeRootIsNoDataRoot | _lib/proj/_protocol/src/command_identity.rs:128-130 | no native root is a command's data root or an ancestor of one |
| TextSplit.JoinOfSplit | _lib/proj/_protocol/src/command_identity.rs:132-137 | joining the parts of a split text gives the text back |
| TextSplit.SplitOfJoin | _lib/proj/_protocol/src/command_identity.rs:132-137 | splitting joined parts that lack the separator gives the parts back |
| ResourceRoute.PrintResource | _lib/proj/_protocol/src/resource_route.rs:81-90 | the loop prints the canonical text of the hops |
| ResourceRoute.ParseRoute | _lib/proj/_protocol/src/resource_route.rs:189-239 | the loop over the segments returns the specified target or the specified error |
| ResourceRoute.FindDouble | _lib/proj/_protocol/src/resource_route.rs:207-209 | the first `::` of a segment, or there is none |
| ResourceRoute.ParseOfCanonical | _lib/proj/_protocol/src/resource_route.rs:71-106 | parsing what a valid Resource or Facet route prints gives that route with its terminal kind |
| ResourceRoute.CanonicalOfParse | _lib/proj/_protocol/src/resource_route.rs:189-239 | any accepted text is a valid route and is printed back exactly |
| ResourceRoute.TooLongExactlyWhen | _lib/proj/_protocol/src/resource_route.rs:92-106 | parsing complains of length exactly when the text itself exceeds 1024 bytes; the length checks inside the loop never fire |
| NameRules.HopNamesExactly | _lib/proj/_protocol/src/resource_route.rs:263-325 | the letters and lengths of a hop's Facet and selector |
| RouteErrors.UnrootedRefusedFor | _lib/proj/_protocol/src/resource_route.rs:189-206 | which texts are refused before any segment is looked at, and for what; only `$` is the root |
| RouteErrors.RefusedForFirstBad | _lib/proj/_protocol/src/resource_route.rs:207-239 | the first bad segment decides what a text is refused for: two marks, a bad Facet, a bad selector, or a Facet without selector before the end |
| RouteErrors.GoodSegmentsAccepted | _lib/proj/_protocol/src/resource_route.rs:189-239 | a text of good segments is accepted unless it spells 33 hops |
| ResourceRoute.CommandResourceRoute | _lib/proj/_protocol/src/resource_route.rs:241-261 | the loop yields the command's hops if there are at most 32, and otherwise fails for the hop limit, never for the byte limit |
| ResourceRoute.CommandRouteFits | _lib/proj/_protocol/src/resource_route.rs:241-261 | the 256-byte address bound keeps the route text within 1024 bytes |
| ResourceRoute.CommandRouteIsInjective | _lib/proj/_protocol/src/resource_route.rs:241-261 | different commands have different routes |
| ResourceRoute.CommandRouteExactlyWhen | _lib/proj/_protocol/src/resource_route.rs:241-261 | a command has a valid route exactly when it needs at most 32 hops, and its text parses back to it |
| ResourceRoute.CommandIdentityForRoute | _lib/proj/_app/src/catalog/resource_loader/projection.rs:16-56 | a route is refused unless it enters through system, or through modules and then subcommands, and goes on through subcommands only |
| ResourceRoute.CommandOfCommandRoute | _lib/proj/_app/src/catalog/resource_loader/projection.rs:10-56 | the route of a command leads back to that command |
| ResourceRoute.RouteOfRouteCommand | _lib/proj/_app/src/catalog/resource_loader/projection.rs:16-56 | a route that leads to a command is that command's own route |
| Catalog.ChildIdPlaced | _lib/proj/_app/src/catalog/identity.rs:30-42 | a child identity is valid and one segment below its parent |
| Catalog.ParentPlaced | _lib/proj/_app/src/catalog/identity.rs:44-55 | the parent of a Catalog identity is a Catalog identity |
| Catalog.CatalogAddressIsInjective | _lib/proj/_app/src/catalog/identity.rs:57-64 | command roots and commands of all spaces have pairwise different addresses |
| Catalog.ChildrenWeight | _lib/proj/_app/src/catalog.rs:175-206 | the queue shrinks in total weight at every directory visited, so the worklist terminates |
| Catalog.ScanRoot | _lib/proj/_app/src/catalog.rs:175-206 | the worklist loop produces the breadth-first commands, or fails at a directory that cannot be listed |
| Catalog.WorklistVisitsTheTree | _lib/proj/_app/src/catalog.rs:175-206 | the worklist visits exactly the directories of the recursive tree traversal, each once |
| Catalog.NodeIsCanonical | _lib/proj/_app/src/catalog.rs:313-458 | a scanned directory yields a command with canonical address and parent, in the state that owner resolution expects |
| Catalog.QueuedAreSiblings | _lib/proj/_app/src/catalog.rs:369-384 | the children queued from a directory are one segment below it and pairwise different |
| Catalog.TreeIsGood | _lib/proj/_app/src/catalog.rs:175-206 | below one root paths are pairwise different and every command but the root has its parent |
| Catalog.DiscoverRoots | _lib/proj/_app/src/catalog.rs:106-162 | discovery concatenates system and modules, skips only an unreadable project, and sorts by space and address |
| Catalog.DiscoveryIsWellFormed | _lib/proj/_app/src/catalog.rs:106-206 | for all directory trees with distinct sibling names, the Catalog has pairwise distinct canonical addresses across all roots, every command's parent, and the form native ownership starts from |
| CatalogContents.NodeDeclares | _lib/proj/_app/src/catalog.rs:316-384 | a directory's command has exactly the requirements, provisions, delegate owner and native declaration of the contract that is used, and none without one |
| CatalogContents.NodeRuns | _lib/proj/_app/src/catalog.rs:386-448 | it runs the entry that its directory offers and may run, with that entry's name, adapter, handler and product, and otherwise does not run |
| CatalogContents.NodeReports | _lib/proj/_app/src/catalog.rs:313-458 | it carries a diagnostic exactly when something about its directory is wrong |
| CatalogContents.NodeSays | _lib/proj/_app/src/catalog.rs:315-448 | the diagnostic lists everything wrong with the directory, in the order in which it is found |
| CatalogContents.VisitsCommands | _lib/proj/_app/src/catalog.rs:175-206 | a scan yields, in order, exactly one command for each visited directory, made of what that directory declares |
| CatalogContents.ScanReadsWhatIsReached | _lib/proj/_app/src/catalog.rs:175-206 | and the directories visited are exactly those that can be reached from the root: declared children of a Resource directory, declared directories in an ordinary one |
| CatalogContents.DiscoveryCollects | _lib/proj/_app/src/catalog.rs:106-162 | discovery fails exactly when the system root or a module other than the project cannot be scanned; otherwise the Catalog holds the commands of all that can, and no others, by space and address |
| Ordering.SortProperties | _lib/proj/_protocol/src/execution_contract.rs:42-50 | sorting rearranges the elements into ascending order of their keys |
| Ordering.StringLeIsLexicographic | _lib/proj/_protocol/src/execution_contract.rs:42-50 | texts are ordered by their first differing character, a prefix first |
| Ordering.KeyLeIsLexicographic | _lib/proj/_protocol/src/execution_contract.rs:42-50 | keys are ordered by their first differing text |
| Ordering.SortIgnoresOrder | _lib/proj/_protocol/src/execution_contract.rs:42-50 | sorting forgets the order it was given when keys determine elements |
| Ordering.SortedStrictExactlyWhenDistinct | _lib/proj/_protocol/src/execution_contract.rs:99-105 | sorting ends in strict order exactly when the keys are distinct |
| NativeOwner.ResolveNativeOwners | _lib/proj/_app/src/catalog/native_owner.rs:15-58 | the pass over the array in place leaves every command as resolved against the Catalog it started from, a refused delegate with the diagnostic that names its reason |
| NativeOwner.Least | _lib/proj/_app/src/catalog/native_owner.rs:97-111 | the nested owner that a diagnostic names is the first in address order |
| NativeOwner.DelegateGetsDeclaredOwner | _lib/proj/_app/src/catalog/native_owner.rs:60-119 | a runnable delegate gets the owner it declares exactly when that owner may execute it |
| NativeOwner.MayExecuteIsStable | _lib/proj/_app/src/catalog/native_owner.rs:15-58 | resolution changes no native command, so owners may execute afterwards exactly what they could before |
| NativeOwner.OwnershipIsExact | _lib/proj/_app/src/catalog/native_owner.rs:15-119 | after resolution a delegate is runnable exactly when its declared owner is a native strict ancestor with no native declaration strictly between, and then names it; otherwise it is disabled with a diagnostic |
| NativeOwner.OwnerIsNearestNative | _lib/proj/_app/src/catalog/native_owner.rs:60-119 | when native adapters declare native, the owner is the nearest native command above the delegate |
| OwnerRefusal.OthersAreKept | _lib/proj/_app/src/catalog/native_owner.rs:33-48 | a runnable native command owns itself, and every other command but a runnable delegate is left as it is |
| OwnerRefusal.AcceptedDelegate | _lib/proj/_app/src/catalog/native_owner.rs:37-42 | an accepted delegate is given the owner it declares and is otherwise unchanged |
| OwnerRefusal.NoOwner | _lib/proj/_app/src/catalog/native_owner.rs:64-69 | a delegate that declares no owner is refused with that diagnostic, behind any it has already |
| OwnerRefusal.NoSuchOwner | _lib/proj/_app/src/catalog/native_owner.rs:70-75 | a delegate whose declared owner is not in the Catalog is refused with that diagnostic |
| OwnerRefusal.DeclaredOwnerDecides | _lib/proj/_app/src/catalog/native_owner.rs:76-119 | with the declared owner in the Catalog a delegate is accepted exactly when nothing stands against it, and otherwise refused with the first objection in order; a nested owner is named by the first address |
| ExecutionContract.ValidateCommandRequirements | _lib/proj/_protocol/src/command_capability.rs:23-41 | the loop over a seen set returns an error exactly when a requirement is invalid or repeated |
| ExecutionContract.ValidateCommandProvisions | _lib/proj/_protocol/src/command_capability.rs:43-58 | the same for provisions |
| ExecutionContract.Validate | _lib/proj/_protocol/src/execution_contract.rs:94-132 | the loop that counts natives reports the first reason to refuse: owner, identity and order, a member, or not exactly one native; and none exactly when there is none |
| ExecutionContract.ValidateMember | _lib/proj/_protocol/src/execution_contract.rs:106-125 | a member is refused for its address, its lists, or an execution that does not belong to the owner, in that order |
| ExecutionContract.Create | _lib/proj/_protocol/src/execution_contract.rs:37-59 | construction sorts lists and members and then refuses exactly what validation refuses |
| ContractCanonical.MembersInAnyOrder | _lib/proj/_protocol/src/execution_contract.rs:37-59 | permuting the members never changes the result |
| ContractCanonical.ListsInAnyOrder | _lib/proj/_protocol/src/execution_contract.rs:37-59 | permuting any member's requirements or provisions never changes the result |
| ContractCanonical.ConstructionIgnoresOrder | _lib/proj/_protocol/src/execution_contract.rs:37-59 | no rearrangement of members and lists changes the contract or the reason it is refused |
| ContractCanonical.AcceptedExactlyWhen | _lib/proj/_protocol/src/execution_contract.rs:94-157 | exactly which owners and members make a contract, with no mention of order |
| ContractCanonical.AcceptedFormIsFixed | _lib/proj/_protocol/src/execution_contract.rs:37-59 | the accepted form is strictly ordered throughout and constructing from it again changes nothing |
| ContractCanonical.AcceptedOrder | _lib/proj/_protocol/src/execution_contract.rs:42-50 | members stand by address, requirements by provider and then by export, provisions by name |
| NameRules.CapabilitiesExactly | _lib/proj/_protocol/src/command_capability.rs:60-66 | the letters and length of what a provider exports |
| ContractCanonical.MemberIsListed | _lib/proj/_protocol/src/execution_contract.rs:37-59 | every member is listed in the accepted contract with the address, execution, requirements and provisions it was given |
| ContractCanonical.ListedIsMember | _lib/proj/_protocol/src/execution_contract.rs:37-59 | and nothing else is listed |
| ContractCanonical.ContractHoldsMembers | _lib/proj/_protocol/src/execution_contract.rs:37-59 | the contract states its schema, protocol and owner, and has as many entries as members, all of different addresses |
| ContractCanonical.MemberRefusedFor | _lib/proj/_protocol/src/execution_contract.rs:106-157 | the first of its faults that a member is refused for, in order |
| ContractCanonical.ContractRefusedFor | _lib/proj/_protocol/src/execution_contract.rs:94-132 | a contract is refused for its owner, else its shape, else its first bad member, else for having no native member |
| NativeCommand.NativeOwnersHaveContracts | _lib/proj/_app/src/native_command.rs:101-151 | every native owner of a resolved Catalog has an execution contract when its members' capability lists are valid |
| NativeCommand.DiscoveredOwnersHaveContracts | _lib/proj/_app/src/native_command.rs:101-151 | the same starting from the directory trees: discovery, ownership and contract construction fit together |
| NativeCommand.ResolvedMemberFits | _lib/proj/_app/src/native_command.rs:127-151 | a resolved command belongs to its owner's contract in exactly one role, as the native owner or as a delegate it may execute |
| NativeCommand.ContractListsOwnersCommands | _lib/proj/_app/src/native_command.rs:101-151 | a contract lists exactly the owner's commands of the Catalog, each once: under its address, in its role, with the requirements and provisions the Catalog has for it |
| NativeCommand.ContractRefusesMisfits | _lib/proj/_app/src/native_command.rs:101-143 | the first command of the owner's that fits neither role is the one the contract is refused for |
| NativeCommand.OwnersShareNoMember | _lib/proj/_app/src/native_command.rs:101-125 | members of different owners are disjoint |
| NativeCommand.ContractsHaveReleases | _lib/proj/_protocol/src/release.rs:28-94 | the delegated commands of any accepted contract make a release, given valid revisions and a non-empty executable |
| CommandRelease.ReleaseAcceptedExactlyWhen | _lib/proj/_protocol/src/release.rs:28-94 | exactly which releases can be made, with no mention of the order of the commands |
| CommandRelease.ReleaseStates | _lib/proj/_protocol/src/release.rs:28-52 | a release states its owner, both revisions, its commands in strict order and its executable's name, length and hash |
| CommandRelease.RefusedExactlyWhen | _lib/proj/_protocol/src/release.rs:54-94 | what a release is refused for: its schema, the expected owner, another owner, or any bad field |
| CommandRunClient.AscendingAt | _lib/proj/_app/web/command-event-client.js:28-36 | the running check of sequences holds exactly when all are above the floor and strictly increase |
| CommandRunClient.FetchedContinues | _lib/proj/_app/web/command-run-client.js:155-183 | an accepted answer is about the requested run, continues strictly after the requested cursor and stops at its own |
| CommandRunEffects.NormalExactlyWhen | _lib/proj/_app/web/command-run-client.js:50-104 | which documents are well formed: an exit code exactly when exited, an error exactly when failed, events ascending up to the cursor |
| CommandRunEffects.ReadOutcome | _lib/proj/_app/web/command-run-client.js:155-183 | which answers to a read are a document, a lost record or worth a retry |
| CommandRunEffects.StartOutcome | _lib/proj/_app/web/command-run-client.js:120-153 | a start succeeds exactly for a well-formed document of the run its Location names |
| CommandRunView.CommandRunPanel.constructor | _lib/proj/_app/web/command-run.js:54-68 | the page starts with nothing displayed, pending or scheduled |
| CommandRunView.CommandRunPanel.AdoptSnapshot | _lib/proj/_app/web/command-run.js:186-219 | a snapshot of another run or address is refused and changes nothing; otherwise its new events are shown, the cursor becomes its own, and a first success of the run is announced |
| CommandRunView.CommandRunPanel.OnTimer | _lib/proj/_app/web/command-run.js:228-242 | an expired timer polls only under the current version and an active run |
| CommandRunView.CommandRunPanel.OnPollAnswer | _lib/proj/_app/web/command-run.js:243-287 | an answer of an older version changes nothing; a snapshot of the run on display is adopted and polled on while active; 404 settles the run as failed; a retryable failure polls again; anything else stops |
| CommandRunView.CommandRunPanel.Execute | _lib/proj/_app/web/command-run.js:289-303 | a start is requested only when nothing runs, starts, restores or is uncertain |
| CommandRunView.CommandRunPanel.OnStartAnswer | _lib/proj/_app/web/command-run.js:304-333 | a started run replaces the display, outdates every earlier poll and is followed while active; a failure only ends the submission |
| CommandRunView.CommandRunPanel.Cancel | _lib/proj/_app/web/command-run.js:335-343 | a cancel is requested only for an active run while none is under way, and outdates earlier polls |
| CommandRunView.CommandRunPanel.OnCancelAnswer | _lib/proj/_app/web/command-run.js:344-367 | an accepted cancel marks the active run on display as canceling and polls at once, a refused one polls on, and a different run on display is left alone |
| CommandRunView.CommandRunPanel.Restore | _lib/proj/_app/web/command-run.js:437-448 | a restore is requested for a stored id when none is under way |
| CommandRunView.CommandRunPanel.OnRestoreAnswer | _lib/proj/_app/web/command-run.js:369-435 | the restored run replaces the display from its first event; 404 ends the restore; a retryable failure schedules another attempt; any other leaves the recovery uncertain; an outdated answer changes nothing |
| CommandRunSystem.AdoptedSafe | _lib/proj/_app/web/command-run.js:186-219 | adopting an answer that continues at the cursor shows all of its events and keeps the view's invariants |
| CommandRunSystem.AnsweredKeeps | _lib/proj/_app/web/command-run.js:236-435 | the answer to one request leaves every other pending request consistent with the page |
| CommandRunSystem.HandledKeeps | _lib/proj/_app/web/command-run.js:289-448 | what the user or a timer starts never competes with a request already pending |
| CommandRunSystem.StepSafe | _lib/proj/_app/web/command-run.js:186-448 | every step of user, timer, network or Host keeps the invariants |
| CommandRunSystem.AlwaysSafe | _lib/proj/_app/web/command-run.js:186-448 | every interleaving, with any Host whatever, reaches only states with the invariants |
| CommandRunSystem.EveryRunIsSafe | _lib/proj/_app/web/command-run.js:186-448 | in every reachable state shown sequences strictly increase up to the cursor, which is the held snapshot's; at most one start is in flight; and a run that succeeded is announced exactly once |
| CommandRunSystem.StaleAnswersChangeNothing | _lib/proj/_app/web/command-run.js:244-247 | an answer to a poll or restore read issued under an older version changes nothing |
| CommandRunSystem.ShownOnlyGrows | _lib/proj/_app/web/command-run.js:186-219 | what is shown about a run is only ever extended; only an answered start or restore replaces the run on display |
| CommandRunEffects.CancelOutcome | _lib/proj/_app/web/command-run.js:344-367 | an answered cancel changes the displayed run's state to canceling exactly when it was accepted and the run is still displayed and active, nothing else of the snapshot, and nothing of the display otherwise |
| CommandRunEffects.PollOutcome | _lib/proj/_app/web/command-run.js:236-287 | what each kind of answer to a poll changes, told from the answer itself: a continuing document, a lost record, a failure worth a retry, anything else |
| CommandRunEffects.StartAnswerOutcome | _lib/proj/_app/web/command-run.js:304-333 | what a start's answer changes: the started run replaces the display from its first event, or only the submission ends |
| CommandRunEffects.RestoreOutcome | _lib/proj/_app/web/command-run.js:369-435 | what a restore's answer changes: the stored run is shown, forgotten, read again, or stays in doubt |
| CommandRunEffects.ExecuteOutcome | _lib/proj/_app/web/command-run.js:289-303 | execute sends one start exactly when the command can run and nothing runs, starts, restores or is in doubt |
| CommandRunEffects.CancelPressOutcome | _lib/proj/_app/web/command-run.js:335-343 | cancel sends one cancel of the displayed run exactly when it is active and no cancel is under way |
| CommandRunEffects.RestoreCallOutcome | _lib/proj/_app/web/command-run.js:437-448 | restore sends one read of the stored run exactly when none is under way or in doubt |
| CommandRunEffects.TimerOutcome | _lib/proj/_app/web/command-run.js:228-242 | an expired timer polls the active run from its cursor, or repeats the restore it was set for |
| CommandRunFidelity.FreshSuffix | _lib/proj/_app/src/runtime_service/registry/run.rs:260-281 | the events after the last sequence of a prefix are exactly the rest |
| CommandRunFidelity.ShowsContinues | _lib/proj/_app/src/runtime_service/registry/run.rs:260-281 | appending a Host document that continues at the cursor moves a faithful display to where the document ends |
| CommandRunFidelity.HostStepGrows | _lib/proj/_app/src/runtime_service/registry/run.rs:158-188 | recording an event only appends it and only drops more of the oldest |
| CommandRunEffects.HostRecordOutcome | _lib/proj/_app/src/runtime_service/registry/run.rs:158-188 | recording appends one later event behind the others, may forget some of the oldest, and changes nothing on the page |
| CommandRunEffects.HostStartOutcome | _lib/proj/_app/src/runtime_service/registry.rs:39-70 | a started run has an id of its own and nothing recorded, and the page sees nothing of it yet |
| CommandRunEffects.HostAnswerOutcome | _lib/proj/_app/src/runtime_service/registry/run.rs:260-281 | a request is answered once, and the answer waits to arrive |
| CommandRunFidelity.OwnRecordIsHonest | _lib/proj/_app/src/runtime_service/registry/run.rs:260-281 | what the Host answers from its own record satisfies what is assumed of its documents |
| CommandRunFidelity.DisplayIsFaithful | _lib/proj/_app/web/command-run.js:186-448 | with a Host that answers from its own records, everything shown is an event of the run on display, only events the Host dropped are missing up to the cursor, and without the truncation mark the display is exactly the run's history so far |
| CommandRunProgress.AnswerSettles | _lib/proj/_app/web/command-run.js:236-435 | answering a request leaves an active run scheduled and a retried restore scheduled |
| CommandRunProgress.NeverStalls | _lib/proj/_app/web/command-run.js:228-448 | when restore is called only on a quiet page and reads are understood, an active run always has a current poll or cancel pending, a restore its own read, and a start its request |
| CommandRunProgress.RestoreIsStallFreeExactlyWhen | _lib/proj/_app/web/command-run.js:304-448 | an enabled restore call never leaves the page waiting for nothing, in any continuation with understood reads, exactly when nothing runs and no start can still succeed |
| CommandRunProgress.OvertakenRestoreStalls | _lib/proj/_app/web/command-run.js:304-448 | a start that overtakes a restore leaves the page restoring with nothing pending, for ever |
| CommandRunOutput.IndexOf | _lib/proj/_app/web/command-run-output.js:38-40 | the first displayed progress with this id, or there is none and the index is the end |
| CommandRunOutput.Excess | _lib/proj/_app/web/command-run-output.js:94-105 | the fewest oldest items whose removal brings the log within both limits |
| CommandRunOutput.OutputLog.constructor | _lib/proj/_app/web/command-run-output.js:7-13 | a new log is empty and not truncated |
| CommandRunOutput.OutputLog.Reset | _lib/proj/_app/web/command-run-output.js:15-20 | reset empties the log, the accounting and the truncation mark |
| CommandRunOutput.OutputLog.Display | _lib/proj/_app/web/command-run-output.js:41-52 | a new item is displayed last, charged its bytes and entered in the map if it is progress |
| CommandRunOutput.OutputLog.Refresh | _lib/proj/_app/web/command-run-output.js:53-75 | a displayed progress is rewritten in place and its charge replaced |
| CommandRunOutput.OutputLog.EvictOldest | _lib/proj/_app/web/command-run-output.js:98-104 | the oldest item goes, with its charge and its map entry |
| CommandRunOutput.OutputLog.DisplayAll | _lib/proj/_app/web/command-run-output.js:80-93 | the events are displayed one after another |
| CommandRunOutput.OutputLog.Evict | _lib/proj/_app/web/command-run-output.js:94-105 | the loop removes exactly the excess, sets the mark exactly if there is one, and never looks into an empty log |
| CommandRunOutput.OutputLog.Append | _lib/proj/_app/web/command-run-output.js:77-109 | appending displays the events after the cursor and evicts the excess; the accounting, the map and the items stay consistent |
| CommandRunOutput.TruncatedExactlyWhen | _lib/proj/_app/web/command-run-output.js:77-109 | the truncation mark is set exactly when the unbounded log exceeded a limit after some batch since the reset; until then everything is displayed |
| CommandRunOutput.OutputIsASuffix | _lib/proj/_app/web/command-run-output.js:77-109 | the output on display is the latest part of the output received, with nothing lost in the middle |
| CommandRunOutput.DisplayIsCurrent | _lib/proj/_app/web/command-run-output.js:38-109 | after every batch both limits hold, each progress id is displayed at most once, and what is displayed for it is the last progress received |
| CommandRunOutput.ProgressShowsLast | _lib/proj/_app/web/command-run-output.js:38-75 | a progress on display shows the id, sequence, message and detail of the last one received with its id |
| CommandRunOutput.UnboundedInOrder | _lib/proj/_app/web/command-run-output.js:38-93 | items stand where their first event was received, one for each output and each progress id |
| CommandRunOutput.ChargedAsRendered | _lib/proj/_app/web/command-run-output.js:72-92 | what is charged is what is shown, byte for byte |
| CommandRunOutput.WithinExactly | _lib/proj/_app/web/command-run-output.js:94-97 | a log is within its limits exactly when what it shows is within the one and its items are within the other |
| WidePath.TextOf | _lib/proj/_launcher/path.c:8-15 | the text of a terminated buffer is what precedes its first NUL |
| WidePath.WideLength | _lib/proj/_launcher/path.c:8-15 | the loop stops at the first NUL inside the buffer |
| WidePath.CopyParts | _lib/proj/_launcher/path.c:67-91 | prefix, rest of the source and NUL are copied within the capacity, or nothing is changed |
| WidePath.IsDriveAbsolute | _lib/proj/_launcher/path.c:25-33 | recognizes a drive path without reading past the terminator |
| WidePath.IsExtendedUnc | _lib/proj/_launcher/path.c:35-47 | recognizes an extended UNC path without reading past the terminator |
| WidePath.IsExtendedAbsolutePath | _lib/proj/_launcher/path.c:49-65 | recognizes exactly the extended drive and UNC paths |
| WidePath.CopyExtendedAbsolutePath | _lib/proj/_launcher/path.c:93-119 | succeeds exactly when the path converts and fits, and then the buffer holds the extended form, terminated |
| WidePath.CopyDosAbsolutePath | _lib/proj/_launcher/path.c:121-153 | succeeds exactly when the path converts and fits, and then the buffer holds the DOS form, terminated |
| WidePath.SamePaths | _lib/proj/_launcher/path.c:93-153 | both conversions accept the same paths |
| WidePath.ExtendedIsIdempotent | _lib/proj/_launcher/path.c:93-119 | extending an extended path changes nothing |
| WidePath.DosOfExtended | _lib/proj/_launcher/path.c:93-153 | extending a path first does not change its DOS form |
| WidePath.ExtendedOfDosExactlyWhen | _lib/proj/_launcher/path.c:35-153 | exactly which extended paths are recovered from their DOS form |
| PathRules.ConvertsExactlyWhen | _lib/proj/_launcher/path.c:93-153 | a path converts exactly when it is a drive path, a UNC path, or the extended form of either |
| PathRules.DriveForms | _lib/proj/_launcher/path.c:93-153 | the two forms of a drive path |
| PathRules.UncForms | _lib/proj/_launcher/path.c:93-153 | the two forms of a UNC path |
| PathRules.ExtendedUncForms | _lib/proj/_launcher/path.c:35-153 | the two forms of an extended UNC path, its mark in any case |
| EntryLayout.LastSeparator | _lib/proj/_launcher/layout.c:33-42 | the last separator, or there is none |
| EntryLayout.LastSeparatorBefore | _lib/proj/_launcher/layout.c:33-42 | the loop finds the last separator |
| EntryLayout.CopyPathWithSuffix | _lib/proj/_launcher/layout.c:44-64 | a path's start and a suffix fill the buffer exactly when they fit; the buffer stays terminated either way |
| EntryLayout.AppendText | _lib/proj/_launcher/layout.c:66-77 | appending succeeds exactly when the result fits; the buffer stays terminated either way |
| EntryLayout.AppendSlice | _lib/proj/_launcher/layout.c:79-96 | the same for a slice of another buffer |
| EntryLayout.CopyPath | _lib/proj/_launcher/layout.c:98-101 | copying one buffer to another always fits |
| EntryLayout.EndsInExe | _lib/proj/_launcher/layout.c:153-164 | recognizes an executable name of more than four characters in any case |
| PathRules.ExeExactly | _lib/proj/_launcher/layout.c:153-164 | an executable's name is something before `.exe`, in any case |
| EntryLayout.IsManager | _lib/proj/_launcher/layout.c:134-151 | recognizes the manager's name in any case |
| PathRules.CasesExactly | _lib/proj/_launcher/layout.c:134-151 | the two cases of a letter stand at the same place of the alphabet |
| EntryLayout.EntryPaths.constructor | _lib/proj/_launcher/layout.c:12-22 | all buffers start terminated and distinct |
| EntryLayout.EntryPaths.LocateHome | _lib/proj/_launcher/layout.c:186-200 | home root and data parent are filled exactly when they fit; the root of a drive keeps its separator |
| EntryLayout.EntryPaths.LocateData | _lib/proj/_launcher/layout.c:194-217 | the data root is filled with the entry's name, canonical for the manager, exactly when it fits |
| EntryLayout.EntryPaths.LocateRuntime | _lib/proj/_launcher/layout.c:218-234 | runtime root, releases root and selector are filled below the data root exactly when they fit |
| EntryLayout.EntryPaths.LocateBelow | _lib/proj/_launcher/layout.c:186-235 | every buffer is filled for a home exactly when all fit; all stay terminated within capacity either way |
| EntryLayout.EntryPaths.LocateEntryLayout | _lib/proj/_launcher/layout.c:166-236 | the launcher's layout is located exactly for the specified entry paths, and the buffers then hold it |
| EntryLayout.EntryPaths.ResolveCurrentCore | _lib/proj/_launcher/layout.c:238-296 | the Core path is selected exactly when the directories, the selector record, the release and the length allow, and is then the release's executable |
| PathRules.SelectorsExactly | _lib/proj/_launcher/layout.c:238-296 | a release id is 64 small hexadecimal digits, and a selector record is one on a line of its own |
| RootedPath.ComponentsJoined | _lib/proj/_app/src/context.rs:167-225 | the components of texts joined by a separator are those of the one followed by those of the other |
| RootedPath.DriveView | _lib/proj/_app/src/windows_path.rs:5-38 | the Core's own conversion reads every extended drive path as the launcher's does |
| RootedPath.UncView | _lib/proj/_app/src/windows_path.rs:5-38 | of the extended UNC paths the Core's conversion refuses all that do not spell `UNC` in capitals, and reads the others without their prefix |
| RootedPath.CapitalView | _lib/proj/_app/src/windows_path.rs:5-38 | with `UNC` in capitals and no device mark behind it, the two conversions name the same share and components |
| PathRules.DriveIsRead | _lib/proj/_app/src/windows_path.rs:5-21 | a drive path is read as its letter and the components behind it |
| PathRules.ShareIsRead | _lib/proj/_app/src/windows_path.rs:5-21 | a path behind two separators is read as its server, its share and the components behind them, unless they are a device or verbatim mark |
| PathRules.RootedStarts | _lib/proj/_app/src/windows_path.rs:5-9 | nothing is read as absolute that does not start with two separators or with a drive and a separator |
| EntryContext.DeriveIs | _lib/proj/_app/src/context.rs:167-239 | six components below a home are derived back to that home, data root, runtime root, name and release |
| EntryContext.DerivedOnlyFrom | _lib/proj/_app/src/context.rs:167-239 | nothing else is derived: whatever the Core accepts ends in exactly those six components, and the layout names them |
| PathRules.FileNamesExactly | _lib/proj/_app/src/context.rs:172-180 | the name of a file is the last component of its path, and its parent is the rest |
| PathRules.StemsExactly | _lib/proj/_app/src/context.rs:100-118 | a file name splits at its last dot |
| EntryContext.WhitespaceExactly | _lib/proj/_app/src/context.rs:108-111 | which 25 characters make a name blank |
| EntryContext.DeriveNeedsDepth | _lib/proj/_app/src/context.rs:167-239 | anything the Core accepts lies at least six components below its volume |
| LayoutInverse.LayoutsAreInverse | _lib/proj/_app/src/context.rs:81-225 | where the system keeps components, the Core recovers the launcher's home, data root, runtime root, entry name and release exactly when the home is on a drive or in a named share with `UNC` in capitals and the name is not blank, and otherwise refuses |
| LayoutInverse.SettledView | _lib/proj/_app/src/context.rs:271-283 | where the system keeps components, resolving a path first does not change what the Core sees |
| LayoutInverse.MarkedHomeIsRefused | _lib/proj/_app/src/windows_path.rs:5-38 | behind a device or verbatim mark the derived home is never the parent of the entry's own path |
| LayoutInverse.ManagerIsAgreed | _lib/proj/_app/src/context.rs:35-45 | launcher and Core agree on which entry is the manager |
| LayoutInverse.DriveHomesAreUsable | _lib/proj/_launcher/layout.c:166-236 | a home on a drive is always one the Core can work in |
| LayoutInverse.ShareRootIsRefused | _lib/proj/_app/src/context.rs:167-225 | the launcher accepts an entry directly below a server, and the Core refuses it |
| LayoutInverse.LowerCaseUncIsRefused | _lib/proj/_app/src/windows_path.rs:5-21 | the launcher accepts an entry behind `unc` in small letters, and the Core refuses it |
| LayoutInverse.BlankNameIsRefused | _lib/proj/_app/src/context.rs:108-118 | the launcher accepts an entry with a blank name, and the Core refuses it |
| LayoutInverse.PeriodHomeIsRefused | _lib/proj/_app/src/context.rs:271-283 | where the system drops the last period of a directory name from the entry's path, the Core refuses an entry of a usable home |
| Digest.ValueOfLittleEndian | _lib/proj/_protocol/src/digest.rs:51-53 | a length is read back from its little-endian bytes |
| Digest.RevisionShape | _lib/proj/_protocol/src/digest.rs:13-22 | the characters of a digest and of a revision |
| Digest.ShortLengthFirst | _lib/proj/_protocol/src/digest.rs:51-53 | the least significant byte of a length comes first |
| Digest.RevisionBuilder.constructor | _lib/proj/_protocol/src/digest.rs:31-37 | a builder starts with its domain as first field |
| Digest.RevisionBuilder.Push | _lib/proj/_protocol/src/digest.rs:39-44 | a push appends exactly one framed field |
| Digest.RevisionBuilder.Finish | _lib/proj/_protocol/src/digest.rs:46-48 | the revision is the hash of the stream of all fields |
| Digest.UnframedOfStream | _lib/proj/_protocol/src/digest.rs:26-53 | the stream of any fields is read back as exactly those fields |
| Digest.StreamOfUnframed | _lib/proj/_protocol/src/digest.rs:26-53 | nothing else is read as fields |
| Digest.StreamIsInjective | _lib/proj/_protocol/src/digest.rs:26-53 | equal streams come from the same domain and the same named inputs in the same order |
| ContentIdentity.Collect | _lib/proj/_app/src/command_runtime.rs:76-81 | the loop that fills the map returns it, or refuses an invalid or repeated record |
| ContentIdentity.CollectedExactlyWhen | _lib/proj/_app/src/command_runtime.rs:76-81 | records are collected exactly when all are valid and no name repeats, and the map then holds exactly them |
| ContentIdentity.NumberOfDecimal | _lib/proj/_app/src/command_runtime.rs:92 | a length is read back from its decimal text |
| ContentIdentity.DecimalIsShortest | _lib/proj/_app/src/command_runtime.rs:92 | a decimal has no leading zero |
| ContentIdentity.ToolsHold | _lib/proj/_app/src/command_runtime.rs:76-84 | an accepted manifest has one valid record of each tool |
| ContentIdentity.ToolsExactlyWhen | _lib/proj/_app/src/command_runtime.rs:76-84 | a manifest's tools are accepted exactly when they are two valid ones, one of each name |
| NameRules.VersionsExactly | _lib/proj/_app/src/command_runtime.rs:167-187 | a version is three numbers between periods, and after a hyphen letters, digits, periods and hyphens |
| NameRules.CoresExactly | _lib/proj/_app/src/command_runtime.rs:176-182 | the three numbers of a version |
| NameRules.PathsExactly | _lib/proj/_app/src/command_runtime.rs:189-201 | a tool's path is slash-separated parts of plain characters, none empty, `.` or `..` |
| ContentIdentity.ManifestOrderIsIrrelevant | _lib/proj/_app/src/command_runtime.rs:76-97 | the order of a manifest's tools does not change the runtime |
| ContentIdentity.RuntimeIdentity | _lib/proj/_app/src/command_runtime.rs:86-96 | the loop builds the newline-joined identity text of the tools |
| ContentIdentity.RuntimeLinesAre | _lib/proj/_app/src/command_runtime.rs:86-96 | the eleven lines of a runtime's identity, in order |
| ContentIdentity.ToolLinesHaveNoBreaks | _lib/proj/_app/src/command_runtime.rs:151-201 | no field of a validated tool record contains a newline |
| ContentIdentity.RuntimeIdentityIsInjective | _lib/proj/_app/src/command_runtime.rs:86-97 | equal identity texts come from equal tool records, their decimal lengths included |
| ContentIdentity.ArtifactsHold | _lib/proj/_app/src/runtime_release.rs:248-268 | an accepted manifest has one valid record of each artifact |
| ContentIdentity.ArtifactsExactlyWhen | _lib/proj/_app/src/runtime_release.rs:248-268 | a manifest's artifacts are accepted exactly when they are four valid ones of different names |
| ContentIdentity.ReleaseOrderIsIrrelevant | _lib/proj/_app/src/runtime_release.rs:248-268 | the order of a manifest's artifacts does not change the release |
| ContentIdentity.ReleaseIdentity | _lib/proj/_app/src/runtime_release.rs:293-312 | the loop builds the newline-joined identity text of the release |
| ContentIdentity.ReleaseLinesAre | _lib/proj/_app/src/runtime_release.rs:293-312 | the fourteen lines of a release's identity, in order |
| ContentIdentity.ReleaseIdentityIsInjective | _lib/proj/_app/src/runtime_release.rs:293-319 | equal identity texts come from the same Command Runtime and equal artifact records |

## Left out

- DependencyCheck.ResolveFrom: an endless recursion is an outcome of its own here; the program runs out of stack.
- DependencyCheck.InspectPublication: the directory, manifest and hash checks behind each publication status are given as facts.
- Catalog.ScanRoot: help documents, facets, resource kinds and their diagnostics; what a Resource declares is a part of its directory, given as data.
- CommandRunView.CommandRunPanel.OnPollAnswer: feedback texts, rendering and session storage; the id to restore is any text. Callbacks are assumed to return.
- CommandRunSystem.AlwaysSafe: the types of JSON fields are assumed; a body of the wrong shape is one kind of malformed answer.
- CommandRunProgress.NeverStalls: it says that something is always pending, not that the network answers.
- CommandRunOutput.OutputLog.Append: scrolling and the rendering of a progress amount, which is given as text.
- WidePath.CopyParts: lengths are unbounded numbers; a 32-bit length cannot overflow below two billion characters, and a source and destination that are the same buffer are excluded.
- EntryLayout.EntryPaths.ResolveCurrentCore: file attributes and reads are given as answers of the disk.
- LayoutInverse.LayoutsAreInverse: `std::path::absolute` is a parameter, taken to keep the components of both texts; `..` components, names that are not Unicode and file attributes are not followed.
- ExecutionContract.Create: the canonical JSON bytes and the revision over them.
- The validation of a progress payload and its JSON parsing: a parameter of the frame decoder.
- SHA-256, the file system, process control, HTTP, the tray and the run journal: foreign effects, parameters where they matter.
- DependencyGraph.ProjectionBudget.Dependency: the exact keys of a node, and the string and checker shapes of its fields.
- DependencyGraph.ProjectionBudget.Dependencies: that the value is an array.
- DependencyGraph.CreateProjection: the protocol name, the identity of the selected command and the shapes of single fields.
