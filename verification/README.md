# Lodestone, modelled and proved in Dafny

Lodestone manages game servers. This project models the parts of it whose
correctness does not show in any single function body, and proves what they
promise: the life of macro threads under aborts and panics, the registry of
tunnelled TCP connections, path scoping over a file tree with links, conflict-free
naming, zip and unzip, the macro config parser, the user store and its tokens,
the port allocator, the event pipeline, and the virtual paths of container mounts.

`dafny verify dfyconfig.toml` checks everything.

## How it is laid out

Concurrent code is a state machine: a step relation with one program counter per
thread, an inductive invariant (kept by every step), and theorems over whole runs.
Code that changes things in place is a class or a method with loops, proved
against a function, about which the theorems are then stated.

| modules | what they model |
|---|---|
| `MacroProtocol`, `MacroSystem`, `MacroRuns`, `MacroVerdicts` | macro threads, abort calls and the exit-status listener, and which status a thread reports |
| `TcpRegistry`, `TcpTunnel`, `TcpRuns`, `TcpPipe` | the client table, the life of flows, and the copying loop |
| `Paths`, `ScopedPaths` | lexical paths; canonical paths over a tree with links |
| `Naming`, `Unzip`, `Zip`, `ArchiveRoundTrip` | free names, moving entries out, packing, and both together |
| `Text`, `ByteSlices`, `ConfigExtract`, `ConfigScan`, `ConfigSettings`, `DefinitionReading` | the macro config parser with its slices by bytes, and which definitions it reads |
| `ConfigAborts` | when reading a config aborts the thread |
| `ConfigWriter`, `FieldRoundTrip`, `ClassRoundTrip`, `ConfigRoundTrip` | a writer of config classes, and the proof that the parser undoes it |
| `Users`, `Tokens` | the user store with its failing writes, and its tokens |
| `Ports` | the port allocator |
| `Events`, `EventSearch`, `EventBuffers`, `ConsoleLog` | filtering, storing, searching, buffering and showing events |
| `VirtualPaths` | paths into the mounts of a container |

## What the proofs found

Where a promise does not hold of the code, the code is modelled as it is, a lemma
gives an input at which the promise fails, and a theorem gives the exact condition
under which it holds.

- A macro thread reports exactly one `Stopped`, as the comment on `run` says,
  unless it panics inside the broadcast itself: it has marked the report as sent
  by then, and reports nothing (`MacroRuns.FinishedReportsOnce`; a run in which it
  does, `MacroRuns.SilentThread`).
- `add_user` with a uid already in use, when the write fails, removes the user who
  was there before, and a call that is dropped while it writes leaves its change in
  memory, neither rolled back nor announced. Every other operation keeps memory equal
  to the last map written out (`Users.SyncKeptExactly`, `Users.ClobberedAtAnExample`,
  `Users.CutShortAtAnExample`), and the keys in memory equal to what the events tell
  (`Users.EventsKeptExactly`).
- An operation that reports a failure leaves everything as it was, exactly but for
  that add and for a change of password of which only the logout fails to be
  written: the new password is in force then (`Users.FailureLeavesNoTrace`,
  `Users.HalfChangedAtAnExample`).
- `rename_user` does not look whether the new name is taken, so names stay
  distinct exactly if no rename takes someone else's (`Users.NamesKeptExactly`,
  `Users.SameNameAtAnExample`).
- The event search shifts its bounds into 64 bits, where they wrap 2^41 milliseconds
  from the epoch either way; before that, a build that checks for overflow panics if
  the start less the epoch, the end plus one, or that less the epoch leaves 64 bits.
  For any start and end, what is stored and then searched is exactly what was asked
  for if and only if, in such a build, none of the three does, and either some id can
  be in the range, the end does not wrap, and a start that wraps does not land after
  the epoch, or no id can be in the range and the wrapped window is empty too
  (`EventSearch.SearchIsExactIff`; `EventSearch.LateEndLosesEvents`,
  `EventSearch.EarlyStartLosesEvents`, `EventSearch.OverflowAtAnExample`).
- Unpacking is meant to move entries beside what is there. `exists` does not see a
  dangling link, though: a file takes its place, and a directory gets stuck there, so
  that it and the entries after it are not moved. Nothing is replaced and nothing
  stuck, whatever the archive, exactly if no link in the destination is dangling
  (`Unzip.NothingInTheWayIff`, `Unzip.LinkReplacedAtAnExample`).
- When no tunnel connection is in progress, exactly those clients and flows are
  still in the table of which a pipe was dropped before it subtracted, or the last
  pipe before it removed the client, or whose setup was dropped
  (`TcpRuns.IdleMeansEmpty`; `TcpRuns.LostPipesLeaveTheFlow`,
  `TcpRuns.DroppedLastPipeLeavesTheFlow`, `TcpRuns.DroppedSetupLeavesTheFlow`).
- `add_port` takes a port without looking whether it is allocated, so two can hold
  one port, exactly if it was added while it was in the table and not freed since;
  `allocate` never does that (`Ports.SharedExactly`, `Ports.SharedAtAnExample`).
- Creating a file through a path that scoping returned under the root ends up under
  the root, exactly unless the last name is a dangling link to the outside
  (`ScopedPaths.CreatedInsideExactly`, `ScopedPaths.LandsOutsideAtAnExample`).
- The config parser returns the wrong instance name exactly if the name holds its
  own declarator (`ConfigRoundTrip.RoundTrip`; `letter` after `let`,
  `ConfigRoundTrip.NameLostAtAnExample`), and drops spaces and tabs inside string
  defaults and options (`ConfigRoundTrip.FieldUnchanged`,
  `ConfigRoundTrip.SpaceLostAtAnExample`).
- An option of an enum type in double quotes is read exactly if it holds no
  apostrophe, which the parser takes for its first quote (`FieldRoundTrip.OptionBack`,
  `FieldRoundTrip.ApostropheAtAnExample`).
- Extracting the config class aborts, instead of returning an error, exactly if the
  class block is complete only after the second `LodestoneConfig`, or if there are
  no braces at all and text follows (`ConfigExtract.CodeExactly`,
  `ConfigExtract.PanicAtAnExample`). Reading the whole config also aborts exactly if
  what is extracted is a lone brace, because one closing brace comes first, or if the
  first definition that is not read has a character of more than one byte behind its
  question mark, or an option or a default in place of a quoted text that is shorter
  than two quotes or has such a character where a quote belongs
  (`ConfigAborts.AbortsExactly`, `ConfigAborts.LoneBraceAtAnExample`,
  `ConfigAborts.WideMarkAtAnExample`, `ConfigAborts.ShortDefaultAtAnExample`).
- The comment on `get_virtual_path` says that paths with `..` give `None`. A path
  gives `None` exactly if nothing is left of it once it is normalised or its first
  name then names no root, whether or not it goes up (`VirtualPaths.NoneExactly`,
  `VirtualPaths.GoingUpAtAnExample`).

## Model

| member | source | states |
|---|---|---|
| `MacroProtocol.ThreadInvKept` | core/src/macro_executor.rs:214-374 | whatever a macro thread does next, panics included, its log and its program counter stay in step: no second `Started` or `Stopped`, none in the wrong order |
| `MacroProtocol.SentIsBroadcast` | core/src/macro_executor.rs:271-281 | the history kept for a thread is what it put on the channel |
| `MacroSystem.LogInvKept` | core/src/macro_executor.rs:214-374 | every step of the whole system keeps every thread's invariant and the agreement of its log with the channel |
| `MacroSystem.HandleInvKept` | core/src/macro_executor.rs:311-319 | the process table has a pid from the registration on and not before; an abort call that found a handle still names it |
| `MacroSystem.EffectInvKept` | core/src/macro_executor.rs:112-122 | a call past its store left the flag set, and a completed call left a wake permit until `select!` resolves |
| `MacroSystem.CauseInvKept` | core/src/macro_executor.rs:112-122 | a flag that is set was stored by some abort call |
| `MacroSystem.TableInvKept` | core/src/macro_executor.rs:382-400 | the table holds only statuses that were broadcast, and all that the listener read without lag |
| `MacroSystem.InvHolds` | core/src/macro_executor.rs:376-409 | all of these hold in every state of every run |
| `MacroRuns.FinishedReportsOnce` | core/src/macro_executor.rs:213-254 | in every interleaving: at most one `Started`, one `Stopped`, in that order; a finished thread reported exactly one unless it panicked in the broadcast, and then none |
| `MacroRuns.SilentThread` | core/src/macro_executor.rs:271-281 | a run whose only thread is over and reported nothing: setting up fails and the report of that panics |
| `MacroRuns.ExitStatusNeverChanges` | core/src/macro_executor.rs:557-559 | a status once returned for a pid is returned for ever |
| `MacroRuns.TableIsExact` | core/src/macro_executor.rs:382-400 | without lag the table has exactly the pids that reported, each with the status it reported |
| `MacroRuns.PidsNeverRepeat` | core/src/macro_executor.rs:431 | no two calls of `spawn` get the same pid |
| `MacroRuns.PidsCountSpawns` | core/src/macro_executor.rs:431 | the next pid is the number of calls of `spawn` so far |
| `MacroRuns.AbortNeverLost` | core/src/macro_executor.rs:507-516 | an abort completed before `select!` resolves keeps flag and permit until it does, the thread can always be woken, and barring a panic the final status is `Success` or `Killed` |
| `MacroRuns.AbortHeldForGood` | core/src/macro_executor.rs:341-372 | what such an abort leaves behind survives every later step |
| `MacroRuns.KilledOnlyIfAborted` | core/src/macro_executor.rs:355-362 | `Killed` is reported only for a pid some abort call flagged |
| `MacroRuns.KilledAtAnExample` | core/src/macro_executor.rs:112-122 | a run in which a macro is aborted while it runs, is reported as killed, and is so recorded |
| `MacroVerdicts.ReportsItsVerdict` | core/src/macro_executor.rs:344-372 | over any run, a reported status is `Success` exactly if the macro ran to its end before it was woken; `Killed` exactly if not and the flag was set when it was read; otherwise `Error` with the cause of the failing run, setup or runtime, or of a panic that came before the report |
| `MacroVerdicts.EveryThreadExplained` | core/src/macro_executor.rs:213-374 | in every state, what a thread is about to report or has reported is the verdict on the actions it took so far |
| `MacroVerdicts.DeedsAreSteps` | core/src/macro_executor.rs:341-372 | those actions are the steps the thread took in the run, each with the abort flag as it was then |
| `TcpRegistry.TcpClients.Claim` | core/src/playitgg/tcp_client.rs:148-153 | claiming a flow succeeds exactly if it was not active |
| `TcpRegistry.TcpClients.NextId` | core/src/playitgg/tcp_client.rs:52-54 | ids are handed out once, in order |
| `TcpRegistry.TcpClients.Release` | core/src/playitgg/tcp_client.rs:202-208 | a setup that fails gives its flow back |
| `TcpRegistry.TcpClients.AddClient` | core/src/playitgg/tcp_client.rs:85-91 | the flow becomes active and the client is appended |
| `TcpRegistry.TcpClients.RemoveClient` | core/src/playitgg/tcp_client.rs:93-106 | the loop leaves exactly `Left` of the table |
| `TcpRegistry.LeftRemovesOne` | core/src/playitgg/tcp_client.rs:93-106 | removal takes out one client and its flow, and keeps every other client and their order |
| `TcpRegistry.LeftWithout` | core/src/playitgg/tcp_client.rs:93-106 | removing an id that is not there changes nothing |
| `TcpRegistry.LeftUndoesJoined` | core/src/playitgg/tcp_client.rs:85-106 | registering and removing gives the table back |
| `TcpTunnel.LastFinishes` | core/src/playitgg/tcp_client.rs:426-434 | the pipe that sees itself last finds its own client in the table, at one place |
| `TcpTunnel.ClientInvKept` | core/src/playitgg/tcp_client.rs:290-309 | ids in the table stay distinct, and it holds exactly the clients whose last pipe has not removed them |
| `TcpTunnel.OwnerInvKept` | core/src/playitgg/tcp_client.rs:139-209 | every active flow is owned by exactly one setup or client, across claims, failures, registrations and removals |
| `TcpTunnel.InvHolds` | core/src/playitgg/tcp_client.rs:139-209 | the invariants hold in every state of every run |
| `TcpRuns.ActiveIsDisjointUnion` | core/src/playitgg/tcp_client.rs:85-106 | `active` is exactly the disjoint union of the flows being set up and those of registered clients, each held once |
| `TcpRuns.OneConnectionPerFlow` | core/src/playitgg/tcp_client.rs:148-153 | no flow ever has two connections |
| `TcpRuns.CounterIsSafe` | core/src/playitgg/tcp_client.rs:426-430 | the counter takes only the values 3, 2, 1, 0 and never goes below |
| `TcpRuns.OnlyTheLastPipeRemoves` | core/src/playitgg/tcp_client.rs:426-434 | the client list grows only by registering at its end and shrinks only when the last pipe of a client finishes, which takes out that client and leaves every other in its place |
| `TcpRuns.IdleMeansEmpty` | core/src/playitgg/tcp_client.rs:426-434 | with nothing in progress exactly the clients left behind are registered, by a pipe lost before it subtracted or a last pipe lost before it removed; both tables are empty exactly if there are none and no setup was dropped |
| `TcpRuns.LostPipesLeaveTheFlow` | core/src/playitgg/tcp_client.rs:311-330 | a run in which both pipes are dropped before they start |
| `TcpRuns.DroppedSetupLeavesTheFlow` | core/src/playitgg/tcp_client.rs:139-209 | a run in which a setup is dropped while it connects |
| `TcpRuns.ServedToTheEnd` | core/src/playitgg/tcp_client.rs:426-434 | a run in which a connection is served and leaves nothing behind |
| `TcpRuns.DroppedLastPipeLeavesTheFlow` | core/src/playitgg/tcp_client.rs:426-434 | a run in which both pipes subtract and the last is dropped while it waits for the table |
| `TcpPipe.TakeTurn` | core/src/playitgg/tcp_client.rs:373-420 | one turn of the loop counts what arrived, writes it, or of it what a failing write accepted, and ends as the sockets, the stop flag and the time of the last message have it end |
| `TcpPipe.Pipe` | core/src/playitgg/tcp_client.rs:362-437 | the bytes written are the bytes counted, in order, but for the part of the last chunk that a failing write did not accept; every turn but the last went round again, and each end comes exactly when it should: `Idle` if a read timed out and the latest message in either direction is more than 60000 ms old, going round if it is not |
| `TcpPipe.EndsExactly` | core/src/playitgg/tcp_client.rs:383-413 | every end of a turn, with its exact condition on the stop flag, the sockets and the time since the latest message either direction stored |
| `TcpPipe.LeftIsLast` | core/src/playitgg/tcp_client.rs:388-411 | the time in store is that of the last turn on which this direction read something or the other one stored |
| `Paths.Normalize` | core/src/macro_executor/permissions.rs:40-52 | the push and pop loop is the lexical walk |
| `Paths.NormalizeIdempotent` | core/src/macro_executor/permissions.rs:40-52 | normalising an absolute path twice changes nothing |
| `Paths.NormalizeComposes` | core/src/macro_executor/permissions.rs:82-87 | joining onto a normalised path and normalising is the same as joining first |
| `Paths.NormalizeStaysBelow` | core/src/macro_executor/permissions.rs:82-87 | plain names joined onto a directory stay below it |
| `ScopedPaths.CanonicalizeMaybeNotExists` | core/src/macro_executor/permissions.rs:55-78 | the loop over `existing` and `rest` is the canonical form of the longest existing ancestor plus the rest, and terminates |
| `ScopedPaths.CanonicalReachesSame` | core/src/macro_executor/permissions.rs:55-78 | over any tree with links the canonical form reaches what the path reaches, and is its own canonical form, also with a missing tail |
| `ScopedPaths.CanonicalExists` | core/src/macro_executor/permissions.rs:55-78 | it exists for an absolute plain path exactly if resolving does not fail otherwise than by a missing name |
| `ScopedPaths.CanonicalIs` | core/src/macro_executor/permissions.rs:55-78 | of any path: the canonical form of the longest part that is not a missing name, with the missing names behind it as they are, or the error of that part |
| `ScopedPaths.ScopedIsFaithful` | core/src/macro_executor/permissions.rs:81-95 | it succeeds exactly if resolving does not fail otherwise than by a missing name; the result reaches the same place as the normalised absolute path, or both are missing; it has the same canonical form; and it is under the root exactly if both the lexical and the resolved path are |
| `ScopedPaths.CreatedInsideExactly` | core/src/macro_executor/permissions.rs:81-95 | opening or creating through a result under the root leads to a place under the root, exactly unless the last name is a dangling link to the outside |
| `ScopedPaths.LandsOutsideAtAnExample` | core/src/macro_executor/permissions.rs:81-95 | such a link, in a tree of two directories |
| `Naming.ResolvePathConflict` | core/src/util.rs:158-184 | the counting loop ends after at most one try more than there are taken names, with the resolved name |
| `Naming.DecimalInjective` | core/src/util.rs:171-176 | different suffix numbers are written differently |
| `Naming.DecimalDenotes` | core/src/util.rs:171-176 | the digits of a number denote it, and lead with no zero |
| `Naming.StemAndExtension` | core/src/util.rs:159-169 | of `stem.ext` with no dot in `ext`, the stem is `stem` and the extension `ext` |
| `Naming.StemAlone` | core/src/util.rs:159-169 | a name with no dot, or none but a leading one, is its own stem |
| `Naming.NumberedIs` | core/src/util.rs:171-176 | `stem.ext` with a number is `stem_1.ext` |
| `Naming.NumberedAloneIs` | core/src/util.rs:171-176 | without an extension the number comes last, and a missing name is `unknown` |
| `Naming.CandidateIs` | core/src/util.rs:171-177 | the numbered name takes the place of the name, or is added where the path ends without one |
| `Naming.NumberedKeepsExtension` | core/src/util.rs:172-176 | a suffix keeps the extension |
| `Naming.CandidateInjective` | core/src/util.rs:172-177 | different numbers give different paths |
| `Naming.ResolvedIsLeastFree` | core/src/util.rs:158-184 | the result is free, has the least free suffix, stays in the same directory, and resolving it again changes nothing |
| `Unzip.UnzipFile` | core/src/util.rs:199-300 | each refusal and when it comes, where each option unpacks to, that the returned set is the placed paths, and what a failing move leaves placed |
| `Unzip.DestinationIs` | core/src/util.rs:221-261 | where each option unpacks `stem.ext` to: beside it, into a given directory, or into one named `stem`, numbered if it is taken |
| `Unzip.MoveEntries` | core/src/util.rs:282-297 | the entries stand at their resolved targets, up to the first whose move fails: a directory where a link stands |
| `Unzip.TargetsFresh` | core/src/util.rs:283-289 | the targets are distinct, in the destination, and `exists` saw nothing at them: what stands there is dangling links |
| `Unzip.TargetsWithoutConflict` | core/src/util.rs:283-289 | entries whose names are free keep their names |
| `Unzip.NothingInTheWayIff` | core/src/util.rs:283-297 | no move of any archive fails or replaces anything, exactly if no link in the destination is dangling |
| `Unzip.LinkReplacedAtAnExample` | core/src/util.rs:292-296 | a dangling link is replaced by a file of its name |
| `Unzip.UnzipConserves` | core/src/util.rs:262-299 | of the moved entries every content stands at exactly as many paths as they have it, in the destination; only dangling links are replaced; with none in the way all entries are moved |
| `Zip.WriteFile` | core/src/util.rs:378-394 | through the shared buffer exactly the file's own bytes are written, and the buffer is empty again |
| `Zip.ZipFiles` | core/src/util.rs:315-437 | the archive's entries are those of the sources in order, at the destination or the first name beside it at which `exists` sees nothing; a nameless source or a destination without a parent is an error |
| `Zip.DirectoryComesTwice` | core/src/util.rs:341-375 | the entry of a source directory stands twice at the front of what it packs to, before its children |
| `Zip.UnpackTree` | core/src/util.rs:350-396 | unpacking the visits of a tree where nothing is in the way builds the tree there and touches nothing else |
| `Zip.UnpackingKeepsKinds` | core/src/util.rs:262-281 | unpacking takes nothing away and turns no file into a directory or the other way round |
| `ArchiveRoundTrip.FlatIsTheTree` | core/src/util.rs:350-396 | the flat listing of a tree has at each path what the tree has there |
| `ArchiveRoundTrip.UnpackedArchive` | core/src/util.rs:334-422 | unpacking an archive of sources with distinct names into an empty directory succeeds and gives all of them side by side |
| `ArchiveRoundTrip.ZipThenUnpack` | core/src/util.rs:315-437 | at every path under a source's name stands what stands there in the source |
| `ArchiveRoundTrip.NothingElseUnpacked` | core/src/util.rs:315-437 | and nothing stands anywhere else |
| `ArchiveRoundTrip.ZipThenUnzip` | core/src/util.rs:199-300 | where none of the names stand, zip followed by `unzip_file` moves everything and puts each source back under its own name with everything in it, in whatever order the directory is listed |
| `ConfigExtract.FindStop` | core/src/macro_executor.rs:600-625 | the brace loop stops at the first balanced prefix or at the end, with the exact counts |
| `ConfigExtract.NothingToExtract` | core/src/macro_executor.rs:587-597 | there is no config, without an error, exactly if `LodestoneConfig` does not occur |
| `ConfigExtract.ExtractsABlock` | core/src/macro_executor.rs:600-693 | the definition stands where the first opening brace does, and is the shortest balanced block, of which every proper non-empty prefix has more opening than closing braces, exactly if no closing brace comes before |
| `ConfigExtract.ExtractsExactly` | core/src/macro_executor.rs:600-693 | from the class on, a definition is extracted under a name exactly if the shortest balanced prefix ends before the second keyword does and the text between declares that name; what is not extracted and does not abort is an `Internal` error |
| `ConfigExtract.NameExactly` | core/src/macro_executor.rs:635-682 | the declared name is what stands between the last occurrence of the last of the words `let`, `const` and `var`, with spaces gone, and the next colon; without one there is an `Internal` error |
| `ConfigExtract.CodeExactly` | core/src/macro_executor.rs:587-693 | code with two keywords gives what the text from the first one on gives, and extraction aborts, instead of returning an error, exactly if the class block there ends late |
| `ConfigExtract.OneKeyword` | core/src/macro_executor.rs:591-595 | code with one keyword is an `Internal` error |
| `ConfigExtract.PanicAtAnExample` | core/src/macro_executor.rs:627-632 | it does when the second keyword stands inside the block |
| `ConfigScan.Scan` | core/src/macro_executor.rs:705-768 | the line loop computes the scanner's fold over the lines |
| `ConfigScan.DepthAndLengths` | core/src/macro_executor.rs:711-726 | the comment depth stays 0 or 1, and there are as many descriptions as definitions, so `zip` drops none |
| `ConfigScan.NoCodeLost` | core/src/macro_executor.rs:757-767 | the definitions with their semicolons and the unfinished rest are exactly the text of the lines outside comments, in order |
| `ConfigScan.CodeAdded` | core/src/macro_executor.rs:757-767 | code up to a semicolon becomes a definition, whose description is the comment lines since the last one |
| `ConfigScan.ReadStar` | core/src/macro_executor.rs:728-741 | inside a comment block, a line with a star adds the text behind it, an empty one only if it is not the first |
| `ConfigScan.ReadPlainOpen` | core/src/macro_executor.rs:744-756 | `/*` opens a comment block and adds the text behind it |
| `ConfigSettings.ParseKind` | core/src/macro_executor.rs:891-934 | the loop over enum options returns all options or the first failure |
| `ByteSlices.InsideExactly` | core/src/macro_executor.rs:835-837 | taking the first and last byte off a text takes off two characters, or aborts, exactly if it is shorter than two or has a wide character at either end |
| `ConfigSettings.ReadByChars` | core/src/macro_executor.rs:788-830 | positions and slices in bytes read what positions and slices in characters do, but for the abort behind the question mark |
| `ConfigSettings.SettingsAreTyped` | core/src/macro_executor.rs:788-889 | every setting read has its default as value, of its own type, so the `expect` behind the constructor never fails; it is required exactly if it has one; its id is prefix, bar, name |
| `ConfigSettings.NamesAreDistinct` | core/src/macro_executor.rs:770-776 | no two settings of a config share a name |
| `ConfigSettings.HoldsTheLast` | core/src/macro_executor.rs:770-776 | a config holds, of each name, exactly what the last definition of that name says |
| `ConfigSettings.InsertedExactly` | core/src/macro_executor.rs:770-776 | a definition of a name that is there replaces it where it stands, and another is added at the end |
| `ConfigSettings.FirstFailure` | core/src/macro_executor.rs:770-776 | the first definition that is not read decides the error or the abort |
| `ConfigSettings.ReadManifest` | core/src/macro_executor.rs:561-571 | code without the keyword has no settings, an error of the extraction is returned as it is, and no config read from code has two settings of one name |
| `ConfigSettings.ParseConfig` | core/src/macro_executor.rs:695-777 | the whole class is read, or the first failure is returned |
| `DefinitionReading.ReadExactly` | core/src/macro_executor.rs:788-889 | of any definition with a name, a mark and a type that can be read: it is read exactly if it is optional or has a default, and the default fits; then the setting has that name and the value its default denotes; and which error it gets otherwise |
| `DefinitionReading.TypeExactly` | core/src/macro_executor.rs:891-934 | `string`, `boolean` and `number` are the named types, and an enum exactly what splits at bars into texts in quotes of either kind, its options being those texts without their quotes |
| `DefinitionReading.DefaultExactly` | core/src/macro_executor.rs:832-867 | the value a text denotes under each type, in quotes of either kind, and the error or abort of every other text |
| `DefinitionReading.TypeNotRead` | core/src/macro_executor.rs:818-819 | a type that cannot be read is the failure of the definition |
| `DefinitionReading.NothingToRead` | core/src/macro_executor.rs:795-820 | every definition without such parts is a syntax error, or an abort if a wide character stands behind its question mark; with such a character it has no such parts |
| `ConfigAborts.DefinitionExactly` | core/src/macro_executor.rs:788-889 | reading a definition aborts exactly if a wide character stands behind its question mark, the first option not in quotes starts with a quote, or a default that must be in quotes is shorter than two or has a wide character at either end |
| `ConfigAborts.SettingsExactly` | core/src/macro_executor.rs:770-776 | reading all definitions aborts exactly if the first that is not read does, and succeeds exactly if all are read |
| `ConfigAborts.LoneBraceExactly` | core/src/macro_executor.rs:684-692 | what is extracted is a lone brace exactly if one closing brace stands before the first opening one |
| `ConfigAborts.AbortsExactly` | core/src/macro_executor.rs:561-777 | reading the config of any code aborts exactly in these ways and where extraction does |
| `ConfigAborts.LoneBraceAtAnExample` | core/src/macro_executor.rs:695-702 | a class that starts with a closing brace |
| `ConfigAborts.WideMarkAtAnExample` | core/src/macro_executor.rs:797-818 | a type sliced off inside a character of two bytes |
| `ConfigAborts.ShortDefaultAtAnExample` | core/src/macro_executor.rs:833-837 | a string default of one character |
| `FieldRoundTrip.DefinitionBack` | core/src/macro_executor.rs:788-889 | a definition of any field that can be written, with either kind of quote around each option and the default, is read back as that field: name, type, default, description, id |
| `FieldRoundTrip.OptionBack` | core/src/macro_executor.rs:905-930 | an option in either kind of quotes is read back, exactly unless it is in double ones and holds an apostrophe |
| `FieldRoundTrip.ApostropheAtAnExample` | core/src/macro_executor.rs:905-930 | such an option is a syntax error |
| `ClassRoundTrip.ClassRead` | core/src/macro_executor.rs:705-768 | the scanner finds the definitions and descriptions of all fields, with line and block comments |
| `ClassRoundTrip.SettingsBack` | core/src/macro_executor.rs:770-776 | fields with distinct names are read back in order |
| `ConfigRoundTrip.NameBack` | core/src/macro_executor.rs:635-682 | the instance name is read back exactly if it does not hold its own declarator |
| `ConfigRoundTrip.NameLostAtAnExample` | core/src/macro_executor.rs:652-682 | the name `letter` behind `let` is not read back |
| `ConfigRoundTrip.ExtractionBack` | core/src/macro_executor.rs:586-693 | whatever text surrounds class and declaration, extraction returns the whole class block |
| `ConfigRoundTrip.RoundTrip` | core/src/macro_executor.rs:561-934 | writing any list of fields, with quotes of either kind, and reading the macro gives the same settings in order, exactly if the name does not hold its declarator or there are no fields |
| `ConfigRoundTrip.FieldUnchanged` | core/src/macro_executor.rs:757-761 | type and default come back unchanged exactly if options and default text have no spaces or tabs |
| `ConfigRoundTrip.SpaceLostAtAnExample` | core/src/macro_executor.rs:757-761 | a default with a space comes back without |
| `Users.UsersManager.AddUser` | core/src/auth/user.rs:431-458 | the outcome and the whole new store, for a refused name, a failing write and a dropped call too |
| `Users.UsersManager.DeleteUser` | core/src/auth/user.rs:459-488 | the same for deletion |
| `Users.UsersManager.LogoutUser` | core/src/auth/user.rs:489-527 | the same for logout, which renews the secret |
| `Users.UsersManager.RenameUser` | core/src/auth/user.rs:529-574 | the same for renaming |
| `Users.UsersManager.ChangeUserPassword` | core/src/auth/user.rs:576-626 | the same for the two writes of a change of password |
| `Users.UsersManager.UpdateUserPermissions` | core/src/auth/user.rs:635-675 | the same for permissions |
| `Users.UsersManager.GetUserByUsername` | core/src/auth/user.rs:628-633 | finds a user with the name if there is one |
| `Users.SuccessChanges` | core/src/auth/user.rs:431-675 | what a successful operation leaves: the given record, name, hash, secret or exactly the given permissions for the one user, every other field and user as before, and the event sent |
| `Users.DropChanges` | core/src/auth/user.rs:431-675 | what a call dropped while it writes leaves: its change in memory, and no event |
| `Users.SyncKeptExactly` | core/src/auth/user.rs:431-675 | an operation keeps memory equal to the last map written out exactly unless it is a failing add of a uid in use, or is dropped with its write and had changed something |
| `Users.CutShortAtAnExample` | core/src/auth/user.rs:529-574 | a rename dropped while it writes |
| `Users.EventsKeptExactly` | core/src/auth/user.rs:431-488 | an operation keeps the keys in memory equal to what the creations and deletions sent tell, exactly unless it is that add, or a creation or deletion dropped while it writes |
| `Users.ClobberedAtAnExample` | core/src/auth/user.rs:453-456 | a failing add under the uid of another user leaves neither |
| `Users.FailureLeavesNoTrace` | core/src/auth/user.rs:431-675 | an operation that reports a failure changes nothing, exactly but for that add and for a change of password whose logout fails to be written |
| `Users.HalfChangedAtAnExample` | core/src/auth/user.rs:613-625 | a change of password whose logout fails to be written |
| `Users.StoreIsConsistent` | core/src/auth/user.rs:431-675 | over any run and any write failures memory is the last map written out, and replaying creations and deletions over the loaded keys gives the keys in memory, as long as no operation is a failing add of a uid in use or is dropped at a write that changes something |
| `Users.NamesKeptExactly` | core/src/auth/user.rs:529-574 | names stay distinct exactly unless a rename takes someone else's |
| `Users.SameNameAtAnExample` | core/src/auth/user.rs:529-574 | one of two users is given the other's name |
| `Tokens.Login` | core/src/auth/user.rs:694-714 | a token is given exactly if a user of that name is found whose password verifies |
| `Tokens.SecretTellsLogouts` | core/src/auth/user.rs:489-527 | a user's secret is unchanged exactly as long as nothing logged them out |
| `Tokens.TokenAuthenticatesExactly` | core/src/auth/user.rs:258-269 | over any run a token authenticates exactly if it is at most 60 days and a minute old, its user is still there and no logout of theirs took effect in memory since |
| `Tokens.OnlyTheNewPassword` | core/src/auth/user.rs:576-626 | over any run, from a change of password to the next exactly the new password logs its user in |
| `Tokens.TokensAfterTheChange` | core/src/auth/user.rs:613-625 | a token valid when the password is changed stays valid exactly if the logout that belongs to it fails to be written or, the call being dropped, is not reached |
| `Ports.PortManager.Allocate` | core/src/port_manager.rs:23-37 | the free start itself, or past it the least port neither allocated nor in use |
| `Ports.PortManager.AddPort` | core/src/port_manager.rs:46-48 | the port is in the table, whoever holds it |
| `Ports.PortManager.Deallocate` | core/src/port_manager.rs:50-52 | the port is no longer in the table |
| `Ports.UsablePortWithin` | core/src/port_manager.rs:26-30 | if the system has a port free, one is found within 65536 times one more than the number of allocated ports |
| `Ports.AllocationsNeverShare` | core/src/port_manager.rs:23-37 | in any run of the three operations, `allocate` hands out a port nobody holds |
| `Ports.TableIsHeld` | core/src/port_manager.rs:23-52 | the table is exactly the ports somebody holds |
| `Ports.SharedExactly` | core/src/port_manager.rs:46-48 | two hold one port exactly if it was added while it was in the table, and not freed since |
| `Ports.SharedAtAnExample` | core/src/port_manager.rs:46-48 | a port that is allocated and then added |
| `Events.FilterMeets` | core/src/events.rs:34-86 | a query lets through exactly the events with one of the levels, types, kinds, users and instances it lists; only instance events have an instance, and only user events a user |
| `Events.FilterIsConjunction` | core/src/events.rs:34-86 | a query without criteria lets everything through, and one with several what each alone does |
| `Events.LevelIs` | core/src/output_types.rs:22-62 | errors are instance errors, failed macros and failed progressions, warnings are instance warnings, and all else is information |
| `EventSearch.WindowIsExact` | core/src/db/read.rs:20-30 | the inclusive bound on shifted ids is exact because every id has non-zero low bits |
| `EventSearch.WindowOfKept` | core/src/db/read.rs:20-30 | with any bounds, the window is the wrapped range of milliseconds |
| `EventSearch.WriteEvents` | core/src/db/write.rs:16-50 | the table holds the broadcast events up to a close or a failed insert, without progress updates |
| `EventSearch.SearchEvents` | core/src/db/read.rs:11-69 | in 64-bit arithmetic, the search returns the parsed rows in the unbounded window that pass the query, in order, or, with overflow checks, panics exactly if a bound leaves 64 bits on the way |
| `EventSearch.NearRangesAreExact` | core/src/db/read.rs:20-22 | a range within 2^41 milliseconds of the epoch is searched exactly in every build |
| `EventSearch.SearchFindsExactly` | core/src/db/read.rs:11-69 | wherever no bound overflows with checks and the window is exact, a search of the table any turns of the writing task leave finds exactly the events that meet every criterion of the query and whose millisecond timestamp is in the range, in order |
| `EventSearch.SearchIsExactIff` | core/src/db/read.rs:20-30 | for every start and end that is so if and only if no bound overflows with checks and the window is exact |
| `EventSearch.OverflowAtAnExample` | core/src/db/read.rs:20-22 | the least start there is: exact without checks, a panic with them |
| `EventSearch.LateEndLosesEvents` | core/src/db/read.rs:20-22 | an end past the last id loses the latest event |
| `EventSearch.EarlyStartLosesEvents` | core/src/db/read.rs:20-22 | a start that wraps loses everything |
| `EventBuffers.PushedIsLast` | core/src/lib.rs:616-624 | pushing into a ring keeps the last elements |
| `EventBuffers.Buffers.Route` | core/src/lib.rs:614-624 | an event goes to one buffer, and the instance id is there when it is unwrapped |
| `EventBuffers.Buffers.Run` | core/src/lib.rs:599-626 | after any received events the buffers hold the last 512 other events and the last 1024 outputs, player and system messages of each instance, in order |
| `EventBuffers.RoutedOnce` | core/src/lib.rs:614-624 | every event has exactly one buffer: that of other events, or the console of the one instance it names |
| `ConsoleLog.MergeKeepsFirsts` | dashboard/src/data/ConsoleStream.ts:97-114 | the merged log has no id twice, exactly the ids of log and batch, and starts with the old log |
| `ConsoleLog.OneConsoleEvent` | dashboard/src/data/ConsoleStream.ts:15-60 | only an instance output becomes a console event, with its own id, message and instance |
| `ConsoleLog.MergeTwice` | dashboard/src/data/ConsoleStream.ts:97-114 | merging a batch again changes nothing |
| `ConsoleLog.MergeInTurn` | dashboard/src/data/ConsoleStream.ts:97-114 | merging in turn is merging the concatenation |
| `ConsoleLog.OrderDoesNotMatter` | dashboard/src/data/ConsoleStream.ts:97-114 | any order of history and live batches ends with the same ids |
| `VirtualPaths.BackToTheRequest` | core/src/docker_bridge/virtual_fs.rs:15-47 | mapping the result back gives the request, normalised |
| `VirtualPaths.BelowLeadsBack` | core/src/docker_bridge/mod.rs:322-337 | whatever is listed below the result has a virtual path leading back to it in the same root, also when roots share a last name |
| `VirtualPaths.NoneExactly` | core/src/docker_bridge/virtual_fs.rs:15-33 | a path gives `None` exactly if nothing is left of it once normalised, or its first name then names no root |
| `VirtualPaths.GoingUpAtAnExample` | core/src/docker_bridge/virtual_fs.rs:15-33 | a path that goes up once and is resolved |
| `VirtualPaths.ReachableExactly` | core/src/docker_bridge/virtual_fs.rs:28-31 | a root is reachable exactly if no earlier root ends with the same name |

## Left out

- V8, deno_core, tokio, axum, sqlx, bollard and playit: steps, ideal channels and lists of entries stand for them; lag is a step of its own.
- ConsoleLog.OneConsoleEvent: the timestamp and the instance name of a console event, which are shown and take no part in merging.
- The React hook around `mergeConsoleLog`: only the merging of lists is modelled, not when it is called.
- HTTP handlers, websockets, routers, tracing, React components and generated bindings.
- What a macro's code does: it is a step that ends the event loop with success or error, and may ask for any pid to be detached.
- The loop in `spawn` that waits for `Started`, `wait_for_detach` and `wait_with_timeout`: they are liveness claims, and only subscribe once polled.
- Wrap-around of the pid counter after 2^64 calls of `spawn` and of the client id: a spawn beyond the limit is not a step.
- Password hashing, random generation and token signatures are ideal: hashing is injective, fresh secrets do not recur, and a signature verifies only under its own secret.
- JSON parsing: a stored row carries the event it parses to, if any; rows come back in the order of insertion.
- What a failing or dropped write leaves in the users file: only which map was last written out is kept.
- Racing changes to the destination while an archive is moved: what `exists` sees depends only on the entries placed.
- I/O errors other than those named in the contracts, among them failing renames across file systems and unreadable directories; access rights and loops other than through the limit of 40 links.
- Archive formats: an archive is its list of entries with names as sequences, so separators and names that are not Unicode are not modelled; hard or symbolic links inside archives are not either.
- The order of a directory walk and of a directory listing is any order.
- Host links below `/` in `get_virtual_path`: the joining is lexical.
- `extract_config_code` counts its positions in characters instead of bytes: each of them is beside an ASCII character or an end of the text, where a slice by bytes cuts nothing.
- Parsing of floats: `number` defaults are kept as literals that a given predicate accepts.
- ConfigSettings.SettingFrom: the types `Integer` and `UnsignedInteger` and regular expressions of string settings, which a config class cannot produce.
- The in-memory layout of buffers: ring buffers are sequences, and the TCP halves of `pipe` are a sequence of turns.
- Ports.PortManager.Allocate: which system ports are free does not change while the search runs; overflow of the 32-bit counter is an outcome.
- `State::try_new_state`, `MatchIp`, `format_byte`, `can_perform_action` and the global-settings setters: small tables, or rollbacks the user store already shows.
