# DRTM boot harness: a verified model

The harness boots disk images under QEMU, drives them over a serial console, reads the
event log a dynamic launch left and holds it against the TPM's PCRs. This project models
the parts of it that decide something and proves what they promise, in Dafny 4.11.
`dafny verify dfyconfig.toml` checks everything.

- **Console.** `Search` is `bytes.find` and a scan for leftmost, non-overlapping
  occurrences. `Waiting` tells one call of `expect` over the whole history of its polls:
  an oracle gives each poll the bytes that arrived, three clock readings, what the monitor
  would say of the CPUs, and QEMU's state. `QemuVm` is the class with the buffer, the
  cursor and the loop, proved against that history; `WaitTheorems` is what follows for
  callers, `WaitVerdicts` exactly when a poll ends a call, how, and what it sends. `Reader`
  is the reader thread, an observer and `__exit__` as interleaved steps.
- **Event log.** `EventLog` is the parser over arbitrary bytes, `EventLogCodec` a writer of
  the format (sections 10.2.1, 10.2.2 and 10.4.5.1 of the TCG PC Client Platform Firmware
  Profile 1.05) and the round trip, `EventLogShape` which bytes are accepted and why others
  are not, `EventLogTail` truncation and trailing zeros. `Replay` is the replay and its
  binding, `HexDump` the dump off a shared console, `Launch` a TPM
  (TPM2_PCR_Extend, section 22.2 of part 3 of the TPM 2.0 Library), the launch that logs
  into it, and the check that compares the two. The hash is a parameter: any function with
  a fixed, non-zero digest size per algorithm.
- **Driver.** `Menu` is the walk down GRUB's menu over a channel that loses keys,
  `MenuText` what its waits match in the console's bytes, `Shell` a command's output.
- **Session.** `Outcomes`, `BootQueue` and `RunDirs` are the per-test records, the order
  boots are submitted in, and the numbered log directory.
- **Text.** `GrubCfg` reads menu entries and edits kernel lines, `GrubText` says what documents
  mean. `Report` has the order and the cells of the report's tables, `ReportTable` and
  `ReportSection` print them,
  `ReportBadge` counts, `ReportOutline` puts sections under vendors, and `ReportPage` is the
  whole page from the results.

`Common`, `Text` and `Sorted` hold results, Python's ordered dict, white space, joining and
hexadecimal, and `sorted(set(...))`.

Where a docstring and the code part, the model follows the code:

- `parse` says a dump that dropped its trailing zeros reads as if they were there; it does
  exactly up to the 16 zeros `parse` adds (`EventLogCodec.CutLogIff`), and the seventeenth
  is lost (`SeventeenthZeroIsLost`).
- `expect` says an answer is sent once per appearance; it is once per occurrence of the
  leftmost, non-overlapping scan, at most one a poll for each prompt. Every appearance is
  answered exactly when no two overlap (`WaitTheorems.AppearancesAreAnsweredIff`), which
  over all streams is a prompt no proper part of which both starts and ends it
  (`Search.ListsAllAlwaysIff`, `OverlappingPrompts`).
- `expect` says it returns the text up to the needle; it raises with the needle in hand
  exactly when the needle is empty and the first poll idle
  (`WaitTheorems.RaisesWithTheNeedleIff`, `EmptyNeedleCanHang`).
- `_outcome_per_test` says a non-passing phase decides; the last such phase does, so a test
  is not ok in `_records` and has no failed line there exactly when every failure of it has
  a skipped phase behind it (`Outcomes.SummariesAgreeIff`, `FailedThenSkipped`).

## Model

| member | source | states |
|---|---|---|
| WaitTheorems.MatchIsTheStreams | drtmtest/qemu_vm.py:670-674 | a match returns the stream from the old cursor through the first occurrence of the needle in the whole stream, for any stream that continues the snapshot |
| WaitTheorems.MatchIgnoresChunks | drtmtest/qemu_vm.py:645-674 | two successful waits for one needle from one cursor of one stream return the same text, whatever the chunks and polls |
| QemuVm.QemuVm.Expect | drtmtest/qemu_vm.py:619-692 | the call, at once behind another one or not, ends at the first poll whose history has a verdict, with that verdict; only a match moves the cursor, by the text returned; what it sent and when it last asked for the run state are those of the history |
| QemuVm.QemuVm.ReturnedIsTheCapture | drtmtest/qemu_vm.py:645-674 | after any sequence of calls, with or without time between them, the returned segments concatenate to the capture up to the cursor |
| QemuVm.CutIgnoresChunks | drtmtest/qemu_vm.py:670-674 | over a whole run of waits, the segments two captures of one stream are cut into agree |
| QemuVm.CutConserves | drtmtest/qemu_vm.py:670-674 | cutting a stream by successive needles loses and repeats nothing |
| QemuVm.WatchSilence | drtmtest/qemu_vm.py:648-669 | one turn of the hang detector's locals decides what the silence and the probes of the whole call decide, the stale `stuck_since` included |
| QemuVm.FailureIn | drtmtest/qemu_vm.py:675-679 | the failure reported is the first listed that occurs |
| QemuVm.QemuVm.AnswerPrompt | drtmtest/qemu_vm.py:680-685 | a prompt is answered when the scan of the snapshot has an occurrence beyond those answered, and the search goes on behind it, between the cursor and the end of the buffer |
| QemuVm.QemuVm.AnswerPrompts | drtmtest/qemu_vm.py:680-685 | one turn answers every prompt at most once, in the prompts' order |
| QemuVm.QemuVm.CheckAlive | drtmtest/qemu_vm.py:587-609 | an exited QEMU is reported first, the run state is asked for once a second at most |
| QemuVm.QemuVm.Capture | drtmtest/qemu_vm.py:563-567 | the capture is all the guest has printed so far, and what waits have returned is the start of it |
| WaitTheorems.RaisesWithoutTheNeedle | drtmtest/qemu_vm.py:649-692 | a call that raises had no occurrence of its non-empty needle in the snapshot of its last poll, though hangs are decided before the search |
| WaitTheorems.RaisesWithTheNeedleIff | drtmtest/qemu_vm.py:653-692 | a call raises with its needle in the snapshot of its last poll exactly when the needle is empty and the first poll idle |
| WaitTheorems.EmptyNeedleCanHang | drtmtest/qemu_vm.py:653-672 | such a call: an empty needle, nothing printed and an idle time of zero |
| WaitTheorems.NeedleWinsWithinASnapshot | drtmtest/qemu_vm.py:670-679 | between needle and failure patterns the first snapshot with either decides, for the needle exactly when that snapshot has it |
| WaitTheorems.ChunksDecideTheRace | drtmtest/qemu_vm.py:670-679 | one stream, the failure before the needle, matches in one chunk and panics in two |
| WaitTheorems.IdleIsSound | drtmtest/qemu_vm.py:653-657 | an idle verdict means no byte in any poll since the last growth, `idle` or more ago |
| WaitTheorems.StuckIsSound | drtmtest/qemu_vm.py:658-669 | a stuck verdict means silence of STUCK_AFTER plus STUCK_FOR at least, and two or more consecutive probes, STUCK_SAMPLE apart or more and spanning STUCK_FOR, all with the same non-empty addresses |
| WaitTheorems.StuckIff | drtmtest/qemu_vm.py:658-669 | a probing poll finds the guest stuck exactly when some probe STUCK_FOR ago or more heard the same and every probe since did, the guest silent throughout |
| WaitTheorems.WaitIsBounded | drtmtest/qemu_vm.py:640-692 | a call makes at most two polls more than sleeps fit into its timeout |
| WaitTheorems.TimeoutIsLastResort | drtmtest/qemu_vm.py:670-691 | a timeout means that at none of the call's polls the snapshot had the needle or a failure pattern, QEMU was gone or the run state asked for was a panic, and that the deadline passed at the last of them and no sooner |
| WaitTheorems.RunStateIsFresh | drtmtest/qemu_vm.py:597-608 | after each poll of a live QEMU the run state is less than a second old, and it is never asked for sooner than that |
| WaitVerdicts.IdleIff | drtmtest/qemu_vm.py:649-657 | a poll calls the guest idle exactly when it saw no new byte and its clock is `idle` or more past that of the last poll that did, or of the call |
| WaitVerdicts.NoCallOutlastsItsIdle | drtmtest/qemu_vm.py:653-657 | no call goes on past such a poll, nor ends there any other way |
| WaitVerdicts.ProbesIff | drtmtest/qemu_vm.py:653-661 | the monitor is asked exactly at a silent poll that is not idle yet but 30 seconds in, two seconds or more after the call and after every time it was asked |
| WaitVerdicts.StuckVerdictIff | drtmtest/qemu_vm.py:658-669 | a poll calls the CPUs stuck exactly when it asks, hears of some, and a probe 20 seconds ago or more and all since heard the same, the guest silent throughout |
| WaitVerdicts.ChecksIff | drtmtest/qemu_vm.py:597-608 | the run state is asked for exactly while QEMU lives and a second or more after it was last asked for, in this call or before |
| WaitVerdicts.NeedleDecides | drtmtest/qemu_vm.py:670-674 | without a hang, a snapshot with the needle matches up to the end of its first occurrence |
| WaitVerdicts.FailureDecides | drtmtest/qemu_vm.py:675-679 | without the needle, the first failure pattern listed that is there ends the call |
| WaitVerdicts.OtherwiseQemuDecides | drtmtest/qemu_vm.py:686-692 | with neither, QEMU being gone does, then the run state, then the deadline, and nothing else |
| WaitVerdicts.TurnAnswers | drtmtest/qemu_vm.py:680-685 | one turn answers, in order, exactly the prompts whose scan has another occurrence, each with its own reply |
| WaitVerdicts.RepliesAreAnswers | drtmtest/qemu_vm.py:680-684 | nothing else is sent |
| WaitVerdicts.LastPollAnswers | drtmtest/qemu_vm.py:653-691 | the last poll answers too, unless a hang, the needle or a failure pattern ends it |
| WaitTheorems.AnswersFollowTheScan | drtmtest/qemu_vm.py:680-685 | the answers sent for a prompt stand at the first so many occurrences of the offline scan of the whole stream, in order: none twice, none passed over |
| WaitTheorems.EveryOccurrenceIsAnswered | drtmtest/qemu_vm.py:680-685 | while the wait goes on, the occurrences the scan of a snapshot lists are all answered within as many polls |
| WaitTheorems.AppearancesAreAnsweredIff | drtmtest/qemu_vm.py:637-685 | with as many polls to answer in, every appearance of a prompt in a snapshot is answered exactly when no two appearances overlap |
| Search.FindIsFirst | drtmtest/qemu_vm.py:670 | a find is the first occurrence from its start on, and finds one if there is one |
| Search.FindInPrefix | drtmtest/qemu_vm.py:646-670 | what a snapshot finds, any longer stream finds at the same place |
| Search.ScanIsGreedy | drtmtest/qemu_vm.py:680-685 | the scan's positions are occurrences, do not overlap, and every other occurrence overlaps one of them |
| Search.ListsAllIff | drtmtest/qemu_vm.py:680-685 | the scan lists every occurrence exactly when no two of them overlap |
| Search.ListsAllAlwaysIff | drtmtest/qemu_vm.py:680-685 | it does in every stream exactly for a prompt no proper part of which both starts and ends it |
| Search.OverlappingPrompts | drtmtest/qemu_vm.py:680-685 | two overlapping appearances of such a prompt, of which the scan lists the first alone |
| Search.FindNext | drtmtest/qemu_vm.py:681 | a find resumed behind the last one taken meets the scan's next occurrence or its end |
| Reader.EveryRunIsSafe | drtmtest/qemu_vm.py:543-567 | in every interleaving no write reaches a closed log, log and buffer are the same bytes whenever the lock is free, nothing received is lost before the shutdown begins, snapshots are prefixes |
| Reader.CopyIsTheCapture | drtmtest/qemu_vm.py:563-567 | in every interleaving a fresh copy, of `capture` or of a snapshot, is the buffer and the log byte for byte |
| Reader.CopiesExtend | drtmtest/qemu_vm.py:554-567 | a later copy goes on from an earlier one |
| Reader.StopEndsTheCapture | drtmtest/qemu_vm.py:545-561 | once the stop flag is set the reader takes one more chunk at most, if it was waiting for one, and nothing enters the buffer that was not past the second look |
| Reader.ReaderStays | drtmtest/qemu_vm.py:543-561 | the reader leaves for the stop flag, a failed read or the end of the stream alone |
| Reader.NoDeadlock | drtmtest/qemu_vm.py:543-567 | whoever has the lock can go on, and when nobody has it so can the reader, an observer and `__exit__` |
| Reader.BufferOnlyGrows | drtmtest/qemu_vm.py:554-561 | along any run the buffer grows by appending alone, and neither it nor the log changes once the log is closed |
| Reader.SecondLookIsNeeded | drtmtest/qemu_vm.py:555-558 | a reader that outlives the join and does not look at the stop flag under the lock writes to the closed log |
| EventLog.Algorithms | drtmtest/eventlog.py:32-46 | the header's banks, or the error its first fault raises |
| EventLogCodec.ByAlgKeys | drtmtest/eventlog.py:42-51 | of any header, doubled algorithms included, each algorithm comes once, in the order of its first declaration |
| EventLogCodec.ByAlgSize | drtmtest/eventlog.py:42-46 | with the size it was declared with last |
| EventLogCodec.ByNameAt | drtmtest/eventlog.py:66-73 | an event has each digest under its name in hex, the last one of its algorithm |
| EventLogShape.BanksIff | drtmtest/eventlog.py:32-51 | of any bytes, `banks` gives the algorithms the padded header declares, once each in order, exactly when it declares some |
| EventLog.DigestsAt | drtmtest/eventlog.py:66-73 | an event's digests by name, as the list of digests standing there has them |
| EventLog.EventAt | drtmtest/eventlog.py:62-77 | one event and the offset behind it, its data shortened at the end of the log without an error |
| EventLog.Parse | drtmtest/eventlog.py:54-78 | the events up to a zero count or the end, for arbitrary bytes |
| EventLog.AlgNameInjective | drtmtest/eventlog.py:20-21 | no two algorithms share a name, so no digest hides another |
| EventLog.AlgNames | drtmtest/eventlog.py:20-21 | the four registered algorithms by their names, any other by its number in lower-case hex |
| EventLogCodec.RoundTrip | drtmtest/eventlog.py:49-78 | any well-formed log, with zeros behind it or up to 16 of its own trailing zeros lost, parses to the events written, every digest under its name, and `banks` gives the declared order |
| EventLogCodec.DumpedLog | drtmtest/eventlog.py:54-57 | any number of zeros behind the log, or up to 16 of its own lost, leave what it reads as |
| EventLogCodec.CutLogIff | drtmtest/eventlog.py:54-57 | a log that lost its last k bytes, zeros all, reads as the events written exactly when k is 16 or less; one without events, as long as the padding makes up for the banks lost |
| EventLogCodec.SeventeenthZeroIsLost | drtmtest/eventlog.py:54-57 | a log that ends in 17 zeros reads back without 16 of them and not without all 17 |
| EventLogCodec.ReadHeader | drtmtest/eventlog.py:32-46 | a written header reads back as its banks and ends where the events start |
| EventLogShape.ParseIff | drtmtest/eventlog.py:54-78 | any bytes parse to these events exactly when, padded, they are a header that declares its banks and whole records behind its event, the data of the last perhaps cut, up to a zero count or the last eleven bytes |
| EventLogShape.HeaderErrorsIff | drtmtest/eventlog.py:35-41 | the ValueErrors come exactly without a header event, and with one without the specification ID |
| EventLogShape.KeyErrorIff | drtmtest/eventlog.py:66-69 | the KeyError comes exactly when the first event that cannot be read has, behind whole digests, one of an algorithm not declared |
| EventLogTail.OnlyTheLastEventIsCut | drtmtest/eventlog.py:57-78 | of any bytes accepted: digests are whole, only the last event's data can be shorter than declared and is exactly when it runs past the padding, and n events take 18*n bytes or more behind the header |
| EventLogTail.ZeroTail | drtmtest/eventlog.py:54-64 | of any bytes accepted, more zeros behind them leave the parse alone exactly when no event ran past the padding |
| EventLogTail.RejectionStands | drtmtest/eventlog.py:32-78 | bytes rejected for what they say, a header or a bank that is not there, are rejected the same with zeros behind them |
| Replay.Replay | drtmtest/eventlog.py:81-90 | the replay is the extend chain of the digests the events of that PCR and bank extended, tags skipped |
| Replay.ReplayFails | drtmtest/eventlog.py:86-89 | a replay fails exactly for an algorithm hashlib lacks and for a digest it extends that is not hex |
| Replay.ReplayBinds | drtmtest/eventlog.py:86-90 | two logs with the same replay extended the same digests in the same order, or a collision or an input that hashes to the reset value is computed |
| Replay.ChainBinds | drtmtest/eventlog.py:86-89 | the same for two histories of one PCR |
| HexDump.SplicedDump | drtmtest/console.py:71-79 | white space and hypervisor lines anywhere in a dump, inside a byte too, do not change what it decodes to |
| HexDump.DecodesExactlyHex | drtmtest/console.py:71-79 | a dump decodes exactly when what is left of it is pairs of hex digits, to the bytes they spell |
| HexDump.JunkRaises | drtmtest/console.py:71-79 | a text decodes exactly when it has nothing but hex digits, white space and hypervisor lines, and an even number of digits, to the bytes they spell |
| HexDump.DecodesIff | drtmtest/console.py:71-79 | any text decodes to some bytes exactly when it is such a dump of them, the newline of its last line perhaps missing |
| Launch.DumpedLogReplaysToTheTpm | drtmtest/eventlog.py:54-90 | end to end: steps of a launch, their log encoded, dumped as hex with hypervisor lines spliced in, decoded, parsed and replayed, give the TPM's value for every bank hashlib has and every PCR the start reset, whatever other banks the TPM has |
| Launch.SubstitutionRepairs | tests/test_xen.py:130-134 | whatever SKINIT's record carries in a bank, the log with the SLB's digests in its place replays to PCR 17 and 18 in every bank hashlib has |
| Launch.LaunchPassesTheCheck | tests/test_xen.py:116-134 | after such a launch the check passes exactly when SKINIT's record is PCR 17, EV_SLAUNCH and "SKINIT" for the SLB's length, hashlib has a bank, and in the banks the SKL hashes the record has the SLB's digest |
| Launch.CheckedLogStands | tests/test_xen.py:116-134 | when the check passes, the log opens with that record and, in the banks the SKL hashes, replays to PCR 17 and 18 as it stands, without the substitution |
| Launch.CheckedLogIsTheHistory | tests/test_xen.py:131-134 | when the check passes, any history of digests the PCR has is the one the log tells, or the hash is broken |
| Launch.PlaceholderDoesNotReplay | tests/test_xen.py:113-115 | without the substitution PCR 17 replays only where the record has the SLB's digest, or the hash is broken |
| Menu.MenuTitles | drtmtest/console.py:82-88 | the titles once each, in the order of their first drawing |
| Menu.Console.MoveDown | drtmtest/console.py:126-135 | a Down is sent once more when the highlight is not drawn, and no third time |
| Menu.Console.SelectEntry | drtmtest/console.py:112-124 | an unknown title sends no key; Enter goes out only behind the whole walk |
| Menu.WalkInStep | drtmtest/console.py:119-135 | with no title a prefix of the one above, Enter comes with the highlight on the title asked for after at most two keys a row, and the driver raises only when the last two keys were lost |
| Menu.NeverOvershootsIff | drtmtest/console.py:119-135 | over all key losses, redraws and targets Enter never goes out on another row, exactly when no title is a prefix of the title above it |
| MenuText.FindStar | drtmtest/console.py:131 | in the console's bytes, the wait for a star and a title ends behind the first drawn row whose title starts with it, and leaves the later rows |
| Shell.StripsPieces | drtmtest/console.py:54-68 | escape sequences go from the left, and what starts none stays, a lone escape included |
| Shell.StripAnsiIff | drtmtest/console.py:54-68 | of any text just what is left of such pieces is left |
| Shell.OutputIsBetweenEchoAndPrompt | drtmtest/console.py:170-176 | a command's output is what stands between its echo and the next prompt, whatever the colours and carriage returns, stripped |
| Shell.NoOutput | drtmtest/console.py:174-176 | a command that printed nothing gives the empty string, and so does a text of one line |
| Outcomes.ReportLog.Records | drtmtest/session.py:198-237 | each test's record is the fold of its own reports, whatever the interleaving, in the order of first reports |
| Outcomes.ReportLog.OutcomePerTest | drtmtest/session.py:183-196 | the same for the collapsed outcome and the summed duration |
| Outcomes.FileIsBeforeColons | drtmtest/session.py:209 | a record's file is the test's id up to its first double colon, or the whole id without one |
| Outcomes.RecordMeans | drtmtest/session.py:218-234 | `ok` is false exactly when a phase failed, passed and skipped are ok, failed is not, the x outcomes have a reason, the duration is the phases' sum |
| Outcomes.PassedOrSkippedIff | drtmtest/session.py:218-234 | a test is passed, or skipped, exactly when no phase failed, none has an expectation, and none, or some, was skipped |
| Outcomes.DecidedOutcome | drtmtest/session.py:220-234 | otherwise the last phase that failed, was expected to, or passed unexpectedly in a test not failed yet says what the test is |
| Outcomes.ReasonGiven | drtmtest/session.py:222-234 | the reason is the one given last, a strict pass's the text behind its mark, stripped |
| Outcomes.NoReasonGiven | drtmtest/session.py:204-234 | and none if none was given |
| Outcomes.DurationIsTheSum | drtmtest/session.py:195-217 | the duration is that of the phases together |
| Outcomes.CollapsedIff | drtmtest/session.py:183-196 | a line reads failed exactly when a phase failed and none after it was skipped, and passed exactly when all phases passed |
| Outcomes.SummariesAgreeIff | drtmtest/session.py:183-234 | a failed line is a record that is not ok; a record is not ok without a failed line exactly when phases failed and each has a skipped one behind it |
| Outcomes.FailedThenSkipped | drtmtest/session.py:183-234 | a failed call and a skipped teardown: the record failed and not ok, the line skipped |
| Outcomes.SameTests | drtmtest/session.py:183-237 | both summaries have the same tests in the same order with the same durations; each record has its id, its file and its entries, each `ok` and each failed line is as its own phases decide |
| Outcomes.XFailedNotOkIff | drtmtest/session.py:220-229 | a record is xfailed and not ok exactly when an expected failure followed a failure, a strict pass for one, and no failure came after |
| Outcomes.StrictPassThenXFailed | drtmtest/session.py:220-229 | a strict pass in the call and an expected failure in the teardown make one |
| BootQueue.Collection.ModifyItems | drtmtest/session.py:143-178 | the boots submitted are the first occurrences of those the tests take, in order; collecting only submits nothing |
| BootQueue.TakenMeans | drtmtest/session.py:158-166 | a test takes each boot that a fixture or a parameter of it names, once |
| BootQueue.TakenInOrder | drtmtest/session.py:160-165 | and in the order in which the test names them first |
| BootQueue.EntriesAreTaken | drtmtest/session.py:167 | the entries of a test are what its last collected item takes |
| BootQueue.OtherEntriesStay | drtmtest/session.py:167 | the entries of tests not collected stay as they were |
| BootQueue.SortedIsIdentity | drtmtest/session.py:172 | the stable sort leaves the dict's order alone when the keys' numbers do not fall |
| BootQueue.SortedIsOrdered | drtmtest/session.py:172 | the sort does sort |
| BootQueue.QueuedOnce | drtmtest/session.py:157-178 | each boot some test takes is queued once, and no other |
| BootQueue.QueuedBeforeLaterBoots | drtmtest/session.py:168-178 | a boot a test takes is queued ahead of every boot first taken by a later test |
| BootQueue.QueueOrder | drtmtest/session.py:168-178 | of two boots in the queue the first is taken by a test before any takes the other, or named first by a test that is the first to take both |
| RunDirs.NextRunNumber | drtmtest/session.py:84-92 | one more than the highest numbered directory, one when there is none |
| RunDirs.LogDir.RunLogDir | drtmtest/session.py:94-115 | the first call that can makes the directory, later calls return it; past 9999 none is made, nor over an entry of its name, which raises |
| RunDirs.OneDirectory | drtmtest/session.py:94-115 | however boots' threads interleave, one directory at most is made, every boot that returns gets it, its number is one above all before, and a boot goes without only at the limit or behind a file of the name |
| RunDirs.NewDirectory | drtmtest/session.py:84-112 | making the directory raises exactly when an entry that is no directory has its name |
| RunDirs.NameReadsBack | drtmtest/session.py:23-111 | the directory's name reads back as its number, up to 9999 |
| RunDirs.RunNumberIff | drtmtest/session.py:23-91 | a name has a number exactly when it is some date's directory of that number |
| GrubCfg.Entries | drtmtest/grubcfg.py:56-73 | the entries its lines have, read one after the other |
| GrubCfg.MatchGivesTitle | drtmtest/grubcfg.py:23 | every way a line matches the pattern gives the one title, quotes inside it included |
| GrubCfg.TitleGivesMatch | drtmtest/grubcfg.py:23 | a title is only found in a line that matches |
| GrubCfg.EntriesAreOk | drtmtest/grubcfg.py:62-73 | of any text the titles are single lines, the commands trimmed lines, no comments, blanks or closing braces |
| GrubText.EntriesIff | drtmtest/grubcfg.py:56-73 | any text has these entries exactly when its lines are a document that means them: lines outside, openings, commands, lines dropped and braces, a later entry of a title in place of an earlier one |
| GrubCfg.PrintedMenuReadsBack | drtmtest/grubcfg.py:56-73 | any such menu reads back from its print |
| GrubCfg.PrintIsNormalForm | drtmtest/grubcfg.py:56-73 | printing what a text has and reading it again changes nothing |
| GrubCfg.WithParameter | drtmtest/grubcfg.py:76-87 | length and order stay and exactly the linux commands change, by the parameter at the end; it fails exactly on a blank command or without a linux one |
| GrubText.EditedIff | drtmtest/grubcfg.py:76-87 | a command changes exactly when its first word is "linux", by a blank and the parameter at its end |
| GrubText.IsBlankIff | drtmtest/grubcfg.py:81 | a command without a word is one of white space |
| GrubCfg.Commands | drtmtest/grubcfg.py:90-105 | an entry's commands, edited if asked, and never the failure of an empty split |
| GrubCfg.EditedEntryReadsBack | drtmtest/grubcfg.py:76-87 | an edited entry prints and reads back as edited, its linux commands linux commands still |
| Report.InOrderCounts | drtmtest/report.py:59-63 | how often each name comes out, for any lists |
| Report.InOrderPermutes | drtmtest/report.py:59-63 | lists without repeats are permuted |
| Report.InOrderFollows | drtmtest/report.py:59-63 | known names follow the known order, the rest come behind them as found |
| Report.Section | drtmtest/report.py:110-142 | the cell of a row and a release has exactly the release's tests of that row, in order, the rows in order of first occurrence |
| Report.CellConcat | drtmtest/report.py:123-128 | a cell has the tests of earlier runs ahead of those of later ones |
| Report.CellOfOne | drtmtest/report.py:126-128 | a run is in the cells of its own release, once for every time it names the row |
| Report.CellsHoldTheResults | drtmtest/report.py:123-138 | in either table a cell has each test as often as its release's results have it, times the times the test names the row |
| Report.FullTableHoldsEveryTest | drtmtest/report.py:123-142 | each record of a release's results is in the full table's cell of its id and release as often as it came, in no other cell, and the cells have no more than there are |
| Report.MarkIsTheWorst | drtmtest/report.py:38-45 | a cell's mark is the worst of its parts' marks, however it is divided |
| Report.MarkOfOne | drtmtest/report.py:25-45 | the mark of one test is by what its boot did: failed and xfailed a cross, passed and xpassed a check, skipped neither |
| ReportBadge.Summary | drtmtest/report.py:179-183 | each outcome is counted as often as it came |
| ReportBadge.BadgeOf | drtmtest/report.py:256-273 | the badge has the number of the release's tests that were not ok, else of the configurations that lack it, else of the tests that were |
| ReportBadge.BadgeMeans | drtmtest/report.py:256-273 | green exactly when every configuration has the release and all its tests were ok, counting all of them; failures come before missing configurations |
| ReportBadge.CountOkCounts | drtmtest/report.py:262-266 | the failures are the tests that were not ok, one by one |
| ReportBadge.CountMissingCounts | drtmtest/report.py:260 | the missing ones are the configurations without the release, one by one |
| ReportBadge.OfBadgeConcat | drtmtest/report.py:261-262 | a badge counts each configuration's tests of the release once |
| ReportOutline.Render | drtmtest/report.py:244-248 | the vendors' sections one after the other, each with its configurations |
| ReportOutline.PageFollows | drtmtest/report.py:244-248 | sections follow the order of their vendors, and under one vendor that of the configurations |
| ReportSection.OutcomesStandUnderTheirRelease | drtmtest/report.py:95-147 | in the printed full table every row has its test's id under the first heading and the outcomes of its cell of each release under that release |
| ReportSection.MarksStandUnderTheirRelease | drtmtest/report.py:95-133 | in the printed table of entries every row has its entry under the first heading and the mark of its cell of each release under that release |
| ReportSection.OutcomeTextMeans | drtmtest/report.py:144-146 | a full-table cell has its outcomes once each, ascending, with commas between, a dash if nothing ran |
| ReportSection.MarkTextMeans | drtmtest/report.py:21-45 | an entry's cell has a cross where a test of it failed, else a check where one passed, else a dash |
| ReportPage.GroupsKeepTheLast | drtmtest/report.py:232-234 | of the results of one configuration and release the page keeps the last, and has something for a pair exactly when there is one |
| ReportPage.VendorMeans | drtmtest/report.py:76-79 | a configuration's vendor is the matrix's, else what the result kept for its first release says, else AMD |
| ReportPage.ColumnsFollow | drtmtest/report.py:236-238 | the matrix's releases come in its order, the others behind them ascending |
| ReportPage.SectionsFollow | drtmtest/report.py:235 | the matrix's configurations come in its order, the others behind them as their first results came |
| ReportPage.VendorsFollow | drtmtest/report.py:244 | the vendors come in the matrix's order, others behind them ascending |
| ReportPage.EntriesFollow | drtmtest/report.py:117-132 | the entries come as the results list them, the others behind them |
| Sorted.AtMostIff | drtmtest/report.py:236-244 | strings are ordered by code points, a shorter one before those it starts |
| Sorted.SortedSetAscends | drtmtest/report.py:236-244 | releases and vendors the matrix does not order come in ascending order |
| Sorted.SortedSetOnce | drtmtest/report.py:236-244 | the sorted set has every member once |
| ReportPage.RenderPage | drtmtest/report.py:227-253 | the page's headings and sections, each section's tables those of its configuration's kept results, and for every release with results the badge its tests make |
| ReportPage.PageIsComplete | drtmtest/report.py:235-252 | every configuration with results has exactly one section, under its own vendor's only heading |
| ReportPage.PageHoldsEveryTest | drtmtest/report.py:122-252 | a full-table cell of any section has exactly the tests of its id in the last result of its configuration and release, as often as they are there |
| ReportPage.EveryTestIsOnThePage | drtmtest/report.py:227-252 | every test of a result no later one replaces is in its configuration's one section, in the row of its id and the one column of its release |
| ReportTable.LinesLineUp | drtmtest/report.py:95-107 | all lines of a table have one length, exactly when it has a column |
| ReportTable.CellsStandInTheirColumn | drtmtest/report.py:95-107 | every cell stands padded where the header's cell of its column stands, bars aligned in every line |
| ReportTable.TablePicture | drtmtest/report.py:95-107 | in every line a column is a bar, a blank, the cell, blanks up to the width, a blank and a bar, dashes between bars under the header |
| ReportTable.ColumnIsTight | drtmtest/report.py:96-98 | a column is as wide as its longest cell, and no wider |

## Left out

- QemuVm.QemuVm.Expect: returns bytes; decoding with replacement characters, the error messages, a failing send and an OSError of the status query (the oracle's run state then says not panicked) are not modelled; prompts must be non-empty and distinct; clocks are real numbers that never run back, and the sleep between two polls of one call lasts 0.05 s or more.
- QemuVm.QemuVm.CheckAlive: the run state and the exit of QEMU are the oracle's, as are the CPU addresses, whose parsing out of `info registers -a` is not modelled.
- Reader.EveryRunIsSafe: one observer stands for all callers of `expect` and `capture`; the two other log files close with the serial log.
- EventLog.Parse: an event's digests are a map, without the dict's order, which nothing reads; the parser's loop body is split into methods.
- Launch.LaunchPassesTheCheck: the TPM's banks are values by bank and index; of the digests of a bank hashlib lacks nothing is said; a failing assertion and a missing key are both the check not passing.
- Menu.NeverOvershootsIff: a Down that GRUB handles after the key timeout, and the menu's own countdown, are outside the assumption the driver makes.
- Menu.MenuTitles: the matches of the title pattern are given.
- Shell.OutputIsBetweenEchoAndPrompt: the send and the wait of `run` are those of `QemuVm`.
- Outcomes.RecordMeans: durations are integers and stay unrounded.
- BootQueue.Collection.ModifyItems: the pool, its futures and the `prepare` call are not modelled, only the order of submission.
- RunDirs.OneDirectory: no other process makes directories meanwhile; dates are strings; a failing write of the time stamp, or a logs directory that is a file, is not modelled.
- GrubCfg.Entries: ASCII text; reading the file off the image with mtools is not part of this model.
- ReportPage.RenderPage: the page's prose, notes and titles are not modelled, nor a result's own defaults for its configuration and release; an empty vendor stands for a missing one.
- The pattern matching of `pcrs` and `pcr_banks`, typing at GRUB's shell and the login: single patterns over given text.
- Starting and stopping QEMU, swtpm, sockets and the QMP client: input and output.
- Machine options, the matrix tables, downloads and bundles: finite tables and file moves.
