# Fedora firewall control: verified core

Dafny models and proofs for the stateful core of the firewall console and of its web server.

- `CommandRunner.dfy`: the bounded process runner, a poll loop over three descriptors, against a kernel whose
  every outcome and clock reading is arbitrary.
- `SecureStorage.dfy`: owner-only storage on a file system that may crash after any call, with volatile and durable
  names and contents. `Descriptors.dfy`: the move-only descriptor owner.
- `LoggingEngine.dfy`: the locked, rotating log writer, and any number of recorders interleaved step by step.
- `LogText.dfy`, `LogAnalysis.dfy`, `LogPipeline.dfy`: the redacting log line, the log reader, and both together.
- `NetworkHistory.dfy`: the bounded history file as a queue.
- `TerminalText.dfy`, `TerminalLanguage.dfy`, `Utf8.dfy`: the terminal sanitizer, its output language, RFC 3629.
- `JsonText.dfy`, `DashboardJson.dfy`: the JSON writer, and a reader after RFC 8259.
- `ZoneDrift.dfy`: the three computations of runtime-to-permanent drift.
- `RateLimiter.dfy`, `SnapshotService.dfy`: the token bucket and the coalescing snapshot cache of the web server.
- `Text.dfy`, `Order.dfy`: sequences of bytes, lines and fields, and sorting.

A `std::string` is a `string` whose chars stand for bytes. Code that loops or updates fields is a method or a class
proved against a function of its inputs or of its old state; what the source promises is then proved of that function.
Operating system, clock and promise scheduler are adversaries: `Kernel` and `FileSystem` choose outcomes freely and
keep books on what happened, and the interleaved systems quantify over all runs.

## What is proved

- **Process runner.** An exit code of 0 or more is returned exactly when the child exited, was never killed and
  accepted the whole input; then both texts are its whole streams up to end of file. A kill or unwritten input always
  has a cause (time, a failed call, a closed input, an exceeded cap). Captured stdout is always the first 1 MiB of what
  was read, the group is killed at most once, each descriptor is closed exactly once on every path, every poll is made
  before the deadline in force, for the whole milliseconds left of it, at least one and before a kill at most a second,
  and the loop ends. After every poll each descriptor gets exactly the read or write that its events call for, and the
  next poll watches exactly what that leaves open (`Answered`, `WatchedAfter`).
- **Replacement.** After every single call, a crash leaves the target name with something it could have had before or
  with the whole new content; success makes the new content certain; failure leaves old or new and no other name, unless
  the file system refused to unlink that very name. Success and failure are reported exactly. A plain write syncs its
  file but not the directory: `WritePrivateFile` says exactly when the name is certain, which for a new file is never.
- **Logging.** Every interleaving is serial in lock order; after a success the file is within 512 KiB whatever it was.
  That the file holds exactly the successful calls since the last rotation is false in general: a call can fail after
  its bytes were written (`FailedCallCanLeaveItsEntry`). It holds if and only if since then no append ended badly behind a
  written byte and no failed replacement stayed in place (`FileHoldsTheSuccessesExactly`).
- **Log pipeline.** `parse_entry` undoes `format_log_event` for every detail string, and from empty logs the inspection
  of the four files counts exactly the successful calls of any interleaved run without rotation in which no failed call
  left anything, or at least nothing that is reported or tears a success (`QuietFailuresDisturbNothing`, `Undisturbed`).
  For the other runs `HistoryIsReported` says what is reported, `EveryEntryIsAccountedFor` balances it with the successes,
  and `SuccessIsReportedExactly` says when a success is lost: behind a torn line, together with that line if it was
  reported (`SuccessCanBeLost`). Redaction replaces exactly the keys, is bounded, complete across joins and
  truncation, and idempotent.
- **History.** The file is a queue that keeps the longest fitting suffix of the newest 511 records and the new one.
  Compaction does not reserve the new record's bytes, so a stored history can become unreadable:
  `ReadableAfterAppendExactly` says when, `LargeRecordsCannotBeReadBack` gives a case, and records of at most 512 bytes
  always read back as the last 512.
- **Terminal text.** The output is well-formed UTF-8 without hidden controls, every ESC starts a whole SGR sequence,
  and the decoder takes exactly what RFC 3629 allows. Sanitizing twice changes nothing if and only if the last piece
  shown is not an escape that crosses the limit; an output within the limit is always a fixed point. A value painted in
  colour loses its final reset in the listing exactly when what precedes the reset reaches the limit.
- **JSON and drift.** Every string, string array, zone and drift document reads back exactly. Scan plus size test decides
  equality of the policy maps, is symmetric and is the negation of the other scan; an empty drift document implies it.
  The converse fails on reordered lists, and holds exactly when no unordered list is reordered.
- **Token bucket.** The tokens a take finds are exactly the least room over all windows that end at it, also when the
  clock is set back. `Retry-After` is sufficient and least with a clock that did not go back; after a rollback it is
  enough exactly if the rollback is within what rounding up to whole seconds added, so never after a second or more.
- **Snapshot cache.** In every interleaving at most one collection is unfinished, its owner finds its own promise, and
  answers come from where they say; with a monotone clock successes are at least the ttl apart.

## Model

| member | source | states |
|---|---|---|
| CommandRunner.ProcessCommandRunner.RunWithInput | src/core/command_runner.cpp:276-373 | a code of 0 or more exactly for a child that exited, was not killed and accepted all input, and then both texts are its whole streams; otherwise -1, never without a cause; three descriptors closed once each, at most one kill; every poll was made before the deadline in force, for the whole milliseconds left of it, at least one and before a kill at most 1000; after every poll each descriptor got exactly the read or write its events call for, or none, the next poll watched exactly what that left open, and a fault other than that of a write was followed by a kill |
| CommandRunner.ProcessCommandRunner.constructor | src/core/command_runner.cpp:266-270 | timeouts that are not positive become one millisecond |
| CommandRunner.Communication.Communicate | src/core/command_runner.cpp:93-264 | on return all slots are empty and the invariant holds: closes, captured streams, accepted input, kills, causes of flags, and each poll in the kernel's journal before the deadline in force with its exact wait (of the first poll after a kill it may be counted from the kill); every turn of the loop was answered, until nothing was left to watch or the grace period was over; it returns when time advances |
| CommandRunner.Communication.PrepareInput | src/core/command_runner.cpp:104-128 | empty input closes the descriptor at once, a failed fcntl flags, kills and closes it, and the count is right at the first loop head; what is watched first includes the input only if it does not block |
| CommandRunner.Communication.Terminate | src/core/command_runner.cpp:108-114 | kills the group the first time only, and sets the drain deadline only then |
| CommandRunner.Communication.CheckDeadlines | src/core/command_runner.cpp:135-150 | goes on only before the deadline in force; leaving closes everything |
| CommandRunner.Communication.TimedPoll | src/core/command_runner.cpp:151-161 | exactly one poll, before the deadline in force, for the whole milliseconds left, at least one and before a kill at most 1000 |
| CommandRunner.ChooseWait | src/core/command_runner.cpp:151-160 | the whole milliseconds left, within 1 and, before a kill, 1000 |
| CommandRunner.Communication.Round | src/core/command_runner.cpp:134-259 | one turn of the loop: the clock moves on, no poll follows a reading at or past the deadline in force, and the drain deadline once set stays |
| CommandRunner.Communication.PollOnce | src/core/command_runner.cpp:151-258 | keeps the loop invariant over one poll, each descriptor answered as its events call for, or leaves with everything closed |
| CommandRunner.Communication.AnswerEvents | src/core/command_runner.cpp:174-258 | after a poll that reported events the turn is answered: a read per readable, hung-up or failing output, a write for a writable input, nothing else, and the next poll watches what that leaves |
| CommandRunner.TurnCompletes | src/core/command_runner.cpp:133-258 | answering the three descriptors extends an answered run of the loop by one turn |
| CommandRunner.Communication.GiveUpOutput | src/core/command_runner.cpp:179-192 | an invalid output descriptor is flagged, the group killed, the descriptor closed once and counted out |
| CommandRunner.Communication.GiveUpInput | src/core/command_runner.cpp:179-192 | the same for an invalid input descriptor |
| CommandRunner.Communication.FeedInput | src/core/command_runner.cpp:193-228 | what the child accepted is always the written prefix; one write of all that remains exactly when writable and not hung up or in error; closing means all of it, or a flag, and happens exactly on the outcomes that end the input |
| CommandRunner.Communication.DrainOutput | src/core/command_runner.cpp:229-257 | captures stay faithful to what was read; one read, and the descriptor is over exactly at end of file or on a failed read, which kills |
| CommandRunner.Communication.Capture | src/core/command_runner.cpp:233-244 | appends up to the cap, and kills at the first byte beyond it |
| CommandRunner.Communication.CloseAll | src/core/command_runner.cpp:144-148 | every open descriptor is closed once and none twice |
| CommandRunner.Communication.EverythingIsClosed | src/core/command_runner.cpp:260-263 | with all slots empty: each descriptor closed exactly once; no flag exactly when nothing was killed and all input accepted; then both streams are complete |
| CommandRunner.Communication.Conclude | src/core/command_runner.cpp:347-372 | flags and wait status give the exit code |
| CommandRunner.CapturedGrows | src/core/command_runner.cpp:236-239 | capturing piece by piece keeps the beginning of the whole stream |
| SecureStorage.ReplaceAtomically | src/core/secure_storage.cpp:88-161 | a crash after any call leaves old or new content; success is durable; failure leaves old or new, and no other name than before unless the unlink of that very name was refused; other names lead to what they led to; success and failure are exact; success takes a checked directory and a file found private, given mode 600 and closed without complaint |
| SecureStorage.TargetNameExactly | src/core/secure_storage.cpp:90-96 | the target is what stands behind the last slash, if that leaves a directory other than the root and a fit name |
| SecureStorage.CreateTemporary | src/core/secure_storage.cpp:120-137 | creates under a free name that is not the target, or fails because a call failed or all 128 names are taken, leaving nothing |
| SecureStorage.TemporaryNamesAreFit | src/core/secure_storage.cpp:122-124 | every attempt tries another hidden and fit name |
| SecureStorage.FillTemporary | src/core/secure_storage.cpp:138-146 | on success the whole content is in the file and durable; no other file or name is touched at any step |
| SecureStorage.Publish | src/core/secure_storage.cpp:147-155 | at every step the target may recover to the old bindings or the settled new file; success leaves only the new one |
| SecureStorage.CleanUp | src/core/secure_storage.cpp:156-160 | whichever call failed, the replacement contract holds after the unlink; a name stays behind only if its unlink was refused |
| SecureStorage.WriteAll | src/core/secure_storage.cpp:37-51 | appends a prefix, the whole on success; interrupted and partial writes touch no other file; fails exactly when a write failed |
| SecureStorage.WritePrivateFile | src/core/secure_storage.cpp:71-86 | success leaves the old text (when appending) and the new, with its content durable; other files and names are left alone; after a crash the name is sure to yield it exactly if everything else it was bound to before would yield the same, so never for a name the call created; a failure leaves the file, or some beginning of the text behind the old text (when appending); nothing is cut or written before the file was found private and given mode 600 |
| SecureStorage.CertainExactly | src/core/secure_storage.cpp:71-86 | syncing the file alone makes the text certain exactly if no other possible binding of the name differs |
| SecureStorage.ReadPrivateFile | src/core/secure_storage.cpp:163-177 | the whole file within the bound, or truthfully missing, too large or failed |
| SecureStorage.PreparingIsOld | src/core/secure_storage.cpp:120-146 | before the rename any crash recovers what could be recovered at the start |
| SecureStorage.SwitchingIsOldOrNew | src/core/secure_storage.cpp:147-155 | from the rename on any crash recovers the old possibilities or the new content |
| SecureStorage.FailedBeside | src/core/secure_storage.cpp:156-160 | a failure before the rename leaves every existing name as it was |
| SecureStorage.DoneSwitched | src/core/secure_storage.cpp:147-160 | a success, or a failed directory sync, leaves the new content and no temporary |
| Descriptors.UniqueFileDescriptor.Move | src/core/unique_file_descriptor.cpp:15-16 | the descriptor moves and the source is emptied |
| Descriptors.UniqueFileDescriptor.Destroy | src/core/unique_file_descriptor.cpp:11-13 | a held descriptor is closed once |
| Descriptors.UniqueFileDescriptor.Assign | src/core/unique_file_descriptor.cpp:18-23 | self-assignment changes nothing; otherwise the old descriptor is closed once and the other's taken over |
| Descriptors.UniqueFileDescriptor.Close | src/core/unique_file_descriptor.cpp:29-35 | a held descriptor is closed once and let go whatever close reports |
| Descriptors.OwnershipIsConserved | src/core/unique_file_descriptor.cpp:11-35 | over every run of opens, moves, assignments and closes: one owner per open file, no double close |
| Descriptors.NothingLeaks | src/core/unique_file_descriptor.cpp:11-13 | once all owners are empty every opened file was closed exactly once |
| LoggingEngine.Record | src/logging/engine/logging_engine.cpp:60-95 | one call appends its entry, or leaves the Info marker and the entry exactly when the file would exceed 512 KiB; what a failure may leave, and that it has a cause; other files are left alone and stay other files |
| LoggingEngine.EveryRunIsSerial | src/logging/engine/logging_engine.cpp:39-50 | in every interleaving the file is what the finished calls left in lock order, plus what the lock holder did so far; nobody else acts |
| LoggingEngine.SuccessLeavesABoundedFile | src/logging/engine/logging_engine.cpp:77-94 | after each successful call the file is at most 512 KiB whatever its size before |
| LoggingEngine.FormattedIsShort | src/logging/utils/logging_utils.cpp:48-51 | an entry is at most 648 bytes, so marker and entry always fit |
| LoggingEngine.FileSinceRotation | src/logging/engine/logging_engine.cpp:79-89 | the file is the surviving remainder followed by the texts since the last rotation |
| LoggingEngine.FileHoldsTheSuccessesExactly | src/logging/engine/logging_engine.cpp:60-95 | the file holds exactly the successful calls since the last rotation if and only if since then no append ended badly behind a written byte and no replacement was left in place by a failed call |
| LoggingEngine.FailedCallCanLeaveItsEntry | src/core/secure_storage.cpp:82-85 | a run in which a call fails after its bytes were written, and they stay |
| LogText.SanitizeLogValue | src/logging/utils/logging_utils.cpp:16-34 | the loop computes the redaction function, which the next two rows describe |
| LogText.NoKeyIsWritten | src/logging/utils/logging_utils.cpp:29-30 | a value without a key is written up to the limit, with spaces for controls |
| LogText.FirstKeyIsReplaced | src/logging/utils/logging_utils.cpp:20-28 | what precedes the first key is written with spaces for controls, the mark replaces exactly the key, and what follows is redacted, all up to the limit |
| LogText.EveryValueSplits | src/logging/utils/logging_utils.cpp:19-28 | every value has no key, or splits at its first one, so the two rows above cover all |
| LogText.KeyCharactersAreListed | src/logging/utils/logging_utils.cpp:11-13 | the characters of a key, one by one |
| LogText.RedactedIsBounded | src/logging/utils/logging_utils.cpp:19-25 | the output never exceeds the limit |
| LogText.RedactedIsClean | src/logging/utils/logging_utils.cpp:20-31 | no control character and no key in the output, across joins and truncation |
| LogText.KeptExactlyWhenClean | src/logging/utils/logging_utils.cpp:16-34 | a value is written as it is exactly when it is clean and fits |
| LogText.RedactingTwice | src/logging/utils/logging_utils.cpp:16-34 | redaction is idempotent |
| LogAnalysis.ParseEntry | src/logging/analysis/log_analysis.cpp:37-52 | the field loop accepts exactly five fields with a 20-byte timestamp, a level, the channel and a safe name |
| LogAnalysis.ParsedExactly | src/logging/analysis/log_analysis.cpp:25-52 | a line is an entry exactly when it is the five fields joined: 20 bytes of time, the level's name, this channel's name, a name of up to 96 listed characters, and anything |
| LogAnalysis.ParseInvertsFormat | src/logging/analysis/log_analysis.cpp:37-52 | a formatted line parses back to its timestamp, level and redacted name, for every detail |
| LogAnalysis.WrittenFields | src/logging/utils/logging_utils.cpp:48-51 | the fields of a written line: time, level and channel by name, the event redacted to 96 and the detail to 512 |
| LogAnalysis.RankEvents | src/logging/analysis/log_analysis.cpp:54-60 | at most six true counts in rank order; what is left out ranks behind a full list |
| LogAnalysis.Inspect | src/logging/analysis/log_analysis.cpp:63-93 | entries, warnings, errors, latest timestamp, rankings and diagnosis are those of the entries in the four files |
| LogAnalysis.DiagnosisExactly | src/logging/analysis/log_analysis.cpp:68-91 | the last channel that could not be located or read decides; then no logs yet, then no errors, then nothing |
| LogPipeline.HistoryIsReported | src/logging/analysis/log_analysis.cpp:63-90 | whatever calls succeeded, failed, tore their entries or rotated: a channel's file reports the whole entries since the last rotation that do not continue a torn one, and at most one more at the end |
| LogPipeline.JoinedLineIsRefused | src/logging/analysis/log_analysis.cpp:37-52 | a line that continues a torn one is never taken for an entry |
| LogPipeline.SuccessIsReportedExactly | src/logging/engine/logging_engine.cpp:90-94 | a successful appending call with a safe name is reported if and only if its file was empty or ended with a newline; what was reported before stays reported if and only if it did not include a torn last line |
| LogPipeline.SuccessAndRemnantAreLost | src/logging/engine/logging_engine.cpp:90-94 | for any two calls of that kind the reported entries go from one to none |
| LogPipeline.SuccessCanBeLost | src/core/secure_storage.cpp:37-51 | a start that is reported although its append failed before the newline, and a stop that succeeds and takes both out of the report |
| LogPipeline.UndisturbedIsReported | src/logging/analysis/log_analysis.cpp:76-80 | if no file was rotated, no success was lost and no failed call is reported, a channel's file yields its successful calls in order |
| LogPipeline.EveryEntryIsAccountedFor | src/logging/analysis/log_analysis.cpp:76-80 | without rotation the entries reported and the lost successes are, as multisets, the successes, the failed calls that left their whole line and a reportable torn last line; so exactly the successes are reported if and only if the lost ones make up for the rest |
| LogPipeline.QuietFailuresDisturbNothing | src/logging/engine/logging_engine.cpp:90-94 | without rotation it is enough that no failed call left anything in a file |
| LogPipeline.InspectionCountsTheRun | src/logging/analysis/log_analysis.cpp:63-90 | from empty logs, after any interleaving of calls on the four channels in which no file was rotated, no success was lost and no failed call is reported, every counter agrees with the successful calls whose redacted names are safe |
| LogPipeline.InspectionCountsEveryCall | src/logging/analysis/log_analysis.cpp:63-90 | with safe names without keys, every counter then agrees with all the successful calls |
| LogPipeline.FilesAreWithinTheLimit | src/logging/engine/logging_engine.cpp:77-94 | no history makes a file that the inspection would refuse as too large |
| NetworkHistory.RecordSplitsIntoItsFields | src/network/network_history.cpp:15-22 | whatever the metadata held, a record splits into its thirteen fields again, each in its place, with active or inactive last |
| NetworkHistory.RetainRecentRecords | src/network/network_history.cpp:24-42 | both loops together compute the retained suffix |
| NetworkHistory.KeptIsTheLongestFittingSuffix | src/network/network_history.cpp:31-40 | what is kept is the longest suffix of the newest 511 records within 256 KiB |
| NetworkHistory.NetworkHistoryStore.Append | src/network/network_history.cpp:54-92 | a success leaves exactly the kept records and the new one, in both branches; a failure leaves the file, that result, or the file with a beginning of the record behind it |
| NetworkHistory.NetworkHistoryStore.ReadRecent | src/network/network_history.cpp:94-114 | the records of a file within 256 KiB, nothing otherwise |
| NetworkHistory.AppendKeepsTheBounds | src/network/network_history.cpp:79-85 | after a success: well-formed records, at most 512, at most 256 KiB and the new record |
| NetworkHistory.ReadableAfterAppendExactly | src/network/network_history.cpp:80-84 | the file can be read back exactly when what was kept leaves room for the new record |
| NetworkHistory.LargeRecordsCannotBeReadBack | src/network/network_history.cpp:80-84 | two successful appends after which the history is unreadable |
| NetworkHistory.SmallRecordsReadBack | src/network/network_history.cpp:94-113 | with records of at most 512 bytes any run of appends reads back as the last 512 |
| TerminalText.SanitizeTerminalText | src/ui/terminal_ui.cpp:35-94 | the loop shows the pieces of the text up to the limit, and the mark if any are left |
| TerminalText.ScanSgr | src/ui/terminal_ui.cpp:47-56 | the scan finds exactly the complete SGR sequences |
| TerminalText.Decode | src/ui/terminal_ui.cpp:67-86 | the tail loop computes the decoding of the bytes at the index |
| TerminalLanguage.DecoderAcceptsExactlyTheGrammar | src/ui/terminal_ui.cpp:67-86 | the decoder takes a multi-byte sequence exactly when section 4 of RFC 3629 does, at the same width |
| TerminalLanguage.DecodedIsEncoded | src/ui/terminal_ui.cpp:68-79 | the code point it reports is the one whose encoding it read |
| TerminalLanguage.NextPieceFollowsTheGrammar | src/ui/terminal_ui.cpp:67-91 | a byte above 127 starts a UTF8-char that is passed or escaped by code point, or is hex-escaped alone |
| TerminalLanguage.NextPieceOfAscii | src/ui/terminal_ui.cpp:47-66 | a whole SGR sequence is shown as it is; otherwise a control byte or DEL as \x and the two digits that name it, and any other byte below 128 as itself |
| TerminalLanguage.FormatCharactersAreListed | src/ui/terminal_ui.cpp:27-32 | a character is escaped by code point exactly when its bytes are among those listed |
| TerminalLanguage.HexEscapeNamesTheByte | src/ui/terminal_ui.cpp:15-19 | the byte can be read off its escape |
| TerminalLanguage.UnicodeEscapeNamesTheCodepoint | src/ui/terminal_ui.cpp:21-25 | a format character can be read off its escape |
| TerminalLanguage.OutputIsSafe | src/ui/terminal_ui.cpp:38-92 | every output is printable ASCII, whole SGR sequences and harmless UTF8-chars |
| TerminalLanguage.OutputIsHarmlessUtf8 | src/ui/terminal_ui.cpp:67-91 | every output is well-formed UTF-8 without C1, bidirectional or format characters |
| TerminalLanguage.OutputControlsAreSgr | src/ui/terminal_ui.cpp:47-61 | no DEL, and a C0 byte only as the ESC of a whole SGR sequence |
| TerminalLanguage.SafeTextIsUnchanged | src/ui/terminal_ui.cpp:35-94 | text in the output language and within the limit is left alone |
| TerminalLanguage.OutputWithinTheLimitIsFixed | src/ui/terminal_ui.cpp:35-94 | an output within the limit is a fixed point |
| TerminalLanguage.SanitizingTwiceExactly | src/ui/terminal_ui.cpp:38-42 | a second pass changes nothing if and only if no escape crosses the limit |
| TerminalLanguage.SanitizingTwiceCanDiffer | src/ui/terminal_ui.cpp:38-42 | one newline at limit 1 is escaped and then cut |
| TerminalLanguage.PaintedValueIsListedExactly | src/ui/terminal_ui.cpp:113-157 | in colour a painted value passes the second sanitizing of the listing unchanged if and only if what precedes the final reset is shorter than the limit, and otherwise the reset is cut off; without colour if and only if no escape crosses the limit |
| JsonText.Escape | src/ui/dashboard_json_support.hpp:14-48 | the loop escapes character by character |
| JsonText.EscapedCharReadsBack | src/ui/dashboard_json_support.hpp:16-46 | each escape is read as its character by section 7 of RFC 8259 |
| JsonText.QuotedReadsBack | src/ui/dashboard_json_support.hpp:50-52 | reading a quoted string stops at its last byte and yields it |
| DashboardJson.AppendStringArray | src/ui/dashboard_json_v2.cpp:23-28 | appends the text of the array of these strings |
| DashboardJson.StringArrayReadsBack | src/ui/dashboard_json_v2.cpp:23-28 | reading a string array yields exactly its strings |
| DashboardJson.AppendZone | src/ui/dashboard_json_v2.cpp:30-54 | appends the text of the zone object with its fifteen members in order |
| DashboardJson.MembersAreInOrder | src/ui/dashboard_json_v2.cpp:30-54 | the keys of a zone, and of a difference, in order |
| DashboardJson.ZoneReadsBack | src/ui/dashboard_json_v2.cpp:30-54 | looking the members up by name in what is read yields the zone |
| DashboardJson.AppendDrift | src/ui/dashboard_json_v2.cpp:91-130 | appends null, or one element per differing zone in name order |
| DashboardJson.EmptyDriftDocument | src/ui/dashboard_json_v2.cpp:91-130 | the document is empty exactly when no zone differs, and then both other computations report agreement |
| DashboardJson.DriftReadsBack | src/ui/dashboard_json_v2.cpp:106-129 | reading the drift document yields null unless both observations are complete, and else every differing zone once, in name order, with where it is present and, by name, exactly the fields that differ or the side it is missing on |
| DashboardJson.RenderedReadsBack | src/ui/dashboard_json_v2.cpp:23-130 | every value the writer can produce reads back and the reader stops right behind it |
| ZoneDrift.PoliciesEqualExactly | src/firewall/firewall_state.cpp:181-200 | two zones compare equal exactly when, field by field, their policies agree: unordered fields as multisets, rich rules in order |
| ZoneDrift.ScanDecidesMapEquality | src/firewall/readiness.cpp:7-19 | the one-sided scan with the size test holds exactly when the policy maps are equal |
| ZoneDrift.MatchExactly | src/firewall/readiness.cpp:7-19 | agreement means two complete observations of the same zones with pairwise the same policies |
| ZoneDrift.MatchIsSymmetric | src/firewall/readiness.cpp:13-18 | it does not matter which side is scanned |
| ZoneDrift.DiffersIsNegation | src/security/threat_assessment.cpp:17-28 | the threat computation is the negation of the readiness one |
| ZoneDrift.DimensionsNameTheDifferences | src/ui/dashboard_json_v2.cpp:71-89 | a test's name is listed just when the test came out true |
| ZoneDrift.DimensionsTell | src/ui/dashboard_json_v2.cpp:71-89 | for each of the eleven fields: its name is listed exactly when it differs; there are no other names, and they come in the source's order |
| ZoneDrift.NoDimensionsExactly | src/ui/dashboard_json_v2.cpp:71-89 | no dimension exactly for zones equal up to interfaces |
| ZoneDrift.EmptyListImpliesMatch | src/ui/dashboard_json_v2.cpp:106-119 | an empty drift list implies the other two verdicts |
| ZoneDrift.MatchHasEmptyListExactly | src/ui/dashboard_json_v2.cpp:106-119 | when the other two report agreement, the drift list is empty if and only if every zone has its six unordered lists in the same order on both sides |
| ZoneDrift.ReorderedListsAreDriftOnlyInTheList | src/ui/dashboard_json_v2.cpp:79 | the converse fails: reordered services are drift in the list only |
| Order.SortDecidesMultisetEquality | src/firewall/firewall_state.cpp:181-185 | sort-and-compare decides equality up to order |
| Order.AtMostExactly | src/firewall/firewall_state.cpp:181-185 | the order of strings: the first difference decides, and a prefix comes first |
| RateLimiter.Create | web/src/server/request-rate-limiter.ts:21-37 | accepts exactly positive safe integers and positive windows; starts full |
| RateLimiter.TokenBucketRateLimiter.Take | web/src/server/request-rate-limiter.ts:39-62 | the new tokens and clock, and a decision that follows from them |
| RateLimiter.TokensAreTheLeastRoom | web/src/server/request-rate-limiter.ts:39-51 | over every run, the tokens before spending are the least over all windows of burst plus rate minus allowed |
| RateLimiter.RefusedExactlyWhenABoundWouldBreak | web/src/server/request-rate-limiter.ts:48-51 | a take is refused exactly when admitting it would break some window's bound |
| RateLimiter.RetryAfterIsSufficientAndLeast | web/src/server/request-rate-limiter.ts:52-60 | with an unrolled clock the announced wait is enough, and a second less is not |
| RateLimiter.RetryAfterRollbackExactly | web/src/server/request-rate-limiter.ts:41-60 | after a rollback the announced wait is enough if and only if the rollback is at most what rounding up to whole seconds added; a rollback of a second or more makes it too short |
| RateLimiter.RetryAfterRollbackCanFail | web/src/server/request-rate-limiter.ts:41-60 | a rollback after which the announced two seconds are not enough |
| RateLimiter.RemainingIsExact | web/src/server/request-rate-limiter.ts:56 | exactly that many further takes are admitted at the same instant |
| RateLimiter.TokensStayInRange | web/src/server/request-rate-limiter.ts:42-51 | tokens stay between zero and the capacity |
| SnapshotCache.SnapshotService.Begin | web/src/server/snapshot-service.ts:63-73 | what a request does before its first await, and the fields it leaves |
| SnapshotCache.SnapshotService.Finish | web/src/server/snapshot-service.ts:74-82 | what the owner does after its await: cache on success, slot cleared if its own |
| SnapshotCache.SnapshotService.Status | web/src/server/snapshot-service.ts:56-61 | cache state by age, and whether a collection is in flight |
| SnapshotCache.StatusTellsTheLatestSuccess | web/src/server/snapshot-service.ts:56-61 | in every run the status is empty exactly while no collection has succeeded, and fresh exactly if the latest success is within the ttl |
| SnapshotCache.SingleFlightAlways | web/src/server/snapshot-service.ts:68-82 | in every interleaving at most the collection in flight is unfinished, and it has one owner |
| SnapshotCache.OwnerFindsItsPromise | web/src/server/snapshot-service.ts:76-81 | the guard of the finally block is never false, and a success updates the cache in the same step |
| SnapshotCache.FailureReachesEveryCaller | web/src/server/snapshot-service.ts:68-82 | once a collection's promise has come to something, each caller that owns or joined it is answered with that and nothing else however the run goes on, and is never kept from resuming |
| SnapshotCache.ProvenanceAlways | web/src/server/snapshot-service.ts:63-91 | a cached answer is a collected snapshot of age within the ttl; a fresh one was finished after it was asked for |
| SnapshotCache.TimelyAlways | web/src/server/snapshot-service.ts:64-76 | with a monotone clock each collection starts at least ttl after any earlier success |
| SnapshotCache.SuccessesAreRateLimited | web/src/server/snapshot-service.ts:63-91 | a closed window of length W holds at most floor(W / ttl) + 1 successes |

## Left out

- Foreign calls: fork, exec, pipe, signals, setpgid, waitpid, stat, chmod and flock appear only by their outcomes; an
  interrupted waitpid or flock has already been repeated, and error texts of failed calls are arbitrary strings.
- CommandRunner.Communication.Communicate: a poll takes at least one clock tick, which is what makes the loop end; the
  conversion of the wait to a 32-bit int is not modelled.
- CommandRunner.Communication.Conclude: the wording of the diagnostics on a failure is not part of the contract, only
  that no text is added on success and that the captured text comes first.
- SecureStorage.WriteAll: only finitely many signals interrupt a write; without that bound the loop need not end.
- SecureStorage.ReplaceAtomically: descriptors are not passed through it; `Descriptors` proves their ownership separately.
- LoggingEngine.Record: the two paths of the data and lock files are given, and the lock is an outcome; its effect is
  proved on the interleaved system.
- NetworkHistory.NetworkHistoryStore.Append: for a single writer, since the source takes no lock; crashes are treated in
  `SecureStorage`.
- LogAnalysis.RankEvents: entries that tie in count and name may come in either order, as with `std::sort`.
- RateLimiter.TokenBucketRateLimiter.Take: real numbers stand for doubles, so rounding is not modelled.
- SnapshotCache.SnapshotService.Begin: `collect()` returns a promise and does not call back into the service.
- DashboardJson.RenderedReadsBack: the reader knows neither insignificant whitespace nor numbers, which these documents
  do not contain.
- DashboardJson.AppendZone: whether a zone is applicable or active is given, not derived.
- Rendering, command-line handling, port catalogues, credential and mode stores, network adapters, posture and threat
  assessment beyond drift, and the Fastify wiring: long case lists or thin layers over libraries.
