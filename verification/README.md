# Minecraft server web handler: the services as a Dafny model

This project models the sequential logic of five services of the Minecraft server web handler, a
Spring application that supervises a game-server process and lets an operator drive it from a
browser:

- `ServerDataService`: the statistics store. The console reader feeds it one line at a time, and it
  extracts the online-player count, the TPS and the memory figure, and keeps the uptime.
- `ConsoleLogService`: the bounded buffer of console lines.
- `TelegramBotService`: the credential guards and the JSON string escaping of outgoing messages,
  plus the state word of the statistics message. The HTTP client is not modelled.
- `ServerService`: the supervisor state machine. It covers:
  - the running, stopping and user-requested-stop flags, the pending stop future and the stored
    command;
  - start, stop, send-command and the stop handler;
  - the statistics timer;
  - the forced-kill deadline and the automatic restart.
- `BackupService`:
  - reading the configured backup time and the delay until the next run;
  - the notification offsets (`"3h"`, `"30m"`);
  - which categories a scheduled pass creates, and in what order;
  - archive naming, retention and listing;
  - which files an archive holds and what a restore writes back;
  - the restart notifications;
  - the stop → archive → restart coordination of `createBackup` and `restoreBackup`.

Everything is pure. Each operation is a function from the service's state and its inputs to the
next state. Whatever touches the outside world is a parameter:

- the clock (milliseconds, the local time of day, the day of the week and of the month);
- the duration formatter;
- whether a spawn or a write succeeded.

What an operation asks of that world is returned as data:

- the supervisor returns a list of `Effect`s: spawn, write, arm a timer, kill, complete a future;
- the backup coordination returns a list of `FlowStep`s.

Integers are unbounded. Java's 32-bit and 64-bit wrap-around is written out wherever it changes an
answer:

- the statistics-timer period;
- retention's `size - maxBackups`;
- `Long.parseLong` ranges;
- the `long` products of `parseTimeToMillis` (`BackupSchedule.ParseTimeToMillis`);
- the `long` delay subtraction of each restart notification (`BackupSchedule.TaskFor`).

Modules, one per file:

- `Wrappers`: `Option` and `Result`.
- `JavaString`: the `java.lang.String` and number-parsing semantics the services rely on. It covers
  `indexOf`, `split` with its trailing-empty rule, `trim`, `replace`, `toLowerCase`, `parseInt` /
  `parseLong`, fixed-width wrap-around and `compareTo` order.
- `Search` and `Sorting`: first/last match, and a stable insertion sort.
- `ServerData`, `ConsoleLog`, `Telegram`: the first three services.
- `Supervisor` and `SupervisorLaws`: the `ServerService` state machine, and its laws over single
  steps and over whole runs of events.
- `BackupSchedule`, `BackupStore`, `BackupFlow`: `BackupService`'s scheduling arithmetic, its
  files, and its coordination with the supervisor.

Where the service's description and its code differ, the model follows the code:

- **A scheduled pass always ends with "All scheduled backups completed".** Each category's chain
  has its own `exceptionally`, so "Some backups failed" is reached only when composing the chain
  itself throws. See `BackupSchedule.ThrownStopsPass`.
- **The archive leaves out only the category directory** (`<backup directory>/<type>`), not the
  whole backup root. Archives of other categories that sit under the server directory are archived
  too.
- **A restart notification whose offset exceeds the time left before the restart is still armed.**
  Its delay is negative, so it fires at once. The exception is a `long` underflow: when the restart
  time has already passed and the offset is close to `Long.MAX_VALUE` milliseconds, the delay wraps
  to a large positive value (`BackupSchedule.OverdueOffsetWraps`). Only offsets that do not parse
  to a positive value are skipped.
- **The console parser has no join, leave or ready-event parsing.**

## Model

All source paths are under `src/main/java/org/ejectfb/minecraftserverwebhandler/services/`.

| member | source | states |
|---|---|---|
| ServerData.CalculateUptime | src/main/java/org/ejectfb/minecraftserverwebhandler/services/ServerDataService.java:86-93 | "N/A" exactly while no start time is recorded (0); otherwise the formatted time elapsed since the start |
| ServerData.Reset | src/main/java/org/ejectfb/minecraftserverwebhandler/services/ServerDataService.java:104-110 | the store is the freshly constructed one (every value "N/A", start time 0), and uptime then reads "N/A" at every instant |
| ServerData.SetServerStartTime | src/main/java/org/ejectfb/minecraftserverwebhandler/services/ServerDataService.java:99-102 | records the start time, leaves players, TPS and memory alone; the uptime is what `calculateUptime` gives for the new start, so "N/A" for a start of 0 |
| ServerData.PlayersOnLine | src/main/java/org/ejectfb/minecraftserverwebhandler/services/ServerDataService.java:48-49 | fails (Java's `substring(0, -1)`) exactly when no space follows the phrase; otherwise the result is space-free and is the text up to the first space after the phrase |
| ServerData.ParseOnlinePlayers | src/main/java/org/ejectfb/minecraftserverwebhandler/services/ServerDataService.java:42-54 | on success only the stored player count can change, and nothing changes when a count was read |
| ServerData.OnlinePlayersWithoutPhrase | src/main/java/org/ejectfb/minecraftserverwebhandler/services/ServerDataService.java:52-53 | with no line carrying `"[Server thread/INFO]: There are "`, the count reads "N/A" and is stored as "N/A" |
| ServerData.OnlinePlayersFromLastMatch | src/main/java/org/ejectfb/minecraftserverwebhandler/services/ServerDataService.java:46-50 | the count comes from the last line carrying the phrase, whatever earlier lines say |
| ServerData.PlayersCountIsRead | src/main/java/org/ejectfb/minecraftserverwebhandler/services/ServerDataService.java:44-49 | on a line `… There are N of …` the count read is exactly N, and the store is untouched |
| ServerData.MemoryWithoutPhrase | src/main/java/org/ejectfb/minecraftserverwebhandler/services/ServerDataService.java:60-66 | with no line carrying `"Current Memory Usage: "` the memory reads "N/A" |
| ServerData.MemoryFromLastMatch | src/main/java/org/ejectfb/minecraftserverwebhandler/services/ServerDataService.java:60-64 | the memory is the trimmed remainder after the phrase on the last line carrying it |
| ServerData.TpsFields | src/main/java/org/ejectfb/minecraftserverwebhandler/services/ServerDataService.java:74-76 | every comma field after the last ':' is comma-free and made only of digits, '.' and '-' |
| ServerData.ParseTPS | src/main/java/org/ejectfb/minecraftserverwebhandler/services/ServerDataService.java:69-84 | the result is "N/A" or a string of digits, '.' and '-' only; the store is unchanged, or only its TPS is reset to "N/A" together with an "N/A" answer |
| ServerData.TpsWithoutSample | src/main/java/org/ejectfb/minecraftserverwebhandler/services/ServerDataService.java:82-83 | with no line naming "TPS from last" that has at least three fields, the TPS reads, and is stored as, "N/A" |
| ServerData.TpsFromFirstSample | src/main/java/org/ejectfb/minecraftserverwebhandler/services/ServerDataService.java:72-79 | the TPS is the trimmed first field of the first accepted line; earlier marker lines with fewer than three fields are skipped |
| ServerData.UpdateFromLine | src/main/java/org/ejectfb/minecraftserverwebhandler/services/ServerDataService.java:30-38 | at most one of players, memory and TPS changes; an error is possible only on a players line; a line matching no test changes nothing |
| ServerData.ParseConsoleLine | src/main/java/org/ejectfb/minecraftserverwebhandler/services/ServerDataService.java:29-40 | at most one parsed value changes, the start time is kept, and the uptime is recomputed on every line |
| ServerData.ConsoleLineDispatch | src/main/java/org/ejectfb/minecraftserverwebhandler/services/ServerDataService.java:30-39 | the players test wins over memory, and memory over TPS; each branch stores exactly its parser's answer, and every branch refreshes the uptime |
| ServerData.ShortPlayersLineReadsNotAvailable | src/main/java/org/ejectfb/minecraftserverwebhandler/services/ServerDataService.java:30-31 | a line that passes the dispatcher's `"There are "` test but lacks the parser's longer phrase stores "N/A" as the player count |
| ServerData.CountWithoutSpaceFails | src/main/java/org/ejectfb/minecraftserverwebhandler/services/ServerDataService.java:49 | a players line whose count is not followed by a space raises the exception, and nothing is stored |
| ServerData.MemoryWithoutSpaceReadsNotAvailable | src/main/java/org/ejectfb/minecraftserverwebhandler/services/ServerDataService.java:33-34 | a line with `"Current Memory Usage:"` but no space after the colon stores "N/A" as the memory |
| ConsoleLog.AddLog | src/main/java/org/ejectfb/minecraftserverwebhandler/services/ConsoleLogService.java:15-20 | the message becomes the newest entry after the earlier ones in order; past 5000 entries exactly the oldest 1000 go; a buffer within 5000 stays within 5000 |
| ConsoleLog.AddAllStaysBounded | src/main/java/org/ejectfb/minecraftserverwebhandler/services/ConsoleLogService.java:13-20 | from any buffer within the bound, every sequence of appends keeps it within 5000 entries |
| ConsoleLog.AddLogKeepsTail | src/main/java/org/ejectfb/minecraftserverwebhandler/services/ConsoleLogService.java:16-19 | one append keeps up to 4000 of the newest entries, followed by the new one |
| ConsoleLog.AddAllKeepsRecent | src/main/java/org/ejectfb/minecraftserverwebhandler/services/ConsoleLogService.java:15-20 | eviction never loses recent lines: after any appends, the buffer ends with the last k messages, for every k up to 4001 |
| ConsoleLog.GetLogs | src/main/java/org/ejectfb/minecraftserverwebhandler/services/ConsoleLogService.java:22-24 | the copy equals the current contents; the buffer is a value and stays as it was |
| ConsoleLog.ClearLogs | src/main/java/org/ejectfb/minecraftserverwebhandler/services/ConsoleLogService.java:26-28 | the buffer is empty afterwards |
| Telegram.ReplaceChainIsEachChar | src/main/java/org/ejectfb/minecraftserverwebhandler/services/TelegramBotService.java:147-151 | the five chained `replace` calls equal escaping each character on its own (reference definition `EscapeEach`) |
| Telegram.ReplaceChainConcat | src/main/java/org/ejectfb/minecraftserverwebhandler/services/TelegramBotService.java:147-151 | escaping distributes over concatenation |
| Telegram.ReplaceChainSingle | src/main/java/org/ejectfb/minecraftserverwebhandler/services/TelegramBotService.java:147-151 | because backslash goes first, each special character is escaped exactly once and never doubled |
| Telegram.EscapeLeavesNoRawControl | src/main/java/org/ejectfb/minecraftserverwebhandler/services/TelegramBotService.java:147-151 | the escaped text holds no raw LF, CR or TAB |
| Telegram.EscapeKeepsPlainText | src/main/java/org/ejectfb/minecraftserverwebhandler/services/TelegramBotService.java:147-151 | text without backslash, quote, LF, CR or TAB is sent unchanged |
| Telegram.EscapeRoundTrip | src/main/java/org/ejectfb/minecraftserverwebhandler/services/TelegramBotService.java:147-151 | decoding the escaped text under the string rules of section 7 of RFC 8259 gives back the original (for text with no other control character) |
| Telegram.BackspaceIsNotEscaped | src/main/java/org/ejectfb/minecraftserverwebhandler/services/TelegramBotService.java:147-151 | any other control character, such as U+0008, passes raw, and the JSON string does not decode |
| Telegram.SendMessageRequest | src/main/java/org/ejectfb/minecraftserverwebhandler/services/TelegramBotService.java:125-157 | no request exactly when the token or the chat id is null or empty; otherwise a POST to `…/bot<token>/sendMessage` whose body carries the chat id and the escaped text |
| Telegram.SentTextDecodes | src/main/java/org/ejectfb/minecraftserverwebhandler/services/TelegramBotService.java:153-157 | for a message whose only control characters are LF, CR and TAB, a request is made and its text field decodes back to the message |
| Telegram.TestConnectionRequest | src/main/java/org/ejectfb/minecraftserverwebhandler/services/TelegramBotService.java:28-34 | no request exactly when either argument is null or empty; otherwise a GET of `…/bot<token>/getMe` |
| Telegram.StatusLabel | src/main/java/org/ejectfb/minecraftserverwebhandler/services/TelegramBotService.java:116 | "работает" exactly when the status equals "Running", otherwise "остановлен" |
| Supervisor.InitialIsValid | src/main/java/org/ejectfb/minecraftserverwebhandler/services/ServerService.java:27-33 | the constructed supervisor is not running, has no pending stop future and an initial statistics store, and satisfies the flag invariant |
| Supervisor.StatsPeriod | src/main/java/org/ejectfb/minecraftserverwebhandler/services/ServerService.java:174 | hours × 3 600 000 for up to 596 523 hours either way; beyond that the `int` product wraps, and the period stays a multiple of 1000 within the widened `int` range |
| Supervisor.StatsPeriodWraps | src/main/java/org/ejectfb/minecraftserverwebhandler/services/ServerService.java:174 | 596 524 hours give a negative period, and −596 524 hours a positive one |
| Supervisor.StartStatsTimer | src/main/java/org/ejectfb/minecraftserverwebhandler/services/ServerService.java:153-175 | the previous timer, if any, is cancelled first; a fresh timer replaces it and nothing else changes; it is scheduled exactly when the call completes, and fails only with an illegal period |
| Supervisor.SetPollInterval | src/main/java/org/ejectfb/minecraftserverwebhandler/services/ServerService.java:148-151 | records the hours and restarts the timer with period `StatsPeriod(hours)`, the `int` product `hours * 3600` times 1000; it is refused with `IllegalArgumentException`, the timer left unscheduled, exactly when that period is not positive (so 596 524 hours is refused); up to 596 523 hours the period is hours × 3 600 000 |
| Supervisor.StatsTick | src/main/java/org/ejectfb/minecraftserverwebhandler/services/ServerService.java:159-173 | only a tick of the current timer while the server runs does anything: it writes `list`, then `tps` only if `list` was written, and publishes the statistics exactly when both writes succeeded; a failed write ends the tick; the state never changes |
| Supervisor.SendCommand | src/main/java/org/ejectfb/minecraftserverwebhandler/services/ServerService.java:122-130 | refused without effect unless running with an open writer; otherwise exactly the command followed by "\n" is written |
| Supervisor.StartServer | src/main/java/org/ejectfb/minecraftserverwebhandler/services/ServerService.java:54-97 | the command is stored even when refused; while running it throws and spawns nothing; otherwise it clears the stop request and resets the statistics with the new start time; it ends running exactly when the spawn succeeded, with one spawn of a new session |
| Supervisor.StopServer | src/main/java/org/ejectfb/minecraftserverwebhandler/services/ServerService.java:99-120 | a no-op unless running and not stopping; otherwise it sets both stop flags, installs a fresh stop future, writes `stop` and arms the 60 s forced kill for this session; a failing write kills at once |
| Supervisor.HandleServerStopped | src/main/java/org/ejectfb/minecraftserverwebhandler/services/ServerService.java:177-205 | acts only while running: clears running, stopping and the request, and completes and drops the pending future; schedules a restart exactly when the exit was not requested |
| Supervisor.GetServerStopFuture | src/main/java/org/ejectfb/minecraftserverwebhandler/services/ServerService.java:207-209 | the pending future, or an already completed one exactly when none is pending |
| Supervisor.GetStats | src/main/java/org/ejectfb/minecraftserverwebhandler/services/ServerService.java:132-142 | the stored values, and status "Running" exactly while running, else "Stopped" |
| Supervisor.ReaderEnd | src/main/java/org/ejectfb/minecraftserverwebhandler/services/ServerService.java:79-88 | the end of the output runs the stop handler once for the live reader; later ends do nothing |
| Supervisor.ReaderLine | src/main/java/org/ejectfb/minecraftserverwebhandler/services/ServerService.java:244-248 | a line is appended to the console log and parsed into the statistics; a line the parser throws on ends the reader |
| Supervisor.RestartFired | src/main/java/org/ejectfb/minecraftserverwebhandler/services/ServerService.java:190-198 | the scheduled restart is `startServer` with the last stored command |
| Supervisor.ForceKillFiredAsWritten | src/main/java/org/ejectfb/minecraftserverwebhandler/services/ServerService.java:111-115 | the deadline as written kills whatever process runs when it fires |
| Supervisor.ForceKillFired | src/main/java/org/ejectfb/minecraftserverwebhandler/services/ServerService.java:111-115 | the corrected deadline kills only while the session it was armed for still runs |
| SupervisorLaws.StartKeepsValid | src/main/java/org/ejectfb/minecraftserverwebhandler/services/ServerService.java:54-97 | a start, refused or not, keeps the flag invariant |
| SupervisorLaws.ApplyKeepsValid | src/main/java/org/ejectfb/minecraftserverwebhandler/services/ServerService.java:54-220 | every operation and every process, reader or timer event keeps the flag invariant |
| SupervisorLaws.RunKeepsValid | src/main/java/org/ejectfb/minecraftserverwebhandler/services/ServerService.java:54-220 | every sequence of events keeps the flag invariant |
| SupervisorLaws.ReachableIsValid | src/main/java/org/ejectfb/minecraftserverwebhandler/services/ServerService.java:99-104 | in every reachable state: stopping iff a stop was requested, a future is pending iff stopping, stopping implies running, the writer is open iff running, and the console log stays within 5000 entries |
| SupervisorLaws.StopIsIdempotent | src/main/java/org/ejectfb/minecraftserverwebhandler/services/ServerService.java:100 | a second stop changes nothing and writes nothing |
| SupervisorLaws.HandleServerStoppedOnce | src/main/java/org/ejectfb/minecraftserverwebhandler/services/ServerService.java:82-87 | the reader's second call to the stop handler is a no-op |
| SupervisorLaws.CrashRestartsOnce | src/main/java/org/ejectfb/minecraftserverwebhandler/services/ServerService.java:189-198 | an exit nobody asked for schedules exactly one restart, which starts a new session with the last command |
| SupervisorLaws.RequestedStopDoesNotRestart | src/main/java/org/ejectfb/minecraftserverwebhandler/services/ServerService.java:184-201 | after a requested stop the exit completes the pending future, schedules no restart and clears the request, so later callers get a completed future |
| SupervisorLaws.StatsLabelFollowsRunning | src/main/java/org/ejectfb/minecraftserverwebhandler/services/ServerService.java:140 | the statistics message says "работает" exactly while the supervisor runs |
| SupervisorLaws.ApplyCountsSpawns | src/main/java/org/ejectfb/minecraftserverwebhandler/services/ServerService.java:72 | each step advances the session number by exactly the spawns it asks for |
| SupervisorLaws.StartCountsSpawns | src/main/java/org/ejectfb/minecraftserverwebhandler/services/ServerService.java:56-72 | a start spawns at most once, and advances the session exactly when it does |
| SupervisorLaws.RunCountsSpawns | src/main/java/org/ejectfb/minecraftserverwebhandler/services/ServerService.java:72 | over any run, the session number grows by exactly the number of spawns |
| SupervisorLaws.DeadlineSparesLaterProcesses | src/main/java/org/ejectfb/minecraftserverwebhandler/services/ServerService.java:111-115 | whatever happens between a stop and its deadline, the corrected deadline kills only if no process was spawned in between |
| SupervisorLaws.DeadlineAsWrittenKillsRestartedServer | src/main/java/org/ejectfb/minecraftserverwebhandler/services/ServerService.java:111-115 | stop, exit and a new start within the minute: the deadline as written kills the new server, the corrected one spares it |
| BackupStore.BackupName | src/main/java/org/ejectfb/minecraftserverwebhandler/services/BackupService.java:240-242 | the name is 26 characters long and matches `backup_*.zip` |
| BackupStore.ParseBackupNameRoundTrip | src/main/java/org/ejectfb/minecraftserverwebhandler/services/BackupService.java:241-242 | the timestamp read back from a name is the one it was made from |
| BackupStore.ParsedNameIsCanonical | src/main/java/org/ejectfb/minecraftserverwebhandler/services/BackupService.java:241-242 | every name that parses with an in-range timestamp is exactly that timestamp's name |
| BackupStore.BackupNameInjective | src/main/java/org/ejectfb/minecraftserverwebhandler/services/BackupService.java:241-242 | two timestamps share a name only when they are equal |
| BackupStore.NameOrderIsTimeOrder | src/main/java/org/ejectfb/minecraftserverwebhandler/services/BackupService.java:241-242 | `compareTo` on two archive names is the chronological order of their timestamps |
| BackupStore.Matching | src/main/java/org/ejectfb/minecraftserverwebhandler/services/BackupService.java:388 | exactly the entries matching `backup_*.zip`, each as often as listed |
| BackupStore.DeleteOldest | src/main/java/org/ejectfb/minecraftserverwebhandler/services/BackupService.java:401-404 | deleted and kept together are the sorted backups, and no deleted one is newer than a kept one; an excess within the size deletes exactly that many, and a larger one deletes all and then fails on the index |
| BackupStore.Excess | src/main/java/org/ejectfb/minecraftserverwebhandler/services/BackupService.java:401 | `size - maxBackups` as Java's `int`: exact unless it passes `Integer.MAX_VALUE`, where it wraps to a negative number |
| BackupStore.Retain | src/main/java/org/ejectfb/minecraftserverwebhandler/services/BackupService.java:392-405 | nothing is deleted when there are at most `maxBackups`; otherwise the oldest `size − max` go and the newest `max` stay; it is always a split of the backups with no deleted one newer than a kept one |
| BackupStore.CleanupOldBackups | src/main/java/org/ejectfb/minecraftserverwebhandler/services/BackupService.java:385-407 | a missing directory fails with nothing deleted; otherwise retention runs over the matching entries |
| BackupStore.NegativeLimitDeletesAll | src/main/java/org/ejectfb/minecraftserverwebhandler/services/BackupService.java:401-402 | a negative limit deletes every backup and then fails one index past the end |
| BackupStore.OverflowingLimitDeletesNothing | src/main/java/org/ejectfb/minecraftserverwebhandler/services/BackupService.java:392-401 | when `size - maxBackups` overflows, nothing is deleted and no error arises |
| BackupStore.NewestFirstIsTotalPreorder | src/main/java/org/ejectfb/minecraftserverwebhandler/services/BackupService.java:420 | reverse string order is total and transitive, so the listing sort is well defined |
| BackupStore.ListBackups | src/main/java/org/ejectfb/minecraftserverwebhandler/services/BackupService.java:409-423 | an empty list for a missing directory; otherwise exactly the matching names, each as often as listed, in non-increasing `compareTo` order |
| BackupStore.ListedNewestFirst | src/main/java/org/ejectfb/minecraftserverwebhandler/services/BackupService.java:420 | for archives this service named, a name listed earlier is never older |
| BackupStore.ArchiveFrom | src/main/java/org/ejectfb/minecraftserverwebhandler/services/BackupService.java:253-265 | no two entries share a name, and none repeats a name already written |
| BackupStore.ArchiveEntrySource | src/main/java/org/ejectfb/minecraftserverwebhandler/services/BackupService.java:253-259 | every entry comes from a walked regular file outside the category's backup directory, and carries that file's entry name and contents |
| BackupStore.ArchiveCoversFile | src/main/java/org/ejectfb/minecraftserverwebhandler/services/BackupService.java:253-259 | every walked regular file outside the backup directory has an entry under its name |
| BackupStore.PortableEntryName | src/main/java/org/ejectfb/minecraftserverwebhandler/services/BackupService.java:258-259 | with either platform separator, an entry name is the relative path joined by '/' |
| BackupStore.EntryNameHasNoBackslash | src/main/java/org/ejectfb/minecraftserverwebhandler/services/BackupService.java:259 | no entry name contains a backslash |
| BackupStore.ExtractedLastWins | src/main/java/org/ejectfb/minecraftserverwebhandler/services/BackupService.java:330-335 | a file entry that no later entry overwrites is what extraction leaves at its target |
| BackupStore.ExtractedFromEntry | src/main/java/org/ejectfb/minecraftserverwebhandler/services/BackupService.java:330-335 | every extracted file comes from an entry that targets it |
| BackupStore.RestoreBackup | src/main/java/org/ejectfb/minecraftserverwebhandler/services/BackupService.java:317-362 | a missing archive fails and touches nothing; otherwise extracted files replace those at the same paths, and every other file stays as it was; an entry is restored at its name with "." parts and doubled slashes dropped, and an absolute name or a directory entry restores nothing |
| BackupStore.FileTarget | src/main/java/org/ejectfb/minecraftserverwebhandler/services/BackupService.java:330-335 | a directory entry or a name starting with '/' has no target in the temporary directory; any other target is the resolved name, a non-empty list of components with no "." or empty part and no slash |
| BackupStore.DotPartDropped | src/main/java/org/ejectfb/minecraftserverwebhandler/services/BackupService.java:330-335 | an entry named "a/./b" is written, and so restored, at a/b |
| BackupStore.AbsoluteEntryNotRestored | src/main/java/org/ejectfb/minecraftserverwebhandler/services/BackupService.java:330-351 | an entry with an absolute name lands outside the temporary directory: every restored file comes from some other entry |
| BackupStore.ArchivedEntry | src/main/java/org/ejectfb/minecraftserverwebhandler/services/BackupService.java:331-334 | every entry of a fresh archive is a file entry that extracts to the path of the file it came from, with its contents |
| BackupStore.RestoreRecoversArchivedFile | src/main/java/org/ejectfb/minecraftserverwebhandler/services/BackupService.java:339-351 | restoring a fresh archive puts every archived file back with the contents it had |
| BackupStore.ExtractedAreArchivedFiles | src/main/java/org/ejectfb/minecraftserverwebhandler/services/BackupService.java:330-336 | every file such a restore writes is the path of an archived file |
| BackupStore.RestoreKeepsOtherFiles | src/main/java/org/ejectfb/minecraftserverwebhandler/services/BackupService.java:339-351 | a restore leaves every path that was not archived exactly as it was, present or absent |
| BackupSchedule.ParseHourFromTime | src/main/java/org/ejectfb/minecraftserverwebhandler/services/BackupService.java:169-179 | the result is always a Java `int`, whether read or defaulted to 4; what it reads is stated by the four lemmas below |
| BackupSchedule.ParseMinuteFromTime | src/main/java/org/ejectfb/minecraftserverwebhandler/services/BackupService.java:181-191 | the result is always a Java `int`, whether read or defaulted to 0 |
| BackupSchedule.TimeOfDayRoundTrip | src/main/java/org/ejectfb/minecraftserverwebhandler/services/BackupService.java:171-172 | "HH:mm" reads back as the hour and minute it was written from |
| BackupSchedule.CronRoundTrip | src/main/java/org/ejectfb/minecraftserverwebhandler/services/BackupService.java:173-174 | "0 m h * * ?" yields hour h and minute m |
| BackupSchedule.CronFieldsSplit | src/main/java/org/ejectfb/minecraftserverwebhandler/services/BackupService.java:169-191 | text of space-separated fields without ':' is read as cron: the hour from the third field and the minute from the second, each falling back to its default when missing or not an `int` |
| BackupSchedule.SingleWordFallsBack | src/main/java/org/ejectfb/minecraftserverwebhandler/services/BackupService.java:176-177 | a word with neither ':' nor a space reads as 04:00 |
| BackupSchedule.InitialDelay | src/main/java/org/ejectfb/minecraftserverwebhandler/services/BackupService.java:158-167 | fails exactly for an hour outside 0..23 or a minute outside 0..59; otherwise the delay is in whole seconds, at least 0 and under a day, lands on HH:MM:00 with now's sub-second part, and is 0 exactly when now is that instant |
| BackupSchedule.InitialDelayIsNext | src/main/java/org/ejectfb/minecraftserverwebhandler/services/BackupService.java:158-167 | any delay under a day that reaches the configured time is the computed one: it is the next occurrence |
| BackupSchedule.ParseTimeToMillis | src/main/java/org/ejectfb/minecraftserverwebhandler/services/BackupService.java:469-477 | a successful result is a Java `long` |
| BackupSchedule.OffsetSuffixRule | src/main/java/org/ejectfb/minecraftserverwebhandler/services/BackupService.java:471-476 | text is refused for its suffix exactly when it is empty or does not end in h, H, m or M |
| BackupSchedule.CountReads | src/main/java/org/ejectfb/minecraftserverwebhandler/services/BackupService.java:471-474 | a count `parseLong` reads as v, followed by 'h' or 'm', gives v hours or v minutes in milliseconds |
| BackupSchedule.LowerOffsetReads | src/main/java/org/ejectfb/minecraftserverwebhandler/services/BackupService.java:471-474 | digits followed by 'h' or 'm' read as that many hours or minutes |
| BackupSchedule.OffsetRoundTrip | src/main/java/org/ejectfb/minecraftserverwebhandler/services/BackupService.java:469-477 | "Nh" and "NH" read as N·3 600 000, "Nm" and "NM" as N·60 000 |
| BackupSchedule.UnitCaseIgnored | src/main/java/org/ejectfb/minecraftserverwebhandler/services/BackupService.java:470 | an upper-case unit letter reads as its lower-case form |
| BackupSchedule.SameLowerSameMillis | src/main/java/org/ejectfb/minecraftserverwebhandler/services/BackupService.java:470 | two texts that lower-case alike read alike |
| BackupSchedule.OffsetNeedsUnit | src/main/java/org/ejectfb/minecraftserverwebhandler/services/BackupService.java:476 | "30" and "30s" are refused for their suffix, and "h" for its number |
| BackupSchedule.ScheduledCategories | src/main/java/org/ejectfb/minecraftserverwebhandler/services/BackupService.java:96-145 | daily runs exactly when enabled, weekly exactly when enabled on a Sunday, monthly exactly when enabled on the 1st, never manual, and in the order daily, weekly, monthly |
| BackupSchedule.CategorySteps | src/main/java/org/ejectfb/minecraftserverwebhandler/services/BackupService.java:97-110 | one creation attempt; cleanup with the category's maximum exactly when the creation worked; a warning exactly when either stage failed; the pass goes on |
| BackupSchedule.PassFrom | src/main/java/org/ejectfb/minecraftserverwebhandler/services/BackupService.java:94-155 | a pass always ends with its final report, success or failure |
| BackupSchedule.PassAttemptsEveryCategory | src/main/java/org/ejectfb/minecraftserverwebhandler/services/BackupService.java:94-149 | when nothing throws while the chain is built, every category is attempted in order, and the pass reports "All scheduled backups completed" whatever the individual failures |
| BackupSchedule.ThrownStopsPass | src/main/java/org/ejectfb/minecraftserverwebhandler/services/BackupService.java:147-155 | an exception escaping `createBackup` ends the pass there with "Some backups failed" |
| BackupSchedule.FirstSundayRunsAllThree | src/main/java/org/ejectfb/minecraftserverwebhandler/services/BackupService.java:96-145 | on a Sunday the 1st with everything enabled, daily, weekly and monthly are attempted, in that order |
| BackupSchedule.PendingIds | src/main/java/org/ejectfb/minecraftserverwebhandler/services/BackupService.java:460-467 | exactly the tasks not yet done are cancelled |
| BackupSchedule.NotificationNamesOffset | src/main/java/org/ejectfb/minecraftserverwebhandler/services/BackupService.java:444-445 | a template with exactly one "{time}" is said with the offset's text in its place; other braces, such as "{server}", are said as they are |
| BackupSchedule.PlainTemplateSaidAsIs | src/main/java/org/ejectfb/minecraftserverwebhandler/services/BackupService.java:444-445 | a template without "{time}" is said unchanged |
| BackupSchedule.ArmedOffsets | src/main/java/org/ejectfb/minecraftserverwebhandler/services/BackupService.java:439-440 | only offsets that parsed to a positive value remain |
| BackupSchedule.ArmedAreFromList | src/main/java/org/ejectfb/minecraftserverwebhandler/services/BackupService.java:436-440 | every armed offset is one of the list's |
| BackupSchedule.ArmedKeepsEvery | src/main/java/org/ejectfb/minecraftserverwebhandler/services/BackupService.java:436-440 | no offset that parsed to a positive value is dropped |
| BackupSchedule.TasksFor | src/main/java/org/ejectfb/minecraftserverwebhandler/services/BackupService.java:441-452 | one task per armed offset, in order, under consecutive ids, firing (time to restart − offset) after arming, that difference taken as a `long` |
| BackupSchedule.TaskFor | src/main/java/org/ejectfb/minecraftserverwebhandler/services/BackupService.java:443-450 | the task says the template with the offset's text, is pending, and fires after the `long` difference of the time left and the offset: exact when it does not underflow, always within the `long` range |
| BackupSchedule.OverdueOffsetWraps | src/main/java/org/ejectfb/minecraftserverwebhandler/services/BackupService.java:449-450 | when the time left minus the offset underflows `Long.MIN_VALUE`, the delay wraps to a positive value, so the notification is not sent at once |
| BackupSchedule.ArmOffsets | src/main/java/org/ejectfb/minecraftserverwebhandler/services/BackupService.java:436-457 | at most one task per offset, under consecutive fresh ids, none done |
| BackupSchedule.ArmOffsetsSound | src/main/java/org/ejectfb/minecraftserverwebhandler/services/BackupService.java:439-452 | every task comes from an armed offset of the list, firing that offset before the restart and naming its text |
| BackupSchedule.ArmOffsetsComplete | src/main/java/org/ejectfb/minecraftserverwebhandler/services/BackupService.java:439-452 | every armed offset of the list gets its task |
| BackupSchedule.EntryTasksFromEntries | src/main/java/org/ejectfb/minecraftserverwebhandler/services/BackupService.java:436-452 | every task armed for the comma-separated entries belongs to an entry whose trimmed text reads as a positive offset |
| BackupSchedule.EntryTasksCoverEntries | src/main/java/org/ejectfb/minecraftserverwebhandler/services/BackupService.java:436-452 | every entry whose trimmed text reads as a positive offset gets its task |
| BackupSchedule.ScheduleRestartNotifications | src/main/java/org/ejectfb/minecraftserverwebhandler/services/BackupService.java:425-458 | the pending tasks are cancelled and forgotten first; nothing is armed unless notifications and backups are both enabled; otherwise the tasks are those of the comma-separated entries, all fresh and pending |
| BackupSchedule.ReadCountOffset | src/main/java/org/ejectfb/minecraftserverwebhandler/services/BackupService.java:437-439 | an entry with blanks before a count and unit reads as the trimmed word with that count's milliseconds |
| BackupSchedule.ReadNeedsUnit | src/main/java/org/ejectfb/minecraftserverwebhandler/services/BackupService.java:437-439 | an entry whose trimmed text does not end in a unit letter is refused |
| BackupSchedule.NegativeOffsetNotArmed | src/main/java/org/ejectfb/minecraftserverwebhandler/services/BackupService.java:440 | "-N" hours or minutes parses, to a negative value, and is not armed |
| BackupSchedule.NegativeCountReads | src/main/java/org/ejectfb/minecraftserverwebhandler/services/BackupService.java:469-474 | "-Nh" and "-Nm" read as −N hours or minutes |
| BackupSchedule.CountsArmInOrder | src/main/java/org/ejectfb/minecraftserverwebhandler/services/BackupService.java:433-452 | a list of positive counts with units arms one task per entry, in list order, each firing its offset before the restart |
| ServerData.ParseMemory | src/main/java/org/ejectfb/minecraftserverwebhandler/services/ServerDataService.java:56-66 | "N/A" when no line holds "Current Memory Usage: "; any other answer comes from such a line and has no blank at either end |
| Telegram.EscapeChain | src/main/java/org/ejectfb/minecraftserverwebhandler/services/TelegramBotService.java:147-151 | the chained `replace` calls escape each character on its own: backslash, quote, LF, CR and TAB become their two-character escapes, every other character stays |
| Telegram.MessageBodyKeepsText | src/main/java/org/ejectfb/minecraftserverwebhandler/services/TelegramBotService.java:153-157 | for one chat id, two request bodies are equal exactly when the escaped texts are, so the body carries the text whole |
| BackupSchedule.ScheduledPass | src/main/java/org/ejectfb/minecraftserverwebhandler/services/BackupService.java:89-156 | a pass over the day's categories ends with one overall report; when no category throws, every one of them is attempted, in order, and the report is completion |
| BackupSchedule.CompletedUnlessThrown | src/main/java/org/ejectfb/minecraftserverwebhandler/services/BackupService.java:96-156 | a chain of categories none of which throws attempts each in order and reports completion, never failure |
| BackupStore.Archive | src/main/java/org/ejectfb/minecraftserverwebhandler/services/BackupService.java:233-270 | no two entries of an archive share a name |
| BackupStore.ExtractInto | src/main/java/org/ejectfb/minecraftserverwebhandler/services/BackupService.java:329-336 | every entry with a target leaves a file at it, and every extracted file is the target of some entry |
| SupervisorLaws.Apply | src/main/java/org/ejectfb/minecraftserverwebhandler/services/ServerService.java:54-248 | only a start or a restart spawns a process or changes the session; a start stores its command, a restart keeps the stored one; the forced-kill deadline runs as written and kills exactly when some server is running, whichever stop armed it |
| BackupFlow.AfterCreateFailure | src/main/java/org/ejectfb/minecraftserverwebhandler/services/BackupService.java:217-226 | the catch block reports, fails the future, then starts the server anyway |
| BackupFlow.CreateBackupSteps | src/main/java/org/ejectfb/minecraftserverwebhandler/services/BackupService.java:193-231 | a stopped server is neither stopped nor started; a running one is stopped, awaited, then archived; an exception escapes the call exactly for an unchecked failure on a stopped server |
| BackupFlow.CreateSettlesOnce | src/main/java/org/ejectfb/minecraftserverwebhandler/services/BackupService.java:193-231 | the returned future is settled exactly once unless an exception escapes; it completes normally exactly when the archive was written and, for a running server, the restart succeeded |
| BackupFlow.StoppedCreateSettlesOnce | src/main/java/org/ejectfb/minecraftserverwebhandler/services/BackupService.java:196-205 | the same for a stopped server |
| BackupFlow.RunningCreateSettlesOnce | src/main/java/org/ejectfb/minecraftserverwebhandler/services/BackupService.java:207-230 | the same for a running server |
| BackupFlow.FailureSettlesAtOne | src/main/java/org/ejectfb/minecraftserverwebhandler/services/BackupService.java:217-226 | the catch block settles the future once, exceptionally |
| BackupFlow.CreateRestartsAfterArchive | src/main/java/org/ejectfb/minecraftserverwebhandler/services/BackupService.java:211-226 | whatever happens to the archive, a running server is started again after the stop and the archive work |
| BackupFlow.RestoreContinuation | src/main/java/org/ejectfb/minecraftserverwebhandler/services/BackupService.java:290-302 | the continuation waits for the stop, then extracts |
| BackupFlow.RestoreBackupStepsAsWritten | src/main/java/org/ejectfb/minecraftserverwebhandler/services/BackupService.java:281-315 | the method as written always announces a start, even for a stopped server, which it never starts |
| BackupFlow.RestoreAsWrittenAnnouncesMissingStart | src/main/java/org/ejectfb/minecraftserverwebhandler/services/BackupService.java:313 | a restore of a stopped server, or a failed one, announces a start that never happens |
| BackupFlow.RestoreBackupSteps | src/main/java/org/ejectfb/minecraftserverwebhandler/services/BackupService.java:281-312 | a running server is announced, stopped, awaited, then restored |
| BackupFlow.RestoreAnnouncesOnlyStarts | src/main/java/org/ejectfb/minecraftserverwebhandler/services/BackupService.java:281-312 | corrected: a start is announced exactly when one succeeded, and right after it; the future is settled once, by the last step, normally exactly when everything worked |
| BackupFlow.StoppedRestoreAnnouncesOnlyStarts | src/main/java/org/ejectfb/minecraftserverwebhandler/services/BackupService.java:303-311 | a restore of a stopped server announces nothing and settles the future once, at the end |
| BackupFlow.RunningRestoreAnnouncesOnlyStarts | src/main/java/org/ejectfb/minecraftserverwebhandler/services/BackupService.java:284-302 | the same law for a running server |
| BackupFlow.BackupCycleRestartsServer | src/main/java/org/ejectfb/minecraftserverwebhandler/services/BackupService.java:207-214 | with the supervisor: the backup's stop hands out a pending future, and the exit completes it without an automatic restart; the backup's own start with the stored command brings the server back |
| BackupFlow.BackupDuringPendingStopWaits | src/main/java/org/ejectfb/minecraftserverwebhandler/services/BackupService.java:207-209 | a backup requested while a stop is pending does not stop again, and waits on the future already handed out |

## Left out

- **Process I/O.** `ProcessBuilder`, the OS shell choice, stream reading and writing and `destroyForcibly` are not modelled. They appear as effects (`Spawn`, `Write`, `ForceKill`) and as events (`Line`, `OutputEnd`). Whether a spawn or a write succeeded is an input.
- **Threads and timers.** Thread pools, `Timer` and `ScheduledExecutorService` mechanics, `Thread.sleep` and `CompletableFuture` chaining are reduced to the order of their steps. Each event is applied atomically. The source does not guarantee this: `handleServerStopped` and `handleServerOutput` are not `synchronized` and run on the reader thread, while `startServer`, `stopServer` and `sendCommand` hold the service's lock on the web thread. Interleavings of the two are not modelled. One of them loses an exit: the reader is submitted (`ServerService.java` line 74) before `isServerRunning = true` (line 94), so a process that ends at once can run the stop handler while the flag is still false. The handler then does nothing. Only that handler clears `isServerRunning` (lines 177-179), so the service reports a running server for the rest of its life: `startServer` is refused (lines 56-57), and a later `stopServer` hands out a future that nothing completes, on which the backup and restore continuations (`BackupService.java` lines 209 and 290) wait for ever.
- **Console broadcasts and notification texts.** The `/topic/console` messages and the Telegram notifications carry text only. They appear as flow steps where their order matters, and not otherwise.
- **The Telegram HTTP client.** The connection, the response check and `sendServerStats`' message layout are left out. The model stops at the request (URL and body) that would be sent. The bot service defines only `sendServerStartNotification`, `sendServerStopNotification`, `sendServerStats` and `sendMessage` (`TelegramBotService.java` lines 94-125). The services call eight more notification methods it does not define:
  - `sendServerStopingNotification` (`ServerService.java` line 109);
  - `sendServerRestartNotification` (`ServerService.java` line 193);
  - `sendServerStartingNotification` (`BackupService.java` lines 213, 295 and 313);
  - `sendServerBackupCreatingFailedNotification` (`BackupService.java` line 223);
  - `sendServerBackupCreatingNotification` (`BackupService.java` line 243);
  - `sendServerBackupCreatedNotification` (`BackupService.java` line 269);
  - `sendServerBackupRestoringNotification` (`BackupService.java` line 285);
  - `sendServerBackupRestoredNotification` (`BackupService.java` line 354).

  Each is taken to be a notification like the others. None has an effect on the supervisor; where their order matters they appear as flow steps.
- **The clock and `StringUtils.formatDuration`.** The clock is a parameter. The formatter is an opaque function parameter `fmt`, because its source is not part of this model.
- **Zip encoding and the file system.** Deflate and the ZIP container, `Files.walk` order, temporary-directory creation and deletion, and per-file read or copy errors are left out. Retention assumes every `Files.delete` succeeds: a failing delete in `cleanupOldBackups` (`BackupService.java` line 402) throws out of the loop and leaves the later excess backups in place, but `BackupStore.Retain` and `CleanupOldBackups` always delete the whole excess. An archive is a list of named entries, the server directory a map from paths to contents, and a category directory its listing.
- **Filesystem and timestamp edge cases.** Not covered:
  - glob case sensitivity;
  - names with both separators;
  - zip-slip entries with `..`;
  - an entry named "." or "./", which the source would try to write over the temporary directory itself;
  - a backup category directory that contains the server directory, which makes the source archive nothing;
  - a file and a directory at the same path;
  - timestamps past year 9999.

  Restore laws assume a well-formed walk with portable path components.
- BackupStore.RestoreBackup: an entry whose name starts with '/' restores nothing into the server directory. The source writes it at that absolute path (`tempDir.resolve` keeps absolute names, `BackupService.java` line 331). When that write is denied, the whole restore fails. Neither the write outside the server tree nor that failure is modelled.
- **`deleteBackup`, `getServerLogs`, `getServerCommand` and the scheduler lifecycle.**
  - `deleteBackup` is a single existence check and delete.
  - `getServerLogs` only reads the log.
  - `getServerCommand` is the stored `command` field.
  - `startBackupScheduler` and `stopBackupScheduler` only arm and cancel the daily task. The daily task is modelled through `ParseHourFromTime`, `ParseMinuteFromTime`, `InitialDelay` and `ScheduledPass`.
- **`cleanup`.** The shutdown hook (`ServerService.java` lines 35-41) is `stopServer` guarded by the running flag, which `StopServer` already checks. It has no separate member.
- **Character handling.**
  - `toLowerCase` lower-cases ASCII letters only. Java also lower-cases other letters; this does not change how an offset ending in h/m is read.
  - `Integer.parseInt` and `Long.parseLong` accept ASCII digits only. Java accepts every Unicode decimal digit, and so reads inputs the model refuses. The offset `"٣h"` (Arabic-Indic three) is 3 hours in Java but `Failure(BadNumber)` in the model. The backup time `"٠٤:٣٠"` is 04:30 in Java, while the model falls back to 4:00.
  - `compareTo` compares Unicode scalar values, not UTF-16 code units. The two orders differ for supplementary characters. The glob `backup_*.zip` can list a file whose name holds one, so the model may order such names differently from the source.
- Telegram.SentTextDecodes: stated only for messages whose control characters are LF, CR and TAB. A message with another control character, such as U+0008, yields a body whose text field is not valid JSON (`Telegram.BackspaceIsNotEscaped`).
- Telegram.EscapeRoundTrip: holds only for text whose control characters are LF, CR and TAB. The source leaves other control characters raw, which JSON forbids (see `Telegram.BackspaceIsNotEscaped`).
- BackupSchedule.OffsetRoundTrip: proved for counts up to 1 000 000. Larger counts behave the same until the `long` product overflows, which is not stated.
- BackupSchedule.CountReads: the same bound of 1 000 000 on the count.
- BackupSchedule.LowerOffsetReads: proved for counts up to 1 000 000 only.
- BackupSchedule.ReadCountOffset: proved for counts up to 1 000 000 only.
- BackupSchedule.NegativeCountReads: proved for counts down to −1 000 000 only. Below that the `long` product can overflow: `"-2562047788016h"` wraps to a positive offset.
- BackupSchedule.NegativeOffsetNotArmed: proved for counts down to −1 000 000 only. A count whose `long` product wraps positive, such as `"-2562047788016h"`, is armed by the source.
- BackupSchedule.CountsArmInOrder: proved for counts up to 1 000 000 only.
- BackupSchedule.ScheduleRestartNotifications: the time left until the restart is one `long` input. The source computes it again for each entry from the clock and would throw if `Duration.toMillis` overflowed; neither is modelled.
- BackupSchedule.ParseHourFromTime: its contract only bounds the result. What is read is stated by `TimeOfDayRoundTrip`, `CronRoundTrip`, `CronFieldsSplit` and `SingleWordFallsBack`, for well-formed inputs.
- BackupSchedule.ParseMinuteFromTime: the same as `ParseHourFromTime`.
- BackupSchedule.ParseTimeToMillis: its contract only bounds the result. The readings are stated by the offset lemmas for counts up to 1 000 000.

## Findings

| source | as written | input that shows it | evidently intended | confidence | as-written member | corrected member |
|---|---|---|---|---|---|---|
| src/main/java/org/ejectfb/minecraftserverwebhandler/services/ServerService.java:111-115 | the forced-kill task armed by `stopServer` is never cancelled and checks only `isServerRunning` | stop a running server; it exits; a backup restarts it within 60 s; the deadline then kills the new server | kill only the process the stop addressed, if it is still running | not executed | SupervisorLaws.DeadlineAsWrittenKillsRestartedServer | SupervisorLaws.DeadlineSparesLaterProcesses |
| src/main/java/org/ejectfb/minecraftserverwebhandler/services/BackupService.java:313 | `restoreBackup` sends the "server starting" notification unconditionally at the end | restore while the server is stopped, or a restore whose extraction fails: a start is announced and never happens | announce a start only after a successful start, inside the continuation | not executed | BackupFlow.RestoreAsWrittenAnnouncesMissingStart | BackupFlow.RestoreAnnouncesOnlyStarts |
