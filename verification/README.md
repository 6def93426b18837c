# Android logger: retention pass, log-file writer and façade rules

A Dafny model of the core of an Android logging library. The library has two
façades, `InLogger` and its older twin `Logger`. Each keeps a directory of
per-run log files named after their start time (`yyyy.MM.dd HH:mm:ss.log`),
writes lines to the current file through a bounded buffer, and can pack the
log files into `log.zip`.

The model covers three parts:

- **The start-up retention pass** (`setWriteToFile`, identical in both
  façades), with the clamping of its parameters. It deletes every entry that
  is not a `.log` file and sorts the `.log` names. It then removes expired
  files from the oldest end while more than `minCount` remain, and creates
  this run's file. The pass is split into layers:
  - `Pruning`: the loop, over an abstract `Age` of each name;
  - `Sweep`: the partition, the sort and the loop together;
  - `Retention`: ages drawn from the concrete time-stamp codec and the clock;
  - `Timestamp` and `Text`: zero-padded fields, `String.compareTo` order and
    a proleptic Gregorian day count.

  The loop's divergence is modelled, not assumed away. When the head of the
  list is a `.log` name that does not parse, the exception is swallowed and
  the loop spins forever. The model returns `Hung(name)` for that case.
- **`LogFileWriter`**: a sequential state machine over the buffer, the
  worker's `isWorking` flag and the file contents, driven by a trace of
  events. An event is a `logToFile` call, one worker iteration, or `flush`.
- **Façade rules**:
  - the read-and-clear crash flag;
  - `zipLog` entry selection;
  - the two line formats, with readers that recover time, tag and message;
  - how `logMessage` routes a message to the console, the file and the
    external logger.

## Model

| member | source | states |
|---|---|---|
| Retention.EffectiveRetention | android_logger/src/main/java/apps/in/android_logger/InLogger.java:96-98 | The pass runs with maxDays ≥ 1 and minCount ≥ 2, never below what the caller asked for, and each value is either the caller's or the default (the same clamping is at Logger.java:98-100). |
| Retention.LogFileName | android_logger/src/main/java/apps/in/android_logger/InLogger.java:633 | This run's file name is a `.log` name. |
| Retention.FileTime | android_logger/src/main/java/apps/in/android_logger/InLogger.java:656-658 | A name that yields a time is a `.log` name and the time is a valid calendar reading. |
| Retention.FileTimeOfLogFileName | android_logger/src/main/java/apps/in/android_logger/InLogger.java:656-658 | Reading back the name formatted from a time gives that time (parse after format is the identity). |
| Retention.LogFileNameOfFileTime | android_logger/src/main/java/apps/in/android_logger/InLogger.java:656-658 | A name the reader accepts is exactly the name formatted from the time it yields (format after parse is the identity). |
| Retention.NameOrderIsTimeOrder | android_logger/src/main/java/apps/in/android_logger/InLogger.java:652 | For two names that carry times, `compareTo` order of the names is the order of their epoch seconds, in both directions. |
| Retention.NowNotExpired | android_logger/src/main/java/apps/in/android_logger/InLogger.java:632-635 | With maxDays ≥ 1, a name carrying the current time is never older than the cutoff. |
| Retention.CurrentNameNotExpired | android_logger/src/main/java/apps/in/android_logger/InLogger.java:632-635 | This run's own file name is never expired. |
| Retention.ExpiredDownwardClosed | android_logger/src/main/java/apps/in/android_logger/InLogger.java:652-659 | In a sorted list of timed names, everything before an expired name is expired. |
| Retention.SortedIsOldFirst | android_logger/src/main/java/apps/in/android_logger/InLogger.java:652-659 | In a sorted list of timed names, the expired names are exactly a prefix. |
| Retention.SortedPairIsTimeOrder | android_logger/src/main/java/apps/in/android_logger/InLogger.java:652 | Of two timed names, the one that sorts first is no newer. |
| Retention.SetWriteToFile | android_logger/src/main/java/apps/in/android_logger/InLogger.java:620-682 | A finished pass keeps at least min(#log files, minCount) files and names this run's file after now, and that file is never among the deleted; a hung pass is stuck on a listed `.log` name that `FileTime` does not read (the same pass is at Logger.java:513-574). |
| Retention.SetWriteToFileDeletesOnlyExpired | android_logger/src/main/java/apps/in/android_logger/InLogger.java:653-677 | Every pruned file was expired; every listed `.log` file that is not expired is kept; this run's file replaces an existing one exactly when that name was listed. |
| Retention.SetWriteToFileHangsExactly | android_logger/src/main/java/apps/in/android_logger/InLogger.java:653-672 | The pass hangs if and only if, above the floor, the first non-expired sorted name is one that `FileTime` does not read. |
| Retention.SetWriteToFileKeepsNewest | android_logger/src/main/java/apps/in/android_logger/InLogger.java:653-672 | When every `.log` name carries a time, the pass finishes and keeps exactly max(#non-expired `.log` files, min(#`.log` files, minCount)) files, and when it keeps more than minCount none of them is expired. |
| Retention.SetWriteToFilePrunesOldest | android_logger/src/main/java/apps/in/android_logger/InLogger.java:652-667 | When every `.log` name carries a time, no pruned file is newer than any kept file. |
| Retention.WriteToFile | android_logger/src/main/java/apps/in/android_logger/InLogger.java:96-98 | The clamped pass keeps at least min(#log files, max(minCount, 2)) files, so at least two when at least two `.log` files were listed; this run's file is never deleted; it hangs only on a `.log` name that `FileTime` does not read. |
| Sweep.InLogNames | android_logger/src/main/java/apps/in/android_logger/InLogger.java:638-651 | A name is a candidate if and only if it was listed and ends in `.log`. |
| Sweep.InOtherNames | android_logger/src/main/java/apps/in/android_logger/InLogger.java:638-651 | A name is deleted as junk if and only if it was listed and does not end in `.log`. |
| Sweep.PartitionByName | android_logger/src/main/java/apps/in/android_logger/InLogger.java:638-651 | Every listed entry lands on exactly one side, as many times as it was listed. |
| Sweep.Candidates | android_logger/src/main/java/apps/in/android_logger/InLogger.java:636-652 | The candidates are sorted and are a permutation of the listing's `.log` names. |
| Sweep.InCandidates | android_logger/src/main/java/apps/in/android_logger/InLogger.java:636-652 | A name is a candidate exactly when it was listed and ends in `.log`. |
| Sweep.Pass | android_logger/src/main/java/apps/in/android_logger/InLogger.java:636-678 | A finished sweep keeps at least min(#log files, minCount) files and records this run's name and whether creation succeeded; a hung sweep is stuck on a listed, unparseable `.log` name. |
| Sweep.PassAccountsForEveryEntry | android_logger/src/main/java/apps/in/android_logger/InLogger.java:636-667 | junk + pruned + kept is the listing as a multiset; junk is exactly the non-`.log` entries; the sorted candidates split into a pruned prefix and a kept suffix. |
| Sweep.PassSplitsCandidates | android_logger/src/main/java/apps/in/android_logger/InLogger.java:652-667 | The sorted candidates are the pruned names followed by the kept ones. |
| Sweep.PassDeletesOnlyOld | android_logger/src/main/java/apps/in/android_logger/InLogger.java:658-677 | Every pruned name was old; this run's name is never deleted, and it is replaced exactly when it was listed. |
| Sweep.PassKeepsAllButOld | android_logger/src/main/java/apps/in/android_logger/InLogger.java:653-667 | Every listed `.log` name that is not old is kept. |
| Sweep.PassHangsExactly | android_logger/src/main/java/apps/in/android_logger/InLogger.java:653-672 | The sweep hangs if and only if the loop reaches an unparseable head above the floor before a young one. |
| Sweep.PassFinishesWhenParsed | android_logger/src/main/java/apps/in/android_logger/InLogger.java:653-672 | When every candidate parses, the sweep finishes and keeps what the loop leaves. |
| Sweep.PassKeptCount | android_logger/src/main/java/apps/in/android_logger/InLogger.java:653-667 | With parsed, old-first candidates, the sweep keeps max(#young, min(#candidates, minCount)) files. |
| Sweep.PassKeptYoung | android_logger/src/main/java/apps/in/android_logger/InLogger.java:653-667 | With parsed, old-first candidates, a sweep that keeps more than minCount files keeps only young ones. |
| Sweep.PassKeepsNewest | android_logger/src/main/java/apps/in/android_logger/InLogger.java:653-667 | The conjunction of the two above: the exact kept count, and no old file above the floor. |
| Pruning.Prune | android_logger/src/main/java/apps/in/android_logger/InLogger.java:653-672 | The survivors never exceed the candidates and never drop below min(#candidates, minCount); a hang is on an unparseable candidate. |
| Pruning.PruneExact | android_logger/src/main/java/apps/in/android_logger/InLogger.java:653-672 | With e old names at the head and k = max(0, n − minCount) removable, the loop hangs on the head at position e when e < k and that name is unparseable; otherwise it removes exactly the first min(e, k) names. |
| Pruning.PruneKeepsSuffix | android_logger/src/main/java/apps/in/android_logger/InLogger.java:653-667 | The survivors are a suffix of the sorted candidates, in the same order. |
| Pruning.PruneRemovesOnlyOld | android_logger/src/main/java/apps/in/android_logger/InLogger.java:658-665 | Every removed candidate was old. |
| Pruning.PruneStopsAtYoungHead | android_logger/src/main/java/apps/in/android_logger/InLogger.java:659-667 | When more than minCount survive, the first survivor parses and is young (the `break`). |
| Pruning.PruneHangsExactly | android_logger/src/main/java/apps/in/android_logger/InLogger.java:653-672 | The loop hangs if and only if the first non-old name lies above the floor and is unparseable. |
| Pruning.PruneRemovesOldPrefix | android_logger/src/main/java/apps/in/android_logger/InLogger.java:653-667 | When every name parses, the survivors are the candidates less their first min(#old head names, n − minCount) names. |
| Pruning.PruneRemovedCount | android_logger/src/main/java/apps/in/android_logger/InLogger.java:653-667 | When every name parses, the loop finishes with n − min(#old head names, n − minCount) survivors. |
| Pruning.ParsedNamesNeverHang | android_logger/src/main/java/apps/in/android_logger/InLogger.java:657-671 | When every name parses, the loop terminates. |
| Pruning.SurvivorsAreYoung | android_logger/src/main/java/apps/in/android_logger/InLogger.java:653-667 | With parsed, old-first names, more than minCount survivors means every survivor is young. |
| Pruning.SurvivorCountByPrefix | android_logger/src/main/java/apps/in/android_logger/InLogger.java:653-667 | With parsed names, the survivor count is max(n − #old head names, min(n, minCount)). |
| Pruning.SurvivorCount | android_logger/src/main/java/apps/in/android_logger/InLogger.java:653-667 | With parsed, old-first names, the survivor count is max(#young, min(n, minCount)). |
| Sorting.SortNames | android_logger/src/main/java/apps/in/android_logger/InLogger.java:652 | The result is ascending in `compareTo` order and is a permutation of the input. |
| Timestamp.ParseFormat | android_logger/src/main/java/apps/in/android_logger/InLogger.java:47 | Reading a formatted `yyyy.MM.dd HH:mm:ss` stamp gives back the reading. |
| Timestamp.FormatParse | android_logger/src/main/java/apps/in/android_logger/InLogger.java:47 | A stamp the reader accepts is exactly the format of what it reads. |
| Timestamp.StampLength | android_logger/src/main/java/apps/in/android_logger/InLogger.java:47 | Every formatted name stamp is 19 characters long. |
| Timestamp.FormatOrder | android_logger/src/main/java/apps/in/android_logger/InLogger.java:47 | One reading is before another if and only if its stamp sorts first. |
| Timestamp.EpochOrder | android_logger/src/main/java/apps/in/android_logger/InLogger.java:659 | Field order of readings is the order of their epoch seconds (`Date.before`). |
| Timestamp.StampOrderIsTimeOrder | android_logger/src/main/java/apps/in/android_logger/InLogger.java:652-659 | A stamp sorts before another if and only if its epoch seconds are smaller. |
| Timestamp.ParseFormatLineStamp | android_logger/src/main/java/apps/in/android_logger/InLogger.java:48 | Reading a formatted `dd.MM.yyyy HH:mm:ss.SSS` line stamp gives back the reading and its milliseconds. |
| Timestamp.FormatParseLineStamp | android_logger/src/main/java/apps/in/android_logger/InLogger.java:48 | A line stamp the reader accepts is exactly the format of what it reads. |
| Timestamp.LineStampLength | android_logger/src/main/java/apps/in/android_logger/InLogger.java:48 | Every formatted line stamp is 23 characters long. |
| LogFileWriter.LogToFile | android_logger/src/main/java/apps/in/android_logger/LogFileWriter.java:43-54 | Below 1000 entries the message is appended at the end; a full buffer leaves the writer unchanged; the flag and the file never change; boundedness is preserved. |
| LogFileWriter.AppendEach | android_logger/src/main/java/apps/in/android_logger/LogFileWriter.java:77-80 | The write loop adds a line separator and the message, for each message in order. |
| LogFileWriter.WriteBufferToFile | android_logger/src/main/java/apps/in/android_logger/LogFileWriter.java:59-85 | Afterwards the buffer is empty; when the file opens it has grown by the newline-prefixed messages in buffer order; when it does not open it is unchanged; an empty buffer writes nothing. |
| LogFileWriter.RunStaysBounded | android_logger/src/main/java/apps/in/android_logger/LogFileWriter.java:43-54 | Over any trace of events the buffer never holds more than 1000 messages. |
| LogFileWriter.Conservation | android_logger/src/main/java/apps/in/android_logger/LogFileWriter.java:43-85 | Over any trace, the messages swapped out, followed by the buffer, equal the initial buffer followed by every accepted message in submission order. |
| LogFileWriter.FileGrowsByWritten | android_logger/src/main/java/apps/in/android_logger/LogFileWriter.java:59-85 | Over any trace, the file grows by exactly the lines of the messages written, in order. |
| LogFileWriter.AllDrainedWritten | android_logger/src/main/java/apps/in/android_logger/LogFileWriter.java:72-83 | When every open succeeds, every message swapped out is written. |
| LogFileWriter.FileAndBufferHoldAllAccepted | android_logger/src/main/java/apps/in/android_logger/LogFileWriter.java:43-85 | When every open succeeds, the file followed by the buffer's lines is the old file followed by the lines of the initial buffer and of everything accepted. |
| LogFileWriter.NoWritesAfterFlush | android_logger/src/main/java/apps/in/android_logger/LogFileWriter.java:26-29 | Once the flag is cleared, no later worker iteration drains or writes, and the flag stays cleared. |
| LogFileWriter.AllAcceptedWhileRoom | android_logger/src/main/java/apps/in/android_logger/LogFileWriter.java:43-54 | While the buffer has room for every message still to come, `logToFile` accepts every one of them. |
| LogFileWriter.OpenedWriterLosesNothing | android_logger/src/main/java/apps/in/android_logger/LogFileWriter.java:17-85 | A writer opened on a file, with every open succeeding and at most 1000 messages logged, stays bounded, and its file followed by its buffered lines is the old file followed by every logged message, in order. |
| LogFileWriter.FlushStopsWriting | android_logger/src/main/java/apps/in/android_logger/LogFileWriter.java:87-95 | After `flush` the file never changes again and the flag stays cleared; later messages only pile up in the buffer. |
| LogFileWriter.FirstMessagesKept | android_logger/src/main/java/apps/in/android_logger/LogFileWriter.java:46-48 | Without a worker iteration, the buffer accepts the first logged messages up to its remaining room and drops the rest. |
| Archive.Entries | android_logger/src/main/java/apps/in/android_logger/InLogger.java:715-748 | The entries `addLogFileToZip` adds, in listing order; never more entries than listed files (membership is `Archive.InEntries`). |
| Archive.ZipLog | android_logger/src/main/java/apps/in/android_logger/InLogger.java:709-727 | `null` exactly when the archive itself fails; a missing directory gives an empty archive; otherwise an entry is present exactly when a readable `.log` file of that name and contents was listed (the same code is at Logger.java:603-621). |
| Archive.InEntries | android_logger/src/main/java/apps/in/android_logger/InLogger.java:715-748 | An entry is present if and only if a readable `.log` file of that name and contents was listed. |
| Archive.ArchiveExcludesItself | android_logger/src/main/java/apps/in/android_logger/InLogger.java:709-727 | No entry is named `log.zip`. |
| Archive.ArchiveNamesAreLogNames | android_logger/src/main/java/apps/in/android_logger/InLogger.java:713-719 | When every file is readable, the entry names are exactly the `.log` names the retention pass treats as log files, in listing order. |
| Facade.CheckIsReadOnce | android_logger/src/main/java/apps/in/android_logger/InLogger.java:178-186 | A second check with no crash in between returns false and changes nothing. |
| Facade.CrashIsReportedOnce | android_logger/src/main/java/apps/in/android_logger/InLogger.java:178-186 | After the uncaught-exception handler records a crash (`RecordCrash`, InLogger.java:692), the next check returns true, the one after it false, and the preferences left are those a check with no crash leaves. |
| Facade.ContextMessageRecoverable | android_logger/src/main/java/apps/in/android_logger/InLogger.java:781 | When the context contains no `:`, the first `:` of the `"%s: %s"` form stands right after the context and the message is everything after the `": "`. |
| Facade.InLoggerLine | android_logger/src/main/java/apps/in/android_logger/InLogger.java:831 | The line is as long as its parts plus the five separator characters. |
| Facade.LoggerLine | android_logger/src/main/java/apps/in/android_logger/Logger.java:709 | The line is as long as its parts plus the three separator characters. |
| Facade.InLoggerLineSplits | android_logger/src/main/java/apps/in/android_logger/InLogger.java:831 | A line made of a 23-character stamp, a tag without `]` and any message splits back into exactly those parts. |
| Facade.InLoggerLineCanonical | android_logger/src/main/java/apps/in/android_logger/InLogger.java:831 | Any line that splits is exactly the line of its parts. |
| Facade.LoggerLineSplits | android_logger/src/main/java/apps/in/android_logger/Logger.java:709 | A line made of a 23-character stamp and any message splits back into exactly those parts. |
| Facade.LoggerLineCanonical | android_logger/src/main/java/apps/in/android_logger/Logger.java:709 | Any line that splits is exactly the line of its parts. |
| Facade.InLoggerLineRoundTrip | android_logger/src/main/java/apps/in/android_logger/InLogger.java:831 | A line logged at a time with a tag reads back as that time, milliseconds, tag and message. |
| Facade.LoggerLineRoundTrip | android_logger/src/main/java/apps/in/android_logger/Logger.java:709 | A line logged at a time reads back as that time, milliseconds and message. |
| Facade.AppendToFile | android_logger/src/main/java/apps/in/android_logger/Logger.java:727-737 | On a successful open the file grows by a line separator and the text; otherwise it is unchanged. |
| Facade.Dispatch | android_logger/src/main/java/apps/in/android_logger/InLogger.java:800-835 | The console gets the message if and only if console logging is on and the message is not null; a null message with console logging on throws inside the `try`, so the file and the external logger get nothing; otherwise the file gets a line if and only if file logging is on and a writer exists, and the external logger gets the message if and only if asked and present; console and external logger get the resolved tag (`tag`, else the application tag); for a 23-character stamp and a resolved tag without `]`, the file line splits back into stamp, resolved tag and message as `%s` prints them. |
| Facade.LoggerDispatch | android_logger/src/main/java/apps/in/android_logger/Logger.java:682-720 | The call throws if and only if console logging is on and the message is null, before any output; otherwise the console gets the message under the application tag if and only if console logging is on, the file gets a line if and only if file logging is on, and the external logger gets it without a tag if and only if asked and present; for a 23-character stamp, the file line splits back into stamp and message as `%s` prints it. |

## Left out

- Retention.SetWriteToFile: the stamp reader is strict, but `SimpleDateFormat.parse(String)` in the source is lenient. The source accepts names the model does not: trailing text (`2000.01.01 00:00:00x.log`), unpadded fields (`2000.1.1 0:0:0.log`), rolled-over fields (`2021.02.29 00:00:00.log`) and years outside 1583..9999. On such a name the model returns `Hung` above the floor, where the source reads a time and may delete the file. So the model's hang set strictly contains the source's. Hang-related promises (`SetWriteToFileHangsExactly`, the `Hung?` clause of `WriteToFile`) are exact only for the strict reader.
- Retention.FileTime: reads only canonical, zero-padded stamps of valid dates in years 1583..9999, the names the library itself writes; see the line above for what the lenient parser accepts beyond that.
- Retention.Cutoff: takes `calendar.add(DAY_OF_MONTH, -maxDays)` as exactly maxDays × 86 400 000 ms before now, in a zone with a fixed offset. In a zone with daylight saving time the real cutoff can differ by the shift.
- Timestamp.EpochSeconds: counts wall-clock fields in a fixed-offset zone. In the repeated autumn hour of a daylight-saving zone, name order is not time order, so `Retention.NameOrderIsTimeOrder` would not hold there.
- Timestamp.Valid: the clock is limited to years 1583..9999. Before 1583 Java's default calendar is Julian, and from year 10000 the stamp gains a digit.
- Sweep.Pass: `pruned` and `junk` are the deletions the pass asks for. A `File.delete()` that returns false is not modelled: the loop still drops that name from its list, and the file stays on disk. A `File.delete()` that throws is not modelled either: it skips `removeFirst()` (InLogger.java:660-665), so the source spins on that expired head as it does on an unparseable one, where the model prunes it. The same holds for deleting an existing file of this run's name.
- Sweep.Pass: a listing that fails (`listFiles` returns null) or a missing directory is the empty listing. `mkdir` failures are not modelled separately; their only visible effect is that `createNewFile` throws, which is the `created` parameter.
- LogFileWriter.WriteBufferToFile: a drain is all-or-nothing on `canOpen`. A write that fails part-way through the loop (LogFileWriter.java:73-83) would leave a prefix of the lines in the file; the model does not produce that outcome.
- LogFileWriter.NoWritesAfterFlush: an `InterruptedException` from `Thread.sleep` ends the worker loop (LogFileWriter.java:26-31). The model ends the loop only through `flush`. An interrupt of `flush`'s own `Thread.sleep(500)` (LogFileWriter.java:89-90) leaves `isWorking` true in the source; `LogFileWriter.Flush` always clears the flag.
- LogFileWriter.Step: threads, the semaphore, `Thread.sleep(500)` and `join(10000)` are left out. The writer is a sequential state machine, and each worker iteration is an event in a trace. The final drain is not guaranteed to happen before `flush` returns.
- Facade.LoggerDispatch: `Logger.logToFile` starts one thread per message and serialises them with a semaphore (Logger.java:710-719). The order in which lines reach the file is therefore not modelled; only the line each message produces is.
- Facade.Dispatch: `new Date()` is a parameter (the stamp), and the Android `Log.i` call and the external logger are modelled as records of what they would receive. A null `LogFileWriter` drops the line, as the source does.
- Facade.Dispatch: the only exception modelled is the one Android's `Log.i` raises for a null message (`ConsoleThrows`). Android and the external logger are not part of this model, so any other exception they might raise is not modelled; in `InLogger` an external logger that throws would have nothing left to skip.
- Facade.LoggerDispatch: as for `Facade.Dispatch`, only the null-message exception of `Log.i` is modelled; it escapes to the caller because `Logger.logMessage` has no `catch` (Logger.java:682-693).
- Archive.ZipLog: the ZIP byte encoding, the 65 545-byte copy loop and stream leaks are not modelled; an archive is a sequence of (name, contents) entries. A file whose read fails after its entry was opened would give a partial entry in the source; in the model a file is readable or not.
- Text.LexLess: Java's `compareTo` compares UTF-16 code units, Dafny compares code points. They agree on names without supplementary characters, and the names in question are digits, separators and `.log`.
- The uncaught-exception handler is modelled only through the flag it sets (`RecordCrash`). Logging the stack trace, chaining to the previous handler and `flush` are left out. `InLogger` commits the flag with `commit()`, `Logger` with `apply()`, and the model does not distinguish the two.
- Share and UI glue (`shareLog`, `shareZippedLog`, `shareRawLogs`, `getFileUri`) and the string dumps of `Bundle`, `Intent` and exceptions depend on Android runtime objects.
- The lifecycle subclasses, the demo application, `LogItem`, `ServerApi` and `LoggerNotInitializedException` only forward calls or hold data. They are not part of this model.
- The retention rule is sometimes summarised as "exactly max(minCount, files within the age window) remain". The code keeps max(#young, min(n, minCount)), which differs when fewer than minCount files exist. The loop never deletes a file that is not expired, whatever the order (`Sweep.PassKeepsAllButOld`); the count is max(#young, min(n, minCount)) only when the expired names sort before the young ones, which always holds for timed names (`Retention.SortedIsOldFirst`). The model follows the code (`Pruning.SurvivorCount`, `Sweep.PassKeptCount`).
- The archive is sometimes described as absent when there is nothing to archive. The code (InLogger.java:709-727) returns the path of an empty `log.zip` in that case, and `Archive.ZipLog` gives `Some([])`.
- The in-file line format is sometimes described as `<timestamp> [tag]: message`. The code writes `"%s:[%s]:\t%s"` in `InLogger` and `"%s - %s"` in `Logger`, and the model follows the code.
