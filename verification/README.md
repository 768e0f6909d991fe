# Jobber's run logs, scheduler and job runner, in Dafny

Jobber is a replacement for cron. This project models its three cores and proves what holds of them over whole runs.
`dafny verify dfyconfig.toml` checks everything.

**The run log.** `fileRunLog` keeps records of runs as 64-byte entries in rotated files and answers queries through an
index kept in memory; `memOnlyRunLog` keeps them in a bounded sorted array. `EntryCodec` and `BackingFiles` are the
bytes; `FileRunLogs.FileRunLog` is the log as a class over a map from paths to bytes; every method of it is proved
against the functions of `FileLogSpec` (what a Put does to the list of files) and `FileLogQueries` (what each query
answers, as a function of the files and of how far the index lags behind). What runs of Puts amount to is then proved of
those functions, in `FileLogSpec`, `InOrderRuns` and `RunLogAgreement`. `MemRunLogs.MemOnlyRunLog` is the array, proved
against the stable sort of everything ever put, cut to the capacity.

**The scheduler.** `TimeSpecLexers`, `TimeSpecParsers` and `TimeSpecExps` read, evaluate and print time specs;
`TimeSpecs` and `Calendar` say when one is satisfied; `NextRuns` is the search for the next satisfying second;
`JobHeaps` and `JobQueues` are the priority queue of jobs, in which each queue keeps a ghost history of what was taken
off it; `Jobs` is a job's status and the three error handlers.

**The runner protocol.** `RunnerProtocol` is a transition system of the manager, a runner goroutine for each start, and
a goroutine for each run of a job, which share a record channel, a wait group and a cancel context. Every interleaving
is an execution of it.

Conventions. Files and logs are newest first, as the code's indexes count. Times are nanoseconds since the epoch.
`Outcome` tells a return from a panic. `hide` statements only keep proofs quick. A method that carries a ghost
parameter takes there what is known of the bytes it works on.

## Where the code does less than it says

These are proved of the code as it is. Each has its exact condition in the table below.

- A job name with a backslash directly before `n` or `t`, within its first 16 bytes, does not come back from the log,
  because backslashes are not escaped (`EntryCodec.EntryRoundTrip`).
- An entry put out of order is accepted and stored nowhere if the current file is full and the entry belongs directly
  below the newest one (`FileLogSpec.PutConservesIffNotLost`).
- A Put out of order leaves the start indexes of the histories behind, with or without a rotation, until the next
  rotation for an entry in order, or the next opening. Queries by index that start beyond the current file then answer
  from the wrong place or panic (`FileLogQueries.IndexToEndIff`, `FileLogQueries.LaggingExample`); queries by time stay
  right unless the lagging index falls back into the current file (`FileLogQueries.TimeRangeLaggingIff`).
- `GetFromTime(t)` of the file log answers nothing when t lies in no file's span, in particular for any t past the
  newest entry (`FileLogQueries.TimeRangeExactIff`, `FileLogQueries.PastTheNewest`). That of the memory log is right
  only when exactly one entry has the time t, or when it has nothing to return (`MemRunLogs.TimeRangeExactIff`). Called
  with t alone, both panic when t is more than a second before the oldest entry, where there is nothing to return
  (`FileLogQueries.OneTimeExactIff`, `MemRunLogs.OneTimeExactIff`).
- `GetAll` panics when the oldest file has no entries. Over whole runs that happens if and only if the size limit is
  below 64 and at least one entry, but no more than there may be histories, has been written
  (`RunLogAgreement.EverythingOfRun`, `BackingFiles.RoomForOneIff`).
- `*/0` never returns, and a step of 2^63 - 1 for a month day or a month overflows and is accepted with values out of
  range (`TimeSpecExps.StepReturnsIff`, `TimeSpecParsers.AcceptedIsWithin`).
- Junk after a complete phrase is accepted, unless it spoils the numeral that it directly follows
  (`TrailingJunk.JunkIsIgnoredIff`), and `R5,5` is printed as `R5`, which is refused (`TimeSpecParsers.FieldRoundTrip`).
- A job for the 29th of February alone is given up for good when no such day comes within two years of 365 days
  (`NextRuns.LeapDayFoundIff`).
- In Backoff at level N, N - 1 chances are skipped and not N, as `ShouldRun` counts down before it looks
  (`Jobs.BackoffChance`).
- A jobfile that cannot be activated overwrites the previous one by nil before "reloading" it, and the process panics
  (`RunnerProtocol.CrashesOnlyAsKnown`).

## Model

| member | source | states |
|---|---|---|
| Decimal.ParsePrintedInt | jobfile/file_run_log.go:895-905 | What is printed for an int64 timestamp is read back by ParseInt as the same number. |
| EntryCodec.NameRoundTrip | jobfile/file_run_log.go:881-893 | At most 16 bytes of a job name come back, and they are its first 16, or all of a shorter name, if and only if these hold no backslash directly followed by n or t. |
| EntryCodec.BackslashNameIsAltered | jobfile/file_run_log.go:881-893 | A concrete name of two bytes that comes back as another one. |
| EntryCodec.DecodeEncoded | jobfile/file_run_log.go:923-978 | Decoding the record of any entry that fits yields the entry with only its name possibly changed. |
| EntryCodec.EntryRoundTrip | jobfile/file_run_log.go:881-978 | A record decodes to the encoded entry but for its name, and the name is the first 16 bytes of the encoded one's, or all of a shorter one, if and only if these hold no backslash directly followed by n or t. |
| EntryCodec.LongName | jobfile/file_run_log.go:882-887 | Of a name that is longer than 16 bytes the beginning comes back. |
| EntryCodec.RecordExample | jobfile/file_run_log.go:895-910 | One record, byte for byte: the order of the fields and what stands between and behind them. |
| EntryCodec.OldRecordsDecode | jobfile/file_run_log.go:913-921 | Records of older versions, with true and false for the fate, are read as succeeded and failed. |
| EntryCodec.DecodedIff | jobfile/file_run_log.go:923-978 | A text is read as a record if and only if, without the spaces behind it, it is five texts with tabs between them: any, an int64, one of the five fates, one of the three results, and a duration. |
| EntryCodec.RecordShape | jobfile/file_run_log.go:895-910 | A record is exactly 64 bytes long and holds no newline. |
| EntryCodec.ReencodeStored | jobfile/file_run_log.go:774-797 | What was read from a file is encoded as the same bytes again, so copying a file entry by entry never alters a record. |
| BackingFiles.RecordAt | jobfile/file_run_log.go:84-90 | The record at a relative index stands whole at its computed offset, directly after a newline or at the start of the file. |
| BackingFiles.JoinSize | jobfile/file_run_log.go:262-269 | The file size that is computed from the number of entries is the number of bytes in the file. |
| BackingFiles.ReadWritten | jobfile/file_run_log.go:109-149 | Reading any valid relative index of a written file returns the entry that was written there. |
| BackingFiles.ReadEntryOf | jobfile/file_run_log.go:135-149 | readEntry, on the bytes of a file that holds f, returns entry idx of f. |
| BackingFiles.AppendRenders | jobfile/file_run_log.go:213-222 | Appending a record, behind a newline unless it is the first, gives the bytes of the file with the entry on top. |
| BackingFiles.PushEntryF | jobfile/file_run_log.go:199-225 | Afterwards bytes and descriptor are exactly those of the file with the entry on top. |
| BackingFiles.FullAtCapacity | jobfile/file_run_log.go:255-272 | For every limit M, a file is full exactly when one more entry would make it longer than M, and that is when it has at least floor(M/65) + floor((M mod 65)/64) entries. |
| BackingFiles.RoomForOneIff | jobfile/file_run_log.go:255-272 | A file has room for an entry exactly from a limit of 64 bytes on. |
| BackingFiles.CountInvertsSize | jobfile/file_run_log.go:297-317 | The number of entries is determined by the size alone, and exactly the sizes of whole files are accepted. |
| BackingFiles.OpenWritten | jobfile/file_run_log.go:277-336 | Opening a written file gives a descriptor with the right count, earliest and latest time. |
| BackingFiles.OpenBackingFile | jobfile/file_run_log.go:277-336 | makeBackingFileDtor on a written file, against that descriptor. |
| BackingFiles.FirstEntryNotAfter | jobfile/file_run_log.go:157-173 | Binary search on disk finds the least relative index whose entry is not after t, or the number of entries. |
| BackingFiles.CopyWith | jobfile/file_run_log.go:771-798 | The copy loop's bytes and descriptor: entries lastIdx and older, with e before entry insertIdx if the loop comes to it. |
| Chronology.InsertAllIsStableSort | jobfile/run_log.go:34-36 | Inserting entries one by one yields a newest-first order that, for each time, has exactly the entries put with it, the last put first. |
| Chronology.StableSortUnique | jobfile/run_log.go:34-36 | There is only one such order, so the contents that are proved of the logs leave no choice. |
| Chronology.InsertTruncated | jobfile/mem_only_run_log.go:50-90 | Inserting into a log of bounded length and cutting is the same as inserting into the unbounded one and cutting. |
| FileLogSpec.PutInserts | jobfile/file_run_log.go:643-831 | A Put, in or out of order, that is neither refused nor lost leaves the old contents with the entry at its stable sorted place, less what a rotation dropped at the old end. |
| FileLogSpec.PutConservesIffNotLost | jobfile/file_run_log.go:769-798 | When no file is dropped, an accepted Put adds its entry to the multiset of all entries if and only if it is not the case that the current file is full, its newest entry is later than the new one, and no other entry of it is. |
| FileLogSpec.RefusedIff | jobfile/file_run_log.go:648-651 | A Put is refused if and only if the current file has entries and every one of them is later than the new one. |
| FileLogSpec.RotationSplits | jobfile/file_run_log.go:800-829 | A Put out of order on a full file leaves the newest entry alone in a new one, and in the history all the others with the new one, unless that is lost. |
| FileLogSpec.RunKeepsCapacity | jobfile/file_run_log.go:643-831 | After any run of Puts no file holds more entries than it has room for; one is always written. |
| FileLogSpec.LostLeavesContents | jobfile/file_run_log.go:769-798 | A lost entry leaves the contents as they were, less what the rotation dropped. |
| FileLogSpec.KeptIsPrefix | jobfile/file_run_log.go:389-430 | A rotation drops the oldest file, whole, and only when there are more than the permitted histories. |
| FileLogSpec.PutKeepsEachSorted | jobfile/file_run_log.go:643-831 | Every single file stays newest first under any Put, whatever the files held. |
| FileLogSpec.CopiedAll | jobfile/file_run_log.go:688-728 | The finished copy is the file with the entry inserted, or, before a rotation, the file without its newest entry and with the new one inserted if it was met. |
| FileLogSpec.RunHoldsNewest | jobfile/file_run_log.go:643-831 | After any sequence of Puts in any order of times the log is newest first and is exactly a front part of the stable sort of everything written. |
| InOrderRuns.InOrderShape | jobfile/file_run_log.go:389-430 | After puts in order there are a part-filled current file and full histories, as many as the rotations made, up to the limit. |
| InOrderRuns.InOrderSingles | jobfile/file_run_log.go:255-272 | With no room for one entry every Put rotates: files of one entry each, on top of the first, empty one. |
| InOrderRuns.InOrderContents | jobfile/file_run_log.go:643-681 | After k puts in order, with n entries per file and H histories, the log holds exactly the newest min(k, (k-1) mod n + 1 + H*n), newest first. |
| FileLogQueries.IndexRangeIsSlice | jobfile/file_run_log.go:580-615 | With a current index, or from within the current file, GetFromIndex(i, j) is the slice from i to j of all files in a row. |
| FileLogQueries.IndexRangeExact | jobfile/file_run_log.go:580-615 | With a current index GetFromIndex panics exactly on ranges outside the log, and answers every other by its slice. |
| FileLogQueries.IndexToEndIff | jobfile/file_run_log.go:580-615 | GetFromIndex(i) returns everything from i on if and only if the index is current or i is in the current file; otherwise it panics. |
| FileLogQueries.HitPosition | jobfile/file_run_log.go:537-556 | The first file whose span contains t, and the binary search in it, give the position of the first entry not after t in the whole log. |
| FileLogQueries.TimeRangeRefused | jobfile/file_run_log.go:516-535 | GetFromTime answers nothing on a log without entries, and panics on any other when maxTime is before minTime. |
| FileLogQueries.TimeRangeHit | jobfile/file_run_log.go:509-578 | When maxTime is in some file's span, GetFromTime returns exactly the entries later than minTime and no later than maxTime, in descending order. |
| FileLogQueries.TimeRangeMiss | jobfile/file_run_log.go:545-560 | When it is in none, the answer is empty, which is right exactly when no file ends within the window. |
| FileLogQueries.TimeRangeExactIff | jobfile/file_run_log.go:509-578 | With a current index the answer is what the interface promises if and only if maxTime is in some file's span or no file ends within the window. |
| FileLogQueries.TimeRangeLagging | jobfile/file_run_log.go:509-578 | On any log, a lagging index does not alter the answer when the search hits the current file or nothing, or its lagging result still lies past the current file. |
| FileLogQueries.TimeRangeLaggingIff | jobfile/file_run_log.go:509-578 | On a log that is newest first and whose oldest file has entries, exactly then. |
| FileLogQueries.OneTimeExactIff | jobfile/run_log.go:25-26 | GetFromTime(t) on a log with entries panics if and only if t is more than a second before the oldest, and returns the entries no later than t if and only if it does not panic and t is in some file's span or before all entries. |
| FileLogQueries.RunLeavesNoEmptyFile | jobfile/file_run_log.go:643-831 | With room for an entry per file, no run of Puts, in whatever order of times, leaves a file without entries, but for a new log. |
| FileLogQueries.PastTheNewest | jobfile/file_run_log.go:545-560 | For a time past the newest entry the answer is always empty. |
| FileLogQueries.LostExample | jobfile/file_run_log.go:769-798 | A full file of two entries and a Put that is accepted and lost. |
| FileLogQueries.LaggingExample | jobfile/file_run_log.go:669-679 | One Put out of order after which asking for the oldest entry panics. |
| FileLogQueries.TooSmallLimitExample | jobfile/file_run_log.go:255-272 | One Put with too small a limit after which GetAll panics. |
| FileRunLogs.FileRunLog.constructor | jobfile/file_run_log.go:867-879 | Opening a log on files that hold given entries yields those entries and a current index, in a valid log if each file is newest first; nothing else on disk changes. |
| FileRunLogs.PathsExample | jobfile/file_run_log.go:370-373 | The path of the current file is the log's own, and those of the histories end in .1, .2 and so on. |
| FileRunLogs.FileRunLog.MakeIndex | jobfile/file_run_log.go:347-383 | The index is exactly the descriptors of the files there are, with start indexes that add up; a missing current file is created empty. |
| FileRunLogs.FileRunLog.RotateFiles | jobfile/file_run_log.go:389-430 | Every file is renamed one older, the one past the limit is deleted, a new current file is empty, and the index is current. |
| FileRunLogs.FileRunLog.PushEntry | jobfile/file_run_log.go:179-191 | The entry is on top of the current file, on disk and in the index. |
| FileRunLogs.FileRunLog.Put | jobfile/file_run_log.go:643-681 | Refused, changing nothing, exactly when the current file has entries and every one is later than the new one; otherwise the bytes of the files become exactly those FilePut says, the index theirs with the lag NextLag says, and no other path changes. |
| FileRunLogs.FileRunLog.PutInOrder | jobfile/file_run_log.go:654-674 | The same for the branch for entries in order. |
| FileRunLogs.FileRunLog.BumpHistories | jobfile/file_run_log.go:669-673 | After a push, incrementing the later start indexes keeps the index the one that would be rebuilt, or as far behind as it was. |
| FileRunLogs.FileRunLog.PutInPlace | jobfile/file_run_log.go:736-819 | The same for the branch out of order without rotation. |
| FileRunLogs.FileRunLog.PutRotating | jobfile/file_run_log.go:736-831 | The same for the branch out of order with rotation. |
| FileRunLogs.FileRunLog.RewriteCurrent | jobfile/file_run_log.go:736-819 | The current file is replaced, by way of the temporary file, by the finished copy; the temporary file is gone. |
| FileRunLogs.FileRunLog.Len | jobfile/file_run_log.go:635-641 | The number of entries in all files. |
| FileRunLogs.FileRunLog.IterAt | jobfile/file_run_log.go:488-507 | Where an iterator starts for an index, as a position in the whole log, and exactly when it panics. |
| FileRunLogs.FileRunLog.GetFromIndex | jobfile/file_run_log.go:580-615 | The answer, or the panic, that IndexRange names, by reading the files' bytes across file ends. |
| FileRunLogs.FileRunLog.GetAll | jobfile/file_run_log.go:617-633 | All entries of all files, or a panic exactly when there are entries but the oldest file is empty. |
| FileRunLogs.FileRunLog.GetFromTime | jobfile/file_run_log.go:509-578 | The answer, or the panic, that TimeRange names, through binary search on disk and iteration across files. |
| FileRunLogs.FileRunLog.FindStart | jobfile/file_run_log.go:537-556 | The start index the search loop computes, from the first file whose span contains maxTime. |
| FileRunLogs.EntryIterator.Next | jobfile/file_run_log.go:444-479 | Returns the entry at the iterator's position and moves one on, across empty files too; panics exactly at the end; its recursion terminates. |
| FileRunLogs.EntryIterator.Done | jobfile/file_run_log.go:439-442 | Done exactly at the end of a log whose oldest file has entries. |
| MemRunLogs.MemOnlyRunLog.Put | jobfile/mem_only_run_log.go:50-90 | The array always holds exactly the newest entries, as many as fit, of the stable sort of everything ever put. |
| MemRunLogs.MemOnlyRunLog.RemoveOldest | jobfile/mem_only_run_log.go:71-73 | Shifting the array in place drops the oldest entry and keeps the others in order. |
| MemRunLogs.MemOnlyRunLog.InsertInOrder | jobfile/mem_only_run_log.go:77-88 | Appending and swapping down puts the entry at its stable place. |
| MemRunLogs.DropOldestThenInsert | jobfile/mem_only_run_log.go:66-88 | Dropping the oldest entry first and inserting then is inserting first and cutting then. |
| MemRunLogs.ReverseEntryArray | jobfile/mem_only_run_log.go:92-100 | A new array with the entries in reverse. |
| MemRunLogs.MemOnlyRunLog.GetFromIndex | jobfile/mem_only_run_log.go:154-200 | Entries i to j counted from the newest; a panic on a range outside; a negative index is stopped by the slice's capacity only. |
| MemRunLogs.MemOnlyRunLog.GetAll | jobfile/mem_only_run_log.go:202-204 | Everything the log holds, newest first. |
| MemRunLogs.MemOnlyRunLog.Search | jobfile/mem_only_run_log.go:137-149 | Binary search on the array finds the first entry later than t, or not earlier than t. |
| MemRunLogs.MemOnlyRunLog.GetFromTime | jobfile/mem_only_run_log.go:102-152 | The answer, or the panic, that MemRunLogs.TimeRange names. |
| MemRunLogs.TimeRangeExactIff | jobfile/mem_only_run_log.go:102-152 | That answer is what the interface promises if and only if exactly one entry has the time maxTime, or the newest is before maxTime and not later than minTime. |
| MemRunLogs.OneTimeExactIff | jobfile/run_log.go:25-26 | GetFromTime(t) on a log with entries panics if and only if t is more than a second before the oldest, and returns the entries no later than t if and only if exactly one has the time t. |
| MemRunLogs.TooLateExample | jobfile/mem_only_run_log.go:137-151 | Asked for what is no later than a time between two entries, the log returns both. |
| RunLogAgreement.SharedIndexesAgree | jobfile/run_log.go:38-46 | Fed the same Puts in any order of times, file and memory log hold the same entry at every index both have, ties included, as long as the file log refuses and loses none. |
| RunLogAgreement.AnswersAgree | jobfile/run_log.go:38-51 | While neither has evicted, both hold everything put, and all ranges a current index answers are answered alike. |
| RunLogAgreement.GetAllAgreesIff | jobfile/run_log.go:48-51 | While neither has evicted, their GetAll agree if and only if there is room for an entry in a file, or nothing was put, or more entries than histories. |
| RunLogAgreement.EverythingOfRun | jobfile/file_run_log.go:617-633 | After any run of Puts GetAll panics if and only if there is no room for an entry and from one to as many entries as histories have been written; otherwise it returns everything held. |
| RunLogAgreement.TimeRangeOfRun | jobfile/file_run_log.go:509-578 | After any run of Puts with room for an entry per file and a current index, a query by time is answered as promised if and only if maxTime is in some file's span or no file ends within the window. |
| RunLogAgreement.OneTimeOfRun | jobfile/run_log.go:25-26 | The same for GetFromTime with one argument, with the exact condition for its panic. |
| RunLogAgreement.TimeAnswersAgree | jobfile/run_log.go:22-36 | Every query by time that the memory log answers as promised, a file log with the same contents and a current index answers alike. |
| RunLogAgreement.InOrderNeverLags | jobfile/file_run_log.go:669-673 | In a run in the order of times the index kept is always the one makeIndex would build. |
| RunLogAgreement.IndexIsRebuiltIff | jobfile/file_run_log.go:347-383 | The kept index equals the rebuilt one exactly when it does not lag or there are no histories. |
| RunLogAgreement.PutAllInFiles | jobfile/run_log_test.go:61-116 | Putting any entries that fit one after another into an empty FileRunLog leaves the files and the lag that FileRun and LagAfter name for the entries as their records represent them. |
| RunLogAgreement.PutAllInMemory | jobfile/run_log_test.go:61-116 | Putting the same entries into an empty MemOnlyRunLog leaves what MemRun names. |
| TimeSpecLexers.Lexer.NextRune | jobfile/parse_time_spec.y:377-389 | Takes the next rune, the one put back first, and an end marker when there is none. |
| TimeSpecLexers.Lexer.Lex | jobfile/parse_time_spec.y:318-375 | The mutating lexer returns the token, and leaves the rest of the input, that the function LexStep names. |
| TimeSpecLexers.PrintedNumber | jobfile/parse_time_spec.y:334-356 | A printed number, followed by nothing or by punctuation, is read as that number. |
| TimeSpecExps.EvalDenotes | jobfile/parse_time_spec.y:93-202 | Evaluation of a set expression without an overflowing step yields exactly the denoted values, strictly ascending and within the field's range. |
| TimeSpecExps.EvalDenotesIff | jobfile/parse_time_spec.y:93-202 | It does if and only if the step does not overflow; with one that does, it yields a value out of range. |
| TimeSpecExps.EvalRefusedIff | jobfile/parse_time_spec.y:93-178 | It is refused exactly when a listed value is out of range or a range runs backwards, and does not end exactly for a step of 0. |
| TimeSpecExps.EvaluatedIsWithin | jobfile/parse_time_spec.y:26-78 | An accepted field names at least one value of its field and no other, if and only if it is not a step that overflows. |
| TimeSpecExps.EvaluatedStandsFor | jobfile/parse_time_spec.y:26-78 | What a field is evaluated to allows exactly the values that its expression denotes, and is a wildcard or random exactly if that is; unless its step overflows. |
| TimeSpecExps.ExpRefusedIff | jobfile/parse_time_spec.y:26-78 | A field is refused exactly when it names a value out of range or a range that runs backwards. |
| TimeSpecExps.StepLoopUsableIff | jobfile/parse_time_spec.y:93-101 | On 64-bit integers the step loop returns with values of the field if and only if the step is positive and does not overflow at its first addition. |
| TimeSpecExps.StepZeroNeverReturns | jobfile/parse_time_spec.y:97-99 | With a step of zero the loop has not returned after any number of rounds. |
| TimeSpecExps.StepReturnsIff | jobfile/parse_time_spec.y:93-101 | For every field and every 64-bit step the loop returns if and only if the step is not 0: with the denoted values if it does not overflow, and with 1, -2^63 and -1 if it does. |
| TimeSpecExps.MoreRounds | jobfile/parse_time_spec.y:97-99 | What the loop returns within some number of rounds it returns with any larger one. |
| TimeSpecExps.StepEval | jobfile/parse_time_spec.y:93-101 | The step loop on 64-bit integers, with an overflowing step too, against StepLoop; it terminates for every step but 0. |
| TimeSpecExps.RangeEval | jobfile/parse_time_spec.y:181-185 | The range loop, against all values from start to end. |
| TimeSpecExps.NormValuesSorted | jobfile/parse_time_spec.y:107-120 | The normal values are strictly ascending and have the same members. |
| TimeSpecExps.NormValuesLoop | jobfile/parse_time_spec.y:111-119 | The loop over the sorted values, with a map of those seen, computes them. |
| TimeSpecParsers.ReadTokens | jobfile/parse_time_spec.y:391-397 | The tokens the parser gets from the mutating lexer, up to the first end marker. |
| TimeSpecParsers.FieldRoundTrip | jobfile/parse_time_spec.y:391-406 | An accepted field, printed before any random choice and parsed again, has the same meaning if and only if it is not a random choice among one listed value; then its text is refused. |
| TimeSpecParsers.RandomOfOneExample | jobfile/parse_time_spec.y:249-291 | R5,5 is such a field. |
| TimeSpecParsers.FullRoundTrip | jobfile/time_spec.go:82-90 | The six printed fields of an accepted spec are accepted, with the same meaning, if and only if no given field is a random choice among one listed value. |
| TimeSpecParsers.AcceptedIsWithin | jobfile/time_spec.go:247-318 | An accepted spec names in every field at least one value of the field and no other, so that each can be satisfied, if and only if neither month day nor month is a step that overflows. |
| TimeSpecParsers.AcceptedStandsFor | jobfile/time_spec.go:247-318 | The six fields of an accepted spec, in their order, allow exactly what is written at their positions, and everything where nothing is written; unless a step of the month day or the month overflows. |
| TimeSpecParsers.FullAcceptedIff | jobfile/time_spec.go:247-318 | A spec is accepted exactly when it has at most six fields and each is accepted for its range. |
| TimeSpecParsers.FieldsSeparated | jobfile/time_spec.go:257 | White space of any kind and amount separates fields, and does nothing else. |
| TimeSpecParsers.PrintedSetParses | jobfile/parse_time_spec.y:239-300 | The text of every step, range and enumeration is parsed as it, enumerations with their values in order and once; of one value, as that value. |
| TimeSpecParsers.PrintedRandParses | jobfile/parse_time_spec.y:249-253 | The same for random choices; one among one listed value is refused. |
| TimeSpecParsers.JunkAfterStar | jobfile/parse_time_spec.y:364-372 | A star followed by a bad character other than a slash or a NUL, and by anything else, is accepted as a star. |
| TrailingJunk.JunkLexed | jobfile/parse_time_spec.y:318-389 | The tokens of any text followed by a character that begins no token and by anything else: those of the text, but for a numeral that the character spoils, a star that it makes another token of, and a NUL that is lost. |
| TrailingJunk.TopSourceOf | jobfile/parse_time_spec.y:239-300 | An expression is parsed from one sequence of tokens only. |
| TrailingJunk.JunkIsIgnoredIff | jobfile/parse_time_spec.y:318-397 | For every complete phrase, every such character and whatever follows it, the phrase is what is parsed if and only if the phrase does not end in a numeral or the character is a space or punctuation mark, with the cases of a slash after a star and of a NUL. |
| TrailingJunk.JunkExample | jobfile/parse_time_spec.y:334-349 | 5;x is read as 5, and 5x is not. |
| TimeSpecParsers.ParseFullTimeSpec | jobfile/time_spec.go:247-318 | The field-by-field parse computes what the fields' results amount to: the first failure, an excess of fields, or the spec with wildcards for missing fields. |
| TimeSpecs.SatisfiedBySecond | jobfile/time_spec.go:101-124 | Whether a time satisfies a spec depends on its second alone. |
| TimeSpecs.MonthDayAlone | jobfile/time_spec.go:101-124 | Without a demand on the weekday, a time satisfies a spec exactly if its second, minute, hour, month and day of the month do. |
| TimeSpecs.WeekdayAlone | jobfile/time_spec.go:101-124 | Without a demand on the day of the month, exactly if its second, minute, hour, month and weekday do. |
| TimeSpecs.EitherDay | jobfile/time_spec.go:107-121 | With demands on both, exactly if it satisfies the spec without the one or the spec without the other. |
| TimeSpecs.SatisfiedIffAllowed | jobfile/time_spec.go:126-218 | A field that is not random is satisfied by exactly the values it allows, and a random one by exactly the value picked. |
| TimeSpecs.SatisfiedBySet | jobfile/time_spec.go:173-180 | The loop finds the value exactly when it is in the set. |
| TimeSpecs.Satisfiable | jobfile/time_spec.go:126-237 | A derandomized field has a value that satisfies it, one that it allowed when it was written. |
| TimeSpecs.DerandomizedIsReady | jobfile/time_spec.go:212-237 | Derandomizing makes a field answerable, narrows it to one of its values, and has no effect a second time. |
| TimeSpecs.EachValueCanBePicked | jobfile/time_spec.go:230-237 | Every value a random field allows, and no other, is the only satisfying one after some choice. |
| Calendar.DateInRange | jobfile/time_spec.go:101-121 | Every day has a real Gregorian date. |
| Calendar.DateFromNamed | jobfile/time_spec.go:101-121 | Counting the days of a year and naming one by month and day are inverse. |
| Calendar.DateOfCivilDay | jobfile/time_spec.go:101-121 | The date counted from the epoch agrees with the closed form of the Gregorian calendar for every date from 1970 on. |
| Calendar.LeapDayExamples | jobfile/time_spec.go:101-121 | 2000 has a leap day and 2100 has none. |
| Calendar.KnownTime | jobfile/time_spec.go:101-121 | The second, minute, hour, date and weekday of a known time. |
| Calendar.WeekdaysGoRound | jobfile/time_spec.go:116 | The first of January 2000 is a Saturday, and each weekday follows the one before. |
| Calendar.NextOccurrence | jobfile/time_spec.go:101-121 | A day that every year has comes round within 366 days. |
| NextRuns.FindNextRunTime | jobberrunner/queue.go:11-27 | The search loop returns what NextRunTime names. |
| NextRuns.NextRunTimeIsLeast | jobberrunner/queue.go:11-27 | The result satisfies the spec, lies in the window, and no satisfying second comes before it; none in the window if there is no result. |
| NextRuns.NoneSkipped | jobberrunner/queue.go:127-131 | Asked one second after a run, it returns a later second with no satisfying second in between. |
| NextRuns.EarlierDay | jobberrunner/queue.go:11-27 | With demands on both weekday and day of the month, the next run is the earlier of those for each alone. |
| NextRuns.DailyWithinADay | jobberrunner/queue.go:11-27 | With wildcard day fields the next run is less than 86400 seconds away. |
| NextRuns.WeeklyWithinAWeek | jobberrunner/queue.go:11-27 | With weekdays asked for and any month, it is less than seven days away. |
| NextRuns.FoundUnlessRare | jobberrunner/queue.go:11-27 | Every accepted, derandomized spec that asks for weekdays, or for some day every year has, has a next run less than 375 days away. |
| NextRuns.RareMeansLeapDay | jobberrunner/queue.go:11-27 | Every other spec can be satisfied on the 29th of February only. |
| NextRuns.LeapDayFoundIff | jobberrunner/queue.go:11-27 | Such a spec has a next run if and only if it asks for that day and a leap day has a second, among those tried, at which its clock fields are satisfied. |
| NextRuns.LeapDayExample | jobfile/time_spec.go:247-318 | The text 0 0 0 29 2 is parsed as such a spec, and has no next run at the start of 1970. |
| NextRuns.LeapDayIsGivenUp | jobberrunner/queue.go:11-27 | In particular it has none when none of the next 731 days is a leap day. |
| NextRuns.LeapDayLostAtEpoch | jobberrunner/queue.go:11-27 | A concrete time at which it has none, although a leap day comes later. |
| NextRuns.LeapDayIsFound | jobberrunner/queue.go:11-27 | And it has one when one of the days 1 to 729 ahead is a leap day. |
| JobHeaps.Up | jobberrunner/queue.go:39-49 | Sifting up restores the heap order and keeps the jobs. |
| JobHeaps.Down | jobberrunner/queue.go:39-45 | Sifting down restores the heap order of the first n jobs, keeps all jobs, and leaves the rest in place. |
| JobHeaps.RootIsLeast | jobberrunner/queue.go:39-41 | In a heap no job is due before the first. |
| JobHeaps.Push | jobberrunner/queue.go:47-49 | heap.Push keeps the heap order and adds exactly the job. |
| JobHeaps.Pop | jobberrunner/queue.go:51-60 | heap.Pop keeps the heap order, removes exactly one job, and that job is due no later than any other. |
| JobQueues.JobQueue.SetJobs | jobberrunner/queue.go:70-80 | Every job gets its next run time, and exactly those that have one are queued, in a valid queue that starts a new history. |
| JobQueues.JobQueue.Pop | jobberrunner/queue.go:92-141 | Keeps the queue and its history valid; each job taken off was queued, is found at the time and standing it was queued with, and is left as its chances and next run times say, other jobs untouched; all but the last are jobs whose standing denies them the chance, and that one is returned exactly if its standing gives it; every job is kept but those without a next time; nil only when the queue is empty or the context is done before a job is due; terminates, because each skip takes seconds from those left to the queued jobs until the context is done. |
| JobQueues.JobQueue.PopOne | jobberrunner/queue.go:98-133 | One job taken off: if cancelled while sleeping it is put back as it was; otherwise it is rescheduled, ShouldRun decides and counts down, and the seconds left to the queued jobs are strictly fewer. |
| JobQueues.JobQueue.Sleep | jobberrunner/queue.go:112-125 | Wakes no earlier than the job is due, or reports that the context was done before; ends whenever the context is done at some time. |
| JobQueues.JobQueue.Reschedule | jobberrunner/queue.go:127-131 | The job's next time is strictly later than now, and it is queued again exactly if it has one. |
| JobQueues.NeverDecreases | jobberrunner/queue.go:92-141 | Over any run of Pops the scheduled times of the jobs taken off never decrease. |
| JobQueues.NoDoubledRun | jobberrunner/queue.go:112-131 | A job's next scheduled time is in a strictly later second than the one it was last taken off in. |
| JobQueues.NoneMissed | jobberrunner/queue.go:70-131 | No second that satisfies a job's spec lies strictly between the one it was taken off in and its next scheduled one, nor between the setting of the jobs and its first. |
| JobQueues.ScheduledSatisfies | jobberrunner/queue.go:70-131 | Every scheduled time of a job, its first included, satisfies its spec. |
| JobQueues.HistoryBounded | jobberrunner/queue.go:92-141 | The clock alone bounds how many jobs are taken off, run or skipped: up to any time at most the number of jobs times the number of seconds. |
| JobQueues.OncePerSecond | jobberrunner/queue.go:112-131 | Of one job there is at most one record for each second. |
| JobQueues.RanAsBackoffSays | jobberrunner/queue.go:133-139 | Over any run of Pops, whatever runs end in whatever way between a Backoff job's chances, it is run exactly when no run has failed since the last success, or at most four have and as many chances have come as the level says. |
| JobQueues.FailingJobRunsAt | jobberrunner/queue.go:133-139 | Over any run of Pops a Backoff job whose every run fails before its next chance is run at its records 1, 2, 4, 8 and 16, and at no other. |
| Jobs.Job.ShouldRun | jobfile/job.go:70-82 | The decision and the count-down that Chance names. |
| Jobs.Job.Handle | jobfile/error_handler.go:24-77 | The handlers' changes of status, level and skips that Handled names. |
| Jobs.Job.FinishRun | jobberrunner/job_runner_thread.go:154-169 | Success makes the job Good, failure goes to the handler, cancellation changes nothing; the record gets the status after that. |
| Jobs.AfterFailure | jobfile/error_handler.go:24-77 | After a failed run, however the job stood, the three handlers let it take the next chance, take none, or double its wait up to 8 and then take none. |
| Jobs.BackoffLife | jobfile/error_handler.go:44-77 | Under any interleaving of chances and ends of runs, the failures since the last success alone decide the status: Good at none, Backoff at 1 to 4 with levels 1, 2, 4, 8, Failed from 5 on; skipsLeft is the level less the chances since, and never above it. |
| Jobs.BackoffChance | jobfile/job.go:70-82 | A chance is taken in Backoff exactly when, with it, as many chances have come since the failure as the level says. |
| Jobs.StandingIsLife | jobfile/job.go:70-82 | The standing that chances and ends of runs between them give a job is that of its life so far. |
| Jobs.ContinueLife | jobfile/error_handler.go:24-26 | A job that continues after errors takes every chance. |
| Jobs.StopLife | jobfile/error_handler.go:34-36 | A job that stops after errors takes a chance exactly when no run has failed since the last success. |
| Jobs.AlwaysFailingRunsAt | jobfile/error_handler.go:44-77 | A Backoff job whose every run fails before its next chance runs at chances 1, 2, 4, 8 and 16, and never again. |
| RunnerProtocol.StepKeeps | jobberrunner/job_runner_thread.go:47-99 | Every step of manager, runner or run from a state of the invariant leads to one, or is one of the two known panics. |
| RunnerProtocol.ExecutionKeeps | jobberrunner/job_manager.go:229-290 | The same for every interleaving from the launch on. |
| RunnerProtocol.CrashesOnlyAsKnown | jobberrunner/job_manager.go:88-117 | No interleaving sends on a closed channel, closes one twice, starts a running thread, or ends prematurely: the process panics exactly on a jobfile that cannot be activated and on the record of a run that could not be carried out. |
| RunnerProtocol.NoSendOnClosed | jobberrunner/job_runner_thread.go:74-78 | In no reachable state is a send on a closed channel possible. |
| RunnerProtocol.ClosedMeansNotRunning | jobberrunner/job_runner_thread.go:26-36 | Whenever the record channel is closed the thread is not running, so that the Start after a drain cannot panic. |
| RunnerProtocol.HandledOnceInOwnLog | jobberrunner/job_manager.go:198-211 | No record is handled twice, and each goes into the log of the jobfile its run was launched under. |
| RunnerProtocol.NothingInFlight | jobberrunner/job_manager.go:88-101 | When a new jobfile is activated, and when the manager has exited, every run ever launched is over and its record handled. |
| RunnerProtocol.ShutdownEndsInExit | jobberrunner/job_manager.go:253-289 | Once a shutdown is asked for, the manager only ever cancels, drains, has exited, or has panicked on the record of a run that could not be carried out. |
| RunnerProtocol.ExitedMeansShutdown | jobberrunner/job_manager.go:253-289 | The manager exits only if a shutdown was asked for. |
| RunnerProtocol.DrainEndsAsAsked | jobberrunner/job_manager.go:93-101 | A drain that ends without a panic ends in the exit if a shutdown was asked for, and otherwise in the activation of the new jobfile. |
| RunnerProtocol.PhaseIsOfLastMove | jobberrunner/job_manager.go:88-289 | In every interleaving the manager's last move, other than handling a record, alone says which phase it is in. |
| RunnerProtocol.RunnerHasLastJobfile | jobberrunner/job_manager.go:101-116 | Whenever the manager waits for records or commands, the runner that is on takes its jobs from the jobfile activated last. |
| RunnerProtocol.DrainShrinks | jobberrunner/job_manager.go:279-285 | Every step of a drain but a launch leaves less to do. |
| RunnerProtocol.DrainGoesOn | jobberrunner/job_manager.go:279-285 | A drain never gets stuck: some step of it is always possible. |
| RunnerProtocol.DrainEnds | jobberrunner/job_manager.go:88-98 | From every state of a drain, some steps of it alone lead to its end. |
| RunnerProtocol.EveryDrainEnds | jobberrunner/job_manager.go:279-285 | Whatever steps the system takes while the manager drains, there are at most as many as there was left to do, and five more for each launch: every schedule that launches finitely often ends the drain. |

## Left out

- I/O errors, and what the code does on them; reads and writes succeed. So `renameRobust` is a rename,
  and the shadowed error in `firstEntryNotAfter` (jobfile/file_run_log.go:160-163) does not show.
- Opening a log whose files are not whole records, and Puts and queries on one whose files are out of order within;
  `popEntryF`, `deleteAll` and `debugInfo`; a negative number of histories.
- EntryCodec.Encode: durations are carried as the text that time.Duration prints, taken to have no tab, newline or
  space and to be parsed back as the same duration; any such text is accepted as one. The zero time is a constant.
- FileRunLogs.FileRunLog.Put: an entry whose fields need more than 64 bytes makes the encoder panic (EntryCodec.Encode
  says when); the method asks its caller for one that fits. The name of the temporary file is an input.
- MemRunLogs.MemOnlyRunLog.GetFromIndex: past the entries held, the slots a negative index reaches hold nil in the
  program and an unspecified entry here.
- TimeSpecs.DerandomizedIsReady: the random choice is an input, and derandomizing returns a new value instead of
  updating the spec in place; a spec belongs to one job, so no other holder of it could see the update.
- TimeSpecExps.NormValuesLoop: sort.Ints is taken to sort.
- TimeSpecExps.StepEval: a step of 0, with which the loop does not end, is a third outcome beside acceptance and refusal.
- TimeSpecParsers.ReadTokens: goyacc's tables are written as recursive descent over the same tokens; error messages
  are left out, and strings.Fields splits at ASCII white space only.
- NextRuns.FindNextRunTime: UTC, and no times before 1970; time zones and their shifts are left out.
- JobQueues.JobQueue.Pop: what a sleep comes to is a function of its start and its intended end, of which it is known
  that waking takes time and that the context is done by some time; an empty queue returns at once instead of waiting.
- JobQueues.JobQueue.SetJobs: the order in which a map is walked is arbitrary, as in Go.
- JobHeaps.Push: a slice is a sequence that the queue's field is assigned, so growth of the underlying array is not
  seen.
- RunnerProtocol.EveryDrainEnds: a runner that launches runs forever after its context is cancelled is not excluded by
  the steps; JobQueues.HistoryBounded says that the queue cannot keep it busy without the clock going on.
- Paused jobs, test jobs ("try" commands) and the pause, resume, cat and list commands.
- Result sinks, sockets, remote calls, command lines, subprocesses, YAML, users, permissions, settings and versions
  of jobfiles: input and output, or easy members only.
