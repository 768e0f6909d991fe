/**
 The two kinds of run log side by side, and the file log's index over whole runs.
 */
module RunLogAgreement {
  import opened Wrappers
  import opened RunLogEntries
  import opened Chronology
  import opened FileLogSpec
  import opened FileLogQueries
  import opened InOrderRuns
  import FileRunLogs
  import MemRunLogs
  import opened EntryCodec
  import opened BackingFiles

  /** What a memory log of the given capacity holds after these Puts; MemOnlyRunLog.Valid says so of every such log. */
  function MemRun(puts: seq<RunLogEntry>, maxLen: nat): seq<RunLogEntry> {
    Take(InsertAll(puts), maxLen)
  }

  /**
   Main result: fed the same Puts, in any order of times, the two logs hold the same entry at every index both have,
   ties included, as long as the file log refuses and loses none.
   */
  lemma SharedIndexesAgree(puts: seq<RunLogEntry>, capacity: nat, maxHistories: nat, maxLen: nat, i: nat)
    requires Written(puts, capacity, maxHistories) == puts
    requires i < |Flatten(FileRun(puts, capacity, maxHistories))| && i < |MemRun(puts, maxLen)|
    ensures Flatten(FileRun(puts, capacity, maxHistories))[i] == MemRun(puts, maxLen)[i]
  {
    RunHoldsNewest(puts, capacity, maxHistories);
  }

  /** While neither log has evicted, both hold everything put, and all ranges a current index answers agree. */
  lemma AnswersAgree(puts: seq<RunLogEntry>, capacity: nat, maxHistories: nat, maxLen: nat, minIdx: nat, maxIdx: nat)
    requires Written(puts, capacity, maxHistories) == puts
    requires |Flatten(FileRun(puts, capacity, maxHistories))| == |puts| <= maxLen
    requires minIdx <= maxIdx <= |puts| && minIdx < |puts|
    requires LagAfter(puts, capacity, maxHistories) == 0 || minIdx < |FileRun(puts, capacity, maxHistories)[0]|
    ensures Flatten(FileRun(puts, capacity, maxHistories)) == MemRun(puts, maxLen)
    ensures IndexRange(FileRun(puts, capacity, maxHistories), LagAfter(puts, capacity, maxHistories), minIdx, maxIdx)
            == Returned(MemRun(puts, maxLen)[minIdx..maxIdx])
  {
    RunHoldsNewest(puts, capacity, maxHistories);
    InsertAllMultiset(puts);
    assert |InsertAll(puts)| == |multiset(InsertAll(puts))| == |multiset(puts)| == |puts|;
    IndexRangeIsSlice(FileRun(puts, capacity, maxHistories), LagAfter(puts, capacity, maxHistories), minIdx, maxIdx);
  }

  // ---------- GetAll over whole runs ----------

  /** With no room for an entry, every Put in order rotates and every other is refused. */
  lemma {:induction false} SinglesRun(puts: seq<RunLogEntry>, maxHistories: nat)
    ensures Singles(FileRun(puts, 0, maxHistories), |Written(puts, 0, maxHistories)|, maxHistories)
  {
    if puts != [] {
      var init, e := puts[..|puts| - 1], puts[|puts| - 1];
      SinglesRun(init, maxHistories);
      var before: Files := FileRun(init, 0, maxHistories);
      SinglesRotate(before, |Written(init, 0, maxHistories)|, maxHistories, e);
      hide Singles, Kept;
      SinglesPut(before, |Written(init, 0, maxHistories)|, maxHistories, e);
    }
  }

  lemma SinglesPut(files: Files, k: nat, maxHistories: nat, e: RunLogEntry)
    requires Singles(files, k, maxHistories) && files != []
    ensures !IsLost(files, 0, e)
    ensures FilePut(files, 0, maxHistories, e) ==
            if IsTooEarly(files, e) then TooEarly else Stored(Kept([[e]] + files, maxHistories))
  {
  }

  lemma SinglesOldest(files: Files, k: nat, maxHistories: nat)
    requires Singles(files, k, maxHistories)
    ensures files != [] && (files[|files| - 1] == [] <==> k <= maxHistories) && (Flatten(files) == [] <==> k == 0)
  {
    SinglesLength(files, |files[|files| - 1]|);
  }

  lemma OldestIsHeld(files: Files)
    requires files != [] && NoEmptyFile(files)
    ensures Flatten(files) != [] ==> files[|files| - 1] != []
    ensures Flatten(files) == [] ==> files == [[]]
  {
    FlattenHead(files[0], files[1..]);
    assert files == [files[0]] + files[1..];
    if files == [[]] {
      FlattenHead([], []);
    }
  }

  /**
   Main result for GetAll over whole runs, in whatever order of times: it panics if and only if there is no room for an
   entry in a file and at least one but no more entries than histories have been written; otherwise it returns
   everything the log holds.
   */
  lemma EverythingOfRun(puts: seq<RunLogEntry>, capacity: nat, maxHistories: nat)
    ensures var files := FileRun(puts, capacity, maxHistories);
            Everything(files) ==
              if capacity == 0 && 1 <= |Written(puts, capacity, maxHistories)| <= maxHistories then Panicked
              else Returned(Flatten(files))
  {
    var files := FileRun(puts, capacity, maxHistories);
    if capacity == 0 {
      SinglesRun(puts, maxHistories);
      SinglesOldest(files, |Written(puts, capacity, maxHistories)|, maxHistories);
    } else {
      RunLeavesNoEmptyFile(puts, capacity, maxHistories);
      OldestIsHeld(files);
    }
  }

  /**
   While neither log has evicted, their GetAll agree if and only if the file log's does not panic: there is room for an
   entry in a file, or nothing was put, or more entries than histories.
   */
  lemma GetAllAgreesIff(puts: seq<RunLogEntry>, capacity: nat, maxHistories: nat, maxLen: nat)
    requires Written(puts, capacity, maxHistories) == puts
    requires |Flatten(FileRun(puts, capacity, maxHistories))| == |puts| <= maxLen
    ensures Everything(FileRun(puts, capacity, maxHistories)) == Returned(MemRun(puts, maxLen))
            <==> capacity >= 1 || puts == [] || |puts| > maxHistories
  {
    HoldsEverything(puts, capacity, maxHistories, maxLen);
    EverythingOfRun(puts, capacity, maxHistories);
  }

  lemma HoldsEverything(puts: seq<RunLogEntry>, capacity: nat, maxHistories: nat, maxLen: nat)
    requires Written(puts, capacity, maxHistories) == puts
    requires |Flatten(FileRun(puts, capacity, maxHistories))| == |puts| <= maxLen
    ensures Flatten(FileRun(puts, capacity, maxHistories)) == MemRun(puts, maxLen)
  {
    RunHoldsNewest(puts, capacity, maxHistories);
    InsertAllMultiset(puts);
    assert |InsertAll(puts)| == |multiset(InsertAll(puts))| == |multiset(puts)| == |puts|;
  }

  // ---------- GetFromTime over whole runs ----------

  /**
   Over whole runs, with room for an entry per file and a current index: a query by time is answered as promised if and
   only if maxTime lies in some file's span or no file ends within the window.
   */
  lemma TimeRangeOfRun(puts: seq<RunLogEntry>, capacity: nat, maxHistories: nat, maxTime: int, minTime: int)
    requires capacity >= 1 && LagAfter(puts, capacity, maxHistories) == 0 && minTime <= maxTime
    ensures var files := FileRun(puts, capacity, maxHistories);
            TimeRange(files, LagAfter(puts, capacity, maxHistories), maxTime, minTime)
              == Returned(Window(Flatten(files), maxTime, minTime))
            <==> HitFile(files, maxTime) < |files| || !EndsWithin(files, maxTime, minTime)
  {
    var files: Files := FileRun(puts, capacity, maxHistories);
    RunLeavesNoEmptyFile(puts, capacity, maxHistories);
    RunHoldsNewest(puts, capacity, maxHistories);
    OldestIsHeld(files);
    assert Sorted(Flatten(files));
    hide Sorted, Window;
    if Flatten(files) == [] {
      NewLog(maxTime, minTime);
    } else {
      TimeRangeExactIff(files, maxTime, minTime);
    }
  }

  lemma NewLog(maxTime: int, minTime: int)
    ensures TimeRange([[]], 0, maxTime, minTime) == Returned(Window(Flatten([[]]), maxTime, minTime))
    ensures HitFile([[]], maxTime) == 1 && !EndsWithin([[]], maxTime, minTime)
  {
    FlattenHead([], []);
    HitFileUnique([[]], maxTime, 1);
  }

  /** The same with one argument: what the interface promises, a panic, or something else, and exactly when. */
  lemma OneTimeOfRun(puts: seq<RunLogEntry>, capacity: nat, maxHistories: nat, t: int, zeroTime: int)
    requires capacity >= 1 && LagAfter(puts, capacity, maxHistories) == 0
    ensures var files := FileRun(puts, capacity, maxHistories);
            var r := TimeRange(files, 0, t, DefaultMinTime(files, zeroTime));
            if Flatten(files) == [] then r == Returned([])
            else
              && files[|files| - 1] != []
              && (r == Panicked <==> t < Oldest(files) - 1_000_000_000)
              && (r == Returned(NoLaterThan(Flatten(files), t))
                  <==> t >= Oldest(files) - 1_000_000_000 && (HitFile(files, t) < |files| || t < Oldest(files)))
  {
    var files: Files := FileRun(puts, capacity, maxHistories);
    RunLeavesNoEmptyFile(puts, capacity, maxHistories);
    RunHoldsNewest(puts, capacity, maxHistories);
    OldestIsHeld(files);
    assert Sorted(Flatten(files));
    hide Sorted, NoLaterThan, HitFile;
    if Flatten(files) == [] {
      TimeRangeRefused(files, 0, t, DefaultMinTime(files, zeroTime));
    } else {
      OneTimeExactIff(files, t, zeroTime);
    }
  }

  /**
   A query by time that the memory log answers as promised, a file log that holds the same, with a current index and a
   non-empty oldest file, answers as promised too, and so in the same way.
   */
  lemma TimeAnswersAgree(files: Files, maxTime: int, minTime: int)
    requires files != [] && Sorted(Flatten(files)) && files[|files| - 1] != [] && Flatten(files) != []
    requires minTime <= maxTime
    requires MemRunLogs.TimeRange(Flatten(files), maxTime, minTime) ==
             Returned(Window(Flatten(files), maxTime, minTime))
    ensures TimeRange(files, 0, maxTime, minTime) == MemRunLogs.TimeRange(Flatten(files), maxTime, minTime)
  {
    hide Window, TimeRange, MemRunLogs.TimeRange, AtTime, Sorted;
    MemRunLogs.TimeRangeExactIff(Flatten(files), maxTime, minTime);
    TimeRangeExactIff(files, maxTime, minTime);
    if |AtTime(Flatten(files), maxTime)| == 1 {
      AtTimeFirst(Flatten(files), maxTime);
      var p: nat :| p < |Flatten(files)| && Flatten(files)[p].time == maxTime;
      TimeIsHit(files, maxTime, p);
    } else {
      NoneEndsWithin(files, maxTime, minTime);
    }
  }

  /** The time of an entry lies in the span of a file. */
  lemma TimeIsHit(files: Files, t: int, p: nat)
    requires Sorted(Flatten(files)) && p < |Flatten(files)| && Flatten(files)[p].time == t
    ensures HitFile(files, t) < |files|
  {
    hide HitFile;
    StartOfEnd(files);
    var j := FileAt(files, p, |files|);
    EntryPosition(files, j, p - StartOf(files, j));
    FileSorted(files, j);
    var q := p - StartOf(files, j);
    assert files[j][q].time == t && files[j][|files[j]| - 1].time <= t <= files[j][0].time;
  }

  lemma NoneEndsWithin(files: Files, maxTime: int, minTime: int)
    requires Sorted(Flatten(files)) && Flatten(files) != [] && Flatten(files)[0].time <= minTime
    ensures !EndsWithin(files, maxTime, minTime)
  {
    forall i | 0 <= i < |files| && files[i] != [] ensures files[i][0].time <= minTime {
      EntryPosition(files, i, 0);
      assert Flatten(files)[StartOf(files, i)].time <= Flatten(files)[0].time;
    }
  }

  /** In a run in the order of times the index never lags: it is always the one makeIndex would build. */
  lemma {:induction false} InOrderNeverLags(puts: seq<RunLogEntry>, capacity: nat, maxHistories: nat)
    requires Ascending(puts)
    ensures LagAfter(puts, capacity, maxHistories) == 0
  {
    if puts != [] {
      var init, e := puts[..|puts| - 1], puts[|puts| - 1];
      InOrderRuns.SplitLast(puts);
      InOrderLast(init, e, capacity, maxHistories);
      InOrderNeverLags(init, capacity, maxHistories);
    }
  }

  /** The kept index is the rebuilt one exactly when it does not lag or there are no histories. */
  lemma IndexIsRebuiltIff(filePath: string, files: Files, lag: nat)
    requires files != []
    ensures FileRunLogs.IndexOf(filePath, files, lag) == FileRunLogs.IndexOf(filePath, files, 0)
            <==> lag == 0 || |files| == 1
  {
    var kept, rebuilt := FileRunLogs.IndexOf(filePath, files, lag), FileRunLogs.IndexOf(filePath, files, 0);
    if |files| > 1 {
      assert kept[1] == FileRunLogs.DtorAt(filePath, files, lag, 1);
      assert rebuilt[1] == FileRunLogs.DtorAt(filePath, files, 0, 1);
    }
  }

  /** Paths at which temporary files can be made: no file is there, and none of the log's will be. */
  ghost predicate Unused(fileLog: FileRunLogs.FileRunLog, paths: seq<string>)
    reads fileLog, fileLog.disk
  {
    forall path | path in paths :: path !in fileLog.disk.files && !fileLog.IsOwnPath(path)
  }

  /** The log is as these Puts leave one that was empty. */
  ghost predicate HasPut(fileLog: FileRunLogs.FileRunLog, puts: seq<RunLogEntry>)
    reads fileLog, fileLog.disk
  {
    && fileLog.Valid()
    && fileLog.files == FileRun(puts, Capacity(fileLog.maxFileLen), fileLog.maxHistories)
    && fileLog.lag == LagAfter(puts, Capacity(fileLog.maxFileLen), fileLog.maxHistories)
  }

  /** Putting entries one after another into an empty file log. */
  method PutAllInFiles(fileLog: FileRunLogs.FileRunLog, entries: seq<RunLogEntry>, tmpPaths: seq<string>)
    requires fileLog.Valid() && fileLog.files == [[]]
    requires AllFit(entries) && |tmpPaths| == |entries|
    requires Unused(fileLog, tmpPaths)
    modifies fileLog, fileLog.disk
    ensures HasPut(fileLog, AllStored(entries))
  {
    NothingPut(fileLog);
    hide *;
    var n := 0;
    while n < |entries|
      invariant n <= |entries| && HasPut(fileLog, AllStored(entries)[..n]) && Unused(fileLog, tmpPaths)
    {
      OneMore(entries, n);
      PutOneSame(fileLog, entries[n], tmpPaths[n], AllStored(entries)[..n], tmpPaths);
      n := n + 1;
    }
    assert AllStored(entries)[..n] == AllStored(entries);
  }

  /** Entries whose records fit; their names may be too long, or look escaped. */
  ghost predicate AllFit(entries: seq<RunLogEntry>) {
    forall i | 0 <= i < |entries| :: Fits(entries[i])
  }

  /** The entries as their records represent them, with their names cut. */
  function AllStored(entries: seq<RunLogEntry>): (stored: seq<RunLogEntry>)
    ensures |stored| == |entries|
    ensures forall i | 0 <= i < |entries| :: stored[i] == EntryCodec.Stored(entries[i])
  {
    seq(|entries|, i requires 0 <= i < |entries| => EntryCodec.Stored(entries[i]))
  }

  lemma OneMore(entries: seq<RunLogEntry>, n: nat)
    requires n < |entries|
    ensures AllStored(entries)[..n + 1] == AllStored(entries)[..n] + [EntryCodec.Stored(entries[n])]
    ensures AllFit(entries) ==> Fits(entries[n])
  {
  }

  /** Putting the same entries into an empty memory log. */
  method PutAllInMemory(memLog: MemRunLogs.MemOnlyRunLog, entries: seq<RunLogEntry>)
    requires memLog.Valid() && memLog.puts == []
    modifies memLog, memLog.entries
    ensures memLog.Valid() && memLog.entries == old(memLog.entries)
    ensures memLog.View() == MemRun(entries, memLog.entries.Length)
  {
    hide *;
    for n := 0 to |entries|
      invariant memLog.Valid() && memLog.entries == old(memLog.entries)
      invariant memLog.puts == entries[..n]
    {
      memLog.Put(entries[n]);
      assert entries[..n + 1] == entries[..n] + [entries[n]];
    }
    assert entries[..|entries|] == entries;
    MemHolds(memLog);
  }

  /** One of these Puts, into the file log. */
  method PutOneSame(fileLog: FileRunLogs.FileRunLog, e: RunLogEntry, tmpPath: string,
                    ghost puts: seq<RunLogEntry>, ghost others: seq<string>)
    requires HasPut(fileLog, puts) && Fits(e)
    requires tmpPath in others && Unused(fileLog, others)
    modifies fileLog, fileLog.disk
    ensures HasPut(fileLog, puts + [EntryCodec.Stored(e)]) && Unused(fileLog, others)
  {
    RunOneMore(puts, e, Capacity(fileLog.maxFileLen), fileLog.maxHistories);
    hide FileRunLogs.FileRunLog.Valid, FileRunLogs.FileRunLog.IsOwnPath, EntryCodec.Stored, Fits, FilePut, NextLag,
         FileRun, LagAfter, IsTooEarly;
    var r := fileLog.Put(e, tmpPath);
  }

  lemma NothingPut(fileLog: FileRunLogs.FileRunLog)
    requires fileLog.Valid() && fileLog.files == [[]]
    ensures HasPut(fileLog, [])
  {
  }

  lemma RunOneMore(puts: seq<RunLogEntry>, e: RunLogEntry, capacity: nat, maxHistories: nat)
    ensures var before, stored := FileRun(puts, capacity, maxHistories), EntryCodec.Stored(e);
            && FileRun(puts + [stored], capacity, maxHistories) ==
               (match FilePut(before, capacity, maxHistories, stored)
                case Stored(files) => files
                case TooEarly => before)
            && (FilePut(before, capacity, maxHistories, stored).TooEarly? <==> IsTooEarly(before, e))
            && LagAfter(puts + [stored], capacity, maxHistories) ==
               NextLag(before, LagAfter(puts, capacity, maxHistories), capacity, maxHistories, e)
  {
    assert (puts + [EntryCodec.Stored(e)])[..|puts|] == puts;
  }

  lemma MemHolds(memLog: MemRunLogs.MemOnlyRunLog)
    requires memLog.Valid()
    ensures memLog.len <= memLog.entries.Length && memLog.View() == MemRun(memLog.puts, memLog.entries.Length)
  {
  }
}
