/**
 The run log kept on disk: fileRunLog and its iterator, on the bytes of its backing files.
 */
module FileRunLogs {
  import opened Wrappers
  import opened Decimal
  import opened RunLogEntries
  import opened EntryCodec
  import opened Chronology
  import opened BackingFiles
  import Spec = FileLogSpec
  import Queries = FileLogQueries

  /** The part of the file system that run logs use. */
  class Disk {
    var files: map<string, string>

    constructor ()
      ensures files == map[]
    {
      files := map[];
    }
  }

  /** The path of backing file i: the log's own path for the current one, ".N" appended for history N. */
  function PathOf(filePath: string, i: nat): string {
    if i == 0 then filePath else filePath + "." + NatText(i)
  }

  lemma PathsDiffer(filePath: string, i: nat, j: nat)
    ensures PathOf(filePath, i) == PathOf(filePath, j) <==> i == j
  {
    if i > 0 && j > 0 && PathOf(filePath, i) == PathOf(filePath, j) {
      var n := |filePath| + 1;
      assert NatText(i) == PathOf(filePath, i)[n..] == PathOf(filePath, j)[n..] == NatText(j);
      NatTextInjective(i, j);
    }
  }

  /** The paths of a log: its own for the current file, and numbered ones for the histories, from 1 on. */
  lemma PathsExample()
    ensures PathOf("/var/log/jobs", 0) == "/var/log/jobs"
    ensures PathOf("/var/log/jobs", 1) == "/var/log/jobs.1" && PathOf("/var/log/jobs", 12) == "/var/log/jobs.12"
  {
    assert NatText(1) == "1" && NatText(12) == NatText(1) + "2" == "12";
  }

  /** What backing file i holds, if it exists. */
  function Slot(m: map<string, string>, filePath: string, i: nat): Option<string> {
    var path := PathOf(filePath, i);
    if path in m then Some(m[path]) else None
  }

  lemma SlotAfterWrite(m: map<string, string>, filePath: string, k: nat, bytes: string, i: nat)
    ensures Slot(m[PathOf(filePath, k) := bytes], filePath, i) == if i == k then Some(bytes) else Slot(m, filePath, i)
  {
    PathsDiffer(filePath, i, k);
  }

  lemma SlotAfterRemove(m: map<string, string>, filePath: string, k: nat, i: nat)
    ensures Slot(m - {PathOf(filePath, k)}, filePath, i) == if i == k then None else Slot(m, filePath, i)
  {
    PathsDiffer(filePath, i, k);
  }

  /** The descriptor of file i, whose start index lags if it is a history. */
  function DtorAt(filePath: string, files: Spec.Files, lag: nat, i: nat): BackingFileDtor
    requires i < |files|
  {
    DtorOf(PathOf(filePath, i), files[i], Queries.StartOf(files, i) - if i == 0 then 0 else lag)
  }

  /** The descriptors of the files, in order. */
  function IndexOf(filePath: string, files: Spec.Files, lag: nat): (index: seq<BackingFileDtor>)
    ensures |index| == |files| && forall i | 0 <= i < |files| :: index[i] == DtorAt(filePath, files, lag, i)
  {
    seq(|files|, i requires 0 <= i < |files| => DtorAt(filePath, files, lag, i))
  }

  /** When only the current file has grown, by one, and histories keep their descriptors, these lag by one more. */
  lemma IndexAfterGrowth(filePath: string, before: Spec.Files, after: Spec.Files, lag: nat, index: seq<BackingFileDtor>)
    requires before != [] && after != [] && |after[0]| == |before[0]| + 1 && after == [after[0]] + before[1..]
    requires |index| == |after| && index[0] == DtorAt(filePath, after, lag, 0)
    requires |after| > 1 ==> lag > 0 && forall i | 1 <= i < |index| :: index[i] == DtorAt(filePath, before, lag - 1, i)
    ensures index == IndexOf(filePath, after, lag)
  {
  }

  /** Slot i of a log with these files. */
  ghost predicate SlotHolds(slot: Option<string>, files: Spec.Files, i: nat) {
    if i < |files| then slot.Some? && Holds(slot.value, files[i]) else slot.None?
  }

  /** As SlotHolds, but an empty current file may be missing. */
  ghost predicate MaySlotHold(slot: Option<string>, files: Spec.Files, i: nat) {
    SlotHolds(slot, files, i) || (i == 0 && slot.None? && files != [] && files[0] == [])
  }

  /** The slots of n files when those from k on have moved up by one. */
  function Shifted(m: map<string, string>, filePath: string, n: nat, k: nat, i: nat): Option<string> {
    if i < k then Slot(m, filePath, i)
    else if k < i <= n then Slot(m, filePath, i - 1)
    else None
  }

  /** None of the first n files has the time in its span. */
  ghost predicate NoneSpans(files: Spec.Files, t: int, n: nat) {
    forall j | 0 <= j < n && j < |files| :: files[j] != [] ==> !(files[j][|files[j]| - 1].time <= t <= files[j][0].time)
  }

  /** The times of the descriptors tell spans, of empty files too: the zero time is before all timestamps. */
  lemma SpanTested(files: Spec.Files, t: Timestamp, i: nat)
    requires NoneSpans(files, t, i) && i < |files|
    ensures NoneSpans(files, t, i + 1) <==> !(EarliestTime(files[i]) <= t <= LatestTime(files[i]))
    ensures EarliestTime(files[i]) <= t <= LatestTime(files[i]) ==>
              files[i] != [] && files[i][|files[i]| - 1].time <= t <= files[i][0].time
  {
  }

  lemma HitIsFirst(files: Spec.Files, t: int, i: nat)
    requires NoneSpans(files, t, i) && i < |files|
    requires files[i] != [] && files[i][|files[i]| - 1].time <= t <= files[i][0].time
    ensures Queries.HitFile(files, t) == i
  {
    Queries.HitFileUnique(files, t, i);
  }

  lemma NoHit(files: Spec.Files, t: int)
    requires NoneSpans(files, t, |files|)
    ensures Queries.HitFile(files, t) == |files|
  {
    Queries.HitFileUnique(files, t, |files|);
  }

  datatype PutError = TimestampTooEarly

  class FileRunLog {
    const filePath: string
    const maxFileLen: int
    const maxHistories: nat
    const disk: Disk

    var index: seq<BackingFileDtor>

    /** What the backing files hold, and how far the histories' start indexes lag behind. */
    ghost var files: Spec.Files
    ghost var lag: nat

    ghost predicate IsOwnPath(p: string) {
      exists i: nat | i <= maxHistories :: p == PathOf(filePath, i)
    }

    /** The backing files hold these entries, and there are no further ones. */
    ghost predicate OnDisk(m: map<string, string>, fs: Spec.Files) {
      && 1 <= |fs| <= maxHistories + 1
      && forall i | 0 <= i <= maxHistories :: SlotHolds(Slot(m, filePath, i), fs, i)
    }

    ghost predicate Valid()
      reads this, disk
    {
      && OnDisk(disk.files, files)
      && index == IndexOf(filePath, files, lag)
      && Spec.EachSorted(files)
      && lag <= |files[0]|
      && (|files| == 1 ==> lag == 0)
    }

    /** No file but the log's own backing files differs between the two disks. */
    ghost predicate SameElsewhere(m: map<string, string>, m': map<string, string>) {
      forall p | !IsOwnPath(p) :: (p in m <==> p in m') && (p in m ==> m[p] == m'[p])
    }

    /** NewFileRunLog, on a disk that holds these files; the current one may be missing, and is then created. */
    constructor (filePath: string, maxFileLen: int, maxHistories: nat, disk: Disk, ghost fs: Spec.Files)
      requires 1 <= |fs| <= maxHistories + 1
      requires forall i | 0 <= i <= maxHistories ::
                 MaySlotHold(Slot(disk.files, filePath, i), fs, i)
      modifies disk
      ensures OnDisk(disk.files, fs) && index == IndexOf(filePath, fs, 0)
      ensures files == fs && lag == 0 && (Spec.EachSorted(fs) ==> Valid())
      ensures this.filePath == filePath && this.maxFileLen == maxFileLen && this.maxHistories == maxHistories
      ensures this.disk == disk && SameElsewhere(old(disk.files), disk.files)
    {
      this.filePath, this.maxFileLen, this.maxHistories := filePath, maxFileLen, maxHistories;
      this.disk := disk;
      files, lag, index := fs, 0, [];
      new;
      MakeIndex(fs);
    }

    /** makeIndex, on a disk that holds these files; the current one may be missing, and is then created. */
    method MakeIndex(ghost fs: Spec.Files)
      requires 1 <= |fs| <= maxHistories + 1
      requires forall i | 0 <= i <= maxHistories ::
                 MaySlotHold(Slot(disk.files, filePath, i), fs, i)
      modifies this`index, disk
      ensures OnDisk(disk.files, fs) && index == IndexOf(filePath, fs, 0)
      ensures SameElsewhere(old(disk.files), disk.files)
    {
      MakeCurrentFile(fs);
      ReadIndex(fs);
    }

    /** The rest of makeIndex: describe the backing files until one is missing. */
    method ReadIndex(ghost fs: Spec.Files)
      requires OnDisk(disk.files, fs)
      modifies this`index
      ensures index == IndexOf(filePath, fs, 0)
    {
      hide Holds, Slot, DtorOf;
      var dtors, newStartIdx := [], 0;
      var i := 0;
      while i <= maxHistories
        invariant 0 <= i <= |fs|
        invariant newStartIdx == Queries.StartOf(fs, i)
        invariant |dtors| == i && forall j | 0 <= j < i :: dtors[j] == DtorAt(filePath, fs, 0, j)
      {
        var bytes := Slot(disk.files, filePath, i);
        assert SlotHolds(bytes, fs, i);
        if bytes.None? {
          break;
        }
        var path := PathOf(filePath, i);
        var dtor := OpenBackingFile(path, bytes.value, newStartIdx, fs[i]);
        dtors := dtors + [dtor];
        Queries.StartOfNext(fs, i);
        newStartIdx := newStartIdx + dtor.nbrEntries;
        i := i + 1;
      }
      index := dtors;
    }

    /** The start of makeIndex: if there is no current backing file, make an empty one. */
    method MakeCurrentFile(ghost fs: Spec.Files)
      requires 1 <= |fs| <= maxHistories + 1
      requires forall i | 0 <= i <= maxHistories ::
                 MaySlotHold(Slot(disk.files, filePath, i), fs, i)
      modifies disk
      ensures OnDisk(disk.files, fs)
      ensures SameElsewhere(old(disk.files), disk.files)
    {
      var path := PathOf(filePath, 0);
      if path !in disk.files {
        assert MaySlotHold(Slot(disk.files, filePath, 0), fs, 0);
        HoldsNothing();
        WriteCurrent("");
        forall i | 0 <= i <= maxHistories ensures SlotHolds(Slot(disk.files, filePath, i), fs, i) {
          assert MaySlotHold(Slot(old(disk.files), filePath, i), fs, i);
        }
      } else {
        assert Slot(disk.files, filePath, 0).Some?;
      }
    }

    /** rotateFiles: every file becomes the next older one, the oldest is deleted, and a new current file is empty. */
    method RotateFiles()
      requires OnDisk(disk.files, files)
      requires |index| == |files| && forall i | 0 <= i < |index| :: index[i].path == PathOf(filePath, i)
      modifies this, disk
      ensures files == Spec.Kept([[]] + old(files), maxHistories) && lag == 0
      ensures OnDisk(disk.files, files) && index == IndexOf(filePath, files, 0)
      ensures SameElsewhere(old(disk.files), disk.files)
    {
      hide Holds, Slot, SlotHolds;
      ghost var before := disk.files;
      ShiftFiles();
      ShiftedMayHold(before, files);
      files, lag := Spec.Kept([[]] + files, maxHistories), 0;
      MakeIndex(files);
    }

    /** The files on a disk that had n of them, when those from k on have moved up by one. */
    ghost predicate IsShifted(before: map<string, string>, n: nat, k: nat)
      reads disk
    {
      && (forall i | 0 <= i <= maxHistories :: Slot(disk.files, filePath, i) == Shifted(before, filePath, n, k, i))
      && SameElsewhere(before, disk.files)
    }

    lemma NothingShifted(fs: Spec.Files)
      requires OnDisk(disk.files, fs)
      ensures IsShifted(disk.files, |fs|, |fs|)
    {
      hide Holds, Slot;
      forall i | 0 <= i <= maxHistories
        ensures Slot(disk.files, filePath, i) == Shifted(disk.files, filePath, |fs|, |fs|, i)
      {
        assert SlotHolds(Slot(disk.files, filePath, i), fs, i);
      }
    }

    /** The loop of rotateFiles. */
    method ShiftFiles()
      requires OnDisk(disk.files, files)
      requires |index| == |files| && forall i | 0 <= i < |index| :: index[i].path == PathOf(filePath, i)
      modifies disk
      ensures IsShifted(old(disk.files), |files|, 0)
    {
      ghost var before := disk.files;
      NothingShifted(files);
      assert |files| <= maxHistories + 1;
      hide IsShifted, Slot, OnDisk;
      var oldIdx := |index|;
      while oldIdx > 0
        invariant 0 <= oldIdx <= |index|
        invariant IsShifted(before, |index|, oldIdx)
      {
        oldIdx := oldIdx - 1;
        MoveUp(oldIdx, before, files);
      }
    }

    /** The body of that loop: backing file k becomes history k + 1, or is deleted if it is too old. */
    method MoveUp(k: nat, ghost before: map<string, string>, ghost fs: Spec.Files)
      requires OnDisk(before, fs) && k < |fs| && IsShifted(before, |fs|, k + 1)
      modifies disk
      ensures IsShifted(before, |fs|, k)
    {
      hide Holds, Slot;
      if k + 1 > maxHistories {
        RemoveFile(k);
      } else {
        assert SlotHolds(Slot(before, filePath, k), fs, k);
        assert Slot(disk.files, filePath, k) == Slot(before, filePath, k);
        RenameFile(k);
      }
    }

    /** The shifted files are those to be kept, with the new current file still missing. */
    lemma ShiftedMayHold(before: map<string, string>, fs: Spec.Files)
      requires OnDisk(before, fs) && IsShifted(before, |fs|, 0)
      ensures var kept := Spec.Kept([[]] + fs, maxHistories);
              && 1 <= |kept| <= maxHistories + 1
              && forall i | 0 <= i <= maxHistories :: MaySlotHold(Slot(disk.files, filePath, i), kept, i)
    {
      hide Holds, Slot;
      var kept := Spec.Kept([[]] + fs, maxHistories);
      forall i | 0 <= i <= maxHistories ensures MaySlotHold(Slot(disk.files, filePath, i), kept, i) {
        if i > 0 {
          assert SlotHolds(Slot(before, filePath, i - 1), fs, i - 1);
        }
      }
    }

    /** Delete backing file k. */
    method RemoveFile(k: nat)
      requires k <= maxHistories
      modifies disk
      ensures forall i: nat ::
                Slot(disk.files, filePath, i) == if i == k then None else Slot(old(disk.files), filePath, i)
      ensures SameElsewhere(old(disk.files), disk.files)
    {
      assert IsOwnPath(PathOf(filePath, k));
      forall i: nat
        ensures Slot(disk.files - {PathOf(filePath, k)}, filePath, i) ==
                if i == k then None else Slot(disk.files, filePath, i)
      {
        SlotAfterRemove(disk.files, filePath, k, i);
      }
      disk.files := disk.files - {PathOf(filePath, k)};
    }

    /** Rename backing file k to the path of history k + 1, replacing what is there. */
    method RenameFile(k: nat)
      requires k + 1 <= maxHistories && Slot(disk.files, filePath, k).Some?
      modifies disk
      ensures forall i: nat :: Slot(disk.files, filePath, i) ==
                               if i == k then None
                               else if i == k + 1 then Slot(old(disk.files), filePath, k)
                               else Slot(old(disk.files), filePath, i)
      ensures SameElsewhere(old(disk.files), disk.files)
    {
      var bytes := disk.files[PathOf(filePath, k)];
      RemoveFile(k);
      assert IsOwnPath(PathOf(filePath, k + 1));
      forall i: nat
        ensures Slot(disk.files[PathOf(filePath, k + 1) := bytes], filePath, i) ==
                if i == k + 1 then Some(bytes) else Slot(disk.files, filePath, i)
      {
        SlotAfterWrite(disk.files, filePath, k + 1, bytes, i);
      }
      disk.files := disk.files[PathOf(filePath, k + 1) := bytes];
    }

    /** pushEntry on the current file. */
    method PushEntry(e: RunLogEntry)
      requires OnDisk(disk.files, files) && index == IndexOf(filePath, files, lag)
      requires Fits(e)
      modifies this, disk
      ensures files == [[Stored(e)] + old(files)[0]] + old(files)[1..] && lag == old(lag)
      ensures OnDisk(disk.files, files)
      ensures |index| == |files| && index[0] == IndexOf(filePath, files, lag)[0] && index[1..] == old(index)[1..]
      ensures SameElsewhere(old(disk.files), disk.files)
    {
      hide Holds, Fits, Stored, Slot;
      assert SlotHolds(Slot(disk.files, filePath, 0), files, 0);
      var bytes := Slot(disk.files, filePath, 0).value;
      var dtor, bytes' := PushEntryF(index[0], bytes, e, files[0]);
      WriteCurrent(bytes');
      index := index[0 := dtor];
      files := [[Stored(e)] + files[0]] + files[1..];
    }

    /** Replace the bytes of the current backing file. */
    method WriteCurrent(bytes: string)
      modifies disk
      ensures forall i: nat ::
                Slot(disk.files, filePath, i) == if i == 0 then Some(bytes) else Slot(old(disk.files), filePath, i)
      ensures SameElsewhere(old(disk.files), disk.files)
    {
      assert IsOwnPath(PathOf(filePath, 0));
      forall i: nat
        ensures Slot(disk.files[PathOf(filePath, 0) := bytes], filePath, i) ==
                if i == 0 then Some(bytes) else Slot(disk.files, filePath, i)
      {
        SlotAfterWrite(disk.files, filePath, 0, bytes, i);
      }
      disk.files := disk.files[PathOf(filePath, 0) := bytes];
    }

    /** Put e; if it belongs out of order, tmpPath names the temporary file. */
    method Put(e: RunLogEntry, tmpPath: string) returns (r: Result<(), PutError>)
      requires Valid() && Fits(e)
      requires tmpPath !in disk.files && !IsOwnPath(tmpPath)
      modifies this, disk
      ensures Valid()
      ensures r.Err? <==> Spec.AllLater(old(files)[0], e.time)
      ensures r.Err? <==> Spec.IsTooEarly(old(files), e)
      ensures r.Err? ==> files == old(files) && disk.files == old(disk.files)
      ensures r.Ok? ==> Spec.FilePut(old(files), Capacity(maxFileLen), maxHistories, Stored(e)) == Spec.Stored(files)
      ensures lag == Queries.NextLag(old(files), old(lag), Capacity(maxFileLen), maxHistories, e)
      ensures SameElsewhere(old(disk.files), disk.files)
    {
      if index[0].nbrEntries > 0 && index[0].earliestTime > e.time {
        return Err(TimestampTooEarly);
      }
      var outOfOrder := index[0].nbrEntries > 0 && index[0].latestTime > e.time;
      if outOfOrder {
        PutOutOfOrder(e, tmpPath);
      } else {
        PutInOrder(e);
      }
      r := Ok(());
    }

    method PutInOrder(e: RunLogEntry)
      requires Valid() && Fits(e)
      requires Spec.InOrder(files, e) && !Spec.IsTooEarly(files, e)
      modifies this, disk
      ensures Valid()
      ensures Spec.FilePut(old(files), Capacity(maxFileLen), maxHistories, Stored(e)) == Spec.Stored(files)
      ensures lag == Queries.NextLag(old(files), old(lag), Capacity(maxFileLen), maxHistories, e)
      ensures SameElsewhere(old(disk.files), disk.files)
    {
      hide Holds, Fits, SlotHolds, Sorted;
      FullAtCapacity(index[0].nbrEntries, maxFileLen);
      Spec.PutInOrderPushes(files, Capacity(maxFileLen), maxHistories, Stored(e));
      Spec.PutKeepsEachSorted(files, Capacity(maxFileLen), maxHistories, Stored(e));
      if IsFull(index[0].nbrEntries, maxFileLen) {
        RotateFiles();
      }
      ghost var fs := files;
      PushEntry(e);
      BumpHistories(fs);
    }

    /** The current file has grown by one entry: so do the start indexes of the histories. */
    method BumpHistories(ghost fs: Spec.Files)
      requires fs != [] && files != [] && |files[0]| == |fs[0]| + 1 && files == [files[0]] + fs[1..]
      requires |index| == |files| && index[0] == DtorAt(filePath, files, lag, 0)
      requires index[1..] == IndexOf(filePath, fs, lag)[1..]
      modifies this`index
      ensures index == IndexOf(filePath, files, lag)
    {
      assert forall j | 1 <= j < |index| :: index[j] == index[1..][j - 1] == DtorAt(filePath, fs, lag, j);
      var i := 1;
      while i < |index|
        invariant 1 <= i <= |index| == |fs|
        invariant index[0] == DtorAt(filePath, files, lag, 0)
        invariant forall j | 1 <= j < i :: index[j] == DtorAt(filePath, files, lag, j)
        invariant forall j | i <= j < |index| :: index[j] == DtorAt(filePath, fs, lag, j)
      {
        Queries.StartOfGrown(fs, files[0], i);
        index := index[i := index[i].(startIdx := index[i].startIdx + 1)];
        i := i + 1;
      }
    }

    method PutOutOfOrder(e: RunLogEntry, tmpPath: string)
      requires Valid() && Fits(e)
      requires !Spec.InOrder(files, e) && !Spec.IsTooEarly(files, e)
      requires tmpPath !in disk.files && !IsOwnPath(tmpPath)
      modifies this, disk
      ensures Valid()
      ensures Spec.FilePut(old(files), Capacity(maxFileLen), maxHistories, Stored(e)) == Spec.Stored(files)
      ensures lag == Queries.NextLag(old(files), old(lag), Capacity(maxFileLen), maxHistories, e)
      ensures SameElsewhere(old(disk.files), disk.files)
    {
      FullAtCapacity(index[0].nbrEntries, maxFileLen);
      if IsFull(index[0].nbrEntries, maxFileLen) {
        PutRotating(e, tmpPath);
      } else {
        PutInPlace(e, tmpPath);
      }
    }

    /** putOutOfOrder on a current file that can take another entry. */
    method PutInPlace(e: RunLogEntry, tmpPath: string)
      requires Valid() && Fits(e)
      requires !Spec.InOrder(files, e) && !Spec.IsTooEarly(files, e) && |files[0]| < Capacity(maxFileLen)
      requires tmpPath !in disk.files && !IsOwnPath(tmpPath)
      modifies this, disk
      ensures Valid()
      ensures Spec.FilePut(old(files), Capacity(maxFileLen), maxHistories, Stored(e)) == Spec.Stored(files)
      ensures lag == Queries.NextLag(old(files), old(lag), Capacity(maxFileLen), maxHistories, e)
      ensures SameElsewhere(old(disk.files), disk.files)
    {
      assert 1 <= |files| <= maxHistories + 1;
      hide Holds, Fits, Sorted, Slot, SlotHolds, Spec.Copied, IsOwnPath, Spec.FilePut, Queries.StartOf, OnDisk,
           FirstNotAfter;
      Spec.PutOutOfOrderCopies(files, Capacity(maxFileLen), maxHistories, Stored(e));
      Spec.PutKeepsEachSorted(files, Capacity(maxFileLen), maxHistories, Stored(e));
      Spec.CopiedAll(files[0], Stored(e));
      RewriteCurrent(e, 0, tmpPath);
      lag := if |files| == 1 then 0 else lag + 1;
      IndexAfterGrowth(filePath, old(files), files, lag, index);
    }

    /** putOutOfOrder on a full current file: its newest entry moves to a new one. */
    method PutRotating(e: RunLogEntry, tmpPath: string)
      requires Valid() && Fits(e)
      requires !Spec.InOrder(files, e) && !Spec.IsTooEarly(files, e) && |files[0]| >= Capacity(maxFileLen)
      requires tmpPath !in disk.files && !IsOwnPath(tmpPath)
      modifies this, disk
      ensures Valid()
      ensures Spec.FilePut(old(files), Capacity(maxFileLen), maxHistories, Stored(e)) == Spec.Stored(files)
      ensures lag == Queries.NextLag(old(files), old(lag), Capacity(maxFileLen), maxHistories, e)
      ensures SameElsewhere(old(disk.files), disk.files)
    {
      assert 1 <= |files| <= maxHistories + 1 && files[0] != [] && OnDisk(disk.files, files) && Spec.EachSorted(files);
      assert index == IndexOf(filePath, files, lag);
      hide Holds, Fits, Sorted, Slot, SlotHolds, Spec.Copied, IsOwnPath, Spec.FilePut, Queries.StartOf, OnDisk,
           FirstNotAfter, Spec.InOrder, Spec.IsTooEarly, Spec.EachSorted, SameElsewhere;
      Spec.PutOutOfOrderCopies(files, Capacity(maxFileLen), maxHistories, Stored(e));
      Spec.PutKeepsEachSorted(files, Capacity(maxFileLen), maxHistories, Stored(e));
      var entry0 := ReadCurrent(0);
      RewriteCurrent(e, 1, tmpPath);
      RotateAndPush(entry0);
    }

    /** The end of putOutOfOrder: the entry kept from the old current file starts the new one. */
    method RotateAndPush(entry0: RunLogEntry)
      requires OnDisk(disk.files, files) && Fits(entry0)
      requires |index| == |files| && forall i | 0 <= i < |index| :: index[i].path == PathOf(filePath, i)
      modifies this, disk
      ensures var kept := Spec.Kept([[]] + old(files), maxHistories);
              && files == [[Stored(entry0)] + kept[0]] + kept[1..]
              && lag == if |kept| == 1 then 0 else 1
      ensures OnDisk(disk.files, files) && index == IndexOf(filePath, files, lag)
      ensures SameElsewhere(old(disk.files), disk.files)
    {
      hide Fits, Stored, SlotHolds, Slot, IsOwnPath, OnDisk;
      RotateFiles();
      ghost var rotated := files;
      PushEntry(entry0);
      lag := if |files| == 1 then 0 else 1;
      IndexAfterGrowth(filePath, rotated, files, lag, index);
    }

    /** Replace the current file by a copy of its entries from lastIdx on, with e in its place if the copy meets it. */
    method RewriteCurrent(e: RunLogEntry, lastIdx: nat, tmpPath: string)
      requires Valid() && Fits(e)
      requires !Spec.InOrder(files, e) && !Spec.IsTooEarly(files, e) && lastIdx <= 1
      requires tmpPath !in disk.files && !IsOwnPath(tmpPath)
      modifies this`index, this`files, disk
      ensures files == [Spec.Copied(old(files)[0], Stored(e), lastIdx)] + old(files)[1..]
      ensures OnDisk(disk.files, files)
      ensures |index| == |files| && index[0] == DtorAt(filePath, files, lag, 0) && index[1..] == old(index)[1..]
      ensures SameElsewhere(old(disk.files), disk.files)
    {
      hide Fits, Holds, Slot, SameElsewhere, Spec.CopiedAt;
      ghost var current := files[0];
      assert SlotHolds(Slot(disk.files, filePath, 0), files, 0);
      var bytes := Slot(disk.files, filePath, 0).value;
      var k := FirstEntryNotAfter(bytes, index[0].nbrEntries, e.time, current);
      var dtor, bytes' := CopyWith(index[0].path, bytes, index[0].nbrEntries, e, k - 1, lastIdx, current);
      ReplaceCurrent(tmpPath, bytes', Spec.CopiedAt(current, Stored(e), k, lastIdx));
      index := index[0 := dtor];
      files := [Spec.CopiedAt(current, Stored(e), k, lastIdx)] + files[1..];
    }

    /** readEntry on the current file. */
    method ReadCurrent(idx: nat) returns (entry: RunLogEntry)
      requires OnDisk(disk.files, files) && index == IndexOf(filePath, files, lag)
      requires idx < |files[0]|
      ensures entry == files[0][idx]
      ensures Fits(entry) && Stored(entry) == entry
    {
      hide Fits, Holds, Stored, Slot;
      assert SlotHolds(Slot(disk.files, filePath, 0), files, 0);
      var bytes := Slot(disk.files, filePath, 0).value;
      entry := ReadEntryOf(bytes, index[0].nbrEntries, idx, files[0]);
      HeldIsStorable(bytes, files[0], idx);
    }

    /** Write the bytes to a new temporary file and rename it to the current backing file. */
    method ReplaceCurrent(tmpPath: string, bytes: string, ghost f: seq<RunLogEntry>)
      requires tmpPath !in disk.files && !IsOwnPath(tmpPath)
      requires OnDisk(disk.files, files) && Holds(bytes, f)
      modifies disk
      ensures OnDisk(disk.files, [f] + files[1..])
      ensures SameElsewhere(old(disk.files), disk.files)
    {
      hide Holds, Slot;
      disk.files := disk.files[tmpPath := bytes];
      var written := disk.files[tmpPath];
      disk.files := disk.files - {tmpPath};
      assert disk.files == old(disk.files);
      WriteCurrent(written);
      forall i | 0 <= i <= maxHistories ensures SlotHolds(Slot(disk.files, filePath, i), [f] + files[1..], i) {
        assert SlotHolds(Slot(old(disk.files), filePath, i), files, i);
      }
    }

    method Len() returns (n: nat)
      requires Valid()
      ensures n == |Spec.Flatten(files)|
    {
      hide OnDisk, Sorted, PathOf, EarliestTime, LatestTime, Spec.EachSorted, Spec.Flatten;
      n := 0;
      for i := 0 to |index|
        invariant n == Queries.StartOf(files, i)
      {
        Queries.StartOfNext(files, i);
        n := n + index[i].nbrEntries;
      }
      Queries.StartOfEnd(files);
    }

    /** An iterator that will return the entry with the given index next, according to the start indexes. */
    method IterAt(idx: int) returns (r: Outcome<EntryIterator>)
      requires Valid()
      ensures r.Returned? <==> Queries.IterPosition(files, lag, idx).Returned?
      ensures r.Returned? ==>
                fresh(r.value) && r.value.log == this && r.value.At(Queries.IterPosition(files, lag, idx).value)
    {
      hide OnDisk, Sorted;
      var len := Len();
      if idx >= len {
        return Panicked;
      }
      for i := 0 to |index|
        invariant i == 0 || (idx >= 0 ==> idx >= |files[0]| && idx + lag >= Queries.StartOf(files, i))
      {
        Queries.StartOfNext(files, i);
        Queries.FileEnd(files, i);
        Queries.StartOfMonotone(files, if i == 0 then 0 else 1, i);
        if index[i].startIdx <= idx < index[i].startIdx + index[i].nbrEntries {
          var iter := new EntryIterator(this, i, idx - index[i].startIdx);
          return Returned(iter);
        }
      }
      Queries.StartOfEnd(files);
      r := Panicked;
    }

    /** Entries minIdx and up, below maxIdx if one is given. */
    method GetFromIndex(minIdx: int, maxIdxArg: Option<int>) returns (r: Outcome<seq<RunLogEntry>>)
      requires Valid()
      ensures r == Queries.IndexRange(files, lag, minIdx,
                                      if maxIdxArg.Some? then maxIdxArg.value else |Spec.Flatten(files)|)
    {
      assert files != [];
      hide *;
      var len := Len();
      var maxIdx := if maxIdxArg.Some? then maxIdxArg.value else len;
      if minIdx > maxIdx || minIdx >= len || maxIdx > len {
        Queries.IndexRangeRefused(files, lag, minIdx, maxIdx);
        return Panicked;
      }
      var it := IterAt(minIdx);
      if it.Panicked? {
        Queries.IndexRangeRefused(files, lag, minIdx, maxIdx);
        return Panicked;
      }
      ghost var start := Queries.IterPosition(files, lag, minIdx).value;
      Queries.IndexRangeFrom(files, lag, minIdx, maxIdx, start);
      r := ReadEntries(it.value, maxIdx - minIdx, start);
    }

    /** The reading loop of GetFromIndex. */
    method ReadEntries(iter: EntryIterator, n: nat, ghost start: nat) returns (r: Outcome<seq<RunLogEntry>>)
      requires Valid() && iter.log == this && iter.At(start) && start <= |Spec.Flatten(files)|
      modifies iter
      ensures var flat := Spec.Flatten(files);
              r == if start + n > |flat| then Panicked else Returned(flat[start..start + n])
    {
      hide *;
      ghost var flat := Spec.Flatten(files);
      var result := [];
      while |result| < n
        invariant |result| <= n && start + |result| <= |flat|
        invariant iter.At(start + |result|)
        invariant result == flat[start..start + |result|]
      {
        var entry := iter.Next(start + |result|);
        if entry.Panicked? {
          return Panicked;
        }
        result := result + [entry.value];
      }
      r := Returned(result);
    }

    method GetAll() returns (r: Outcome<seq<RunLogEntry>>)
      requires Valid()
      ensures r == Queries.Everything(files)
    {
      assert files != [];
      var len := Len();
      if len == 0 {
        return Returned([]);
      }
      Queries.FirstPosition(files, lag);
      Queries.EverythingRead(files);
      hide *;
      var it := IterAt(0);
      r := ReadAll(it.value);
    }

    /** The reading loop of GetAll. */
    method ReadAll(iter: EntryIterator) returns (r: Outcome<seq<RunLogEntry>>)
      requires Valid() && iter.log == this && iter.At(0) && files != []
      modifies iter
      ensures r == if files[|files| - 1] == [] then Panicked else Returned(Spec.Flatten(files))
    {
      hide *;
      ghost var flat := Spec.Flatten(files);
      var result := [];
      var done := iter.Done(0);
      while !done
        invariant |result| <= |flat| && iter.At(|result|)
        invariant result == flat[..|result|]
        invariant done <==> |result| == |flat| && files[|files| - 1] != []
        decreases |flat| - |result|, !done
      {
        var entry := iter.Next(|result|);
        if entry.Panicked? {
          return Panicked;
        }
        result := result + [entry.value];
        done := iter.Done(|result|);
      }
      assert flat[..|flat|] == flat;
      r := Returned(result);
    }

    /** Entries no later than maxTime and later than minTime; by default, than a second before the oldest entry. */
    method GetFromTime(maxTime: Timestamp, minTimeArg: Option<int>) returns (r: Outcome<seq<RunLogEntry>>)
      requires Valid()
      ensures r == Queries.TimeRange(files, lag, maxTime,
                                     if minTimeArg.Some? then minTimeArg.value
                                     else Queries.DefaultMinTime(files, ZERO_TIME))
    {
      assert files != [];
      var minTime := DefaultMinTime();
      hide *;
      if minTimeArg.Some? {
        minTime := minTimeArg.value;
      }
      r := GetBetween(maxTime, minTime);
    }

    method DefaultMinTime() returns (minTime: int)
      requires Valid()
      ensures minTime == Queries.DefaultMinTime(files, ZERO_TIME)
    {
      minTime := index[|index| - 1].earliestTime - Queries.SECOND;
    }

    /** GetFromTime once the times are known. */
    method GetBetween(maxTime: Timestamp, minTime: int) returns (r: Outcome<seq<RunLogEntry>>)
      requires Valid() && files != []
      ensures r == Queries.TimeRange(files, lag, maxTime, minTime)
    {
      hide *;
      Queries.TimeRangeRefused(files, lag, maxTime, minTime);
      var len := Len();
      if len == 0 {
        return Returned([]);
      }
      if maxTime < minTime {
        return Panicked;
      }
      var startIdx := FindStart(maxTime);
      Queries.TimeRangeFrom(files, lag, maxTime, minTime, startIdx);
      if startIdx == -1 {
        return Returned([]);
      }
      var it := IterAt(startIdx);
      if it.Panicked? {
        return Panicked;
      }
      r := ReadLaterThan(it.value, minTime, Queries.IterPosition(files, lag, startIdx).value);
    }

    /** The index at which GetFromTime starts to read, or -1 if no file's span contains maxTime. */
    method FindStart(maxTime: Timestamp) returns (startIdx: int)
      requires Valid()
      ensures var i := Queries.HitFile(files, maxTime);
              if i == |files| then startIdx == -1
              else
                startIdx >= 0 &&
                startIdx == Queries.StartOf(files, i) + FirstNotAfter(files[i], maxTime) - if i == 0 then 0 else lag
    {
      assert |index| == |files|;
      hide *;
      for i := 0 to |index|
        invariant NoneSpans(files, maxTime, i)
      {
        var hit, start := StartInFile(i, maxTime);
        if hit {
          return start;
        }
      }
      NoHit(files, maxTime);
      startIdx := -1;
    }

    /** The body of the loop of FindStart: file i is the first whose span may contain maxTime. */
    method StartInFile(i: nat, maxTime: Timestamp) returns (hit: bool, startIdx: int)
      requires Valid() && i < |files| && NoneSpans(files, maxTime, i)
      ensures !hit ==> NoneSpans(files, maxTime, i + 1)
      ensures hit ==> Queries.HitFile(files, maxTime) == i && startIdx >= 0
      ensures hit ==>
                startIdx == Queries.StartOf(files, i) + FirstNotAfter(files[i], maxTime) - if i == 0 then 0 else lag
    {
      assert i < |index| && files != [];
      hide *;
      DescribesFile(i);
      SpanTested(files, maxTime, i);
      hit, startIdx := false, 0;
      if index[i].earliestTime <= maxTime <= index[i].latestTime {
        var relStartIdx := SearchFile(i, maxTime);
        HitIsFirst(files, maxTime, i);
        Queries.StartOfFirst(files);
        Queries.StartOfMonotone(files, if i == 0 then 0 else 1, i);
        hit, startIdx := true, relStartIdx + index[i].startIdx;
      }
    }

    /** What the index says of file i. */
    lemma DescribesFile(i: nat)
      requires Valid() && i < |files|
      ensures index[i].earliestTime == EarliestTime(files[i]) && index[i].latestTime == LatestTime(files[i])
      ensures index[i].startIdx == Queries.StartOf(files, i) - if i == 0 then 0 else lag
      ensures lag <= |files[0]|
    {
    }

    /** firstEntryNotAfter on backing file i. */
    method SearchFile(i: nat, t: int) returns (idx: nat)
      requires Valid() && i < |files|
      ensures idx == FirstNotAfter(files[i], t)
    {
      hide Holds, Slot, Sorted, FirstNotAfter, Queries.StartOf, PathOf;
      assert SlotHolds(Slot(disk.files, filePath, i), files, i);
      var bytes := Slot(disk.files, filePath, i).value;
      assert Spec.EachSorted(files);
      idx := FirstEntryNotAfter(bytes, index[i].nbrEntries, t, files[i]);
    }

    /** The reading loop of GetFromTime. */
    method ReadLaterThan(iter: EntryIterator, minTime: int, ghost start: nat) returns (r: Outcome<seq<RunLogEntry>>)
      requires Valid() && iter.log == this && files != [] && iter.At(start) && start <= |Spec.Flatten(files)|
      modifies iter
      ensures r == Queries.LatestFrom(files, start, minTime)
    {
      hide *;
      ghost var flat := Spec.Flatten(files);
      var result := [];
      var tooOld, panicked := false, false;
      var done := iter.Done(start);
      while !done && !tooOld && !panicked
        invariant start + |result| <= |flat|
        invariant result == flat[start..start + |result|]
        invariant forall k | start <= k < start + |result| :: flat[k].time > minTime
        invariant !tooOld && !panicked ==> iter.At(start + |result|)
        invariant !tooOld ==> (done <==> start + |result| == |flat| && files[|files| - 1] != [])
        invariant tooOld ==> start + |result| < |flat| && flat[start + |result|].time <= minTime && !panicked
        invariant panicked ==> start + |result| == |flat| && !done
        decreases |flat| - |result|, !tooOld && !panicked
      {
        var entry := iter.Next(start + |result|);
        if entry.Panicked? {
          panicked := true;
        } else if entry.value.time > minTime {
          result := result + [entry.value];
          done := iter.Done(start + |result|);
        } else {
          tooOld := true;
        }
      }
      Queries.LatestFromStops(files, start, minTime, |result|);
      r := if panicked then Panicked else Returned(result);
    }
  }

  /** Walks a log from newer to older entries, file by file. */
  class EntryIterator {
    const log: FileRunLog
    var dtorIdx: nat
    var entryRelIdx: nat

    /** The next entry is at position p of the whole log, or there is none and p is the end. */
    ghost predicate Near(p: nat)
      reads this, log`files
    {
      && dtorIdx < |log.files| && entryRelIdx <= |log.files[dtorIdx]|
      && Queries.StartOf(log.files, dtorIdx) + entryRelIdx == p
    }

    /** As Near, with the iterator in a file that has entries. */
    ghost predicate At(p: nat)
      reads this, log`files
      ensures At(p) ==> Near(p)
    {
      Near(p) && log.files[dtorIdx] != []
    }

    constructor (log: FileRunLog, dtorIdx: nat, entryRelIdx: nat)
      ensures this.log == log && this.dtorIdx == dtorIdx && this.entryRelIdx == entryRelIdx
    {
      this.log, this.dtorIdx, this.entryRelIdx := log, dtorIdx, entryRelIdx;
    }

    /** At the end of an oldest file without entries the iterator is not done, although there is no next entry. */
    method Done(ghost p: nat) returns (done: bool)
      requires At(p) && log.Valid()
      ensures log.files != []
      ensures done <==> p == |Spec.Flatten(log.files)| && log.files[|log.files| - 1] != []
    {
      Queries.DoneAt(log.files, dtorIdx, entryRelIdx);
      done := entryRelIdx >= log.index[dtorIdx].nbrEntries && dtorIdx + 1 >= |log.index|;
    }

    /** Panics when there is no next entry. */
    method Next(ghost p: nat) returns (r: Outcome<RunLogEntry>)
      requires Near(p) && log.Valid()
      modifies this
      ensures p < |Spec.Flatten(log.files)| ==> r == Returned(Spec.Flatten(log.files)[p]) && At(p + 1)
      ensures p >= |Spec.Flatten(log.files)| ==> r.Panicked?
      decreases |log.files| - dtorIdx
    {
      hide Holds, Sorted, Slot, Queries.StartOf, PathOf, EarliestTime, LatestTime, Spec.EachSorted, Spec.Flatten;
      Queries.FileEnd(log.files, dtorIdx);
      if entryRelIdx >= log.index[dtorIdx].nbrEntries && dtorIdx + 1 >= |log.index| {
        return Panicked;
      }
      if entryRelIdx >= log.index[dtorIdx].nbrEntries {
        Queries.StartOfNext(log.files, dtorIdx);
        dtorIdx, entryRelIdx := dtorIdx + 1, 0;
        r := Next(p);
        return;
      }
      Queries.EntryPosition(log.files, dtorIdx, entryRelIdx);
      assert SlotHolds(Slot(log.disk.files, log.filePath, dtorIdx), log.files, dtorIdx);
      var bytes := Slot(log.disk.files, log.filePath, dtorIdx).value;
      var entry := ReadEntryOf(bytes, log.index[dtorIdx].nbrEntries, entryRelIdx, log.files[dtorIdx]);
      entryRelIdx := entryRelIdx + 1;
      r := Returned(entry);
    }
  }
}
