/**
 One backing file of a file run log: backingFileDtor and the bytes it describes.

 A file is a newest-first sequence of entries; on disk its records stand oldest first, separated by newlines.
 */
module BackingFiles {
  import opened Wrappers
  import opened Decimal
  import opened RunLogEntries
  import opened EntryCodec
  import opened Chronology
  import Spec = FileLogSpec

  const STRIDE := LOG_ENTRY_LEN + 1

  /** UnixNano of the zero time.Time, before any timestamp an entry can carry. */
  const ZERO_TIME: int := -62135596800_000000000

  datatype BackingFileDtor = BackingFileDtor(
    path: string,
    nbrEntries: nat,
    earliestTime: int,
    latestTime: int,
    startIdx: int)

  ghost predicate AllStorable(f: seq<RunLogEntry>) {
    forall i | 0 <= i < |f| :: Storable(f[i])
  }

  /** Records, newest first, as they stand on disk: oldest first, separated by newlines. */
  function Join(records: seq<string>): string {
    if records == [] then ""
    else if |records| == 1 then records[0]
    else Join(records[1..]) + "\n" + records[0]
  }

  predicate AreRecords(records: seq<string>) {
    forall i | 0 <= i < |records| :: |records[i]| == LOG_ENTRY_LEN
  }

  ghost function Records(f: seq<RunLogEntry>): (records: seq<string>)
    requires AllStorable(f)
    ensures |records| == |f| && AreRecords(records)
    ensures forall i | 0 <= i < |f| :: records[i] == Encode(f[i]).value
  {
    forall i | 0 <= i < |f| ensures |Encode(f[i]).value| == LOG_ENTRY_LEN { RecordShape(f[i]); }
    seq(|f|, i requires 0 <= i < |f| => Encode(f[i]).value)
  }

  /** The bytes of a file. */
  ghost function Render(f: seq<RunLogEntry>): string
    requires AllStorable(f)
  {
    Join(Records(f))
  }

  /** The bytes are exactly the records of these entries, newest first. */
  ghost predicate Holds(bytes: string, f: seq<RunLogEntry>) {
    AllStorable(f) && bytes == Render(f)
  }

  function FileSize(nbrEntries: nat): nat {
    if nbrEntries == 0 then 0 else (nbrEntries - 1) * STRIDE + LOG_ENTRY_LEN
  }

  lemma {:induction false} JoinSize(records: seq<string>)
    requires AreRecords(records)
    ensures |Join(records)| == FileSize(|records|)
  {
    if records != [] {
      JoinSize(records[1..]);
    }
  }

  // ---------- Positions ----------

  /** Panics on an index that is not below the number of entries. */
  function OffsetOfEntry(nbrEntries: nat, idx: nat): Outcome<nat> {
    if idx >= nbrEntries then Panicked else Returned((nbrEntries - idx - 1) * STRIDE)
  }

  /** The bytes of the entry at relative index idx, if the file has that many. */
  function ReadEntryBytes(bytes: string, nbrEntries: nat, idx: nat): Outcome<string> {
    var offset := OffsetOfEntry(nbrEntries, idx);
    if offset.Panicked? || offset.value + LOG_ENTRY_LEN > |bytes| then Panicked
    else Returned(bytes[offset.value..offset.value + LOG_ENTRY_LEN])
  }

  function ReadEntry(bytes: string, nbrEntries: nat, idx: nat): Option<RunLogEntry> {
    var record := ReadEntryBytes(bytes, nbrEntries, idx);
    if record.Panicked? then None
    else
      var entry := Decode(record.value);
      if entry.Ok? then Some(entry.value) else None
  }

  /** Record idx counted from the newest stands whole at its offset, directly after a newline or at the start. */
  lemma {:induction false} RecordAt(records: seq<string>, idx: nat)
    requires AreRecords(records) && idx < |records|
    ensures ReadEntryBytes(Join(records), |records|, idx) == Returned(records[idx])
    ensures idx < |records| - 1 ==>
              var offset := (|records| - idx - 1) * STRIDE;
              0 < offset <= |Join(records)| && Join(records)[offset - 1] == '\n'
  {
    JoinSize(records);
    if |records| > 1 {
      var older, bytes := Join(records[1..]), Join(records);
      JoinSize(records[1..]);
      assert bytes == older + "\n" + records[0];
      if idx == 0 {
        assert bytes[|older| + 1..|older| + 1 + LOG_ENTRY_LEN] == records[0];
      } else {
        RecordAt(records[1..], idx - 1);
        var offset := (|records| - idx - 1) * STRIDE;
        assert bytes[offset..offset + LOG_ENTRY_LEN] == older[offset..offset + LOG_ENTRY_LEN];
      }
    } else {
      assert records[0][0..LOG_ENTRY_LEN] == records[0];
    }
  }

  /** Reading any valid index of a written file returns the entry that was written there. */
  lemma ReadWritten(f: seq<RunLogEntry>, idx: nat)
    requires AllStorable(f) && idx < |f|
    ensures ReadEntry(Render(f), |f|, idx) == Some(f[idx])
  {
    RecordAt(Records(f), idx);
    DecodeEncoded(f[idx]);
  }

  // ---------- Appending ----------

  /** What pushEntryF appends to a file that held nbrEntries entries. */
  function Appended(nbrEntries: nat, record: string): string {
    if nbrEntries > 0 then "\n" + record else record
  }

  lemma JoinAppended(records: seq<string>, record: string)
    ensures Join(records) + Appended(|records|, record) == Join([record] + records)
  {
    var all := [record] + records;
    assert all[1..] == records && all[0] == record;
    if records == [] {
      assert Join(all) == record;
    } else {
      assert Join(all) == Join(records) + "\n" + record;
      hide Join;
      ConcatAssociates(Join(records), "\n", record);
    }
  }

  lemma ConcatAssociates(a: string, b: string, c: string)
    ensures a + b + c == a + (b + c)
  {
  }

  lemma RecordsCons(e: RunLogEntry, f: seq<RunLogEntry>)
    requires AllStorable(f) && Storable(e)
    ensures AllStorable([e] + f)
    ensures Records([e] + f) == [Encode(e).value] + Records(f)
    ensures Render([e] + f) == Join([Encode(e).value] + Records(f)) && Render(f) == Join(Records(f))
  {
    hide Storable, Encode;
  }

  /** Appending one record to the bytes of f gives the bytes of f with the entry, as stored, on top. */
  lemma AppendRenders(f: seq<RunLogEntry>, e: RunLogEntry)
    requires AllStorable(f) && Fits(e)
    ensures AllStorable([Stored(e)] + f)
    ensures Render(f) + Appended(|f|, Encode(e).value) == Render([Stored(e)] + f)
  {
    ReencodeStored(e);
    RecordsCons(Stored(e), f);
    hide *;
    JoinAppended(Records(f), Encode(e).value);
  }

  lemma HoldsNothing()
    ensures Holds("", [])
  {
  }

  /** What a backing file holds can be written again, unchanged. */
  lemma HeldIsStorable(bytes: string, f: seq<RunLogEntry>, i: nat)
    requires Holds(bytes, f) && i < |f|
    ensures Fits(f[i]) && Stored(f[i]) == f[i]
  {
  }

  /** pushEntryF: the descriptor and the bytes after appending e; the caller keeps entries in order. */
  method PushEntryF(dtor: BackingFileDtor, bytes: string, e: RunLogEntry, ghost f: seq<RunLogEntry>)
    returns (dtor': BackingFileDtor, bytes': string)
    requires Holds(bytes, f) && dtor == DtorOf(dtor.path, f, dtor.startIdx)
    requires Fits(e)
    ensures Holds(bytes', [Stored(e)] + f)
    ensures dtor' == DtorOf(dtor.path, [Stored(e)] + f, dtor.startIdx)
  {
    dtor' := dtor;
    if dtor.nbrEntries == 0 {
      dtor' := dtor'.(earliestTime := e.time, latestTime := e.time);
    } else {
      dtor' := dtor'.(latestTime := e.time);
    }
    dtor' := dtor'.(nbrEntries := dtor'.nbrEntries + 1);
    AppendRenders(f, e);
    bytes' := bytes + Appended(dtor'.nbrEntries - 1, Encode(e).value);
  }

  // ---------- Capacity ----------

  function IsFull(nbrEntries: nat, maxFileLen: int): bool {
    var newEntryLen := if nbrEntries > 0 then LOG_ENTRY_LEN + 1 else LOG_ENTRY_LEN;
    FileSize(nbrEntries) + newEntryLen > maxFileLen
  }

  /** The most entries a backing file may hold. */
  function Capacity(maxFileLen: int): nat {
    if maxFileLen < 0 then 0 else maxFileLen / STRIDE + (maxFileLen % STRIDE) / LOG_ENTRY_LEN
  }

  /** For every limit a file is full exactly when one more entry would exceed the limit, which is at its capacity. */
  lemma FullAtCapacity(nbrEntries: nat, maxFileLen: int)
    ensures IsFull(nbrEntries, maxFileLen) <==> FileSize(nbrEntries + 1) > maxFileLen
    ensures IsFull(nbrEntries, maxFileLen) <==> nbrEntries >= Capacity(maxFileLen)
    ensures FileSize(Capacity(maxFileLen)) <= maxFileLen || maxFileLen < 0
  {
  }

  /** There is room for an entry exactly from a limit of one record on. */
  lemma RoomForOneIff(maxFileLen: int)
    ensures Capacity(maxFileLen) >= 1 <==> maxFileLen >= LOG_ENTRY_LEN
  {
  }

  // ---------- Descriptors ----------

  datatype FileError = TooShort | NotWholeEntries | BadEntry

  /** The number of entries of a file, from its size alone. */
  function CountEntries(size: nat): Result<nat, FileError> {
    if size == 0 then Ok(0)
    else if size < LOG_ENTRY_LEN then Err(TooShort)
    else if (size - LOG_ENTRY_LEN) % STRIDE != 0 then Err(NotWholeEntries)
    else Ok((size - LOG_ENTRY_LEN) / STRIDE + 1)
  }

  /** The size determines the count, and only sizes of whole files are accepted. */
  lemma CountInvertsSize(size: nat, k: nat)
    ensures CountEntries(size) == Ok(k) <==> size == FileSize(k)
  {
  }

  function MakeBackingFileDtor(path: string, bytes: string, startIdx: int): Result<BackingFileDtor, FileError> {
    var count := CountEntries(|bytes|);
    if count.Err? then Err(count.error)
    else if count.value == 0 then Ok(BackingFileDtor(path, 0, ZERO_TIME, ZERO_TIME, startIdx))
    else
      var earliest := ReadEntry(bytes, count.value, count.value - 1);
      var latest := ReadEntry(bytes, count.value, 0);
      if earliest.None? || latest.None? then Err(BadEntry)
      else Ok(BackingFileDtor(path, count.value, earliest.value.time, latest.value.time, startIdx))
  }

  function EarliestTime(f: seq<RunLogEntry>): int {
    if f == [] then ZERO_TIME else f[|f| - 1].time
  }

  function LatestTime(f: seq<RunLogEntry>): int {
    if f == [] then ZERO_TIME else f[0].time
  }

  function DtorOf(path: string, f: seq<RunLogEntry>, startIdx: int): BackingFileDtor {
    BackingFileDtor(path, |f|, EarliestTime(f), LatestTime(f), startIdx)
  }

  /** Opening a written file describes exactly what was written. */
  lemma OpenWritten(path: string, bytes: string, f: seq<RunLogEntry>, startIdx: int)
    requires Holds(bytes, f)
    ensures MakeBackingFileDtor(path, bytes, startIdx) == Ok(DtorOf(path, f, startIdx))
  {
    hide Storable, Encode, Decode, Join;
    JoinSize(Records(f));
    CountInvertsSize(|bytes|, |f|);
    if f != [] {
      ReadWritten(f, |f| - 1);
      ReadWritten(f, 0);
    }
  }

  /** makeBackingFileDtor on a written file. */
  method OpenBackingFile(path: string, bytes: string, startIdx: int, ghost f: seq<RunLogEntry>)
    returns (dtor: BackingFileDtor)
    requires Holds(bytes, f)
    ensures dtor == DtorOf(path, f, startIdx) && dtor.nbrEntries == |f|
  {
    OpenWritten(path, bytes, f, startIdx);
    dtor := MakeBackingFileDtor(path, bytes, startIdx).value;
  }

  // ---------- Reading and searching ----------

  /** readEntry on a written file; the index must be a valid one. */
  method ReadEntryOf(bytes: string, nbrEntries: nat, idx: nat, ghost f: seq<RunLogEntry>) returns (entry: RunLogEntry)
    requires Holds(bytes, f) && nbrEntries == |f|
    requires idx < |f|
    ensures entry == f[idx]
  {
    ReadWritten(f, idx);
    entry := ReadEntry(bytes, nbrEntries, idx).value;
  }

  /**
   Binary search on disk: the relative index of the first entry whose time is not after t,
   or the number of entries if there is none.
   */
  method FirstEntryNotAfter(bytes: string, nbrEntries: nat, t: int, ghost f: seq<RunLogEntry>) returns (idx: nat)
    requires Holds(bytes, f) && nbrEntries == |f|
    requires Sorted(f)
    ensures idx == FirstNotAfter(f, t)
  {
    hide Holds;
    var i, j := 0, nbrEntries;
    while i < j
      invariant 0 <= i <= j <= |f|
      invariant forall k | 0 <= k < i :: f[k].time > t
      invariant forall k | j <= k < |f| :: f[k].time <= t
    {
      var h := (i + j) / 2;
      var entry := ReadEntryOf(bytes, nbrEntries, h, f);
      if entry.time <= t {
        j := h;
      } else {
        i := h + 1;
      }
    }
    idx := i;
    FirstNotAfterUnique(f, t, idx);
  }

  /**
   The copy loop of putOutOfOrder: entries lastIdx and older of a written file go to an empty one, and e with them
   directly before the entry at relative index insertIdx, if the loop comes to it.
   */
  method CopyWith(path: string, bytes: string, nbrEntries: nat, e: RunLogEntry, insertIdx: int, lastIdx: nat,
                  ghost f: seq<RunLogEntry>)
    returns (tmpDtor: BackingFileDtor, tmpBytes: string)
    requires Holds(bytes, f) && nbrEntries == |f|
    requires Fits(e)
    requires -1 <= insertIdx < |f| && lastIdx <= |f|
    ensures Holds(tmpBytes, Spec.CopiedAt(f, Stored(e), insertIdx + 1, lastIdx))
    ensures tmpDtor == DtorOf(path, Spec.CopiedAt(f, Stored(e), insertIdx + 1, lastIdx), 0)
  {
    hide Holds, Fits, Stored, Spec.CopiedAt;
    Spec.CopiedNothing(f, Stored(e), insertIdx + 1);
    HoldsNothing();
    tmpBytes := "";
    tmpDtor := OpenBackingFile(path, tmpBytes, 0, []);
    var i := nbrEntries;
    while i > lastIdx
      invariant lastIdx <= i <= |f|
      invariant Holds(tmpBytes, Spec.CopiedAt(f, Stored(e), insertIdx + 1, i))
      invariant tmpDtor == DtorOf(path, Spec.CopiedAt(f, Stored(e), insertIdx + 1, i), 0)
    {
      ghost var copied := Spec.CopiedAt(f, Stored(e), insertIdx + 1, i);
      i := i - 1;
      Spec.CopiedStep(f, Stored(e), insertIdx + 1, i);
      HeldIsStorable(bytes, f, i);
      var currEntry := ReadEntryOf(bytes, nbrEntries, i, f);
      if i == insertIdx {
        tmpDtor, tmpBytes := PushEntryF(tmpDtor, tmpBytes, e, copied);
        copied := [Stored(e)] + copied;
      }
      tmpDtor, tmpBytes := PushEntryF(tmpDtor, tmpBytes, currEntry, copied);
    }
  }
}
