/**
 What a file run log is for: a list of backing files, current one first, each newest first.

 FilePut says what one Put does to the files; the lemmas say what any run of Puts amounts to.
 FileRunLogs.FileRunLog, which works on bytes, is proved against these functions.
 */
module FileLogSpec {
  import opened Wrappers
  import opened RunLogEntries
  import opened Chronology

  type Files = seq<seq<RunLogEntry>>

  /** All entries of all files, newest file first. */
  function Flatten(files: Files): seq<RunLogEntry> {
    if files == [] then [] else files[0] + Flatten(files[1..])
  }

  /** Files as one Put leaves them; only the newest 1 + maxHistories files survive a rotation. */
  function Kept(files: Files, maxHistories: nat): Files {
    if |files| <= maxHistories + 1 then files else files[..maxHistories + 1]
  }

  datatype PutResult = Stored(files: Files) | TooEarly

  /** e is put in order when nothing in the current file is later. */
  predicate InOrder(files: Files, e: RunLogEntry)
    requires files != []
  {
    files[0] == [] || files[0][0].time <= e.time
  }

  predicate IsTooEarly(files: Files, e: RunLogEntry)
    requires files != []
  {
    files[0] != [] && e.time < files[0][|files[0]| - 1].time
  }

  /**
   The current file is full and e belongs directly below its newest entry. The copy loop of
   putOutOfOrder then never meets the insertion index, so e is not written anywhere.
   */
  predicate IsLost(files: Files, capacity: nat, e: RunLogEntry)
    requires files != []
  {
    !IsTooEarly(files, e) && !InOrder(files, e) && |files[0]| >= capacity && FirstNotAfter(files[0], e.time) == 1
  }

  /** What replaces the full current file when e is put out of order: everything but the newest entry, and e. */
  function Displaced(current: seq<RunLogEntry>, e: RunLogEntry): seq<RunLogEntry>
    requires current != []
  {
    if FirstNotAfter(current, e.time) == 1 then current[1..] else Insert(current[1..], e)
  }

  /** One Put of e into a log whose backing files hold at most the given number of entries. */
  function FilePut(files: Files, capacity: nat, maxHistories: nat, e: RunLogEntry): PutResult
    requires files != []
  {
    if IsTooEarly(files, e) then TooEarly
    else if |files[0]| < capacity then Stored([Insert(files[0], e)] + files[1..])
    else if InOrder(files, e) then Stored(Kept([[e]] + files, maxHistories))
    else Stored(Kept([[files[0][0]], Displaced(files[0], e)] + files[1..], maxHistories))
  }

  // ---------- Flattening ----------

  lemma {:induction false} FlattenConcat(a: Files, b: Files)
    ensures Flatten(a + b) == Flatten(a) + Flatten(b)
  {
    if a == [] {
      assert a + b == b;
    } else {
      FlattenConcat(a[1..], b);
      assert (a + b)[1..] == a[1..] + b;
      assert a[0] + (Flatten(a[1..]) + Flatten(b)) == (a[0] + Flatten(a[1..])) + Flatten(b);
    }
  }

  lemma FlattenHead(f: seq<RunLogEntry>, rest: Files)
    ensures Flatten([f] + rest) == f + Flatten(rest)
  {
  }

  lemma FlattenTwo(f: seq<RunLogEntry>, g: seq<RunLogEntry>, rest: Files)
    ensures Flatten([f, g] + rest) == f + g + Flatten(rest)
  {
  }

  /** A rotation drops the oldest file, whole, and nothing else. */
  lemma KeptIsPrefix(files: Files, maxHistories: nat)
    ensures |Flatten(Kept(files, maxHistories))| <= |Flatten(files)|
    ensures Flatten(Kept(files, maxHistories)) == Flatten(files)[..|Flatten(Kept(files, maxHistories))|]
    ensures |files| <= maxHistories + 1 ==> Kept(files, maxHistories) == files
    ensures |files| == maxHistories + 2 ==>
              Flatten(files) == Flatten(Kept(files, maxHistories)) + files[maxHistories + 1]
  {
    if |files| > maxHistories + 1 {
      assert files == files[..maxHistories + 1] + files[maxHistories + 1..];
      FlattenConcat(files[..maxHistories + 1], files[maxHistories + 1..]);
      if |files| == maxHistories + 2 {
        assert files[maxHistories + 1..] == [files[maxHistories + 1]] + [];
        FlattenHead(files[maxHistories + 1], []);
      }
    }
  }

  // ---------- One Put ----------

  /** A log that has something in its current file unless it is empty throughout, and is newest first. */
  ghost predicate Chronological(files: Files) {
    && files != []
    && Sorted(Flatten(files))
    && (files[0] == [] ==> Flatten(files) == [])
  }

  lemma DisplacedInserts(current: seq<RunLogEntry>, e: RunLogEntry)
    requires current != [] && current[0].time > e.time && FirstNotAfter(current, e.time) != 1
    ensures [current[0]] + Displaced(current, e) == Insert(current, e)
  {
    var k, tail := FirstNotAfter(current, e.time), current[1..];
    TailFirstNotAfter(current, e.time);
    assert current == [current[0]] + tail;
    hide FirstNotAfter;
    SpliceCons(current[0], tail, e, k - 1);
  }

  lemma TailFirstNotAfter(current: seq<RunLogEntry>, t: int)
    requires current != [] && current[0].time > t
    ensures FirstNotAfter(current, t) == FirstNotAfter(current[1..], t) + 1
  {
  }

  lemma SpliceCons(first: RunLogEntry, tail: seq<RunLogEntry>, e: RunLogEntry, k: nat)
    requires k <= |tail|
    ensures [first] + (tail[..k] + [e] + tail[k..]) ==
            ([first] + tail)[..k + 1] + [e] + ([first] + tail)[k + 1..]
  {
  }

  /** Inserting where the first part has a place for e, or both parts are empty, stays within the first part. */
  lemma InsertConcat(a: seq<RunLogEntry>, b: seq<RunLogEntry>, e: RunLogEntry)
    requires FirstNotAfter(a, e.time) < |a| || b == []
    ensures Insert(a + b, e) == Insert(a, e) + b
  {
    FirstNotAfterConcat(a, b, e.time);
    SpliceConcat(a, b, e, FirstNotAfter(a, e.time));
    if b == [] {
      assert a + b == a && Insert(a, e) + b == Insert(a, e);
    }
  }

  lemma SpliceConcat(a: seq<RunLogEntry>, b: seq<RunLogEntry>, e: RunLogEntry, k: nat)
    requires k <= |a|
    ensures (a + b)[..k] + [e] + (a + b)[k..] == (a[..k] + [e] + a[k..]) + b
  {
  }

  /** The part of a Put before any rotation drops a file: the files, and e inserted at its stable place. */
  lemma UnrotatedInserts(files: Files, capacity: nat, e: RunLogEntry)
    requires Chronological(files) && !IsTooEarly(files, e) && !IsLost(files, capacity, e)
    ensures Flatten([Insert(files[0], e)] + files[1..]) == Insert(Flatten(files), e)
    ensures InOrder(files, e) ==> Flatten([[e]] + files) == Insert(Flatten(files), e)
    ensures |files[0]| >= capacity && !InOrder(files, e) ==>
              Flatten([[files[0][0]], Displaced(files[0], e)] + files[1..]) == Insert(Flatten(files), e)
  {
    hide Insert, Sorted;
    var current, older := files[0], Flatten(files[1..]);
    assert Flatten(files) == current + older;
    InsertConcat(current, older, e);
    FlattenHead(Insert(current, e), files[1..]);
    if InOrder(files, e) {
      InsertOnTop(files, e);
    } else if |current| >= capacity {
      DisplacedInserts(current, e);
      FlattenTwo([current[0]], Displaced(current, e), files[1..]);
    }
  }

  lemma InsertOnTop(files: Files, e: RunLogEntry)
    requires files != [] && InOrder(files, e) && (files[0] == [] ==> Flatten(files) == [])
    ensures Flatten([[e]] + files) == Insert(Flatten(files), e)
  {
  }

  /**
   Main result for one Put, in or out of order: unless the entry is refused or lost, the log holds
   what it held plus the entry at its stable sorted place, less what a rotation dropped at the old end.
   */
  lemma PutInserts(files: Files, capacity: nat, maxHistories: nat, e: RunLogEntry)
    requires Chronological(files) && !IsTooEarly(files, e) && !IsLost(files, capacity, e)
    ensures var r := FilePut(files, capacity, maxHistories, e);
            && r.Stored? && Chronological(r.files)
            && |Flatten(r.files)| <= |Flatten(files)| + 1
            && Flatten(r.files) == Insert(Flatten(files), e)[..|Flatten(r.files)|]
  {
    UnrotatedInserts(files, capacity, e);
    InsertSorted(Flatten(files), e);
    if |files[0]| >= capacity {
      var unrotated := if InOrder(files, e) then [[e]] + files
                       else [[files[0][0]], Displaced(files[0], e)] + files[1..];
      KeptIsPrefix(unrotated, maxHistories);
    } else {
      assert Insert(Flatten(files), e)[..|Insert(Flatten(files), e)|] == Insert(Flatten(files), e);
    }
  }

  /** A lost entry leaves the log with what it held, less what the rotation dropped: no place holds the entry. */
  lemma LostLeavesContents(files: Files, capacity: nat, maxHistories: nat, e: RunLogEntry)
    requires Chronological(files) && IsLost(files, capacity, e)
    ensures var r := FilePut(files, capacity, maxHistories, e);
            && r.Stored? && Chronological(r.files)
            && |Flatten(r.files)| <= |Flatten(files)|
            && Flatten(r.files) == Flatten(files)[..|Flatten(r.files)|]
  {
    var unrotated := [[files[0][0]], files[0][1..]] + files[1..];
    FlattenTwo([files[0][0]], files[0][1..], files[1..]);
    assert [files[0][0]] + files[0][1..] == files[0];
    KeptIsPrefix(unrotated, maxHistories);
  }

  /** The place directly below the newest entry of a full file, in terms of times alone. */
  ghost predicate DirectlyBelowNewest(current: seq<RunLogEntry>, t: int) {
    current != [] && t < current[0].time && forall i | 1 <= i < |current| :: current[i].time <= t
  }

  lemma LostIff(files: Files, capacity: nat, e: RunLogEntry)
    requires files != [] && Sorted(files[0]) && !IsTooEarly(files, e)
    ensures IsLost(files, capacity, e) <==> |files[0]| >= capacity && DirectlyBelowNewest(files[0], e.time)
  {
    var current := files[0];
    if DirectlyBelowNewest(current, e.time) {
      FirstNotAfterUnique(current, e.time, 1);
    }
  }

  lemma CurrentSorted(files: Files)
    requires files != [] && Sorted(Flatten(files))
    ensures Sorted(files[0])
  {
    assert Flatten(files) == files[0] + Flatten(files[1..]);
    forall i, j | 0 <= i < j < |files[0]| ensures files[0][i].time >= files[0][j].time {
      assert Flatten(files)[i] == files[0][i] && Flatten(files)[j] == files[0][j];
    }
  }

  /**
   Exactly when an accepted Put writes its entry, when no file is dropped: the multiset of entries grows by e
   if and only if it is not the case that the current file is full, its newest entry is later than e, and no other is.
   */
  lemma PutConservesIffNotLost(files: Files, capacity: nat, maxHistories: nat, e: RunLogEntry)
    requires Chronological(files) && |files| <= maxHistories
    requires FilePut(files, capacity, maxHistories, e).Stored?
    ensures multiset(Flatten(FilePut(files, capacity, maxHistories, e).files)) == multiset(Flatten(files)) + multiset{e}
            <==> !(|files[0]| >= capacity && DirectlyBelowNewest(files[0], e.time))
  {
    CurrentSorted(files);
    LostIff(files, capacity, e);
    hide Sorted, DirectlyBelowNewest;
    var r := FilePut(files, capacity, maxHistories, e).files;
    if IsLost(files, capacity, e) {
      LostLeavesContents(files, capacity, maxHistories, e);
      assert |multiset(Flatten(r))| <= |multiset(Flatten(files))|;
    } else {
      UnrotatedInserts(files, capacity, e);
      InsertMultiset(Flatten(files), e);
      assert Flatten(r) == Insert(Flatten(files), e);
    }
  }

  /**
   Exactly when a Put is refused: the current file has entries, and every one of them is later than e. Entries in the
   histories do not matter, nor does whether the file is full.
   */
  lemma RefusedIff(files: Files, capacity: nat, maxHistories: nat, e: RunLogEntry)
    requires files != [] && Sorted(files[0])
    ensures FilePut(files, capacity, maxHistories, e) == TooEarly <==> AllLater(files[0], e.time)
  {
  }

  /** There are entries, and all of them are later than t. */
  ghost predicate AllLater(current: seq<RunLogEntry>, t: int) {
    current != [] && forall i | 0 <= i < |current| :: current[i].time > t
  }

  /** No file holds more entries than it has room for; one is always written. */
  ghost predicate WithinCapacity(files: Files, capacity: nat) {
    forall i | 0 <= i < |files| :: |files[i]| <= if capacity == 0 then 1 else capacity
  }

  lemma PutKeepsCapacity(files: Files, capacity: nat, maxHistories: nat, e: RunLogEntry)
    requires files != [] && WithinCapacity(files, capacity) && FilePut(files, capacity, maxHistories, e).Stored?
    ensures WithinCapacity(FilePut(files, capacity, maxHistories, e).files, capacity)
  {
    hide FirstNotAfter;
  }

  /**
   A Put out of order that finds the current file full starts a new one with the newest entry alone; the history keeps
   all the others, and e with them unless it is lost.
   */
  lemma RotationSplits(files: Files, capacity: nat, maxHistories: nat, e: RunLogEntry)
    requires files != [] && Sorted(files[0]) && files[0] != [] && |files[0]| >= capacity && maxHistories >= 1
    requires files[0][|files[0]| - 1].time <= e.time < files[0][0].time
    ensures var r := FilePut(files, capacity, maxHistories, e);
            && r.Stored? && |r.files| >= 2 && r.files[0] == [files[0][0]]
            && Sorted(r.files[1])
            && multiset(r.files[1]) == multiset(files[0][1..]) +
                                       if DirectlyBelowNewest(files[0], e.time) then multiset{} else multiset{e}
  {
    LostIff(files, capacity, e);
    DisplacedSorted(files[0], e);
    InsertMultiset(files[0][1..], e);
    hide Sorted, DirectlyBelowNewest, Insert;
  }

  ghost predicate EachSorted(files: Files) {
    forall i | 0 <= i < |files| :: Sorted(files[i])
  }

  /** A Put keeps every single file newest first, whatever the files held. */
  lemma PutKeepsEachSorted(files: Files, capacity: nat, maxHistories: nat, e: RunLogEntry)
    requires files != [] && EachSorted(files) && !IsTooEarly(files, e)
    ensures EachSorted(FilePut(files, capacity, maxHistories, e).files)
  {
    hide Sorted, Insert, FirstNotAfter;
    InsertSorted(files[0], e);
    SingleSorted(e);
    if files[0] != [] {
      SingleSorted(files[0][0]);
      DisplacedSorted(files[0], e);
    }
  }

  lemma SingleSorted(e: RunLogEntry)
    ensures Sorted([e])
  {
  }

  lemma DisplacedSorted(current: seq<RunLogEntry>, e: RunLogEntry)
    requires current != [] && Sorted(current)
    ensures Sorted(Displaced(current, e))
  {
    InsertSorted(current[1..], e);
  }

  lemma KeptOnTop(rest: Files, e: RunLogEntry, maxHistories: nat)
    ensures var kept := Kept([[]] + rest, maxHistories);
            Kept([[e]] + rest, maxHistories) == [[e] + kept[0]] + kept[1..]
  {
    var kept := Kept([[]] + rest, maxHistories);
    assert kept[0] == [] && [e] + kept[0] == [e];
    assert |rest| + 1 <= maxHistories + 1 ==> kept[1..] == rest;
    assert |rest| + 1 > maxHistories + 1 ==> kept[1..] == rest[..maxHistories];
  }

  /** What a Put does to the list of files when e is in order: one entry on top, perhaps in a new file. */
  lemma PutInOrderPushes(files: Files, capacity: nat, maxHistories: nat, e: RunLogEntry)
    requires files != [] && InOrder(files, e) && !IsTooEarly(files, e)
    ensures var rotated := if |files[0]| >= capacity then Kept([[]] + files, maxHistories) else files;
            FilePut(files, capacity, maxHistories, e) == Stored([[e] + rotated[0]] + rotated[1..])
  {
    FirstNotAfterUnique(files[0], e.time, 0);
    if |files[0]| >= capacity {
      KeptOnTop(files, e, maxHistories);
    } else {
      assert Insert(files[0], e) == [e] + files[0];
    }
  }

  /** Entries j and below, with e put above entry k and those below it once they are reached. */
  function CopiedAt(current: seq<RunLogEntry>, e: RunLogEntry, k: nat, j: nat): seq<RunLogEntry>
    requires j <= |current| && k <= |current|
  {
    if j < k then current[j..k] + [e] + current[k..] else current[j..]
  }

  /** putOutOfOrder's copy of entries j and below, with e in its place if the copy has come to it. */
  function Copied(current: seq<RunLogEntry>, e: RunLogEntry, j: nat): seq<RunLogEntry>
    requires j <= |current|
  {
    CopiedAt(current, e, FirstNotAfter(current, e.time), j)
  }

  lemma CopiedNothing(current: seq<RunLogEntry>, e: RunLogEntry, k: nat)
    requires k <= |current|
    ensures CopiedAt(current, e, k, |current|) == []
  {
  }

  /** The copy loop, one entry further. */
  lemma CopiedStep(current: seq<RunLogEntry>, e: RunLogEntry, k: nat, j: nat)
    requires j < |current| && k <= |current|
    ensures CopiedAt(current, e, k, j) ==
            if j + 1 == k then [current[j]] + ([e] + CopiedAt(current, e, k, j + 1))
            else [current[j]] + CopiedAt(current, e, k, j + 1)
  {
  }

  /** What the finished copy is: with e inserted, or without the newest entry and e inserted if it was met. */
  lemma CopiedAll(current: seq<RunLogEntry>, e: RunLogEntry)
    requires current != [] && current[0].time > e.time
    ensures Copied(current, e, 0) == Insert(current, e)
    ensures Copied(current, e, 1) == Displaced(current, e)
  {
  }

  /** What a Put out of order does to the list of files, by way of the copy. */
  lemma PutOutOfOrderCopies(files: Files, capacity: nat, maxHistories: nat, e: RunLogEntry)
    requires files != [] && !InOrder(files, e) && !IsTooEarly(files, e)
    ensures FilePut(files, capacity, maxHistories, e) ==
            if |files[0]| < capacity then Stored([Copied(files[0], e, 0)] + files[1..])
            else
              var kept := Kept([[]] + ([Copied(files[0], e, 1)] + files[1..]), maxHistories);
              Stored([[files[0][0]] + kept[0]] + kept[1..])
  {
    CopiedAll(files[0], e);
    if |files[0]| >= capacity {
      var rest := [Copied(files[0], e, 1)] + files[1..];
      KeptOnTop(rest, files[0][0], maxHistories);
      assert [[files[0][0]]] + rest == [[files[0][0]], Displaced(files[0], e)] + files[1..];
    }
  }

  // ---------- Whole runs ----------

  /** The files after putting everything in puts, in order, into an empty log; refused Puts change nothing. */
  function FileRun(puts: seq<RunLogEntry>, capacity: nat, maxHistories: nat): (files: Files)
    ensures files != []
  {
    if puts == [] then [[]]
    else
      var before := FileRun(puts[..|puts| - 1], capacity, maxHistories);
      var r := FilePut(before, capacity, maxHistories, puts[|puts| - 1]);
      if r.Stored? then r.files else before
  }

  /** Those of the Puts that were neither refused nor lost, in the order they were put. */
  function Written(puts: seq<RunLogEntry>, capacity: nat, maxHistories: nat): seq<RunLogEntry> {
    if puts == [] then []
    else
      var before := FileRun(puts[..|puts| - 1], capacity, maxHistories);
      var e := puts[|puts| - 1];
      Written(puts[..|puts| - 1], capacity, maxHistories) +
      if IsTooEarly(before, e) || IsLost(before, capacity, e) then [] else [e]
  }

  /** After any run of Puts, in whatever order of times, no file holds more entries than it has room for. */
  lemma {:induction false} RunKeepsCapacity(puts: seq<RunLogEntry>, capacity: nat, maxHistories: nat)
    ensures WithinCapacity(FileRun(puts, capacity, maxHistories), capacity)
  {
    if puts != [] {
      var init, e := puts[..|puts| - 1], puts[|puts| - 1];
      RunKeepsCapacity(init, capacity, maxHistories);
      var before: Files := FileRun(init, capacity, maxHistories);
      hide WithinCapacity;
      if FilePut(before, capacity, maxHistories, e).Stored? {
        PutKeepsCapacity(before, capacity, maxHistories, e);
      }
    }
  }

  lemma InsertIntoPrefix(s: seq<RunLogEntry>, n: nat, e: RunLogEntry, m: nat)
    requires n <= |s| && m <= n + 1
    requires FirstNotAfter(s[..n], e.time) < n || n == |s|
    ensures Insert(s[..n], e)[..m] == Insert(s, e)[..m]
  {
    assert s == s[..n] + s[n..];
    FirstNotAfterConcat(s[..n], s[n..], e.time);
  }

  /** The log is newest first and holds exactly the newest entries of the stable sort of what was written. */
  ghost predicate HoldsNewest(files: Files, written: seq<RunLogEntry>) {
    && Chronological(files)
    && |Flatten(files)| <= |InsertAll(written)|
    && Flatten(files) == InsertAll(written)[..|Flatten(files)|]
    && (Flatten(files) == [] ==> InsertAll(written) == [])
  }

  lemma StepLost(files: Files, written: seq<RunLogEntry>, capacity: nat, maxHistories: nat, e: RunLogEntry)
    requires HoldsNewest(files, written) && IsLost(files, capacity, e)
    ensures var r := FilePut(files, capacity, maxHistories, e); r.Stored? && HoldsNewest(r.files, written)
  {
    LostLeavesContents(files, capacity, maxHistories, e);
    var after := FilePut(files, capacity, maxHistories, e).files;
    assert after[0] == [files[0][0]];
    FlattenHead(after[0], after[1..]);
    assert InsertAll(written)[..|Flatten(files)|][..|Flatten(after)|] == InsertAll(written)[..|Flatten(after)|];
  }

  lemma StepWritten(files: Files, written: seq<RunLogEntry>, capacity: nat, maxHistories: nat, e: RunLogEntry)
    requires HoldsNewest(files, written) && !IsTooEarly(files, e) && !IsLost(files, capacity, e)
    ensures var r := FilePut(files, capacity, maxHistories, e); r.Stored? && HoldsNewest(r.files, written + [e])
  {
    PutInserts(files, capacity, maxHistories, e);
    hide Sorted, Insert;
    var after := FilePut(files, capacity, maxHistories, e).files;
    var all := InsertAll(written);
    assert (written + [e])[..|written + [e]| - 1] == written;
    assert InsertAll(written + [e]) == Insert(all, e);
    FirstNotAfterConcat(files[0], Flatten(files[1..]), e.time);
    InsertLength(Flatten(files), e);
    InsertLength(all, e);
    InsertIntoPrefix(all, |Flatten(files)|, e, |Flatten(after)|);
    NonEmptyAfterPut(files, capacity, maxHistories, e);
  }

  lemma InsertLength(s: seq<RunLogEntry>, e: RunLogEntry)
    ensures |Insert(s, e)| == |s| + 1
  {
  }

  lemma NonEmptyAfterPut(files: Files, capacity: nat, maxHistories: nat, e: RunLogEntry)
    requires files != [] && !IsTooEarly(files, e)
    ensures Flatten(FilePut(files, capacity, maxHistories, e).files) != []
  {
  }

  /**
   Main result for whole runs: whatever is put, in whatever order of times, the log is newest first and holds
   exactly the newest entries of the stable sort of everything written. Nothing is out of place, and
   what is missing is missing from the old end.
   */
  lemma {:induction false} RunHoldsNewest(puts: seq<RunLogEntry>, capacity: nat, maxHistories: nat)
    ensures HoldsNewest(FileRun(puts, capacity, maxHistories), Written(puts, capacity, maxHistories))
  {
    if puts == [] {
      FlattenHead([], []);
    } else {
      var init, e := puts[..|puts| - 1], puts[|puts| - 1];
      RunHoldsNewest(init, capacity, maxHistories);
      var before, written := FileRun(init, capacity, maxHistories), Written(init, capacity, maxHistories);
      assert written + [] == written;
      if IsLost(before, capacity, e) {
        StepLost(before, written, capacity, maxHistories, e);
      } else if !IsTooEarly(before, e) {
        StepWritten(before, written, capacity, maxHistories, e);
      }
    }
  }
}
