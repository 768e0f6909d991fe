/**
 What the queries of a file run log answer, as functions of its files and of how stale its index is.

 An out-of-order Put without rotation grows the current file but leaves the start indexes of the histories as
 they were, so they lag behind by one more; the next makeIndex repairs them.
 */
module FileLogQueries {
  import opened Wrappers
  import opened RunLogEntries
  import opened Chronology
  import opened FileLogSpec

  const SECOND := 1_000_000_000

  /** The number of entries in the files before file i. */
  function StartOf(files: Files, i: nat): nat
    requires i <= |files|
  {
    if i == 0 then 0 else |files[0]| + StartOf(files[1..], i - 1)
  }

  lemma StartOfFirst(files: Files)
    requires files != []
    ensures StartOf(files, 0) == 0 && StartOf(files, 1) == |files[0]|
  {
  }

  lemma {:induction false} StartOfNext(files: Files, i: nat)
    requires i < |files|
    ensures StartOf(files, i + 1) == StartOf(files, i) + |files[i]|
  {
    if i > 0 {
      StartOfNext(files[1..], i - 1);
    }
  }

  lemma {:induction false} StartOfEnd(files: Files)
    ensures StartOf(files, |files|) == |Flatten(files)|
  {
    if files != [] {
      StartOfEnd(files[1..]);
    }
  }

  lemma {:induction false} StartOfMonotone(files: Files, i: nat, j: nat)
    requires i <= j <= |files|
    ensures StartOf(files, i) <= StartOf(files, j)
  {
    if i < j {
      StartOfMonotone(files, i, j - 1);
      StartOfNext(files, j - 1);
    }
  }

  /** Entry r of file i stands at position StartOf(i) + r of the whole. */
  lemma {:induction false} EntryPosition(files: Files, i: nat, r: nat)
    requires i < |files| && r < |files[i]|
    ensures StartOf(files, i) + r < |Flatten(files)|
    ensures Flatten(files)[StartOf(files, i) + r] == files[i][r]
  {
    if i > 0 {
      EntryPosition(files[1..], i - 1, r);
    }
  }

  /** Start indexes depend on the sizes of the files alone. */
  lemma {:induction false} StartOfGrown(files: Files, f: seq<RunLogEntry>, i: nat)
    requires 1 <= i <= |files|
    ensures StartOf([f] + files[1..], i) == StartOf(files, i) - |files[0]| + |f|
  {
  }

  /** How far the start indexes of the histories lag after one Put. */
  function NextLag(files: Files, lag: nat, capacity: nat, maxHistories: nat, e: RunLogEntry): nat
    requires files != []
  {
    var full := |files[0]| >= capacity;
    if IsTooEarly(files, e) then lag
    else if InOrder(files, e) then (if full then 0 else lag)
    else if full then (if maxHistories == 0 then 0 else 1)
    else if |files| == 1 then 0
    else lag + 1
  }

  /** How far they lag after a run of Puts into an empty log. */
  function LagAfter(puts: seq<RunLogEntry>, capacity: nat, maxHistories: nat): nat {
    if puts == [] then 0
    else
      var init := puts[..|puts| - 1];
      NextLag(FileRun(init, capacity, maxHistories), LagAfter(init, capacity, maxHistories), capacity, maxHistories,
              puts[|puts| - 1])
  }

  /**
   Past the entries of a non-empty file the iterator is done exactly when it is at the end and the oldest file has
   entries.
   */
  lemma DoneAt(files: Files, i: nat, r: nat)
    requires i < |files| && r <= |files[i]| && files[i] != []
    ensures r == |files[i]| && i + 1 == |files|
            <==> StartOf(files, i) + r == |Flatten(files)| && files[|files| - 1] != []
  {
    FileEnd(files, i);
  }

  /** A position at or past file i is past the end when every file from i on is empty. */
  lemma EndIsLast(files: Files, i: nat)
    requires i < |files| && StartOf(files, i) == |Flatten(files)|
    ensures files[|files| - 1] == []
  {
    StartOfEnd(files);
    StartOfNext(files, |files| - 1);
    StartOfMonotone(files, i, |files| - 1);
  }

  /** The end of a non-empty file is the end of the log exactly when no later file has an entry. */
  lemma FileEnd(files: Files, i: nat)
    requires i < |files|
    ensures StartOf(files, i) + |files[i]| <= |Flatten(files)|
    ensures i + 1 == |files| ==> StartOf(files, i) + |files[i]| == |Flatten(files)|
    ensures i + 1 < |files| && StartOf(files, i) + |files[i]| == |Flatten(files)| ==> files[|files| - 1] == []
  {
    StartOfNext(files, i);
    StartOfEnd(files);
    StartOfMonotone(files, i + 1, |files|);
    if i + 1 < |files| && StartOf(files, i + 1) == |Flatten(files)| {
      EndIsLast(files, i + 1);
    }
  }

  // ---------- By index ----------

  /** Positions in the current file are never mistaken; without any, the index cannot lag. */
  lemma FirstPosition(files: Files, lag: nat)
    requires files != [] && Flatten(files) != [] && lag <= |files[0]|
    ensures IterPosition(files, lag, 0) == Returned(0)
  {
  }

  /** Where iterAt(idx) starts reading, as a position in the whole. */
  function IterPosition(files: Files, lag: nat, idx: int): Outcome<nat>
    requires files != []
  {
    if idx < 0 || idx >= |Flatten(files)| then Panicked
    else if idx < |files[0]| then Returned(idx)
    else if idx + lag < |Flatten(files)| then Returned(idx + lag)
    else Panicked
  }

  function IndexRange(files: Files, lag: nat, minIdx: int, maxIdx: int): Outcome<seq<RunLogEntry>>
    requires files != []
  {
    var all := Flatten(files);
    if minIdx > maxIdx || minIdx >= |all| || maxIdx > |all| then Panicked
    else
      var start := IterPosition(files, lag, minIdx);
      if start.Panicked? || start.value + (maxIdx - minIdx) > |all| then Panicked
      else Returned(all[start.value..start.value + (maxIdx - minIdx)])
  }

  /** Every valid range is answered by its slice, when the index is current or the range starts in the current file. */
  lemma IndexRangeIsSlice(files: Files, lag: nat, minIdx: nat, maxIdx: nat)
    requires files != [] && minIdx <= maxIdx <= |Flatten(files)| && minIdx < |Flatten(files)|
    requires lag == 0 || minIdx < |files[0]|
    ensures IndexRange(files, lag, minIdx, maxIdx) == Returned(Flatten(files)[minIdx..maxIdx])
  {
  }

  /** With a current index GetFromIndex panics exactly on ranges outside the log, and answers others by their slice. */
  lemma IndexRangeExact(files: Files, minIdx: int, maxIdx: int)
    requires files != []
    ensures IndexRange(files, 0, minIdx, maxIdx) ==
            if 0 <= minIdx <= maxIdx <= |Flatten(files)| && minIdx < |Flatten(files)|
            then Returned(Flatten(files)[minIdx..maxIdx]) else Panicked
  {
  }

  /**
   Exactly when a query "everything from minIdx on" is answered: the index is current or the first entry asked for
   is in the current file. Otherwise the query panics.
   */
  lemma IndexToEndIff(files: Files, lag: nat, minIdx: nat)
    requires files != [] && minIdx < |Flatten(files)|
    ensures IndexRange(files, lag, minIdx, |Flatten(files)|) == Returned(Flatten(files)[minIdx..])
            <==> lag == 0 || minIdx < |files[0]|
    ensures !(lag == 0 || minIdx < |files[0]|) ==> IndexRange(files, lag, minIdx, |Flatten(files)|) == Panicked
  {
    assert Flatten(files)[minIdx..|Flatten(files)|] == Flatten(files)[minIdx..];
  }

  // ---------- All ----------

  /** GetAll walks to the end of the oldest file, and the iterator panics when that file is empty. */
  function Everything(files: Files): Outcome<seq<RunLogEntry>>
    requires files != []
  {
    if Flatten(files) == [] then Returned([])
    else if files[|files| - 1] == [] then Panicked
    else Returned(Flatten(files))
  }

  // ---------- By time ----------

  /** The first file whose span contains t, or the number of files. */
  function HitFile(files: Files, t: int): (i: nat)
    ensures i <= |files|
    ensures i < |files| ==> files[i] != [] && files[i][|files[i]| - 1].time <= t <= files[i][0].time
    ensures forall j | 0 <= j < i :: files[j] != [] ==> !(files[j][|files[j]| - 1].time <= t <= files[j][0].time)
  {
    if files == [] then 0
    else if files[0] != [] && files[0][|files[0]| - 1].time <= t <= files[0][0].time then 0
    else 1 + HitFile(files[1..], t)
  }

  lemma EverythingRead(files: Files)
    requires files != [] && Flatten(files) != []
    ensures Everything(files) ==
            if files[|files| - 1] == [] then Panicked else Returned(Flatten(files)[..|Flatten(files)|])
  {
    assert Flatten(files)[..|Flatten(files)|] == Flatten(files);
  }

  // The cases of the answers, one by one.

  lemma IndexRangeRefused(files: Files, lag: nat, minIdx: int, maxIdx: int)
    requires files != []
    requires minIdx > maxIdx || minIdx >= |Flatten(files)| || maxIdx > |Flatten(files)| ||
             IterPosition(files, lag, minIdx).Panicked?
    ensures IndexRange(files, lag, minIdx, maxIdx) == Panicked
  {
  }

  lemma IndexRangeFrom(files: Files, lag: nat, minIdx: int, maxIdx: int, start: nat)
    requires files != [] && minIdx <= maxIdx <= |Flatten(files)| && minIdx < |Flatten(files)|
    requires IterPosition(files, lag, minIdx) == Returned(start)
    ensures start <= |Flatten(files)|
    ensures IndexRange(files, lag, minIdx, maxIdx) ==
            if start + (maxIdx - minIdx) > |Flatten(files)| then Panicked
            else Returned(Flatten(files)[start..start + (maxIdx - minIdx)])
  {
  }

  lemma TimeRangeFrom(files: Files, lag: nat, maxTime: int, minTime: int, idx: int)
    requires files != [] && Flatten(files) != [] && minTime <= maxTime
    requires if HitFile(files, maxTime) == |files| then idx == -1
             else idx == StartOf(files, HitFile(files, maxTime)) +
                         FirstNotAfter(files[HitFile(files, maxTime)], maxTime) -
                         if HitFile(files, maxTime) == 0 then 0 else lag
    requires idx == -1 <==> HitFile(files, maxTime) == |files|
    ensures IterPosition(files, lag, idx).Returned? ==> IterPosition(files, lag, idx).value <= |Flatten(files)|
    ensures TimeRange(files, lag, maxTime, minTime) ==
            if idx == -1 then Returned([])
            else if IterPosition(files, lag, idx).Panicked? then Panicked
            else LatestFrom(files, IterPosition(files, lag, idx).value, minTime)
  {
  }

  lemma TimeRangeRefused(files: Files, lag: nat, maxTime: int, minTime: int)
    requires files != []
    ensures Flatten(files) == [] ==> TimeRange(files, lag, maxTime, minTime) == Returned([])
    ensures Flatten(files) != [] && maxTime < minTime ==> TimeRange(files, lag, maxTime, minTime) == Panicked
  {
  }

  /** The reading loop has met an entry that is too old, or the end of the log. */
  lemma LatestFromStops(files: Files, start: nat, minTime: int, n: nat)
    requires files != [] && start + n <= |Flatten(files)|
    requires forall k | start <= k < start + n :: Flatten(files)[k].time > minTime
    requires start + n < |Flatten(files)| ==> Flatten(files)[start + n].time <= minTime
    ensures LatestFrom(files, start, minTime) ==
            if start + n == |Flatten(files)| && files[|files| - 1] == [] then Panicked
            else Returned(Flatten(files)[start..start + n])
  {
    var rest := Flatten(files)[start..];
    FirstNotAfterUnique(rest, minTime, n);
    assert rest[..n] == Flatten(files)[start..start + n];
  }

  lemma {:induction false} HitFileUnique(files: Files, t: int, i: nat)
    requires i <= |files|
    requires i < |files| ==> files[i] != [] && files[i][|files[i]| - 1].time <= t <= files[i][0].time
    requires forall j | 0 <= j < i :: files[j] != [] ==> !(files[j][|files[j]| - 1].time <= t <= files[j][0].time)
    ensures HitFile(files, t) == i
  {
  }

  /** The time before which GetFromTime looks at nothing, when the caller gives none. */
  function DefaultMinTime(files: Files, zeroTime: int): int
    requires files != []
  {
    var oldest := files[|files| - 1];
    (if oldest == [] then zeroTime else oldest[|oldest| - 1].time) - SECOND
  }

  function LatestFrom(files: Files, start: nat, minTime: int): Outcome<seq<RunLogEntry>>
    requires files != [] && start <= |Flatten(files)|
  {
    var rest := Flatten(files)[start..];
    var n := FirstNotAfter(rest, minTime);
    if n == |rest| && files[|files| - 1] == [] then Panicked else Returned(rest[..n])
  }

  function TimeRange(files: Files, lag: nat, maxTime: int, minTime: int): Outcome<seq<RunLogEntry>>
    requires files != []
  {
    if Flatten(files) == [] then Returned([])
    else if maxTime < minTime then Panicked
    else
      var i := HitFile(files, maxTime);
      if i == |files| then Returned([])
      else
        var idx := StartOf(files, i) + FirstNotAfter(files[i], maxTime) - if i == 0 then 0 else lag;
        var start := IterPosition(files, lag, idx);
        if start.Panicked? then Panicked else LatestFrom(files, start.value, minTime)
  }

  /** The entries no later than maxTime but later than minTime, newest first. */
  function Window(s: seq<RunLogEntry>, maxTime: int, minTime: int): seq<RunLogEntry> {
    if s == [] then []
    else (if minTime < s[0].time <= maxTime then [s[0]] else []) + Window(s[1..], maxTime, minTime)
  }

  lemma {:induction false} WindowEmpty(s: seq<RunLogEntry>, maxTime: int, minTime: int)
    ensures Window(s, maxTime, minTime) == [] <==> forall j | 0 <= j < |s| :: !(minTime < s[j].time <= maxTime)
  {
    if s != [] {
      WindowEmpty(s[1..], maxTime, minTime);
      assert forall j | 1 <= j < |s| :: s[j] == s[1..][j - 1];
    }
  }

  lemma {:induction false} WindowConcat(a: seq<RunLogEntry>, b: seq<RunLogEntry>, maxTime: int, minTime: int)
    ensures Window(a + b, maxTime, minTime) == Window(a, maxTime, minTime) + Window(b, maxTime, minTime)
  {
    if a == [] {
      assert a + b == b;
    } else {
      WindowConcat(a[1..], b, maxTime, minTime);
      assert (a + b)[1..] == a[1..] + b;
      var head := if minTime < a[0].time <= maxTime then [a[0]] else [];
      var front, back := Window(a[1..], maxTime, minTime), Window(b, maxTime, minTime);
      assert head + (front + back) == (head + front) + back;
    }
  }

  lemma {:induction false} WindowFull(s: seq<RunLogEntry>, maxTime: int, minTime: int)
    requires forall j | 0 <= j < |s| :: minTime < s[j].time <= maxTime
    ensures Window(s, maxTime, minTime) == s
  {
    if s != [] {
      WindowFull(s[1..], maxTime, minTime);
    }
  }

  /** In a newest-first sequence the window is the stretch between the two insertion points. */
  lemma WindowIsStretch(s: seq<RunLogEntry>, maxTime: int, minTime: int)
    requires Sorted(s) && minTime <= maxTime
    ensures FirstNotAfter(s, maxTime) <= FirstNotAfter(s, minTime)
    ensures Window(s, maxTime, minTime) == s[FirstNotAfter(s, maxTime)..FirstNotAfter(s, minTime)]
  {
    var from, to := FirstNotAfter(s, maxTime), FirstNotAfter(s, minTime);
    WindowParts(s, maxTime, minTime);
    hide *;
    ThreeParts(s, from, to);
    WindowConcat(s[..from] + s[from..to], s[to..], maxTime, minTime);
    WindowConcat(s[..from], s[from..to], maxTime, minTime);
  }

  lemma WindowParts(s: seq<RunLogEntry>, maxTime: int, minTime: int)
    requires Sorted(s) && minTime <= maxTime
    ensures FirstNotAfter(s, maxTime) <= FirstNotAfter(s, minTime)
    ensures var from, to := FirstNotAfter(s, maxTime), FirstNotAfter(s, minTime);
            && Window(s[..from], maxTime, minTime) == []
            && Window(s[from..to], maxTime, minTime) == s[from..to]
            && Window(s[to..], maxTime, minTime) == []
  {
    hide FirstNotAfter, Window;
    forall j | FirstNotAfter(s, maxTime) <= j < FirstNotAfter(s, minTime) ensures minTime < s[j].time <= maxTime {
      assert s[j].time <= s[FirstNotAfter(s, maxTime)].time;
    }
    WindowEmpty(s[..FirstNotAfter(s, maxTime)], maxTime, minTime);
    WindowFull(s[FirstNotAfter(s, maxTime)..FirstNotAfter(s, minTime)], maxTime, minTime);
    WindowEmpty(s[FirstNotAfter(s, minTime)..], maxTime, minTime);
  }

  lemma {:induction false} FirstNotAfterDrop(s: seq<RunLogEntry>, n: nat, t: int)
    requires n <= FirstNotAfter(s, t)
    ensures n + FirstNotAfter(s[n..], t) == FirstNotAfter(s, t)
  {
  }

  /** In a newest-first log everything in a file is no earlier than anything in a later file. */
  lemma FilesDescend(files: Files, j: nat, i: nat, q: nat, r: nat)
    requires Sorted(Flatten(files))
    requires j < i < |files| && q < |files[j]| && r < |files[i]|
    ensures files[j][q].time >= files[i][r].time
  {
    EntryPosition(files, j, q);
    EntryPosition(files, i, r);
    StartOfNext(files, j);
    StartOfMonotone(files, j + 1, i);
  }

  lemma BeforeHit(files: Files, t: int, j: nat, q: nat)
    requires Sorted(Flatten(files)) && HitFile(files, t) < |files|
    requires j < HitFile(files, t) && q < |files[j]|
    ensures files[j][q].time > t
  {
    var i := HitFile(files, t);
    var last := |files[j]| - 1;
    FilesDescend(files, j, i, last, 0);
    FileSorted(files, j);
    assert files[j][q].time >= files[j][last].time >= t;
    assert files[j][0].time >= files[j][last].time;
  }

  /** Every position before the hit file's first entry not after t holds a later entry. */
  lemma PositionBeforeHit(files: Files, t: int, p: nat)
    requires Sorted(Flatten(files)) && HitFile(files, t) < |files|
    requires p < StartOf(files, HitFile(files, t)) + FirstNotAfter(files[HitFile(files, t)], t)
    ensures p < |Flatten(files)| && Flatten(files)[p].time > t
  {
    hide Flatten, Sorted, HitFile, FirstNotAfter;
    var i := HitFile(files, t);
    if p >= StartOf(files, i) {
      EntryPosition(files, i, p - StartOf(files, i));
    } else {
      var j := FileAt(files, p, i);
      EntryPosition(files, j, p - StartOf(files, j));
      BeforeHit(files, t, j, p - StartOf(files, j));
    }
  }

  /** The first entry not after t, in the whole, stands in the first file whose span contains t. */
  lemma HitPosition(files: Files, t: int)
    requires Sorted(Flatten(files)) && HitFile(files, t) < |files|
    ensures var i := HitFile(files, t);
            FirstNotAfter(Flatten(files), t) == StartOf(files, i) + FirstNotAfter(files[i], t) < |Flatten(files)|
  {
    hide Flatten, StartOf, Sorted, HitFile, FirstNotAfter;
    var i := HitFile(files, t);
    var k := StartOf(files, i) + FirstNotAfter(files[i], t);
    EntryPosition(files, i, FirstNotAfter(files[i], t));
    forall p | 0 <= p < k ensures Flatten(files)[p].time > t {
      PositionBeforeHit(files, t, p);
    }
    FirstNotAfterUnique(Flatten(files), t, k);
  }

  lemma {:induction false} FileAt(files: Files, p: nat, i: nat) returns (j: nat)
    requires i <= |files| && p < StartOf(files, i)
    ensures j < i && StartOf(files, j) <= p < StartOf(files, j) + |files[j]|
  {
    StartOfNext(files, i - 1);
    if StartOf(files, i - 1) <= p {
      j := i - 1;
    } else {
      j := FileAt(files, p, i - 1);
    }
  }

  /**
   A query by time is exact when maxTime lies in the span of some backing file: with a current index, a log that is
   newest first and a non-empty oldest file, it returns exactly the entries in the window.
   */
  lemma TimeRangeHit(files: Files, maxTime: int, minTime: int)
    requires files != [] && Sorted(Flatten(files)) && files[|files| - 1] != []
    requires minTime <= maxTime && HitFile(files, maxTime) < |files|
    ensures TimeRange(files, 0, maxTime, minTime) == Returned(Window(Flatten(files), maxTime, minTime))
  {
    hide Sorted, FirstNotAfter, Flatten, Window, StartOf;
    var flat := Flatten(files);
    HitPosition(files, maxTime);
    WindowIsStretch(flat, maxTime, minTime);
    var start := FirstNotAfter(flat, maxTime);
    IterAtCurrent(files, start);
    LatestFromStretch(files, start, minTime);
  }

  lemma IterAtCurrent(files: Files, idx: nat)
    requires files != [] && idx < |Flatten(files)|
    ensures IterPosition(files, 0, idx) == Returned(idx)
  {
  }

  lemma LatestFromStretch(files: Files, start: nat, minTime: int)
    requires files != [] && files[|files| - 1] != []
    requires start <= FirstNotAfter(Flatten(files), minTime)
    ensures LatestFrom(files, start, minTime) == Returned(Flatten(files)[start..FirstNotAfter(Flatten(files), minTime)])
  {
    var flat := Flatten(files);
    FirstNotAfterDrop(flat, start, minTime);
    assert flat[start..][..FirstNotAfter(flat, minTime) - start] == flat[start..FirstNotAfter(flat, minTime)];
  }

  /** Some file ends no later than maxTime but later than minTime. */
  ghost predicate EndsWithin(files: Files, maxTime: int, minTime: int) {
    exists i | 0 <= i < |files| :: files[i] != [] && minTime < files[i][0].time <= maxTime
  }

  /**
   When maxTime lies between the spans of the files, or past them all, the answer is empty. That is right exactly
   when no file ends within the window.
   */
  lemma TimeRangeMiss(files: Files, lag: nat, maxTime: int, minTime: int)
    requires files != [] && minTime <= maxTime && HitFile(files, maxTime) == |files|
    requires forall i | 0 <= i < |files| :: Sorted(files[i])
    ensures TimeRange(files, lag, maxTime, minTime) == Returned([])
    ensures Window(Flatten(files), maxTime, minTime) == [] <==> !EndsWithin(files, maxTime, minTime)
  {
    hide Window, Sorted, StartOf, HitFile;
    var flat := Flatten(files);
    WindowEmpty(flat, maxTime, minTime);
    hide Flatten;
    if i :| 0 <= i < |files| && files[i] != [] && minTime < files[i][0].time <= maxTime {
      EntryPosition(files, i, 0);
    }
    if p :| 0 <= p < |flat| && minTime < flat[p].time <= maxTime {
      var j := WithinMeansEnds(files, maxTime, minTime, p);
      assert files[j] != [] && minTime < files[j][0].time <= maxTime;
    }
  }

  /** An entry in the window, when maxTime is in no file's span, is in a file that ends within the window. */
  lemma WithinMeansEnds(files: Files, maxTime: int, minTime: int, p: nat) returns (j: nat)
    requires HitFile(files, maxTime) == |files|
    requires forall i | 0 <= i < |files| :: Sorted(files[i])
    requires p < |Flatten(files)| && minTime < Flatten(files)[p].time <= maxTime
    ensures j < |files| && files[j] != [] && minTime < files[j][0].time <= maxTime
  {
    hide Flatten, StartOf, HitFile;
    StartOfEnd(files);
    j := FileAt(files, p, |files|);
    EntryPosition(files, j, p - StartOf(files, j));
    assert files[j][|files[j]| - 1].time <= files[j][p - StartOf(files, j)].time <= files[j][0].time;
  }

  /**
   Main result for queries by time: with a current index the answer is what the interface promises if and only if
   maxTime lies in the span of some file or no file ends within the window.
   */
  lemma TimeRangeExactIff(files: Files, maxTime: int, minTime: int)
    requires files != [] && Sorted(Flatten(files)) && files[|files| - 1] != []
    requires minTime <= maxTime
    ensures TimeRange(files, 0, maxTime, minTime) == Returned(Window(Flatten(files), maxTime, minTime))
            <==> HitFile(files, maxTime) < |files| || !EndsWithin(files, maxTime, minTime)
  {
    if HitFile(files, maxTime) < |files| {
      TimeRangeHit(files, maxTime, minTime);
    } else {
      forall i | 0 <= i < |files| ensures Sorted(files[i]) { FileSorted(files, i); }
      TimeRangeMiss(files, 0, maxTime, minTime);
    }
  }

  lemma FileSorted(files: Files, i: nat)
    requires i < |files| && Sorted(Flatten(files))
    ensures Sorted(files[i])
  {
    forall a, b | 0 <= a < b < |files[i]| ensures files[i][a].time >= files[i][b].time {
      EntryPosition(files, i, a);
      EntryPosition(files, i, b);
    }
  }

  /** Asking for what is no later than a time past the newest entry answers nothing at all. */
  lemma PastTheNewest(files: Files, lag: nat, maxTime: int, minTime: int)
    requires Chronological(files) && minTime <= maxTime
    requires Flatten(files) != [] ==> Flatten(files)[0].time < maxTime
    ensures TimeRange(files, lag, maxTime, minTime) == Returned([])
  {
    var i := HitFile(files, maxTime);
    if i < |files| {
      EntryPosition(files, i, 0);
    }
  }

  /** With a lagging index a query by time is still right if it starts in the current file or lands past it. */
  lemma TimeRangeLagging(files: Files, lag: nat, maxTime: int, minTime: int)
    requires files != [] && lag <= |files[0]|
    requires var i := HitFile(files, maxTime);
             i == 0 || i == |files| || StartOf(files, i) + FirstNotAfter(files[i], maxTime) - lag >= |files[0]|
    ensures TimeRange(files, lag, maxTime, minTime) == TimeRange(files, 0, maxTime, minTime)
  {
    hide *;
    var i := HitFile(files, maxTime);
    if Flatten(files) == [] || maxTime < minTime {
      TimeRangeRefused(files, lag, maxTime, minTime);
      TimeRangeRefused(files, 0, maxTime, minTime);
    } else if i == |files| {
      TimeRangeFrom(files, lag, maxTime, minTime, -1);
      TimeRangeFrom(files, 0, maxTime, minTime, -1);
    } else {
      var p := StartOf(files, i) + FirstNotAfter(files[i], maxTime);
      EntryPosition(files, i, FirstNotAfter(files[i], maxTime));
      StartOfFirst(files);
      LaggingPosition(files, lag, i, p);
      TimeRangeFrom(files, lag, maxTime, minTime, p - if i == 0 then 0 else lag);
      TimeRangeFrom(files, 0, maxTime, minTime, p);
    }
  }

  /** In the current file a lagging index comes out too early. */
  lemma EarlyPosition(files: Files, lag: nat, i: nat, p: nat)
    requires files != [] && 0 < i && p < |Flatten(files)| && lag <= |files[0]| <= p && p - lag < |files[0]|
    ensures IterPosition(files, lag, p - lag) == Returned(p - lag) && IterPosition(files, 0, p) == Returned(p)
  {
  }

  /**
   Exactly when a lagging index does not matter to a query by time: the search hits the current file or nothing, or the
   index it computes still lies past the current file.
   */
  lemma TimeRangeLaggingIff(files: Files, lag: nat, maxTime: int, minTime: int)
    requires files != [] && lag <= |files[0]|
    requires Sorted(Flatten(files)) && files[|files| - 1] != [] && minTime <= maxTime
    ensures TimeRange(files, lag, maxTime, minTime) == TimeRange(files, 0, maxTime, minTime)
            <==> var i := HitFile(files, maxTime);
                 lag == 0 || i == 0 || i == |files| ||
                 StartOf(files, i) + FirstNotAfter(files[i], maxTime) - lag >= |files[0]|
  {
    hide *;
    var i := HitFile(files, maxTime);
    if lag > 0 && 0 < i < |files| && StartOf(files, i) + FirstNotAfter(files[i], maxTime) - lag < |files[0]| {
      LaggingDiffers(files, lag, maxTime, minTime);
    } else if lag > 0 {
      TimeRangeLagging(files, lag, maxTime, minTime);
    }
  }

  lemma LaggingDiffers(files: Files, lag: nat, maxTime: int, minTime: int)
    requires files != [] && 0 < lag <= |files[0]|
    requires Sorted(Flatten(files)) && files[|files| - 1] != [] && minTime <= maxTime
    requires 0 < HitFile(files, maxTime) < |files|
    requires var i := HitFile(files, maxTime);
             StartOf(files, i) + FirstNotAfter(files[i], maxTime) - lag < |files[0]|
    ensures TimeRange(files, lag, maxTime, minTime) != TimeRange(files, 0, maxTime, minTime)
  {
    hide *;
    var i, all := HitFile(files, maxTime), Flatten(files);
    var p := StartOf(files, i) + FirstNotAfter(files[i], maxTime);
    HitPosition(files, maxTime);
    StartOfFirst(files);
    StartOfMonotone(files, 1, i);
    WindowIsStretch(all, maxTime, minTime);
    EarlyPosition(files, lag, i, p);
    TimeRangeFrom(files, lag, maxTime, minTime, p - lag);
    TimeRangeFrom(files, 0, maxTime, minTime, p);
    LatestFromStretch(files, p - lag, minTime);
    LatestFromStretch(files, p, minTime);
    StretchesDiffer(all, p - lag, p, FirstNotAfter(all, minTime));
  }

  lemma StretchesDiffer(all: seq<RunLogEntry>, a: nat, b: nat, end: nat)
    requires a < b <= end <= |all|
    ensures all[a..end] != all[b..end]
  {
    assert |all[a..end]| != |all[b..end]|;
  }

  // ---------- By time, with one argument ----------

  /** The entries no later than t. */
  function NoLaterThan(s: seq<RunLogEntry>, t: int): seq<RunLogEntry> {
    if s == [] then [] else (if s[0].time <= t then [s[0]] else []) + NoLaterThan(s[1..], t)
  }

  lemma {:induction false} WindowFromBelow(s: seq<RunLogEntry>, maxTime: int, minTime: int)
    requires forall i | 0 <= i < |s| :: s[i].time > minTime
    ensures Window(s, maxTime, minTime) == NoLaterThan(s, maxTime)
  {
    if s != [] {
      WindowFromBelow(s[1..], maxTime, minTime);
    }
  }

  /** The oldest entry of a log whose oldest file has one. */
  lemma OldestEntry(files: Files)
    requires files != [] && files[|files| - 1] != []
    ensures var all, oldest := Flatten(files), files[|files| - 1];
            all != [] && all[|all| - 1] == oldest[|oldest| - 1]
  {
    var n := |files| - 1;
    StartOfEnd(files);
    StartOfNext(files, n);
    EntryPosition(files, n, |files[n]| - 1);
  }

  /** When the oldest entry started. */
  function Oldest(files: Files): int
    requires files != [] && files[|files| - 1] != []
  {
    files[|files| - 1][|files[|files| - 1]| - 1].time
  }

  /** From the oldest entry on, a time in no file's span has a file that ends before it. */
  lemma MissedFileEnds(files: Files, t: int, minTime: int)
    requires files != [] && Sorted(Flatten(files)) && files[|files| - 1] != [] && minTime < Oldest(files)
    requires HitFile(files, t) == |files|
    ensures EndsWithin(files, t, minTime) <==> Oldest(files) <= t
  {
    var all := Flatten(files);
    OldestEntry(files);
    var n := |files| - 1;
    FileSorted(files, n);
    if Oldest(files) <= t {
      assert files[n] != [] && minTime < files[n][0].time <= t;
    }
    if i :| 0 <= i < |files| && files[i] != [] && minTime < files[i][0].time <= t {
      EntryPosition(files, i, 0);
      assert all[|all| - 1].time <= all[StartOf(files, i)].time;
    }
  }

  /**
   Main result for GetFromTime with one argument: on a log with entries it panics if and only if t is more than a second
   before the oldest entry, and it returns the entries that started no later than t, as the interface promises, if and
   only if it does not panic and t lies in the span of some file or before all entries.
   */
  lemma OneTimeExactIff(files: Files, t: int, zeroTime: int)
    requires files != [] && Sorted(Flatten(files)) && files[|files| - 1] != []
    ensures var r := TimeRange(files, 0, t, DefaultMinTime(files, zeroTime));
            && (r == Panicked <==> t < Oldest(files) - 1_000_000_000)
            && (r == Returned(NoLaterThan(Flatten(files), t))
                <==> t >= Oldest(files) - 1_000_000_000 && (HitFile(files, t) < |files| || t < Oldest(files)))
  {
    var minTime := Oldest(files) - SECOND;
    assert DefaultMinTime(files, zeroTime) == minTime;
    OldestEntry(files);
    AllAfterMinimum(Flatten(files), minTime);
    WindowFromBelow(Flatten(files), t, minTime);
    if t < minTime {
      TimeRangeRefused(files, 0, t, minTime);
    } else {
      hide *;
      TimeRangeExactIff(files, t, minTime);
      if HitFile(files, t) < |files| {
        TimeRangeHit(files, t, minTime);
      } else {
        MissedFileEnds(files, t, minTime);
        forall i | 0 <= i < |files| ensures Sorted(files[i]) { FileSorted(files, i); }
        TimeRangeMiss(files, 0, t, minTime);
      }
    }
  }

  lemma AllAfterMinimum(all: seq<RunLogEntry>, minTime: int)
    requires Sorted(all) && all != [] && all[|all| - 1].time > minTime
    ensures forall i | 0 <= i < |all| :: all[i].time > minTime
  {
  }

  // ---------- Which logs have an empty oldest file ----------

  /** Every file has an entry, or the log is new. */
  ghost predicate NoEmptyFile(files: Files) {
    files == [[]] || forall i | 0 <= i < |files| :: files[i] != []
  }

  lemma PutLeavesNoEmptyFile(files: Files, capacity: nat, maxHistories: nat, e: RunLogEntry)
    requires files != [] && NoEmptyFile(files) && capacity >= 1 && FilePut(files, capacity, maxHistories, e).Stored?
    ensures NoEmptyFile(FilePut(files, capacity, maxHistories, e).files)
  {
    hide FirstNotAfter;
  }

  /** With room for one entry per file, no run of Puts, in whatever order of times, leaves a file empty. */
  lemma {:induction false} RunLeavesNoEmptyFile(puts: seq<RunLogEntry>, capacity: nat, maxHistories: nat)
    requires capacity >= 1
    ensures NoEmptyFile(FileRun(puts, capacity, maxHistories))
  {
    if puts != [] {
      var init, e := puts[..|puts| - 1], puts[|puts| - 1];
      RunLeavesNoEmptyFile(init, capacity, maxHistories);
      var before: Files := FileRun(init, capacity, maxHistories);
      hide NoEmptyFile;
      if FilePut(before, capacity, maxHistories, e).Stored? {
        PutLeavesNoEmptyFile(before, capacity, maxHistories, e);
      }
    }
  }

  /** iterAt undoes the lag of an index that does not fall into the current file. */
  lemma LaggingPosition(files: Files, lag: nat, i: nat, p: nat)
    requires files != [] && p < |Flatten(files)|
    requires if i == 0 then p < |files[0]| else p - lag >= |files[0]|
    ensures IterPosition(files, lag, p - if i == 0 then 0 else lag) == Returned(p) == IterPosition(files, 0, p)
  {
  }

  // ---------- Small examples of what goes wrong ----------

  function At(t: int): RunLogEntry {
    RunLogEntry("job", t, Succeeded, JobGood, "1s")
  }

  /** A full file of two entries, and one put between their times: it is accepted and stored nowhere. */
  lemma LostExample()
    ensures IsLost([[At(3), At(1)]], 2, At(2))
    ensures FilePut([[At(3), At(1)]], 2, 5, At(2)) == Stored([[At(3)], [At(1)]])
  {
  }

  /** One put out of order, with a history, and asking for the oldest entry panics. */
  lemma LaggingExample()
    ensures var before, after := [[At(6), At(4)], [At(3), At(1)]], [[At(6), At(5), At(4)], [At(3), At(1)]];
            && FilePut(before, 3, 5, At(5)) == Stored(after)
            && NextLag(before, 0, 3, 5, At(5)) == 1
            && |Flatten(after)| == 5
            && IndexRange(after, 1, 4, 5) == Panicked
  {
    var before, after := [[At(6), At(4)], [At(3), At(1)]], [[At(6), At(5), At(4)], [At(3), At(1)]];
    FirstNotAfterUnique([At(6), At(4)], 5, 1);
    assert Insert([At(6), At(4)], At(5)) == [At(6), At(5), At(4)];
    assert [[At(6), At(5), At(4)]] + before[1..] == after;
    StartOfEnd(after);
    assert after[1..] == [[At(3), At(1)]] && after[1..][1..] == [];
    assert StartOf(after, 2) == 3 + StartOf(after[1..], 1) == 5;
  }

  /** With a size limit below one entry, one put is enough for GetAll to panic. */
  lemma TooSmallLimitExample()
    ensures FilePut([[]], 0, 1, At(1)) == Stored([[At(1)], []])
    ensures Everything([[At(1)], []]) == Panicked
  {
  }
}
