/**
 The usual case of a file run log: entries are put in the order of their times.
 The contents then have a closed form in the number of Puts.
 */
module InOrderRuns {
  import opened RunLogEntries
  import opened Chronology
  import opened FileLogSpec
  import opened Arithmetic

  ghost predicate Ascending(puts: seq<RunLogEntry>) {
    forall i, j | 0 <= i < j < |puts| :: puts[i].time <= puts[j].time
  }

  function Min(a: int, b: int): int {
    if a <= b then a else b
  }

  /** How many of k entries put in order are still held: one part-filled file and the full histories. */
  function Retained(k: nat, capacity: nat, maxHistories: nat): int {
    var c := if capacity == 0 then 1 else capacity;
    if k == 0 then 0 else Min(k, (k - 1) % c + 1 + maxHistories * c)
  }

  /** One file of first entries, then count files of each entries. */
  ghost predicate Shape(files: Files, first: nat, count: nat, each: nat) {
    |files| == count + 1 && |files[0]| == first && forall i | 1 <= i < |files| :: |files[i]| == each
  }

  lemma {:induction false} ShapeLength(files: Files, first: nat, count: nat, each: nat)
    requires Shape(files, first, count, each)
    ensures |Flatten(files)| == first + count * each
  {
    if count > 0 {
      assert files[1..][0] == files[1];
      assert forall i | 1 <= i < |files[1..]| :: files[1..][i] == files[i + 1];
      ShapeLength(files[1..], each, count - 1, each);
    } else {
      FlattenHead(files[0], []);
      assert files == [files[0]] + [];
    }
  }

  lemma ShapeGrow(files: Files, first: nat, count: nat, each: nat, f: seq<RunLogEntry>)
    requires Shape(files, first, count, each) && |f| == first + 1
    ensures Shape([f] + files[1..], first + 1, count, each)
  {
  }

  lemma ShapeRotate(files: Files, count: nat, each: nat, maxHistories: nat, e: RunLogEntry)
    requires Shape(files, each, count, each) && count <= maxHistories
    ensures Shape(Kept([[e]] + files, maxHistories), 1, Min(count + 1, maxHistories), each)
  {
  }

  /** In order, the newest entry of the log is the last one put. */
  lemma {:induction false} InOrderStep(puts: seq<RunLogEntry>, capacity: nat, maxHistories: nat)
    requires Ascending(puts)
    ensures var files := FileRun(puts, capacity, maxHistories);
            && (puts == [] ==> files == [[]])
            && (puts != [] ==> files[0] != [] && files[0][0] == puts[|puts| - 1])
    ensures Written(puts, capacity, maxHistories) == puts
  {
    if puts != [] {
      var init, e := puts[..|puts| - 1], puts[|puts| - 1];
      SplitLast(puts);
      InOrderStep(init, capacity, maxHistories);
      RunHoldsNewest(init, capacity, maxHistories);
      var before: Files := FileRun(init, capacity, maxHistories);
      assert before[0] != [] ==> before[0][0].time <= e.time;
      hide Sorted, InsertAll, Ascending;
      InOrderOnTop(before, capacity, maxHistories, e);
      hide FilePut, Kept, IsLost, IsTooEarly, InOrder;
    }
  }

  /** An entry put in order is written and is the newest one from then on. */
  lemma InOrderOnTop(files: Files, capacity: nat, maxHistories: nat, e: RunLogEntry)
    requires Chronological(files) && InOrder(files, e)
    ensures !IsTooEarly(files, e) && !IsLost(files, capacity, e)
    ensures var r := FilePut(files, capacity, maxHistories, e);
            r.Stored? && r.files != [] && r.files[0] != [] && r.files[0][0] == e
  {
    if files[0] != [] {
      FirstNotAfterUnique(files[0], e.time, 0);
      TopIsLatest(files);
    }
  }

  lemma TopIsLatest(files: Files)
    requires Chronological(files) && files[0] != []
    ensures files[0][|files[0]| - 1].time <= files[0][0].time
  {
    var i := |files[0]| - 1;
    assert Flatten(files)[0] == files[0][0] && Flatten(files)[i] == files[0][i];
  }

  /** One in-order Put either grows the current file or starts a new one. */
  lemma InOrderPut(files: Files, capacity: nat, maxHistories: nat, e: RunLogEntry)
    requires Chronological(files) && InOrder(files, e)
    ensures !IsTooEarly(files, e) && FilePut(files, capacity, maxHistories, e).Stored?
    ensures var after := FilePut(files, capacity, maxHistories, e).files;
            if |files[0]| < capacity
            then after == [Insert(files[0], e)] + files[1..] && |after[0]| == |files[0]| + 1
            else after == Kept([[e]] + files, maxHistories)
  {
    if files[0] != [] {
      TopIsLatest(files);
    }
  }

  /** How often k entries put in order into files of c entries rotated them, and one less than the last file has. */
  function Counters(k: nat, c: nat): (nat, nat)
    requires k > 0
  {
    if k == 1 then (0, 0)
    else
      var (q, r) := Counters(k - 1, c);
      if r + 1 < c then (q, r + 1) else (q + 1, 0)
  }

  lemma {:induction false} CountersAreQuotient(k: nat, c: nat)
    requires k > 0 && c > 0
    ensures var (q, r) := Counters(k, c); k - 1 == q * c + r && r < c
  {
    if k > 1 {
      CountersAreQuotient(k - 1, c);
      var (q, r) := Counters(k - 1, c);
      assert (q + 1) * c == q * c + c;
    }
  }

  lemma ShapePut(files: Files, q: nat, r: nat, capacity: nat, maxHistories: nat, e: RunLogEntry)
    requires Chronological(files) && InOrder(files, e) && r < capacity
    requires Shape(files, r + 1, Min(q, maxHistories), capacity)
    ensures FilePut(files, capacity, maxHistories, e).Stored?
    ensures var after := FilePut(files, capacity, maxHistories, e).files;
            if r + 1 < capacity then Shape(after, r + 2, Min(q, maxHistories), capacity)
            else Shape(after, 1, Min(q + 1, maxHistories), capacity)
  {
    InOrderPut(files, capacity, maxHistories, e);
    hide Sorted, Chronological, FilePut, Insert;
    var count := Min(q, maxHistories);
    if r + 1 < capacity {
      ShapeGrow(files, r + 1, count, capacity, Insert(files[0], e));
    } else {
      ShapeRotate(files, count, capacity, maxHistories, e);
      assert Min(count + 1, maxHistories) == Min(q + 1, maxHistories);
    }
  }

  lemma ShapeFirst(puts: seq<RunLogEntry>, capacity: nat, maxHistories: nat)
    requires |puts| == 1 && capacity > 0
    ensures Shape(FileRun(puts, capacity, maxHistories), 1, Min(0, maxHistories), capacity)
  {
  }

  lemma AscendingInit(init: seq<RunLogEntry>, e: RunLogEntry)
    requires Ascending(init + [e])
    ensures Ascending(init) && (init != [] ==> init[|init| - 1].time <= e.time)
  {
    var puts := init + [e];
    assert forall i | 0 <= i < |init| :: init[i] == puts[i];
    assert puts[|init|] == e;
  }

  /** What one more in-order Put does to a run. */
  lemma InOrderLast(init: seq<RunLogEntry>, e: RunLogEntry, capacity: nat, maxHistories: nat)
    requires Ascending(init + [e])
    ensures Ascending(init)
    ensures var before := FileRun(init, capacity, maxHistories);
            && Chronological(before) && InOrder(before, e)
            && FilePut(before, capacity, maxHistories, e).Stored?
            && FileRun(init + [e], capacity, maxHistories) == FilePut(before, capacity, maxHistories, e).files
  {
    var puts := init + [e];
    assert puts[..|puts| - 1] == init;
    AscendingInit(init, e);
    InOrderStep(init, capacity, maxHistories);
    RunHoldsNewest(init, capacity, maxHistories);
    hide Ascending, Sorted, InsertAll, FilePut;
    InOrderPut(FileRun(init, capacity, maxHistories), capacity, maxHistories, e);
  }

  lemma SplitLast(puts: seq<RunLogEntry>)
    requires puts != []
    ensures puts == puts[..|puts| - 1] + [puts[|puts| - 1]]
  {
  }

  /** The sizes of the files after a run in order: a part-filled current file and full histories. */
  lemma {:induction false} InOrderShape(puts: seq<RunLogEntry>, capacity: nat, maxHistories: nat)
    requires Ascending(puts) && puts != [] && capacity > 0
    ensures var (q, r) := Counters(|puts|, capacity);
            r < capacity && Shape(FileRun(puts, capacity, maxHistories), r + 1, Min(q, maxHistories), capacity)
  {
    hide Sorted, Chronological, HoldsNewest, FilePut, Shape, InOrder, FileRun, Ascending;
    if |puts| == 1 {
      ShapeFirst(puts, capacity, maxHistories);
    } else {
      var init, e := puts[..|puts| - 1], puts[|puts| - 1];
      SplitLast(puts);
      InOrderLast(init, e, capacity, maxHistories);
      InOrderShape(init, capacity, maxHistories);
      var (q, r) := Counters(|init|, capacity);
      ShapePut(FileRun(init, capacity, maxHistories), q, r, capacity, maxHistories, e);
    }
  }

  /** The sizes of the files of a log with no room for even one entry per file. */
  ghost predicate Singles(files: Files, k: nat, maxHistories: nat) {
    && |files| == Min(k, maxHistories) + 1
    && (forall i | 0 <= i < |files| - 1 :: |files[i]| == 1)
    && |files[|files| - 1]| == if k > maxHistories then 1 else 0
  }

  /** With no room for an entry per file, every Put rotates, and every file holds one entry but the first, empty one. */
  lemma {:induction false} InOrderSingles(puts: seq<RunLogEntry>, maxHistories: nat)
    requires Ascending(puts)
    ensures Singles(FileRun(puts, 0, maxHistories), |puts|, maxHistories)
  {
    if puts != [] {
      var init, e := puts[..|puts| - 1], puts[|puts| - 1];
      SplitLast(puts);
      InOrderLast(init, e, 0, maxHistories);
      InOrderSingles(init, maxHistories);
      InOrderPut(FileRun(init, 0, maxHistories), 0, maxHistories, e);
      hide Sorted, Chronological, FilePut, InOrder, FileRun, Ascending, Singles;
      SinglesRotate(FileRun(init, 0, maxHistories), |init|, maxHistories, e);
    }
  }

  lemma SinglesRotate(files: Files, k: nat, maxHistories: nat, e: RunLogEntry)
    requires Singles(files, k, maxHistories)
    ensures Singles(Kept([[e]] + files, maxHistories), k + 1, maxHistories)
  {
  }

  lemma {:induction false} SinglesLength(files: Files, last: nat)
    requires files != [] && last <= 1
    requires forall i | 0 <= i < |files| - 1 :: |files[i]| == 1
    requires |files[|files| - 1]| == last
    ensures |Flatten(files)| == |files| - 1 + last
  {
    if |files| > 1 {
      SinglesLength(files[1..], last);
    } else {
      assert files == [files[0]] + [];
      FlattenHead(files[0], []);
    }
  }

  lemma {:induction false} InsertAllAscending(puts: seq<RunLogEntry>)
    requires Ascending(puts)
    ensures InsertAll(puts) == Reverse(puts)
  {
    if puts != [] {
      var init, e := puts[..|puts| - 1], puts[|puts| - 1];
      SplitLast(puts);
      AscendingInit(init, e);
      InsertAllAscending(init);
      hide Insert, Ascending;
      InsertLatest(init, e);
      ReverseAppend(init, e);
    }
  }

  lemma InsertLatest(init: seq<RunLogEntry>, e: RunLogEntry)
    requires init != [] ==> init[|init| - 1].time <= e.time
    ensures Insert(Reverse(init), e) == [e] + Reverse(init)
  {
    if init != [] {
      ReverseAt(init, 0);
    }
    hide Reverse;
    FirstNotAfterUnique(Reverse(init), e.time, 0);
  }

  lemma ReverseAppend(s: seq<RunLogEntry>, e: RunLogEntry)
    ensures Reverse(s + [e]) == [e] + Reverse(s)
  {
    ReverseConcat(s, [e]);
    assert [e][1..] == [] && Reverse([e]) == [e];
  }

  lemma RetainedCount(k: nat, c: nat, maxHistories: nat, q: nat, r: nat)
    requires k > 0 && r < c && k - 1 == q * c + r
    ensures Retained(k, c, maxHistories) == r + 1 + Min(q, maxHistories) * c
  {
    QuotientUnique((k - 1) / c, (k - 1) % c, q, r, c);
    if q < maxHistories {
      MulGap(q, maxHistories, c);
    } else if q > maxHistories {
      MulGap(maxHistories, q, c);
    }
  }

  lemma InOrderLength(puts: seq<RunLogEntry>, capacity: nat, maxHistories: nat)
    requires Ascending(puts) && puts != [] && capacity > 0
    ensures |Flatten(FileRun(puts, capacity, maxHistories))| == Retained(|puts|, capacity, maxHistories)
  {
    hide Retained, Shape, Counters;
    var q, r := Counters(|puts|, capacity).0, Counters(|puts|, capacity).1;
    InOrderShape(puts, capacity, maxHistories);
    ShapeLength(FileRun(puts, capacity, maxHistories), r + 1, Min(q, maxHistories), capacity);
    CountersAreQuotient(|puts|, capacity);
    RetainedCount(|puts|, capacity, maxHistories, q, r);
  }

  lemma InOrderLengthSingles(puts: seq<RunLogEntry>, maxHistories: nat)
    requires Ascending(puts)
    ensures |Flatten(FileRun(puts, 0, maxHistories))| == Retained(|puts|, 0, maxHistories)
  {
    InOrderSingles(puts, maxHistories);
    var files := FileRun(puts, 0, maxHistories);
    SinglesLength(files, |files[|files| - 1]|);
  }

  /**
   Main result for in-order runs, for every file size limit and every number of histories: the log holds exactly
   the newest Retained(k) of the k entries put, newest first.
   */
  lemma InOrderContents(puts: seq<RunLogEntry>, capacity: nat, maxHistories: nat)
    requires Ascending(puts)
    ensures var n := Retained(|puts|, capacity, maxHistories);
            && 0 <= n <= |puts|
            && Flatten(FileRun(puts, capacity, maxHistories)) == Reverse(puts)[..n]
  {
    hide Retained;
    if capacity == 0 || puts == [] {
      RetainedNone(capacity, maxHistories);
      InOrderStep(puts, capacity, maxHistories);
      InOrderLengthSingles(puts, maxHistories);
    } else {
      InOrderLength(puts, capacity, maxHistories);
    }
    InOrderStep(puts, capacity, maxHistories);
    RunHoldsNewest(puts, capacity, maxHistories);
    InsertAllAscending(puts);
  }

  lemma RetainedNone(capacity: nat, maxHistories: nat)
    ensures Retained(0, capacity, maxHistories) == 0
  {
  }
}
