/**
 The run log kept in memory: memOnlyRunLog, a bounded array held oldest first and updated in place.
 */
module MemRunLogs {
  import opened Wrappers
  import opened RunLogEntries
  import opened Chronology
  import Queries = FileLogQueries

  /** Oldest first, what one append and the swaps after it do: e goes after everything not later than it. */
  lemma InsertReversed(older: seq<RunLogEntry>, newer: seq<RunLogEntry>, e: RunLogEntry)
    requires forall m | 0 <= m < |newer| :: newer[m].time > e.time
    requires older != [] ==> older[|older| - 1].time <= e.time
    ensures Reverse(older + [e] + newer) == Insert(Reverse(older + newer), e)
  {
    ReverseSingle(e);
    LatestOldest(newer, older, e);
    hide *;
    ReverseConcat(older, newer);
    ReverseThree(older, [e], newer);
    InsertBetween(Reverse(newer), Reverse(older), e);
  }

  lemma BeforeNew(a: seq<RunLogEntry>, e: RunLogEntry, i: nat)
    requires 1 <= i <= |a|
    ensures (a[..i] + [e] + a[i..])[i - 1] == a[i - 1]
  {
  }

  /** One swap takes the new entry one place towards the old end. */
  lemma SwapDown(a: seq<RunLogEntry>, e: RunLogEntry, i: nat)
    requires 1 <= i <= |a|
    ensures var s := a[..i] + [e] + a[i..];
            s[i - 1 := s[i]][i := s[i - 1]] == a[..i - 1] + [e] + a[i - 1..]
  {
  }

  lemma ReverseSingle(e: RunLogEntry)
    ensures Reverse([e]) == [e]
  {
  }

  lemma LatestOldest(newer: seq<RunLogEntry>, older: seq<RunLogEntry>, e: RunLogEntry)
    requires forall m | 0 <= m < |newer| :: newer[m].time > e.time
    requires older != [] ==> older[|older| - 1].time <= e.time
    ensures forall m | 0 <= m < |newer| :: Reverse(newer)[m].time > e.time
    ensures older != [] ==> Reverse(older)[0].time <= e.time
  {
    forall m | 0 <= m < |newer| ensures Reverse(newer)[m].time > e.time {
      ReverseAt(newer, m);
    }
    if older != [] {
      ReverseAt(older, 0);
    }
  }

  lemma InsertBetween(later: seq<RunLogEntry>, earlier: seq<RunLogEntry>, e: RunLogEntry)
    requires forall m | 0 <= m < |later| :: later[m].time > e.time
    requires earlier != [] ==> earlier[0].time <= e.time
    ensures Insert(later + earlier, e) == later + [e] + earlier
  {
    FirstNotAfterUnique(later + earlier, e.time, |later|);
  }

  /** Dropping the oldest entry first and then inserting is inserting and then cutting to the same length. */
  lemma DropOldestThenInsert(view: seq<RunLogEntry>, e: RunLogEntry)
    requires view != [] && view[|view| - 1].time <= e.time
    ensures Insert(view[..|view| - 1], e) == Take(Insert(view, e), |view|)
  {
    var front, oldest := view[..|view| - 1], view[|view| - 1];
    assert view == front + [oldest];
    FirstNotAfterConcat(front, [oldest], e.time);
    var k := FirstNotAfter(front, e.time);
    assert FirstNotAfter(view, e.time) == k;
    assert view[..k] == front[..k] && front[k..] == view[k..][..|view| - 1 - k];
  }

  /** Entries minIdx to maxIdx, counted from the newest, are a stretch of the array read backwards. */
  lemma NewestRange(all: seq<RunLogEntry>, len: nat, minIdx: nat, maxIdx: nat)
    requires minIdx <= maxIdx <= len <= |all|
    ensures Reverse(all[len - maxIdx..len - minIdx]) == Reverse(all[..len])[minIdx..maxIdx]
  {
    hide Reverse;
    assert all[len - maxIdx..len - minIdx] == all[..len][len - maxIdx..len - minIdx];
    ReverseSlice(all[..len], len - maxIdx, len - minIdx);
  }

  lemma PutTruncated(puts: seq<RunLogEntry>, e: RunLogEntry, n: nat)
    ensures Take(InsertAll(puts + [e]), n) == Take(Insert(Take(InsertAll(puts), n), e), n)
    ensures Sorted(Take(InsertAll(puts), n))
  {
    InsertAllIsStableSort(puts);
    InsertTruncated(InsertAll(puts), e, n);
    assert (puts + [e])[..|puts|] == puts;
  }

  lemma OlderThanAll(view: seq<RunLogEntry>, e: RunLogEntry)
    requires view != [] && Sorted(view) && e.time < view[|view| - 1].time
    ensures Take(Insert(view, e), |view|) == view
  {
  }

  // ---------- By time ----------

  /** What GetFromTime answers, in terms of what the log holds, newest first. */
  function TimeRange(view: seq<RunLogEntry>, maxTime: int, minTime: int): Outcome<seq<RunLogEntry>> {
    if view == [] then Returned([])
    else if maxTime < minTime then Panicked
    else
      var before, to := FirstNotAfter(view, maxTime - 1), FirstNotAfter(view, minTime);
      if before == 0 then Returned([])
      else if before - 1 > to then Panicked
      else Returned(view[before - 1..to])
  }

  lemma TimeRangeOfNothing(view: seq<RunLogEntry>, maxTime: int)
    ensures view == [] ==> forall minTime :: TimeRange(view, maxTime, minTime) == Returned([])
    ensures Reverse([]) == []
  {
  }

  lemma TimeRangeBackwards(view: seq<RunLogEntry>, maxTime: int, minTime: int)
    requires view != [] && maxTime < minTime
    ensures TimeRange(view, maxTime, minTime) == Panicked
  {
  }

  /** The answer by the results of the two searches, which count from the old end. */
  lemma TimeRangeBetween(view: seq<RunLogEntry>, n: nat, maxTime: int, minTime: int, startIdx: nat, endIdx: nat)
    requires n == |view| > 0 && minTime <= maxTime && startIdx <= n && endIdx <= n
    requires FirstNotAfter(view, maxTime - 1) == n - startIdx && FirstNotAfter(view, minTime) == n - endIdx
    ensures TimeRange(view, maxTime, minTime) ==
            if startIdx == n then Returned([])
            else if endIdx > startIdx + 1 then Panicked
            else Returned(view[n - (startIdx + 1)..n - endIdx])
  {
  }

  /** Counted from the old end, the entries not later than t are those from the insertion point on. */
  lemma CountedFromOldest(a: seq<RunLogEntry>, t: int, k: nat)
    requires k <= |a|
    requires forall i | 0 <= i < k :: a[i].time <= t
    requires forall i | k <= i < |a| :: a[i].time > t
    ensures FirstNotAfter(Reverse(a), t) == |a| - k
  {
    forall i | 0 <= i < |a| ensures Reverse(a)[i] == a[|a| - 1 - i] {
      ReverseAt(a, i);
    }
    hide Reverse;
    FirstNotAfterUnique(Reverse(a), t, |a| - k);
  }

  /** How many entries have exactly the time t. */
  lemma CountAtTime(view: seq<RunLogEntry>, t: int)
    requires Sorted(view)
    ensures FirstNotAfter(view, t) + |AtTime(view, t)| == FirstNotAfter(view, t - 1)
  {
    hide AtTime;
    var from, to := FirstNotAfter(view, t), FirstNotAfter(view, t - 1);
    assert from <= to;
    forall i | from <= i < to ensures view[i].time == t {
      assert view[i].time <= view[from].time;
    }
    forall i | to <= i < |view| ensures view[i].time < t {
      assert view[i].time <= view[to].time;
    }
    ThreeStretches(view, t, from, to);
  }

  lemma ThreeStretches(view: seq<RunLogEntry>, t: int, from: nat, to: nat)
    requires from <= to <= |view|
    requires forall i | 0 <= i < |view| :: view[i].time == t <==> from <= i < to
    ensures |AtTime(view, t)| == to - from
  {
    hide AtTime;
    ThreeParts(view, from, to);
    AtTimeConcat(view[..from] + view[from..to], view[to..], t);
    AtTimeConcat(view[..from], view[from..to], t);
    AtTimeAbsent(view[..from], t);
    AtTimeAbsent(view[to..], t);
    AtTimeAll(view[from..to], t);
  }

  lemma {:induction false} AtTimeAll(s: seq<RunLogEntry>, t: int)
    requires forall i | 0 <= i < |s| :: s[i].time == t
    ensures AtTime(s, t) == s
  {
    if s != [] {
      AtTimeAll(s[1..], t);
    }
  }

  /**
   Exactly when a query by time is answered as the interface promises: one entry, and no other, has the time maxTime,
   or even the newest entry is before maxTime and not later than minTime.
   */
  lemma TimeRangeExactIff(view: seq<RunLogEntry>, maxTime: int, minTime: int)
    requires Sorted(view) && view != [] && minTime <= maxTime
    ensures TimeRange(view, maxTime, minTime) == Returned(Queries.Window(view, maxTime, minTime))
            <==> |AtTime(view, maxTime)| == 1 || (view[0].time < maxTime && view[0].time <= minTime)
  {
    hide Queries.Window, AtTime;
    Queries.WindowIsStretch(view, maxTime, minTime);
    CountAtTime(view, maxTime);
    var from, to := FirstNotAfter(view, maxTime), FirstNotAfter(view, minTime);
    var before := FirstNotAfter(view, maxTime - 1);
    assert before == 0 <==> view[0].time < maxTime;
    assert to == 0 <==> view[0].time <= minTime;
    if before > 0 && before - 1 <= to {
      assert |view[before - 1..to]| == to - before + 1 && |view[from..to]| == to - from;
    }
  }

  /**
   The same for one argument, where the log looks back to a second before its oldest entry: it panics if and only if t
   is before that, and returns the entries that started no later than t if and only if exactly one has the time t.
   */
  lemma OneTimeExactIff(view: seq<RunLogEntry>, t: int)
    requires Sorted(view) && view != []
    ensures var oldest := view[|view| - 1].time;
            var r := TimeRange(view, t, oldest - 1_000_000_000);
            && (r == Panicked <==> t < oldest - 1_000_000_000)
            && (r == Returned(Queries.NoLaterThan(view, t)) <==> |AtTime(view, t)| == 1)
  {
    hide Queries.Window, Queries.NoLaterThan, AtTime;
    var oldest := view[|view| - 1].time;
    var minTime := oldest - Queries.SECOND;
    Queries.AllAfterMinimum(view, minTime);
    FirstNotAfterUnique(view, minTime, |view|);
    Queries.WindowFromBelow(view, t, minTime);
    if t < minTime {
      AtTimeAbsent(view, t);
    } else {
      TimeRangeExactIff(view, t, minTime);
    }
  }

  /** Asked for what is no later than a time between two entries, the log returns the later one as well. */
  lemma TooLateExample()
    ensures var view := [Queries.At(3), Queries.At(1)];
            TimeRange(view, 2, 0) == Returned(view) && Queries.Window(view, 2, 0) == [Queries.At(1)]
  {
    var view := [Queries.At(3), Queries.At(1)];
    FirstNotAfterUnique(view, 1, 1);
    FirstNotAfterUnique(view, 0, 2);
    FirstNotAfterUnique(view, 2, 1);
    assert view[0..2] == view;
    Queries.WindowIsStretch(view, 2, 0);
    assert view[1..2] == [Queries.At(1)];
  }

  method ReverseEntryArray(entries: array<RunLogEntry>, from: nat, to: nat) returns (result: array<RunLogEntry>)
    requires from <= to <= entries.Length
    ensures fresh(result) && result[..] == Reverse(entries[from..to])
  {
    result := new RunLogEntry[to - from];
    var i := 0;
    var j := to;
    while j > from
      invariant from <= j <= to && i == to - j
      invariant forall k | 0 <= k < i :: result[k] == entries[to - 1 - k]
    {
      j := j - 1;
      result[i] := entries[j];
      i := i + 1;
    }
    forall k | 0 <= k < to - from ensures result[..][k] == Reverse(entries[from..to])[k] {
      ReverseAt(entries[from..to], k);
    }
  }

  class MemOnlyRunLog {
    /** The slice entries[..len], of capacity entries.Length. */
    var entries: array<RunLogEntry>
    var len: nat

    /** Everything ever put. */
    ghost var puts: seq<RunLogEntry>

    /** What the log holds, newest first. */
    ghost function View(): seq<RunLogEntry>
      reads this, entries
      requires len <= entries.Length
    {
      Reverse(entries[..len])
    }

    /** The log holds exactly the newest entries of the stable sort of everything ever put, as many as fit. */
    ghost predicate Valid()
      reads this, entries
    {
      0 < entries.Length && len <= entries.Length && View() == Take(InsertAll(puts), entries.Length)
    }

    constructor (maxLen: nat)
      requires maxLen > 0
      ensures Valid() && puts == [] && entries.Length == maxLen && fresh(entries)
    {
      entries := new RunLogEntry[maxLen];
      len, puts := 0, [];
    }

    method Put(newEntry: RunLogEntry)
      requires Valid()
      modifies this`len, this`puts, entries
      ensures Valid() && puts == old(puts) + [newEntry]
    {
      ghost var view := View();
      var cap := entries.Length;
      ghost var all := puts + [newEntry];
      PutTruncated(puts, newEntry, cap);
      puts := all;
      if len + 1 > cap {
        if newEntry.time < entries[0].time {
          OlderThanAll(view, newEntry);
          return;
        }
        DropOldestThenInsert(view, newEntry);
        RemoveOldest();
      }
      hide InsertAll, Insert, Reverse;
      InsertInOrder(newEntry);
    }

    /** copy(entries, entries[1:]), and one entry less. */
    method RemoveOldest()
      requires 0 < len <= entries.Length
      modifies this`len, entries
      ensures len == old(len) - 1 && View() == old(View())[..len]
    {
      forall k | 0 <= k < len - 1 {
        entries[k] := entries[k + 1];
      }
      len := len - 1;
      assert entries[..len] == old(entries[..len])[1..];
      assert forall k | 0 <= k < len :: View()[k] == old(View())[k];
    }

    /** Swap entries i - 1 and i. */
    method SwapEntries(i: nat)
      requires 1 <= i < len <= entries.Length
      modifies entries
      ensures entries[..len] == old(entries[..len][i - 1 := entries[i]][i := entries[i - 1]])
    {
      entries[i - 1], entries[i] := entries[i], entries[i - 1];
    }

    /** Append, then swap down to the entry's place. */
    method InsertInOrder(newEntry: RunLogEntry)
      requires len < entries.Length
      modifies this`len, entries
      ensures len == old(len) + 1 && View() == Insert(old(View()), newEntry)
    {
      hide Reverse, Insert, InsertAll, Take;
      ghost var a := entries[..len];
      entries[len] := newEntry;
      len := len + 1;
      var i := len - 1;
      while i >= 1
        invariant 0 <= i <= |a| && len == |a| + 1
        invariant entries[..len] == a[..i] + [newEntry] + a[i..]
        invariant forall m | i <= m < |a| :: a[m].time > newEntry.time
      {
        ghost var before := entries[..len];
        BeforeNew(a, newEntry, i);
        assert entries[i - 1] == before[i - 1] == a[i - 1];
        if newEntry.time < entries[i - 1].time {
          SwapEntries(i);
          SwapDown(a, newEntry, i);
        } else {
          break;
        }
        i := i - 1;
      }
      assert a == a[..i] + a[i..];
      InsertReversed(a[..i], a[i..], newEntry);
    }

    /** What a negative index reaches past the entries held, as far as the slice has capacity. */
    ghost function Beyond(minIdx: int, maxIdx: int): seq<RunLogEntry>
      reads this, entries
      requires len <= entries.Length && minIdx <= maxIdx <= len && len - minIdx <= entries.Length
    {
      Reverse(entries[len - maxIdx..len - minIdx])
    }

    /** Entries minIdx and up, below maxIdx if one is given. A negative index is caught by the slice's capacity only. */
    method GetFromIndex(minIdx: int, maxIdxArg: Option<int>) returns (r: Outcome<array<RunLogEntry>>)
      requires Valid()
      ensures var maxIdx := if maxIdxArg.Some? then maxIdxArg.value else |View()|;
              if minIdx > maxIdx || minIdx >= |View()| || maxIdx > |View()| then r.Panicked?
              else if minIdx >= 0 then r.Returned? && r.value[..] == View()[minIdx..maxIdx]
              else if |View()| - minIdx > entries.Length then r.Panicked?
              else r.Returned? && r.value[..] == Beyond(minIdx, maxIdx)
    {
      hide Take, InsertAll, Reverse;
      var maxIdx := if maxIdxArg.Some? then maxIdxArg.value else len;
      if minIdx > maxIdx || minIdx >= len || maxIdx > len {
        return Panicked;
      }
      var actualTo := len - minIdx;
      var actualFrom := len - maxIdx;
      if actualTo > entries.Length {
        return Panicked;
      }
      var result := ReverseEntryArray(entries, actualFrom, actualTo);
      if minIdx >= 0 {
        NewestRange(entries[..], len, minIdx, maxIdx);
        assert entries[actualFrom..actualTo] == entries[..][actualFrom..actualTo];
        assert entries[..len] == entries[..][..len];
      }
      r := Returned(result);
    }

    /** Entries held are oldest first. */
    lemma OldestFirst(i: nat, j: nat)
      requires Valid() && i < j < len
      ensures entries[i].time <= entries[j].time
    {
      hide InsertAll, Reverse;
      InsertAllIsStableSort(puts);
      ReverseAt(entries[..len], len - 1 - j);
      ReverseAt(entries[..len], len - 1 - i);
      assert Sorted(View());
      assert View()[len - 1 - j].time >= View()[len - 1 - i].time;
    }

    /** sort.Search for the first entry later than t, or, if orAt, not earlier than t. */
    method Search(t: int, orAt: bool) returns (k: nat)
      requires Valid()
      ensures k <= len && |View()| == len
      ensures FirstNotAfter(View(), if orAt then t - 1 else t) == len - k
    {
      hide InsertAll, Take, Reverse, FirstNotAfter;
      var i, j := 0, len;
      ghost var limit := if orAt then t - 1 else t;
      while i < j
        invariant 0 <= i <= j <= len
        invariant forall m | 0 <= m < i :: entries[m].time <= limit
        invariant forall m | j <= m < len :: entries[m].time > limit
      {
        var h := (i + j) / 2;
        forall m | 0 <= m < h ensures entries[m].time <= entries[h].time { OldestFirst(m, h); }
        forall m | h < m < len ensures entries[h].time <= entries[m].time { OldestFirst(h, m); }
        if (if orAt then entries[h].time >= t else entries[h].time > t) {
          j := h;
        } else {
          i := h + 1;
        }
      }
      k := i;
      CountedFromOldest(entries[..len], limit, k);
    }

    /** Entries no later than maxTime and later than minTime; by default, than a second before the oldest entry. */
    method GetFromTime(maxTime: int, minTimeArg: Option<int>) returns (r: Outcome<array<RunLogEntry>>)
      requires Valid()
      ensures var minTime := if minTimeArg.Some? then minTimeArg.value
                             else if View() == [] then 0
                             else View()[|View()| - 1].time - Queries.SECOND;
              match TimeRange(View(), maxTime, minTime)
              case Returned(answer) => r.Returned? && r.value[..] == answer
              case Panicked => r.Panicked?
    {
      assert len <= entries.Length;
      hide *;
      TimeRangeOfNothing(View(), maxTime);
      ViewLength();
      if len == 0 {
        var none := ReverseEntryArray(entries, 0, 0);
        return Returned(none);
      }
      OldestIsLast();
      var minTime := if minTimeArg.Some? then minTimeArg.value else entries[0].time - Queries.SECOND;
      r := GetBetween(maxTime, minTime);
    }

    /** GetFromTime once the times are known. */
    method GetBetween(maxTime: int, minTime: int) returns (r: Outcome<array<RunLogEntry>>)
      requires Valid() && len > 0
      ensures match TimeRange(View(), maxTime, minTime)
              case Returned(answer) => r.Returned? && r.value[..] == answer
              case Panicked => r.Panicked?
    {
      assert len <= entries.Length;
      hide *;
      ViewLength();
      if maxTime < minTime {
        TimeRangeBackwards(View(), maxTime, minTime);
        return Panicked;
      }
      var startIdx := Search(maxTime, true);
      var endIdx := Search(minTime, false);
      TimeRangeBetween(View(), len, maxTime, minTime, startIdx, endIdx);
      r := Between(startIdx, endIdx);
    }

    /** The end of GetFromTime, with the results of the two searches. */
    method Between(startIdx: nat, endIdx: nat) returns (r: Outcome<array<RunLogEntry>>)
      requires Valid() && startIdx <= len && endIdx <= len
      ensures |View()| == len
      ensures if startIdx == len then r.Returned? && r.value[..] == []
              else if endIdx > startIdx + 1 then r.Panicked?
              else r.Returned? && r.value[..] == View()[len - (startIdx + 1)..len - endIdx]
    {
      hide *;
      ViewLength();
      if startIdx == len {
        var none := NewestFirst(len, len);
        return Returned(none);
      }
      if endIdx > startIdx + 1 {
        return Panicked;
      }
      var result := NewestFirst(endIdx, startIdx + 1);
      r := Returned(result);
    }

    /** reverseEntryArray on entries[from:to]. */
    method NewestFirst(from: nat, to: nat) returns (result: array<RunLogEntry>)
      requires Valid() && from <= to <= len
      ensures |View()| == len && result[..] == View()[len - to..len - from]
      ensures from == to ==> result[..] == []
    {
      assert len <= entries.Length;
      ViewLength();
      SliceOfView(from, to);
      hide *;
      result := ReverseEntryArray(entries, from, to);
    }

    lemma ViewLength()
      requires Valid()
      ensures |View()| == len
    {
    }

    lemma SliceOfView(from: nat, to: nat)
      requires len <= entries.Length && from <= to <= len && |View()| == len
      ensures Reverse(entries[from..to]) == View()[len - to..len - from]
    {
      hide Reverse;
      NewestRange(entries[..], len, len - to, len - from);
      assert entries[from..to] == entries[..][from..to] && entries[..len] == entries[..][..len];
    }

    lemma OldestIsLast()
      requires Valid() && len > 0
      ensures |View()| == len && View()[len - 1] == entries[0]
    {
    }

    method GetAll() returns (r: array<RunLogEntry>)
      requires Valid()
      ensures r[..] == View()
    {
      r := ReverseEntryArray(entries, 0, len);
    }
  }
}
