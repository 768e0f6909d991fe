/**
 Sequences of entries held newest first, and stable insertion into them.
 */
module Chronology {
  import opened RunLogEntries

  /** Newest first, ties allowed. */
  ghost predicate Sorted(s: seq<RunLogEntry>) {
    forall i, j | 0 <= i < j < |s| :: s[i].time >= s[j].time
  }

  /** The least index whose entry is not after t, or the length if there is none. */
  function FirstNotAfter(s: seq<RunLogEntry>, t: int): (k: nat)
    ensures k <= |s|
    ensures forall i | 0 <= i < k :: s[i].time > t
    ensures k < |s| ==> s[k].time <= t
  {
    if s == [] || s[0].time <= t then 0 else 1 + FirstNotAfter(s[1..], t)
  }

  /** Insert e before every entry that is not after it: of entries with equal times, the last put comes first. */
  function Insert(s: seq<RunLogEntry>, e: RunLogEntry): seq<RunLogEntry> {
    var k := FirstNotAfter(s, e.time);
    s[..k] + [e] + s[k..]
  }

  /** The stable sort, newest first, of everything that was put, in the order it was put. */
  function InsertAll(puts: seq<RunLogEntry>): seq<RunLogEntry> {
    if puts == [] then [] else Insert(InsertAll(puts[..|puts| - 1]), puts[|puts| - 1])
  }

  function Take(s: seq<RunLogEntry>, n: nat): seq<RunLogEntry> {
    if |s| <= n then s else s[..n]
  }

  lemma InsertSorted(s: seq<RunLogEntry>, e: RunLogEntry)
    requires Sorted(s)
    ensures Sorted(Insert(s, e))
  {
  }

  /** In a newest-first sequence the insertion point is the only place with later entries before it. */
  lemma FirstNotAfterUnique(s: seq<RunLogEntry>, t: int, k: nat)
    requires k <= |s|
    requires forall i | 0 <= i < k :: s[i].time > t
    requires k < |s| ==> s[k].time <= t
    ensures FirstNotAfter(s, t) == k
  {
  }

  lemma FirstNotAfterConcat(a: seq<RunLogEntry>, b: seq<RunLogEntry>, t: int)
    ensures FirstNotAfter(a + b, t) ==
            if FirstNotAfter(a, t) < |a| then FirstNotAfter(a, t) else |a| + FirstNotAfter(b, t)
  {
    FirstNotAfterUnique(a + b, t,
                        if FirstNotAfter(a, t) < |a| then FirstNotAfter(a, t) else |a| + FirstNotAfter(b, t));
  }

  /** Inserting into a log of bounded length is inserting into the unbounded one and cutting. */
  lemma InsertTruncated(s: seq<RunLogEntry>, e: RunLogEntry, n: nat)
    ensures Take(Insert(Take(s, n), e), n) == Take(Insert(s, e), n)
  {
  }

  // ---------- What the stable sort is ----------

  /** The entries put with the given time, in order. */
  function AtTime(s: seq<RunLogEntry>, t: int): seq<RunLogEntry> {
    if s == [] then [] else (if s[0].time == t then [s[0]] else []) + AtTime(s[1..], t)
  }

  function Reverse(s: seq<RunLogEntry>): (r: seq<RunLogEntry>)
    ensures |r| == |s|
  {
    if s == [] then [] else Reverse(s[1..]) + [s[0]]
  }

  lemma {:induction false} ReverseAt(s: seq<RunLogEntry>, i: nat)
    requires i < |s|
    ensures Reverse(s)[i] == s[|s| - 1 - i]
  {
    if i < |s| - 1 {
      ReverseAt(s[1..], i);
    }
  }

  lemma {:induction false} ReverseConcat(a: seq<RunLogEntry>, b: seq<RunLogEntry>)
    ensures Reverse(a + b) == Reverse(b) + Reverse(a)
  {
    if a == [] {
      assert a + b == b;
    } else {
      assert (a + b)[1..] == a[1..] + b;
      ReverseConcat(a[1..], b);
      assert (Reverse(b) + Reverse(a[1..])) + [a[0]] == Reverse(b) + (Reverse(a[1..]) + [a[0]]);
    }
  }

  lemma ReverseThree(a: seq<RunLogEntry>, b: seq<RunLogEntry>, c: seq<RunLogEntry>)
    ensures Reverse(a + b + c) == Reverse(c) + Reverse(b) + Reverse(a)
  {
    hide Reverse;
    ReverseConcat(a + b, c);
    ReverseConcat(a, b);
    assert Reverse(c) + (Reverse(b) + Reverse(a)) == Reverse(c) + Reverse(b) + Reverse(a);
  }

  lemma ReverseSlice(s: seq<RunLogEntry>, i: nat, j: nat)
    requires i <= j <= |s|
    ensures Reverse(s[i..j]) == Reverse(s)[|s| - j..|s| - i]
  {
    ThreeParts(s, i, j);
    hide *;
    ReverseThree(s[..i], s[i..j], s[j..]);
    MiddleOfThree(Reverse(s[j..]), Reverse(s[i..j]), Reverse(s[..i]));
  }

  lemma ThreeParts(s: seq<RunLogEntry>, i: nat, j: nat)
    requires i <= j <= |s|
    ensures s == s[..i] + s[i..j] + s[j..]
  {
  }

  lemma MiddleOfThree(x: seq<RunLogEntry>, y: seq<RunLogEntry>, z: seq<RunLogEntry>)
    ensures (x + y + z)[|x|..|x| + |y|] == y
  {
  }

  lemma {:induction false} AtTimeConcat(a: seq<RunLogEntry>, b: seq<RunLogEntry>, t: int)
    ensures AtTime(a + b, t) == AtTime(a, t) + AtTime(b, t)
  {
    if a == [] {
      assert a + b == b;
    } else {
      AtTimeConcat(a[1..], b, t);
      assert (a + b)[1..] == a[1..] + b;
      var head := if a[0].time == t then [a[0]] else [];
      assert AtTime(a + b, t) == head + AtTime(a[1..] + b, t);
      assert head + (AtTime(a[1..], t) + AtTime(b, t)) == (head + AtTime(a[1..], t)) + AtTime(b, t);
    }
  }

  lemma {:induction false} AtTimeAbsent(s: seq<RunLogEntry>, t: int)
    requires forall i | 0 <= i < |s| :: s[i].time != t
    ensures AtTime(s, t) == []
  {
    if s != [] {
      AtTimeAbsent(s[1..], t);
    }
  }

  lemma AtTimeInsert(s: seq<RunLogEntry>, e: RunLogEntry, t: int)
    ensures AtTime(Insert(s, e), t) == (if e.time == t then [e] else []) + AtTime(s, t)
  {
    var k := FirstNotAfter(s, e.time);
    assert s == s[..k] + s[k..];
    AtTimeConcat(s[..k], s[k..], t);
    AtTimeConcat(s[..k] + [e], s[k..], t);
    AtTimeConcat(s[..k], [e], t);
    assert AtTime([e], t) == if e.time == t then [e] else [] by { assert [e][1..] == []; }
    if e.time == t {
      AtTimeAbsent(s[..k], t);
    }
  }

  /** Sorted by time; of the entries with one time, exactly those put, the last put first. */
  ghost predicate IsStableSort(sorted: seq<RunLogEntry>, puts: seq<RunLogEntry>) {
    Sorted(sorted) && forall t: int :: AtTime(sorted, t) == Reverse(AtTime(puts, t))
  }

  /** Inserting one at a time is the stable sort. */
  lemma {:induction false} InsertAllIsStableSort(puts: seq<RunLogEntry>)
    ensures IsStableSort(InsertAll(puts), puts)
  {
    if puts != [] {
      var init, e := puts[..|puts| - 1], puts[|puts| - 1];
      InsertAllIsStableSort(init);
      InsertSorted(InsertAll(init), e);
      forall t: int
        ensures AtTime(InsertAll(puts), t) == Reverse(AtTime(puts, t))
      {
        AtTimeInsert(InsertAll(init), e, t);
        assert puts == init + [e];
        AtTimeConcat(init, [e], t);
        assert [e][1..] == [];
        assert AtTime([e], t) == if e.time == t then [e] else [];
        ReverseConcat(AtTime(init, t), if e.time == t then [e] else []);
        assert Reverse([e]) == [e];
      }
    }
  }

  lemma {:induction false} AtTimeFirst(s: seq<RunLogEntry>, t: int)
    ensures AtTime(s, t) != [] <==> exists i | 0 <= i < |s| :: s[i].time == t
  {
    if s != [] {
      AtTimeFirst(s[1..], t);
      if s[0].time != t {
        forall i | 0 <= i < |s| && s[i].time == t ensures s[1..][i - 1].time == t {}
      }
    }
  }

  /** Sorting by time and agreeing time by time leaves only one sequence: the stable sort is unique. */
  lemma {:induction false} StableSortUnique(a: seq<RunLogEntry>, b: seq<RunLogEntry>)
    requires Sorted(a) && Sorted(b)
    requires forall t: int :: AtTime(a, t) == AtTime(b, t)
    ensures a == b
  {
    if a == [] || b == [] {
      if b != [] {
        AtTimeFirst(a, b[0].time);
        AtTimeFirst(b, b[0].time);
      }
      if a != [] {
        AtTimeFirst(a, a[0].time);
        AtTimeFirst(b, a[0].time);
      }
    } else {
      AtTimeFirst(a, b[0].time);
      AtTimeFirst(b, b[0].time);
      AtTimeFirst(a, a[0].time);
      AtTimeFirst(b, a[0].time);
      assert a[0].time == b[0].time;
      assert a[0] == AtTime(a, a[0].time)[0] == AtTime(b, a[0].time)[0] == b[0];
      forall t: int ensures AtTime(a[1..], t) == AtTime(b[1..], t) {
        assert AtTime(a, t) == AtTime(b, t);
        var head := if a[0].time == t then [a[0]] else [];
        assert AtTime(a, t) == head + AtTime(a[1..], t) && AtTime(b, t) == head + AtTime(b[1..], t);
        assert AtTime(a[1..], t) == AtTime(a, t)[|head|..];
        assert AtTime(b[1..], t) == AtTime(b, t)[|head|..];
      }
      StableSortUnique(a[1..], b[1..]);
    }
  }

  lemma {:induction false} InsertAllMultiset(puts: seq<RunLogEntry>)
    ensures multiset(InsertAll(puts)) == multiset(puts)
  {
    if puts != [] {
      var init, e := puts[..|puts| - 1], puts[|puts| - 1];
      InsertAllMultiset(init);
      InsertMultiset(InsertAll(init), e);
      assert puts == init + [e];
    }
  }

  lemma InsertMultiset(s: seq<RunLogEntry>, e: RunLogEntry)
    ensures multiset(Insert(s, e)) == multiset(s) + multiset{e}
  {
    var k := FirstNotAfter(s, e.time);
    assert s == s[..k] + s[k..];
  }
}
