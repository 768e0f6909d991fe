/**
 The job queue: JobQueue of jobberrunner/queue.go, and what holds over any run of Pops.

 The clock and the context are inputs: what each sleep comes to is a function of when it starts and when it should end.
 All that is known of it is that sleeping takes time, and that the context is done by some time.
 */
module JobQueues {
  import opened Wrappers
  import opened Calendar
  import opened RunLogEntries
  import opened TimeSpecs
  import opened NextRuns
  import opened Jobs
  import Heaps = JobHeaps

  datatype Wake = Woke(at: nat) | CtxDone

  /** How a sleep ends, by the time it starts and the time it should end. */
  type Sleeper = (nat, nat) -> Wake

  /** Every wake-up is later than the start of its sleep and comes before the context is done. */
  ghost predicate DoneBy(sleeper: Sleeper, cancelAt: nat) {
    forall now: nat, target: nat | now < target ::
      sleeper(now, target).Woke? ==> now < sleeper(now, target).at < cancelAt
  }

  /** No wake-up is later than this: the clock stands still once the context is done. */
  function End(cancelAt: nat, now: nat): nat {
    if now < cancelAt then cancelAt else now
  }

  /**
   One job taken off the queue: when it was due, when that was noticed, when it is due next, how it stood before its
   chance, and whether it was run.
   */
  datatype PopRecord =
    PopRecord(job: Job, scheduled: nat, at: nat, next: Option<nat>, standing: Standing, ran: bool)

  /** The last record of a job, or -1. */
  ghost function LastIndex(h: seq<PopRecord>, job: Job): (i: int)
    ensures -1 <= i < |h|
    ensures i >= 0 ==> h[i].job == job
    ensures forall k | i < k < |h| :: h[k].job != job
  {
    if h == [] then -1
    else if h[|h| - 1].job == job then |h| - 1
    else LastIndex(h[..|h| - 1], job)
  }

  /** When a job is due after this history: as its last record says, or as it was scheduled when the jobs were set. */
  ghost function DueAfter(since: nat, h: seq<PopRecord>, job: Job): Option<nat>
    requires job.fullTimeSpec.Ready()
  {
    if LastIndex(h, job) >= 0 then h[LastIndex(h, job)].next else NextRunTime(job.fullTimeSpec, since)
  }

  /**
   Record j was not early, came in the order of scheduled times, was followed by scheduling the job's next run, was due
   when the history before it says, and was run exactly if the job's standing gave it the chance.
   */
  ghost predicate GoodRecord(since: nat, h: seq<PopRecord>, j: nat)
    requires j < |h|
  {
    var r := h[j];
    && r.job.fullTimeSpec.Ready()
    && r.scheduled <= r.at
    && r.next == NextRunTime(r.job.fullTimeSpec, r.at + NANOS_PER_SECOND)
    && (j > 0 ==> h[j - 1].scheduled <= r.scheduled)
    && DueAfter(since, h[..j], r.job) == Some(r.scheduled)
    && r.ran == Chance(r.standing).1
  }

  /** What was taken off a queue whose jobs were set at the given time. */
  ghost predicate GoodHistory(since: nat, h: seq<PopRecord>) {
    forall j | 0 <= j < |h| :: GoodRecord(since, h, j)
  }

  /** A queued job is due when the history says, and not before the last job that was taken off. */
  ghost predicate Follows(job: Job, since: nat, h: seq<PopRecord>)
    reads job`nextRunTime
  {
    && job.fullTimeSpec.Ready()
    && job.nextRunTime.Some?
    && (h != [] ==> h[|h| - 1].scheduled <= job.nextRunTime.value)
    && DueAfter(since, h, job) == job.nextRunTime
  }

  /** The jobs that had no next run time when they were taken off. */
  ghost function Dropped(h: seq<PopRecord>): set<Job> {
    set r | r in h && r.next.None? :: r.job
  }

  lemma LastIndexAppend(h: seq<PopRecord>, r: PopRecord, job: Job)
    ensures LastIndex(h + [r], job) == if r.job == job then |h| else LastIndex(h, job)
  {
  }

  lemma GoodRecordKept(since: nat, h: seq<PopRecord>, r: PopRecord, j: nat)
    requires j < |h| && GoodRecord(since, h, j)
    ensures GoodRecord(since, h + [r], j)
  {
    hide NextRunTime, LastIndex, Chance;
    assert (h + [r])[..j] == h[..j];
  }

  /** A record that continues a history well. */
  ghost predicate Continues(since: nat, h: seq<PopRecord>, r: PopRecord) {
    && r.job.fullTimeSpec.Ready()
    && r.scheduled <= r.at
    && r.next == NextRunTime(r.job.fullTimeSpec, r.at + NANOS_PER_SECOND)
    && (h != [] ==> h[|h| - 1].scheduled <= r.scheduled)
    && DueAfter(since, h, r.job) == Some(r.scheduled)
    && r.ran == Chance(r.standing).1
  }

  lemma GoodRecordAdded(since: nat, h: seq<PopRecord>, r: PopRecord)
    requires Continues(since, h, r)
    ensures GoodRecord(since, h + [r], |h|)
  {
    hide NextRunTime, LastIndex, Chance;
    assert (h + [r])[..|h|] == h;
  }

  lemma HistoryAppend(since: nat, h: seq<PopRecord>, r: PopRecord)
    requires GoodHistory(since, h) && Continues(since, h, r)
    ensures GoodHistory(since, h + [r])
  {
    hide NextRunTime, LastIndex, GoodRecord, Continues;
    GoodRecordAdded(since, h, r);
    forall j | 0 <= j < |h| + 1 ensures GoodRecord(since, h + [r], j) {
      if j < |h| {
        GoodRecordKept(since, h, r, j);
      }
    }
  }

  // ---------- What a good history means ----------

  /** Jobs are taken off in the order of their scheduled times. */
  lemma {:induction false} NeverDecreases(since: nat, h: seq<PopRecord>, i: nat, j: nat)
    requires GoodHistory(since, h) && i <= j < |h|
    ensures h[i].scheduled <= h[j].scheduled
    decreases j
  {
    if i < j {
      NeverDecreases(since, h, i, j - 1);
      assert GoodRecord(since, h, j);
    }
  }

  /** The record of the same job before record j, if there is one, named record j's time. */
  lemma RecordBefore(since: nat, h: seq<PopRecord>, j: nat, p: nat)
    requires GoodHistory(since, h) && j < |h| && LastIndex(h[..j], h[j].job) == p
    ensures p < j && h[p].job == h[j].job && h[p].job.fullTimeSpec.Ready()
    ensures NextRunTime(h[p].job.fullTimeSpec, h[p].at + NANOS_PER_SECOND) == Some(h[j].scheduled)
    ensures h[p].scheduled <= h[p].at
  {
    hide NextRunTime, LastIndex, Chance;
    assert GoodRecord(since, h, p) && GoodRecord(since, h, j);
    assert h[..j][p] == h[p];
  }

  /** The first record of a job was due when the job was scheduled first. */
  lemma RecordFirst(since: nat, h: seq<PopRecord>, j: nat)
    requires GoodHistory(since, h) && j < |h| && LastIndex(h[..j], h[j].job) < 0
    ensures h[j].job.fullTimeSpec.Ready() && NextRunTime(h[j].job.fullTimeSpec, since) == Some(h[j].scheduled)
  {
    hide NextRunTime, LastIndex, Chance;
    assert GoodRecord(since, h, j);
  }

  lemma SecondsAscend(a: nat, b: nat)
    requires a <= b
    ensures UnixSecond(a) <= UnixSecond(b)
  {
  }

  /**
   Main result: no run is doubled. A job's next scheduled time is in a later second than the one it was last taken off
   in.
   */
  lemma {:induction false} NoDoubledRun(since: nat, h: seq<PopRecord>, i: nat, j: nat)
    requires GoodHistory(since, h) && i < j < |h| && h[i].job == h[j].job
    ensures UnixSecond(h[i].scheduled) <= UnixSecond(h[i].at) < UnixSecond(h[j].scheduled)
    decreases j
  {
    hide NextRunTime, LastIndex, UnixSecond, DueAfter, Chance;
    assert GoodRecord(since, h, i);
    SecondsAscend(h[i].scheduled, h[i].at);
    var p := LastIndex(h[..j], h[j].job);
    assert h[..j][i].job == h[j].job;
    assert i <= p;
    hide GoodRecord, GoodHistory;
    RecordBefore(since, h, j, p);
    NoneSkipped(h[p].job.fullTimeSpec, h[p].at);
    if i < p {
      NoDoubledRun(since, h, i, p);
      SecondsAscend(h[p].scheduled, h[p].at);
    }
  }

  /** The first second that record j could be scheduled for: when the jobs were set, or after the job's last record. */
  ghost function EarliestSecond(since: nat, h: seq<PopRecord>, j: nat): nat
    requires j < |h|
  {
    var i := LastIndex(h[..j], h[j].job);
    if i >= 0 then UnixSecond(h[i].at) + 1 else UnixSecond(since)
  }

  /**
   Main result: only what a late wake-up slept through is missed. Between the second in which a job was taken off, or
   the setting of the jobs, and its next scheduled second, no second satisfies its spec.
   */
  lemma NoneMissed(since: nat, h: seq<PopRecord>, j: nat, t: nat)
    requires GoodHistory(since, h) && j < |h|
    requires EarliestSecond(since, h, j) <= UnixSecond(t) < UnixSecond(h[j].scheduled)
    ensures h[j].job.fullTimeSpec.Ready() && !h[j].job.fullTimeSpec.Satisfied(t)
  {
    hide NextRunTime, LastIndex, GoodHistory, UnixSecond, FullTimeSpec.Satisfied, FullTimeSpec.Ready;
    var i := LastIndex(h[..j], h[j].job);
    if i >= 0 {
      RecordBefore(since, h, j, i);
      NoneSkipped(h[i].job.fullTimeSpec, h[i].at);
    } else {
      RecordFirst(since, h, j);
      NextRunTimeIsLeast(h[j].job.fullTimeSpec, since);
    }
  }

  /** Every scheduled time satisfies the job's spec, and is not in an earlier second than it could have been. */
  lemma ScheduledSatisfies(since: nat, h: seq<PopRecord>, j: nat)
    requires GoodHistory(since, h) && j < |h|
    ensures h[j].job.fullTimeSpec.Ready() && h[j].job.fullTimeSpec.Satisfied(h[j].scheduled)
    ensures EarliestSecond(since, h, j) <= UnixSecond(h[j].scheduled)
  {
    hide NextRunTime, LastIndex, GoodHistory, UnixSecond, FullTimeSpec.Satisfied, FullTimeSpec.Ready;
    var i := LastIndex(h[..j], h[j].job);
    if i >= 0 {
      RecordBefore(since, h, j, i);
      NextRunTimeIsLeast(h[i].job.fullTimeSpec, h[i].at + NANOS_PER_SECOND);
      NoneSkipped(h[i].job.fullTimeSpec, h[i].at);
    } else {
      RecordFirst(since, h, j);
      NextRunTimeIsLeast(h[j].job.fullTimeSpec, since);
    }
  }

  // ---------- How often ----------

  /** The records of one job, in order. */
  ghost function RecordsOf(h: seq<PopRecord>, job: Job): seq<PopRecord> {
    if h == [] then []
    else RecordsOf(h[..|h| - 1], job) + if h[|h| - 1].job == job then [h[|h| - 1]] else []
  }

  lemma GoodInit(since: nat, h: seq<PopRecord>)
    requires GoodHistory(since, h) && h != []
    ensures GoodHistory(since, h[..|h| - 1])
  {
    hide NextRunTime, LastIndex, DueAfter, Chance;
    var init := h[..|h| - 1];
    forall j | 0 <= j < |init| ensures GoodRecord(since, init, j) {
      assert GoodRecord(since, h, j) && init[..j] == h[..j];
    }
  }

  /** A job is taken off at most once in each second from the first record of the history to the job's last one. */
  lemma {:induction false} OncePerSecond(since: nat, h: seq<PopRecord>, job: Job)
    requires GoodHistory(since, h) && LastIndex(h, job) >= 0
    ensures UnixSecond(h[0].scheduled) <= UnixSecond(h[LastIndex(h, job)].scheduled)
    ensures |RecordsOf(h, job)| <= UnixSecond(h[LastIndex(h, job)].scheduled) - UnixSecond(h[0].scheduled) + 1
  {
    hide GoodHistory, UnixSecond;
    var n := |h| - 1;
    var init := h[..n];
    GoodInit(since, h);
    NeverDecreases(since, h, 0, LastIndex(h, job));
    SecondsAscend(h[0].scheduled, h[LastIndex(h, job)].scheduled);
    if LastIndex(init, job) >= 0 {
      OncePerSecond(since, init, job);
      if h[n].job == job {
        NoDoubledRun(since, h, LastIndex(init, job), n);
      }
    } else {
      NoRecords(init, job);
    }
  }

  lemma {:induction false} NoRecords(h: seq<PopRecord>, job: Job)
    requires LastIndex(h, job) < 0
    ensures RecordsOf(h, job) == []
  {
    if h != [] {
      NoRecords(h[..|h| - 1], job);
    }
  }

  /** The number of records of the jobs of a set. */
  ghost function CountOf(h: seq<PopRecord>, jobs: set<Job>): nat {
    if h == [] then 0 else CountOf(h[..|h| - 1], jobs) + if h[|h| - 1].job in jobs then 1 else 0
  }

  lemma {:induction false} CountOneMore(h: seq<PopRecord>, jobs: set<Job>, job: Job)
    requires job in jobs
    ensures CountOf(h, jobs) == CountOf(h, jobs - {job}) + |RecordsOf(h, job)|
  {
    if h != [] {
      CountOneMore(h[..|h| - 1], jobs, job);
    }
  }

  lemma {:induction false} CountNone(h: seq<PopRecord>)
    ensures CountOf(h, {}) == 0
  {
    if h != [] {
      CountNone(h[..|h| - 1]);
    }
  }

  /** Seconds from the first record of a history to the given time. */
  ghost function Span(h: seq<PopRecord>, end: nat): int
    requires h != []
  {
    UnixSecond(end) - UnixSecond(h[0].scheduled) + 1
  }

  lemma RecordsBounded(since: nat, h: seq<PopRecord>, job: Job, end: nat)
    requires GoodHistory(since, h) && h != [] && h[|h| - 1].scheduled <= end
    ensures 0 <= |RecordsOf(h, job)| <= Span(h, end)
  {
    hide GoodHistory, UnixSecond;
    NeverDecreases(since, h, 0, |h| - 1);
    SecondsAscend(h[0].scheduled, h[|h| - 1].scheduled);
    SecondsAscend(h[|h| - 1].scheduled, end);
    var i := LastIndex(h, job);
    if i >= 0 {
      OncePerSecond(since, h, job);
      NeverDecreases(since, h, i, |h| - 1);
      SecondsAscend(h[i].scheduled, h[|h| - 1].scheduled);
    } else {
      NoRecords(h, job);
    }
  }

  /**
   Main result: the clock alone bounds how many jobs can be taken off, run or skipped. Up to any time there are at most
   as many records of the jobs of a set as there are jobs in it times seconds.
   */
  lemma {:induction false} HistoryBounded(since: nat, h: seq<PopRecord>, jobs: set<Job>, end: nat)
    requires GoodHistory(since, h) && h != [] && h[|h| - 1].scheduled <= end
    ensures CountOf(h, jobs) <= |jobs| * Span(h, end)
    decreases |jobs|
  {
    hide GoodHistory, RecordsOf, CountOf, Span;
    if jobs == {} {
      CountNone(h);
    } else {
      var job :| job in jobs;
      var rest := jobs - {job};
      HistoryBounded(since, h, rest, end);
      CountOneMore(h, jobs, job);
      RecordsBounded(since, h, job, end);
      assert |jobs| == |rest| + 1;
      assert |jobs| * Span(h, end) == |rest| * Span(h, end) + Span(h, end);
    }
  }

  // ---------- Backoff over whole runs ----------

  lemma {:induction false} RanAsStanding(since: nat, h: seq<PopRecord>, job: Job, k: nat)
    requires GoodHistory(since, h) && k < |RecordsOf(h, job)|
    ensures RecordsOf(h, job)[k].ran == Chance(RecordsOf(h, job)[k].standing).1
    decreases |h|
  {
    hide NextRunTime, LastIndex, DueAfter, Chance;
    var init := h[..|h| - 1];
    if k < |RecordsOf(init, job)| {
      GoodInit(since, h);
      RanAsStanding(since, init, job, k);
    } else {
      assert GoodRecord(since, h, |h| - 1);
    }
  }

  /** How a job stood before each of its chances. */
  ghost function StandingsOf(h: seq<PopRecord>, job: Job): (standings: seq<Standing>)
    ensures |standings| == |RecordsOf(h, job)|
    ensures forall k | 0 <= k < |standings| :: standings[k] == RecordsOf(h, job)[k].standing
  {
    seq(|RecordsOf(h, job)|, k requires 0 <= k < |RecordsOf(h, job)| => RecordsOf(h, job)[k].standing)
  }

  /**
   Main result: over any run of Pops a Backoff job is run at a chance exactly when no run has failed since the last
   success, or at most four have and, with this one, as many chances have come since the last failure as the level says;
   whatever runs end, in whatever way, between its chances.
   */
  lemma RanAsBackoffSays(since: nat, h: seq<PopRecord>, job: Job, ends: seq<seq<SubprocFate>>, k: nat)
    requires GoodHistory(since, h) && k < |RecordsOf(h, job)|
    requires LivedThrough(BackoffErrorHandler, StandingsOf(h, job), ends)
    ensures RecordsOf(h, job)[k].ran <==> BackoffTakes(EventsBefore(ends, k))
  {
    RanAsStanding(since, h, job, k);
    ChanceAsBackoffSays(StandingsOf(h, job), ends, k);
    hide *;
  }

  /** The job starts as a new one, and each run it is given fails before its next chance; nothing else happens to it. */
  ghost predicate EachRunFails(records: seq<PopRecord>) {
    forall k | 0 <= k < |records| :: records[k].standing == FailingBefore(records, k)
  }

  ghost function FailingBefore(records: seq<PopRecord>, k: nat): Standing
    requires k < |records|
  {
    if k == 0 then NEW_JOB
    else
      var before := records[k - 1];
      if before.ran then Finished(BackoffErrorHandler, Chance(before.standing).0, Failed) else Chance(before.standing).0
  }

  lemma {:induction false} FailingStanding(since: nat, h: seq<PopRecord>, job: Job, k: nat)
    requires GoodHistory(since, h) && EachRunFails(RecordsOf(h, job)) && k < |RecordsOf(h, job)|
    ensures RecordsOf(h, job)[k].standing == AlwaysFailing(k)
    decreases k
  {
    hide GoodHistory, RecordsOf, Chance, Finished;
    assert RecordsOf(h, job)[k].standing == FailingBefore(RecordsOf(h, job), k);
    if k > 0 {
      FailingStanding(since, h, job, k - 1);
      RanAsStanding(since, h, job, k - 1);
    }
  }

  /**
   Main result: over any run of Pops a Backoff job whose every run fails before its next chance is run the first,
   second, fourth, eighth and sixteenth time it is taken off the queue, and never again.
   */
  lemma FailingJobRunsAt(since: nat, h: seq<PopRecord>, job: Job, k: nat)
    requires GoodHistory(since, h) && EachRunFails(RecordsOf(h, job)) && k < |RecordsOf(h, job)|
    ensures RecordsOf(h, job)[k].ran <==> k + 1 in {1, 2, 4, 8, 16}
  {
    hide GoodHistory, RecordsOf, EachRunFails, Chance;
    RanAsStanding(since, h, job, k);
    FailingStanding(since, h, job, k);
    AlwaysFailingRunsAt(k + 1);
  }

  // ---------- The queue ----------

  lemma DroppedNone()
    ensures Dropped([]) == {}
  {
  }

  lemma NextIsLater(spec: FullTimeSpec, at: nat)
    requires spec.Ready()
    ensures var r := NextRunTime(spec, at + NANOS_PER_SECOND);
            r.Some? ==> r.value > at && UnixSecond(r.value) > UnixSecond(at)
  {
    NoneSkipped(spec, at);
  }

  // What a longer history holds since it was h.

  lemma NothingSince(h: seq<PopRecord>)
    ensures h[..|h|] == h && Dropped(h[|h|..]) == {}
  {
  }

  lemma OneSince(h: seq<PopRecord>, r: PopRecord)
    ensures forall g: seq<PopRecord> | |g| == |h| + 1 && g[..|h|] == h && g[|h|] == r ::
              Dropped(g[|h|..]) == (if r.next.None? then {r.job} else {}) && LastIndex(g, r.job) == |h|
  {
  }

  lemma MoreSince(h: seq<PopRecord>, mid: seq<PopRecord>, g: seq<PopRecord>)
    requires |mid| == |h| + 1 <= |g| && mid[..|h|] == h && g[..|mid|] == mid
    ensures g[..|h|] == h && g[|h|] == mid[|h|]
    ensures Dropped(g[|h|..]) == (if mid[|h|].next.None? then {mid[|h|].job} else {}) + Dropped(g[|mid|..])
    ensures LastIndex(g, mid[|h|].job) >= |h|
  {
  }

  /** Record k is the first of its job from record n on. */
  ghost predicate FirstSince(h: seq<PopRecord>, n: nat, k: nat)
    requires n <= k < |h|
  {
    forall m | n <= m < k :: h[m].job != h[k].job
  }

  lemma FirstSinceLater(h: seq<PopRecord>, n: nat, k: nat)
    requires n < k < |h| && FirstSince(h, n, k)
    ensures FirstSince(h, n + 1, k) && h[n].job != h[k].job
  {
  }

  /** From record n on, each record of a job finds it as its chance at the last one left it. */
  ghost predicate Chained(h: seq<PopRecord>, n: nat) {
    forall k | n <= k < |h| :: LinkedBack(h, n, k)
  }

  ghost predicate LinkedBack(h: seq<PopRecord>, n: nat, k: nat)
    requires k < |h|
  {
    var i := LastIndex(h[..k], h[k].job);
    i >= n ==> h[k].standing == Chance(h[i].standing).0
  }

  /** Linking a chain to one more record before it. */
  lemma ChainedLonger(h: seq<PopRecord>, n: nat, standing: Standing)
    requires n < |h| && Chained(h, n + 1) && standing == Chance(h[n].standing).0
    requires FoundAs(h, n + 1, h[n].job, standing)
    ensures Chained(h, n)
  {
    hide Chance, LastIndex;
    forall k | n <= k < |h| ensures LinkedBack(h, n, k) {
      var i := LastIndex(h[..k], h[k].job);
      if k > n {
        assert LinkedBack(h, n + 1, k);
        if i == n {
          assert h[..k][i] == h[i];
          forall m | n + 1 <= m < k ensures h[m].job != h[k].job { assert h[..k][m] == h[m]; }
        }
      }
    }
  }

  /** The first record of the job from n on, if any, finds it with this standing. */
  ghost predicate FoundAs(h: seq<PopRecord>, n: nat, job: Job, standing: Standing) {
    forall k | n <= k < |h| && FirstSince(h, n, k) && h[k].job == job :: h[k].standing == standing
  }

  lemma FoundNowhere(h: seq<PopRecord>, n: nat, job: Job, standing: Standing)
    requires forall k | n <= k < |h| :: h[k].job != job
    ensures FoundAs(h, n, job, standing)
  {
  }

  lemma FoundAsPassed(h: seq<PopRecord>, n: nat, job: Job, s0: Standing, d0: Option<nat>, s1: Standing, d1: Option<nat>)
    requires Passed(h, n, job, s0, d0, s1, d1)
    ensures FoundAs(h, n, job, s0)
  {
  }

  lemma EndIsLater(cancelAt: nat, now: nat)
    ensures now <= End(cancelAt, now)
  {
  }

  lemma NoChain(h: seq<PopRecord>)
    ensures Chained(h, |h|)
  {
  }

  /** What being taken off once, or not, does to a job that stood at s0 and was due at d0. */
  ghost predicate PassedOnce(r: PopRecord, job: Job, s0: Standing, d0: Option<nat>, s1: Standing, d1: Option<nat>) {
    if r.job == job then
      s0 == r.standing && d0 == Some(r.scheduled) && (s1, r.ran) == Chance(s0) && d1 == r.next
    else s1 == s0 && d1 == d0
  }

  /**
   What the records from n on do to a job: its first finds it as it stood and was due, and its last leaves it as the
   chance and the next run time say; without records it is not touched.
   */
  ghost predicate Passed(h: seq<PopRecord>, n: nat, job: Job,
                         s0: Standing, d0: Option<nat>, s1: Standing, d1: Option<nat>)
  {
    && (forall k | n <= k < |h| && FirstSince(h, n, k) ::
          h[k].job == job ==> s0 == h[k].standing && d0 == Some(h[k].scheduled))
    && var i := LastIndex(h, job);
       if i >= n then s1 == Chance(h[i].standing).0 && d1 == h[i].next else s1 == s0 && d1 == d0
  }

  lemma PassedAbsent(h: seq<PopRecord>, n: nat, job: Job, s: Standing, d: Option<nat>)
    requires forall k | n <= k < |h| :: h[k].job != job
    ensures Passed(h, n, job, s, d, s, d)
  {
    hide Chance;
  }

  /** Record n, and then the records after it. */
  lemma PassedMore(h: seq<PopRecord>, n: nat, job: Job, s0: Standing, d0: Option<nat>, s1: Standing, d1: Option<nat>,
                   s2: Standing, d2: Option<nat>)
    requires n < |h| && PassedOnce(h[n], job, s0, d0, s1, d1) && Passed(h, n + 1, job, s1, d1, s2, d2)
    ensures Passed(h, n, job, s0, d0, s2, d2)
  {
    hide Chance;
    forall k | n <= k < |h| && FirstSince(h, n, k)
      ensures h[k].job == job ==> s0 == h[k].standing && d0 == Some(h[k].scheduled)
    {
      if k > n {
        FirstSinceLater(h, n, k);
      }
    }
  }

  /** The context is done before the job is due. */
  ghost predicate Interrupted(job: Job, now: nat, sleeper: Sleeper)
    reads job`nextRunTime
  {
    job.nextRunTime.Some? && now < job.nextRunTime.value && sleeper(now, job.nextRunTime.value).CtxDone?
  }

  lemma EmptyHeap()
    ensures Heaps.IsHeap(Heaps.Keys([]), 0) && Distinct([])
  {
  }

  lemma MembersOf(q: seq<Job>)
    ensures forall job :: job in q <==> job in multiset(q)
  {
  }

  /** Different jobs: none is queued twice. */
  ghost predicate Distinct(q: seq<Job>) {
    forall job | job in q :: multiset(q)[job] == 1
  }

  lemma TakenOff(before: seq<Job>, after: seq<Job>, first: Job)
    requires multiset(before) == multiset(after) + multiset{first} && Distinct(before)
    ensures first in before && first !in after && Distinct(after)
    ensures forall job :: job in before <==> job in after || job == first
  {
    MembersOf(before);
    MembersOf(after);
    assert first in multiset(before);
    forall job | job in after ensures multiset(after)[job] == 1 {
      assert job in before;
    }
  }

  lemma PutOn(before: seq<Job>, after: seq<Job>, job: Job)
    requires multiset(after) == multiset(before) + multiset{job} && Distinct(before) && job !in before
    ensures Distinct(after) && forall j :: j in after <==> j in before || j == job
  {
  }

  lemma EarliestOf(q: seq<Job>, first: Job)
    requires first.nextRunTime.Some? && forall job | job in q :: job.nextRunTime.Some?
    requires forall i | 0 <= i < |q| :: Heaps.KeyOf(first) <= Heaps.KeyOf(q[i])
    ensures forall job | job in q :: first.nextRunTime.value <= job.nextRunTime.value
  {
  }

  class JobQueue {
    var q: seq<Job>

    /** When the jobs were set, and every job taken off since, in order. */
    ghost var since: nat
    ghost var history: seq<PopRecord>

    /** Of the jobs, only when they are due matters: runs that end between Pops leave the queue valid. */
    ghost predicate Valid()
      reads this, q`nextRunTime
    {
      && Heaps.IsHeap(Heaps.Keys(q), |q|)
      && Distinct(q)
      && (forall job | job in q :: Follows(job, since, history))
      && GoodHistory(since, history)
    }

    constructor ()
      ensures Valid() && q == [] && history == []
    {
      q, since, history := [], 0, [];
    }

    /** The queue without its history: a heap of different jobs. */
    ghost predicate HeapOfJobs()
      reads this, q`nextRunTime
    {
      Heaps.IsHeap(Heaps.Keys(q), |q|) && Distinct(q)
    }

    method SetJobs(now: nat, jobs: map<string, Job>)
      requires forall name | name in jobs :: jobs[name].fullTimeSpec.Ready()
      requires forall a, b | a in jobs && b in jobs && a != b :: jobs[a] != jobs[b]
      modifies this, jobs.Values`nextRunTime
      ensures Valid() && since == now && history == []
      ensures forall name | name in jobs :: jobs[name].nextRunTime == NextRunTime(jobs[name].fullTimeSpec, now)
      ensures forall name | name in jobs :: jobs[name] in q <==> jobs[name].nextRunTime.Some?
      ensures forall job | job in q :: job in jobs.Values
    {
      hide NextRunTime, Heaps.IsHeap, Heaps.Keys, Distinct;
      q, since, history := [], now, [];
      assert HeapOfJobs() by { EmptyHeap(); }
      var left := jobs.Keys;
      while left != {}
        invariant left <= jobs.Keys && since == now && history == [] && HeapOfJobs()
        invariant forall name | name in jobs && name !in left ::
                    jobs[name].nextRunTime == NextRunTime(jobs[name].fullTimeSpec, now)
        invariant forall name | name in jobs && name !in left :: jobs[name] in q <==> jobs[name].nextRunTime.Some?
        invariant forall job | job in q :: job in jobs.Values
        invariant forall name | name in left :: jobs[name] !in q
        decreases left
      {
        var name :| name in left;
        left := left - {name};
        assert jobs[name] in jobs.Values;
        Schedule(jobs[name], now);
      }
    }

    /** The body of the loop of SetJobs. */
    method Schedule(job: Job, now: nat)
      requires HeapOfJobs() && job.fullTimeSpec.Ready() && job !in q
      modifies this`q, job`nextRunTime
      ensures HeapOfJobs()
      ensures job.nextRunTime == NextRunTime(job.fullTimeSpec, now)
      ensures forall j :: j in q <==> j in old(q) || (j == job && job.nextRunTime.Some?)
    {
      hide NextRunTime, Heaps.IsHeap, Heaps.Keys;
      var next := FindNextRunTime(job.fullTimeSpec, now);
      ghost var keys := Heaps.Keys(q);
      job.nextRunTime := next;
      assert Heaps.Keys(q) == keys;
      if next.Some? {
        Enqueue(job);
      }
    }

    /** heap.Push on a queue that may still be being set. */
    method Enqueue(job: Job)
      requires HeapOfJobs() && job !in q
      modifies this`q
      ensures HeapOfJobs() && forall j :: j in q <==> j in old(q) || j == job
    {
      hide Heaps.IsHeap, Heaps.Keys, Distinct;
      q := Heaps.Push(q, job);
      PutOn(old(q), q, job);
    }

    ghost function Members(): set<Job>
      reads this
    {
      set job | job in q
    }

    lemma MembersAre()
      ensures forall job :: job in Members() <==> job in q
    {
    }

    /** The seconds that are left to the queued jobs, from when each is due to the given time. */
    ghost function SecondsLeft(end: nat): set<(Job, int)>
      reads this, q`nextRunTime
    {
      set job, s | job in q && job.nextRunTime.Some? && UnixSecond(job.nextRunTime.value) <= s <= UnixSecond(end) ::
        (job, s)
    }

    /**
     Get the next job to run, after sleeping until it is due; null if the context is done first. Jobs that must skip
     this chance are only rescheduled. Each skip takes seconds away from those left until the context is done.
     */
    method Pop(now0: nat, sleeper: Sleeper, ghost cancelAt: nat) returns (job: Job?, now: nat)
      requires Valid() && DoneBy(sleeper, cancelAt)
      modifies this`q, this`history, Members()`nextRunTime, Members()`skipsLeft
      ensures Valid() && now0 <= now <= End(cancelAt, now0)
      // what was taken off: jobs that were queued, none run but the last, and that one returned
      ensures |old(history)| <= |history| && history[..|old(history)|] == old(history)
      ensures forall k | |old(history)| <= k < |history| ::
                history[k].job in old(q) && now0 <= history[k].at <= now &&
                (history[k].ran <==> job != null && k == |history| - 1)
      ensures job != null ==> |history| > |old(history)|
      ensures job != null ==> history[|history| - 1].job == job && history[|history| - 1].at == now
      // from where each job was when it was queued to where its chances leave it
      ensures forall j | j in old(q) ::
                Passed(history, |old(history)|, j, old(j.CurrentStanding()), old(j.nextRunTime),
                       j.CurrentStanding(), j.nextRunTime)
      ensures Chained(history, |old(history)|)
      // no job is lost but those without a next time
      ensures forall j | j in old(q) :: j in q <==> j !in Dropped(history[|old(history)|..])
      ensures forall j | j in q :: j in old(q)
      ensures job == null ==> q == [] || exists j | j in q :: Interrupted(j, now, sleeper)
      decreases SecondsLeft(End(cancelAt, now0))
    {
      now := now0;
      DroppedNone();
      NoChain(history);
      EndIsLater(cancelAt, now0);
      hide *;
      NothingSince(history);
      forall j | j in q ensures Passed(history, |history|, j, j.CurrentStanding(), j.nextRunTime,
                                       j.CurrentStanding(), j.nextRunTime) {
        PassedAbsent(history, |history|, j, j.CurrentStanding(), j.nextRunTime);
      }
      if |q| == 0 {
        return null, now;
      }
      var next, woken, should;
      next, woken, should, now := PopOne(now, sleeper, cancelAt);
      if !woken {
        return null, now;
      }
      ghost var h, mid := old(history), history;
      ghost var standing := next.CurrentStanding();
      OneSince(h, mid[|h|]);
      if should {
        NoChain(mid);
        FoundNowhere(mid, |mid|, next, standing);
        ChainedLonger(mid, |h|, standing);
        forall j | j in old(q)
          ensures Passed(mid, |h|, j, old(j.CurrentStanding()), old(j.nextRunTime), j.CurrentStanding(), j.nextRunTime)
        {
          PassedAbsent(mid, |mid|, j, j.CurrentStanding(), j.nextRunTime);
          PassedMore(mid, |h|, j, old(j.CurrentStanding()), old(j.nextRunTime), j.CurrentStanding(), j.nextRunTime,
                     j.CurrentStanding(), j.nextRunTime);
        }
        return next, now;
      }
      MembersAre();
      label Skipped:
      job, now := Pop(now, sleeper, cancelAt);
      MoreSince(h, mid, history);
      forall j | j in old(q)
        ensures Passed(history, |h|, j, old(j.CurrentStanding()), old(j.nextRunTime),
                       j.CurrentStanding(), j.nextRunTime)
      {
        if j !in old@Skipped(q) {
          PassedAbsent(history, |mid|, j, j.CurrentStanding(), j.nextRunTime);
        }
        PassedMore(history, |h|, j, old(j.CurrentStanding()), old(j.nextRunTime), old@Skipped(j.CurrentStanding()),
                   old@Skipped(j.nextRunTime), j.CurrentStanding(), j.nextRunTime);
      }
      if next in old@Skipped(q) {
        FoundAsPassed(history, |mid|, next, standing, old@Skipped(next.nextRunTime), next.CurrentStanding(),
                      next.nextRunTime);
      } else {
        FoundNowhere(history, |mid|, next, standing);
      }
      ChainedLonger(history, |h|, standing);
    }

    /** Take the first job off, sleep until it is due, schedule its next run, and ask it whether it should run. */
    method PopOne(now0: nat, sleeper: Sleeper, ghost cancelAt: nat)
      returns (next: Job, woken: bool, should: bool, now: nat)
      requires Valid() && q != [] && DoneBy(sleeper, cancelAt)
      modifies this`q, this`history, Members()`nextRunTime, Members()`skipsLeft
      ensures Valid() && next in old(q)
      ensures now0 <= now <= End(cancelAt, now0) && End(cancelAt, now) == End(cancelAt, now0)
      ensures forall j | j in old(q) && j != next :: j in q
      ensures forall j | j in old(q) && j != next ::
                j.nextRunTime == old(j.nextRunTime) && j.CurrentStanding() == old(j.CurrentStanding())
      ensures Members() <= old(Members()) && forall j | j in q :: j in old(q)
      ensures !woken ==> history == old(history) && next in q && Interrupted(next, now, sleeper)
      ensures !woken ==>
                next.nextRunTime == old(next.nextRunTime) && next.CurrentStanding() == old(next.CurrentStanding())
      ensures woken ==> |history| == |old(history)| + 1 && history[..|old(history)|] == old(history)
      ensures woken ==> var r := history[|old(history)|];
                        && r.job == next && r.at == now && (next in q <==> r.next.Some?)
                        && r.ran == should && next.CurrentStanding() == Chance(r.standing).0
                        && forall j | j in old(q) ::
                             PassedOnce(r, j, old(j.CurrentStanding()), old(j.nextRunTime),
                                        j.CurrentStanding(), j.nextRunTime)
      ensures woken ==> SecondsLeft(End(cancelAt, now)) < old(SecondsLeft(End(cancelAt, now0)))
    {
      hide NextRunTime, Heaps.IsHeap, Heaps.Keys, GoodHistory, LastIndex, GoodRecord, Heaps.KeyOf, UnixSecond, Distinct,
           Chance, FullTimeSpec.Ready, DueAfter, DoneBy, Interrupted;
      next := TakeFirst();
      woken, now := Sleep(next, now0, sleeper, cancelAt);
      should := false;
      if !woken {
        PutBack(next);
        return;
      }
      ghost var end := End(cancelAt, now);
      ghost var due := next.nextRunTime.value;
      SecondsAscend(due, now);
      SecondsAscend(now, end);
      ghost var standing := next.CurrentStanding();
      Reschedule(next, now, standing);
      should := next.ShouldRun();
      assert (next, UnixSecond(due)) !in SecondsLeft(end);
      assert (next, UnixSecond(due)) in old(SecondsLeft(End(cancelAt, now0)));
    }

    /** heap.Pop on the queue. */
    method TakeFirst() returns (first: Job)
      requires Valid() && q != []
      modifies this`q
      ensures Valid() && Follows(first, since, history) && first.nextRunTime.Some?
      ensures first !in q && forall job :: job in old(q) <==> job in q || job == first
      ensures forall job | job in q :: first.nextRunTime.value <= job.nextRunTime.value
    {
      hide Heaps.IsHeap, Heaps.Keys, Heaps.KeyOf, GoodHistory, DueAfter, NextRunTime, Distinct;
      q, first := Heaps.Pop(q);
      TakenOff(old(q), q, first);
      assert old(Follows(first, since, history));
      EarliestOf(old(q), first);
    }

    /** heap.Push on the queue, of a job that is not in it. */
    method PutBack(job: Job)
      requires Valid() && job !in q && Follows(job, since, history)
      modifies this`q
      ensures Valid() && forall j :: j in q <==> j in old(q) || j == job
    {
      hide Heaps.IsHeap, Heaps.Keys, GoodHistory, DueAfter, NextRunTime, Distinct;
      q := Heaps.Push(q, job);
      PutOn(old(q), q, job);
    }

    /** Schedule the next run of a job just taken off, and queue it again if there is one. */
    method Reschedule(job: Job, now: nat, ghost standing: Standing)
      requires Valid() && job !in q && Follows(job, since, history)
      requires job.nextRunTime.value <= now
      requires forall j | j in q :: job.nextRunTime.value <= j.nextRunTime.value
      modifies this`q, this`history, job`nextRunTime
      ensures Valid()
      ensures history == old(history) + [PopRecord(job, old(job.nextRunTime.value), now, job.nextRunTime, standing,
                                                   Chance(standing).1)]
      ensures job.nextRunTime.Some? ==>
                job.nextRunTime.value > now && UnixSecond(job.nextRunTime.value) > UnixSecond(now)
      ensures forall j :: j in q <==> j in old(q) || (j == job && job.nextRunTime.Some?)
    {
      hide NextRunTime, Heaps.IsHeap, Heaps.Keys, LastIndex, GoodHistory, Chance, UnixSecond, Distinct;
      ghost var scheduled := job.nextRunTime.value;
      var next := FindNextRunTime(job.fullTimeSpec, now + NANOS_PER_SECOND);
      NextIsLater(job.fullTimeSpec, now);
      ghost var record := PopRecord(job, scheduled, now, next, standing, Chance(standing).1);
      HistoryAppend(since, history, record);
      ghost var keys, before := Heaps.Keys(q), history;
      job.nextRunTime := next;
      assert Heaps.Keys(q) == keys;
      history := history + [record];
      forall j | j in q || (j == job && next.Some?) ensures Follows(j, since, history) {
        LastIndexAppend(before, record, j);
        if j != job {
          assert old(Follows(j, since, history));
        }
      }
      if next.Some? {
        PutBack(job);
      }
    }

    /** Sleep until the job is due; false if the context is done first. */
    method Sleep(job: Job, now0: nat, sleeper: Sleeper, ghost cancelAt: nat) returns (woken: bool, now: nat)
      requires job.nextRunTime.Some? && DoneBy(sleeper, cancelAt)
      ensures now0 <= now <= End(cancelAt, now0) && End(cancelAt, now) == End(cancelAt, now0)
      ensures woken ==> job.nextRunTime.value <= now
      ensures !woken ==> Interrupted(job, now, sleeper)
    {
      now := now0;
      while now < job.nextRunTime.value
        invariant now0 <= now && (now == now0 || now < cancelAt)
        decreases cancelAt - now
      {
        match sleeper(now, job.nextRunTime.value) {
          case Woke(at) => now := at;
          case CtxDone => return false, now;
        }
      }
      woken := true;
    }
  }
}
