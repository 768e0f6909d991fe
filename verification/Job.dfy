/**
 Jobs: their status, and how failures hold them back (job.go, error_handler.go, RunJob in job_runner_thread.go).
 */
module Jobs {
  import opened Wrappers
  import opened RunLogEntries
  import opened TimeSpecs

  const MAX_BACKOFF_WAIT := 8

  datatype ErrorHandler = ContinueErrorHandler | StopErrorHandler | BackoffErrorHandler

  /** The fields of a job that error handling works on. */
  datatype Standing = Standing(status: JobStatus, backoffLevel: int, skipsLeft: int)

  const NEW_JOB := Standing(JobGood, 0, 0)

  /** Handle: what a failed run does. */
  function Handled(handler: ErrorHandler, s: Standing): Standing {
    match handler
    case ContinueErrorHandler => s.(status := JobGood)
    case StopErrorHandler => s.(status := JobFailed)
    case BackoffErrorHandler =>
      var level := if s.status == JobGood then 1 else s.backoffLevel * 2;
      if level > MAX_BACKOFF_WAIT then Standing(JobFailed, 0, 0)
      else Standing(if s.status == JobGood then JobBackoff else s.status, level, level)
  }

  /** The end of a run: only success and failure touch the job. */
  function Finished(handler: ErrorHandler, s: Standing, fate: SubprocFate): Standing {
    match fate
    case Succeeded => s.(status := JobGood)
    case Failed => Handled(handler, s)
    case Cancelled => s
  }

  /** ShouldRun: what a chance to run does, and whether it is taken. */
  function Chance(s: Standing): (Standing, bool) {
    match s.status
    case JobFailed => (s, false)
    case JobBackoff => (s.(skipsLeft := s.skipsLeft - 1), s.skipsLeft - 1 <= 0)
    case JobGood => (s, true)
  }

  class Job {
    const name: string
    const fullTimeSpec: FullTimeSpec
    const errorHandler: ErrorHandler

    var backoffLevel: int
    var skipsLeft: int
    var nextRunTime: Option<nat>
    var status: JobStatus
    var lastRunTime: int
    var paused: bool

    function CurrentStanding(): Standing
      reads this`status, this`backoffLevel, this`skipsLeft
    {
      Standing(status, backoffLevel, skipsLeft)
    }

    constructor (name: string, fullTimeSpec: FullTimeSpec, errorHandler: ErrorHandler)
      ensures this.name == name && this.fullTimeSpec == fullTimeSpec && this.errorHandler == errorHandler
      ensures CurrentStanding() == NEW_JOB && nextRunTime == None && !paused
    {
      this.name, this.fullTimeSpec, this.errorHandler := name, fullTimeSpec, errorHandler;
      backoffLevel, skipsLeft, nextRunTime, status, lastRunTime, paused := 0, 0, None, JobGood, 0, false;
    }

    method ShouldRun() returns (should: bool)
      modifies this`skipsLeft
      ensures (CurrentStanding(), should) == Chance(old(CurrentStanding()))
    {
      match status
      case JobFailed => should := false;
      case JobBackoff =>
        skipsLeft := skipsLeft - 1;
        should := skipsLeft <= 0;
      case JobGood => should := true;
    }

    method Handle()
      modifies this`status, this`backoffLevel, this`skipsLeft
      ensures CurrentStanding() == Handled(errorHandler, old(CurrentStanding()))
    {
      match errorHandler
      case ContinueErrorHandler => status := JobGood;
      case StopErrorHandler => status := JobFailed;
      case BackoffErrorHandler =>
        if status == JobGood {
          status := JobBackoff;
          backoffLevel := 1;
        } else {
          backoffLevel := backoffLevel * 2;
        }
        if backoffLevel > MAX_BACKOFF_WAIT {
          status := JobFailed;
          backoffLevel := 0;
          skipsLeft := 0;
        } else {
          skipsLeft := backoffLevel;
        }
    }

    /** The end of RunJob: the job's fields, and the status that goes into the run record. */
    method FinishRun(fate: SubprocFate, runTime: int) returns (newStatus: JobStatus)
      modifies this`status, this`backoffLevel, this`skipsLeft, this`lastRunTime
      ensures CurrentStanding() == Finished(errorHandler, old(CurrentStanding()), fate)
      ensures newStatus == status && lastRunTime == runTime
    {
      match fate {
        case Succeeded => status := JobGood;
        case Failed => Handle();
        case Cancelled =>
      }
      lastRunTime := runTime;
      newStatus := status;
    }
  }

  // ---------- Whole lives ----------

  datatype Event = ChanceEvent | FinishEvent(fate: SubprocFate)

  function Step(handler: ErrorHandler, s: Standing, e: Event): Standing {
    match e
    case ChanceEvent => Chance(s).0
    case FinishEvent(fate) => Finished(handler, s, fate)
  }

  /** The standing of a job after any interleaving of chances and ends of runs. */
  function Life(handler: ErrorHandler, events: seq<Event>): Standing {
    if events == [] then NEW_JOB else Step(handler, Life(handler, events[..|events| - 1]), events[|events| - 1])
  }

  /** How many runs have failed since the last success, or since the start. */
  function FailuresInARow(events: seq<Event>): nat {
    if events == [] then 0
    else
      var init, last := events[..|events| - 1], events[|events| - 1];
      if last == FinishEvent(Succeeded) then 0
      else FailuresInARow(init) + if last == FinishEvent(Failed) then 1 else 0
  }

  /** How many chances have come since the last failure, or since the start. */
  function ChancesSinceFailure(events: seq<Event>): nat {
    if events == [] then 0
    else
      var init, last := events[..|events| - 1], events[|events| - 1];
      if last == FinishEvent(Failed) then 0
      else ChancesSinceFailure(init) + if last == ChanceEvent then 1 else 0
  }

  function Power2(n: nat): nat {
    if n == 0 then 1 else 2 * Power2(n - 1)
  }

  /**
   Main result on backoff: under any interleaving, the number of failures since the last success alone decides the
   status, Good at none, Backoff at one to four with waits 1, 2, 4 and 8, Failed from the fifth on; and while in
   Backoff, every chance since the last failure has used up one skip.
   */
  lemma {:induction false} BackoffLife(events: seq<Event>)
    ensures var s, n := Life(BackoffErrorHandler, events), FailuresInARow(events);
            && (s.status == JobGood <==> n == 0)
            && (s.status == JobBackoff <==> 1 <= n <= 4)
            && (s.status == JobFailed <==> n >= 5)
            && (1 <= n <= 4 ==>
                  s.backoffLevel == Power2(n - 1) && s.skipsLeft == s.backoffLevel - ChancesSinceFailure(events))
            && (n >= 5 ==> s.backoffLevel == 0 && s.skipsLeft == 0)
            && 0 <= s.backoffLevel <= MAX_BACKOFF_WAIT && s.skipsLeft <= s.backoffLevel
  {
    if events != [] {
      BackoffLife(events[..|events| - 1]);
      var n := FailuresInARow(events);
      assert Power2(0) == 1 && Power2(1) == 2 && Power2(2) == 4 && Power2(3) == 8;
    }
  }

  /** Nothing has failed since the last success, or at most four runs have and enough chances have been let pass. */
  predicate BackoffTakes(events: seq<Event>) {
    var n := FailuresInARow(events);
    n == 0 || (n <= 4 && ChancesSinceFailure(events) + 1 >= Power2(n - 1))
  }

  /** A chance is taken in Backoff exactly when as many chances have come since the failure as the wait says. */
  lemma BackoffChance(events: seq<Event>)
    ensures Chance(Life(BackoffErrorHandler, events)).1 <==> BackoffTakes(events)
  {
    BackoffLife(events);
  }

  /** What a failed run leaves, however the job stood: the next chance is taken, no chance is, or the wait doubles. */
  lemma AfterFailure(s: Standing)
    ensures Chance(Handled(ContinueErrorHandler, s)).1 && Handled(ContinueErrorHandler, s).status == JobGood
    ensures !Chance(Handled(StopErrorHandler, s)).1 && Handled(StopErrorHandler, s).status == JobFailed
    ensures s.status == JobGood ==> Handled(BackoffErrorHandler, s) == Standing(JobBackoff, 1, 1)
    ensures s.status == JobBackoff && 1 <= s.backoffLevel <= 4 ==>
              Handled(BackoffErrorHandler, s) == Standing(JobBackoff, 2 * s.backoffLevel, 2 * s.backoffLevel)
    ensures s.status == JobBackoff && s.backoffLevel > 4 ==> Handled(BackoffErrorHandler, s).status == JobFailed
  {
  }

  /** A job that continues after errors takes every chance. */
  lemma {:induction false} ContinueLife(events: seq<Event>)
    ensures Life(ContinueErrorHandler, events).status == JobGood && Chance(Life(ContinueErrorHandler, events)).1
  {
    if events != [] {
      ContinueLife(events[..|events| - 1]);
    }
  }

  /** A job that stops after errors takes no chance from a failure on until some run still under way succeeds. */
  lemma {:induction false} StopLife(events: seq<Event>)
    ensures Chance(Life(StopErrorHandler, events)).1 <==> FailuresInARow(events) == 0
    ensures Life(StopErrorHandler, events).status != JobBackoff
  {
    if events != [] {
      StopLife(events[..|events| - 1]);
    }
  }

  // ---------- Chance by chance ----------

  /** The ends of these runs, one after another. */
  function AfterEnds(handler: ErrorHandler, s: Standing, fates: seq<SubprocFate>): Standing {
    if fates == [] then s else Finished(handler, AfterEnds(handler, s, fates[..|fates| - 1]), fates[|fates| - 1])
  }

  function EndEvents(fates: seq<SubprocFate>): seq<Event> {
    if fates == [] then [] else EndEvents(fates[..|fates| - 1]) + [FinishEvent(fates[|fates| - 1])]
  }

  /** What has happened to a job before its chance k when runs ended with ends[i] between chances i - 1 and i. */
  function EventsBefore(ends: seq<seq<SubprocFate>>, k: nat): seq<Event>
    requires k < |ends|
  {
    (if k == 0 then [] else EventsBefore(ends, k - 1) + [ChanceEvent]) + EndEvents(ends[k])
  }

  /** The standings before a job's chances, as these ends of runs between them make them. */
  ghost predicate LivedThrough(handler: ErrorHandler, standings: seq<Standing>, ends: seq<seq<SubprocFate>>) {
    && |ends| == |standings|
    && forall k | 0 <= k < |standings| :: standings[k] == AfterEnds(handler, AfterChance(standings, k), ends[k])
  }

  function AfterChance(standings: seq<Standing>, k: nat): Standing
    requires k < |standings|
  {
    if k == 0 then NEW_JOB else Chance(standings[k - 1]).0
  }

  lemma {:induction false} LifeAfterEnds(handler: ErrorHandler, events: seq<Event>, fates: seq<SubprocFate>)
    ensures Life(handler, events + EndEvents(fates)) == AfterEnds(handler, Life(handler, events), fates)
  {
    if fates == [] {
      assert events + [] == events;
    } else {
      var init, last := fates[..|fates| - 1], FinishEvent(fates[|fates| - 1]);
      LifeAfterEnds(handler, events, init);
      assert events + EndEvents(fates) == events + EndEvents(init) + [last];
      assert (events + EndEvents(init) + [last])[..|events + EndEvents(init)|] == events + EndEvents(init);
    }
  }

  /** A job's standing before each chance is the one its life so far gives it. */
  lemma {:induction false} StandingIsLife(
    handler: ErrorHandler, standings: seq<Standing>, ends: seq<seq<SubprocFate>>, k: nat)
    requires LivedThrough(handler, standings, ends) && k < |standings|
    ensures standings[k] == Life(handler, EventsBefore(ends, k))
    decreases k
  {
    hide Chance;
    assert standings[k] == AfterEnds(handler, AfterChance(standings, k), ends[k]);
    if k == 0 {
      LifeAfterEnds(handler, [], ends[k]);
      assert [] + EndEvents(ends[k]) == EndEvents(ends[k]);
    } else {
      StandingIsLife(handler, standings, ends, k - 1);
      var before := EventsBefore(ends, k - 1);
      assert (before + [ChanceEvent])[..|before|] == before;
      LifeAfterEnds(handler, before + [ChanceEvent], ends[k]);
    }
  }

  /** What decides a Backoff job's chance, whatever runs end in whatever way between its chances. */
  lemma ChanceAsBackoffSays(standings: seq<Standing>, ends: seq<seq<SubprocFate>>, k: nat)
    requires LivedThrough(BackoffErrorHandler, standings, ends) && k < |standings|
    ensures Chance(standings[k]).1 <==> BackoffTakes(EventsBefore(ends, k))
  {
    StandingIsLife(BackoffErrorHandler, standings, ends, k);
    BackoffChance(EventsBefore(ends, k));
  }

  // ---------- The job that always fails ----------

  /** The standing after n chances, every run taken failing before the next chance. */
  function AlwaysFailing(n: nat): Standing {
    if n == 0 then NEW_JOB
    else
      var (s, run) := Chance(AlwaysFailing(n - 1));
      if run then Finished(BackoffErrorHandler, s, Failed) else s
  }

  /** Whether chance n, counting from 1, is taken. */
  predicate RunsAt(n: nat)
    requires n >= 1
  {
    Chance(AlwaysFailing(n - 1)).1
  }

  /** The standing of the always failing job, chance by chance: level 2^k with the skips left up to the next power. */
  function AlwaysFailingStanding(n: nat): Standing {
    if n == 0 then NEW_JOB
    else if n < 2 then Standing(JobBackoff, 1, 2 - n)
    else if n < 4 then Standing(JobBackoff, 2, 4 - n)
    else if n < 8 then Standing(JobBackoff, 4, 8 - n)
    else if n < 16 then Standing(JobBackoff, 8, 16 - n)
    else Standing(JobFailed, 0, 0)
  }

  lemma {:induction false} AlwaysFailingIs(n: nat)
    ensures AlwaysFailing(n) == AlwaysFailingStanding(n)
  {
    if n > 0 {
      AlwaysFailingIs(n - 1);
    }
  }

  /** Main result: it runs at its first, second, fourth, eighth and sixteenth chance, and never again. */
  lemma AlwaysFailingRunsAt(n: nat)
    requires n >= 1
    ensures RunsAt(n) <==> n in {1, 2, 4, 8, 16}
  {
    AlwaysFailingIs(n - 1);
  }
}
