/**
 How the job manager, the job-runner thread and the goroutines of job runs work together
 (job_manager.go, job_runner_thread.go), as a transition system.

 Every Start makes a new generation: a record channel, a context and a runner goroutine. A step of the system is named
 by a label; what it does is a function of the state.
 */
module RunnerProtocol {
  import opened Wrappers

  /** Where a runner goroutine is. Its deferred calls clear Running first and close the channel then. */
  datatype RunnerPc = Beginning | Popping | WaitingForRuns | ClearingRunning | ClosingChan | Ended

  /** A runner goroutine; jfile is the jobfile its jobs come from, toClose the channel its deferred close will close. */
  datatype Runner = Runner(pc: RunnerPc, jfile: nat, toClose: Option<nat>)

  /** Where the goroutine of a run is; Sent is after the rendezvous on the channel, before telling the wait group. */
  datatype RunPc = Executing | Executed(err: bool) | Sent | Finished

  /** The goroutine of a job run; chan is the channel it will send on, once it has read the field. */
  datatype Run = Run(gen: nat, pc: RunPc, chan: Option<nat>)

  datatype AfterDrain = Reload | Shutdown

  datatype Crash = SendOnClosedChan | CloseOfClosedChan | AlreadyRunning | EndedPrematurely | NilJobfile | RunError

  datatype ManagerPc =
    | OpeningJobfile
    | Cancelling(after: AfterDrain)
    | Draining(after: AfterDrain, chan: Option<nat>)
    | Activating
    | Starting
    | Idle
    | Exited
    | Crashed(reason: Crash)

  /** A record that handleRunRec has put into the run log of a jobfile. */
  datatype Handled = Handled(run: nat, jfile: nat)

  datatype State = State(
    manager: ManagerPc,
    jfile: nat,                // the active jobfile
    nextJfile: nat,            // the next one to be activated
    running: bool,             // JobRunnerThread.Running
    chanField: Option<nat>,    // JobRunnerThread.runRecChan
    ctxField: Option<nat>,     // the context that JobRunnerThread.ctxCancel cancels
    runners: seq<Runner>,      // by generation
    cancelled: set<nat>,       // generations whose context is cancelled
    closed: set<nat>,          // generations whose channel is closed
    runs: seq<Run>,            // in the order of their launch
    log: seq<Handled>)

  const INITIAL := State(OpeningJobfile, 0, 1, false, None, None, [], {}, {}, [], [])

  // ---------- Steps ----------

  datatype Label =
    // the manager
    | JobfileGood               // a jobfile is opened, or there is none
    | JobfileBad                // the jobfile has an error
    | CancelRunner
    | Receive(run: nat)         // from the run's goroutine, in the main loop or while draining
    | SeeClosed                 // a receive finds the channel closed
    | ActivateGood
    | ActivateBad
    | StartRunner
    | ReloadCommand
    | ReplaceCommand            // set-job and delete-job, which bring their own jobfile
    | ShutdownCommand
    // the runner goroutine of a generation
    | RunnerBegins(gen: nat)
    | Launch(gen: nat)          // Pop returns a job; possible after cancelling too
    | PopReturnsNil(gen: nat)
    | RunsAreDone(gen: nat)
    | ClearRunning(gen: nat)
    | CloseChan(gen: nat)
    // the goroutine of a run
    | ReadChanField(run: nat)
    | Execute(run: nat, err: bool)
    | SendOnClosed(run: nat)
    | TellWaitGroup(run: nat)

  predicate IsClosed(s: State, chan: Option<nat>) {
    chan.None? || chan.value in s.closed
  }

  /** The goroutine of the run stands at its send, on this channel. */
  predicate ReadyToSend(s: State, run: nat, chan: Option<nat>) {
    run < |s.runs| && s.runs[run].pc.Executed? && s.runs[run].chan.Some? && s.runs[run].chan == chan
  }

  function SetRunner(s: State, gen: nat, pc: RunnerPc): State
    requires gen < |s.runners|
  {
    s.(runners := s.runners[gen := s.runners[gen].(pc := pc)])
  }

  function SetRun(s: State, run: nat, pc: RunPc): State
    requires run < |s.runs|
  {
    s.(runs := s.runs[run := s.runs[run].(pc := pc)])
  }

  function Crashing(s: State, reason: Crash): State {
    s.(manager := Crashed(reason))
  }

  predicate RunnerAt(s: State, gen: nat, pc: RunnerPc) {
    gen < |s.runners| && s.runners[gen].pc == pc
  }

  predicate AllRunsFinished(s: State, gen: nat) {
    forall r | 0 <= r < |s.runs| :: s.runs[r].gen == gen ==> s.runs[r].pc == Finished
  }

  /** The manager receives a record and handles it: it panics on the record of a run that could not be carried out. */
  function Receiving(s: State, run: nat): State
    requires run < |s.runs| && s.runs[run].pc.Executed?
  {
    if s.runs[run].pc.err then Crashing(SetRun(s, run, Sent), RunError)
    else SetRun(s, run, Sent).(log := s.log + [Handled(run, s.jfile)])
  }

  /** The manager's steps. */
  function ManagerStep(s: State, l: Label): Option<State> {
    match l
    case JobfileGood =>
      if s.manager.OpeningJobfile? then Some(s.(manager := Cancelling(Reload))) else None
    case JobfileBad =>
      if s.manager.OpeningJobfile? then Some(s.(manager := if s.running then Idle else Starting)) else None
    case CancelRunner =>
      if s.manager.Cancelling? then
        Some(s.(cancelled := if s.ctxField.Some? then s.cancelled + {s.ctxField.value} else s.cancelled,
                manager := Draining(s.manager.after, s.chanField)))
      else None
    case Receive(run) =>
      if s.manager.Draining? && ReadyToSend(s, run, s.manager.chan) && !IsClosed(s, s.manager.chan) then
        Some(Receiving(s, run))
      else if s.manager.Idle? && ReadyToSend(s, run, s.chanField) && !IsClosed(s, s.chanField) then
        Some(Receiving(s, run))
      else None
    case SeeClosed =>
      if s.manager.Draining? && IsClosed(s, s.manager.chan) then
        Some(s.(manager := if s.manager.after == Reload then Activating else Exited))
      else if s.manager.Idle? && IsClosed(s, s.chanField) then Some(Crashing(s, EndedPrematurely))
      else None
    case ActivateGood =>
      if s.manager.Activating? then Some(s.(jfile := s.nextJfile, nextJfile := s.nextJfile + 1, manager := Starting))
      else None
    case ActivateBad =>
      // the old jobfile is overwritten by nil, whose jobs are then asked for
      if s.manager.Activating? then Some(Crashing(s, NilJobfile)) else None
    case StartRunner =>
      if !s.manager.Starting? then None
      else if s.running then Some(Crashing(s, AlreadyRunning))
      else
        var gen := |s.runners|;
        Some(s.(running := true, chanField := Some(gen), ctxField := Some(gen),
                runners := s.runners + [Runner(Beginning, s.jfile, None)], manager := Idle))
    case ReloadCommand => if s.manager.Idle? then Some(s.(manager := OpeningJobfile)) else None
    case ReplaceCommand => if s.manager.Idle? then Some(s.(manager := Cancelling(Reload))) else None
    case ShutdownCommand => if s.manager.Idle? then Some(s.(manager := Cancelling(Shutdown))) else None
    case _ => None
  }

  /** The runner goroutines' steps. */
  function RunnerStep(s: State, l: Label): Option<State> {
    match l
    case RunnerBegins(gen) =>
      if RunnerAt(s, gen, Beginning) then
        Some(s.(runners := s.runners[gen := s.runners[gen].(pc := Popping, toClose := s.chanField)]))
      else None
    case Launch(gen) =>
      if RunnerAt(s, gen, Popping) then Some(s.(runs := s.runs + [Run(gen, Executing, None)])) else None
    case PopReturnsNil(gen) =>
      if RunnerAt(s, gen, Popping) && gen in s.cancelled then Some(SetRunner(s, gen, WaitingForRuns)) else None
    case RunsAreDone(gen) =>
      if RunnerAt(s, gen, WaitingForRuns) && AllRunsFinished(s, gen) then Some(SetRunner(s, gen, ClearingRunning))
      else None
    case ClearRunning(gen) =>
      if RunnerAt(s, gen, ClearingRunning) then Some(SetRunner(s, gen, ClosingChan).(running := false)) else None
    case CloseChan(gen) =>
      if !RunnerAt(s, gen, ClosingChan) then None
      else if IsClosed(s, s.runners[gen].toClose) then Some(Crashing(s, CloseOfClosedChan))
      else Some(SetRunner(s, gen, Ended).(closed := s.closed + {s.runners[gen].toClose.value}))
    case _ => None
  }

  /** The steps of the goroutines of runs. */
  function RunStep(s: State, l: Label): Option<State> {
    match l
    case ReadChanField(run) =>
      if run < |s.runs| && s.runs[run].chan.None? then
        Some(s.(runs := s.runs[run := s.runs[run].(chan := s.chanField)]))
      else None
    case Execute(run, err) =>
      if run < |s.runs| && s.runs[run].pc == Executing then Some(SetRun(s, run, Executed(err))) else None
    case SendOnClosed(run) =>
      if run < |s.runs| && ReadyToSend(s, run, s.runs[run].chan) && IsClosed(s, s.runs[run].chan) then
        Some(Crashing(s, SendOnClosedChan))
      else None
    case TellWaitGroup(run) =>
      if run < |s.runs| && s.runs[run].pc == Sent then Some(SetRun(s, run, Finished)) else None
    case _ => None
  }

  predicate IsRunnerLabel(l: Label) {
    l.RunnerBegins? || l.Launch? || l.PopReturnsNil? || l.RunsAreDone? || l.ClearRunning? || l.CloseChan?
  }

  predicate IsRunLabel(l: Label) {
    l.ReadChanField? || l.Execute? || l.SendOnClosed? || l.TellWaitGroup?
  }

  /** One step, if it is possible; a crash ends the process. */
  function Step(s: State, l: Label): Option<State> {
    if s.manager.Crashed? then None
    else if IsRunnerLabel(l) then RunnerStep(s, l)
    else if IsRunLabel(l) then RunStep(s, l)
    else ManagerStep(s, l)
  }

  /** The state after a sequence of steps from launching the manager, if all are possible. */
  function Execution(labels: seq<Label>): Option<State> {
    if labels == [] then Some(INITIAL)
    else
      var before := Execution(labels[..|labels| - 1]);
      if before.None? then None else Step(before.value, labels[|labels| - 1])
  }

  // ---------- The invariant ----------

  /** Only the newest generation can be alive; the fields belong to it. */
  ghost predicate Generations(s: State) {
    var n := |s.runners|;
    && (forall g | 0 <= g < n - 1 :: s.runners[g].pc == Ended)
    && s.chanField == s.ctxField == (if n == 0 then None else Some(n - 1))
    && (forall g | 0 <= g < n :: s.runners[g].pc != Beginning ==> s.runners[g].toClose == Some(g))
    && (forall g | 0 <= g < n :: g in s.closed <==> s.runners[g].pc == Ended)
    && (forall g | g in s.closed :: g < n)
    && (s.running <==> n > 0 && s.runners[n - 1].pc !in {ClosingChan, Ended})
    && (forall g | 0 <= g < n && s.runners[g].pc !in {Beginning, Popping} :: g in s.cancelled)
  }

  /** A run that is not over belongs to a runner that still waits for it, and sends on that generation's channel. */
  ghost predicate RunsKept(s: State) {
    forall r | 0 <= r < |s.runs| :: RunKept(s, s.runs[r])
  }

  ghost predicate RunKept(s: State, run: Run) {
    && run.gen < |s.runners|
    && (run.pc != Finished ==> s.runners[run.gen].pc in {Popping, WaitingForRuns})
    && (run.pc != Finished && run.chan.Some? ==> run.chan == Some(run.gen))
    && (run.pc in {Sent, Finished} ==> run.chan.Some?)
  }

  ghost predicate AllEnded(s: State) {
    forall g | 0 <= g < |s.runners| :: s.runners[g].pc == Ended
  }

  /** The newest runner's jobs come from the active jobfile, and it has not been told to stop. */
  ghost predicate RunnerCurrent(s: State) {
    |s.runners| > 0 ==> s.runners[|s.runners| - 1].jfile == s.jfile
  }

  ghost predicate NotCancelled(s: State) {
    |s.runners| > 0 ==> |s.runners| - 1 !in s.cancelled
  }

  ghost predicate ManagerKept(s: State) {
    match s.manager
    case OpeningJobfile => RunnerCurrent(s) && NotCancelled(s)
    case Cancelling(after) => RunnerCurrent(s)
    case Draining(after, chan) =>
      RunnerCurrent(s) && chan == s.chanField && (|s.runners| > 0 ==> |s.runners| - 1 in s.cancelled)
    case Activating => AllEnded(s)
    case Starting => AllEnded(s)
    case Idle => |s.runners| > 0 && RunnerCurrent(s) && NotCancelled(s)
    case Exited => AllEnded(s)
    case Crashed(reason) => true
  }

  /** The run was received, and launched under the jobfile whose log it is in. */
  ghost predicate RightlyLogged(s: State, h: Handled) {
    && h.run < |s.runs|
    && s.runs[h.run].pc in {Sent, Finished}
    && s.runs[h.run].gen < |s.runners|
    && h.jfile == s.runners[s.runs[h.run].gen].jfile
  }

  /** The log holds each run whose record was received, once, under the jobfile it was launched under. */
  ghost predicate LogKept(s: State) {
    && (forall i | 0 <= i < |s.log| :: RightlyLogged(s, s.log[i]))
    && (forall i, j | 0 <= i < j < |s.log| :: s.log[i].run != s.log[j].run)
    && (forall r | 0 <= r < |s.runs| && s.runs[r].pc in {Sent, Finished} :: Logged(s, r))
  }

  ghost predicate Logged(s: State, run: nat) {
    exists i | 0 <= i < |s.log| :: s.log[i].run == run
  }

  ghost predicate NoCancelledAhead(s: State) {
    forall g | g in s.cancelled :: g < |s.runners|
  }

  ghost predicate Inv(s: State) {
    Generations(s) && RunsKept(s) && ManagerKept(s) && LogKept(s) && NoCancelledAhead(s) && !s.manager.Crashed?
  }

  /** The two ways in which the process may end in a panic. */
  ghost predicate KnownCrash(s: State, l: Label, t: State) {
    || (l == ActivateBad && t.manager == Crashed(NilJobfile))
    || (l.Receive? && l.run < |s.runs| && s.runs[l.run].pc == Executed(true) && t.manager == Crashed(RunError))
  }

  /** A run that stands at its send, or is not over at all, is of the newest generation, whose channel is open. */
  lemma UnfinishedIsNewest(s: State, r: nat)
    requires Inv(s) && r < |s.runs| && s.runs[r].pc != Finished
    ensures s.runs[r].gen == |s.runners| - 1 && s.chanField == Some(s.runs[r].gen) && !IsClosed(s, s.chanField)
    ensures s.runs[r].chan.Some? ==> s.runs[r].chan == s.chanField
  {
  }

  lemma ReceiveKeeps(s: State, run: nat)
    requires Inv(s) && run < |s.runs| && s.runs[run].pc == Executed(false) && s.runs[run].chan.Some?
    requires s.manager.Idle? || s.manager.Draining?
    ensures Inv(Receiving(s, run))
  {
    UnfinishedIsNewest(s, run);
    ReceiveKeepsLog(s, run);
    hide LogKept;
    var t := Receiving(s, run);
    forall r | 0 <= r < |t.runs| ensures RunKept(t, t.runs[r]) { assert RunKept(s, s.runs[r]); }
  }

  lemma ReceiveKeepsLog(s: State, run: nat)
    requires LogKept(s) && run < |s.runs| && s.runs[run].pc == Executed(false)
    requires |s.runners| > 0 && s.runs[run].gen == |s.runners| - 1 && RunnerCurrent(s)
    ensures LogKept(Receiving(s, run))
  {
    var t := Receiving(s, run);
    forall i | 0 <= i < |t.log| ensures RightlyLogged(t, t.log[i]) {
      assert i < |s.log| ==> RightlyLogged(s, s.log[i]) && t.log[i] == s.log[i];
    }
    forall i | 0 <= i < |s.log| ensures s.log[i].run != run {
      assert RightlyLogged(s, s.log[i]);
    }
    forall r | 0 <= r < |t.runs| && t.runs[r].pc in {Sent, Finished} ensures Logged(t, r) {
      if r == run {
        assert t.log[|s.log|].run == run;
      } else {
        assert Logged(s, r);
        LoggedLonger(s, t, r);
      }
    }
  }

  lemma LoggedLonger(s: State, t: State, run: nat)
    requires Logged(s, run) && |s.log| <= |t.log| && t.log[..|s.log|] == s.log
    ensures Logged(t, run)
  {
  }

  lemma ManagerStepKeeps(s: State, l: Label)
    requires Inv(s) && ManagerStep(s, l).Some?
    ensures Inv(ManagerStep(s, l).value) || KnownCrash(s, l, ManagerStep(s, l).value)
  {
    var t := ManagerStep(s, l).value;
    match l
    case Receive(run) =>
      if s.runs[run].pc == Executed(false) {
        ReceiveKeeps(s, run);
      }
    case StartRunner => StartKeeps(s);
    case CancelRunner => OnlyManagerMoves(s, t);
    case ActivateBad =>
    case _ =>
      if !t.manager.Crashed? {
        OnlyManagerMoves(s, t);
      }
  }

  /** Where the manager is, which jobfile is active and which contexts are cancelled bears on the manager only. */
  lemma OnlyManagerMoves(s: State, t: State)
    requires Inv(s) && ManagerKept(t) && !t.manager.Crashed?
    requires t == s.(manager := t.manager, jfile := t.jfile, nextJfile := t.nextJfile, cancelled := t.cancelled)
    requires s.cancelled <= t.cancelled && NoCancelledAhead(t)
    ensures Inv(t)
  {
  }

  lemma StartKeeps(s: State)
    requires Inv(s) && s.manager == Starting
    ensures Inv(ManagerStep(s, StartRunner).value)
  {
    var t := ManagerStep(s, StartRunner).value;
    forall r | 0 <= r < |t.runs| ensures RunKept(t, t.runs[r]) { assert RunKept(s, s.runs[r]); }
    forall r | 0 <= r < |t.runs| && t.runs[r].pc in {Sent, Finished} ensures Logged(t, r) { assert Logged(s, r); }
  }

  /** Changing where a runner is, among the places that keep its runs, or away from them when it has none left. */
  lemma RunnerMoveKeepsRuns(s: State, t: State, gen: nat)
    requires RunsKept(s) && LogKept(s) && gen < |s.runners| == |t.runners| && t.runs == s.runs && t.log == s.log
    requires forall g | 0 <= g < |s.runners| && g != gen :: t.runners[g] == s.runners[g]
    requires t.runners[gen].jfile == s.runners[gen].jfile
    requires t.runners[gen].pc in {Popping, WaitingForRuns} || AllRunsFinished(s, gen)
    ensures RunsKept(t) && LogKept(t)
  {
  }

  /** No run of a runner that no longer waits is unfinished. */
  lemma PastWaiting(s: State, gen: nat)
    requires RunsKept(s) && gen < |s.runners| && s.runners[gen].pc !in {Popping, WaitingForRuns}
    ensures AllRunsFinished(s, gen)
  {
  }

  lemma LaunchKeeps(s: State, gen: nat)
    requires Inv(s) && RunnerAt(s, gen, Popping)
    ensures Inv(RunnerStep(s, Launch(gen)).value)
  {
    var t := RunnerStep(s, Launch(gen)).value;
    forall r | 0 <= r < |t.runs| ensures RunKept(t, t.runs[r]) {
      if r < |s.runs| { assert RunKept(s, s.runs[r]); }
    }
    forall r | 0 <= r < |t.runs| && t.runs[r].pc in {Sent, Finished} ensures Logged(t, r) { assert Logged(s, r); }
  }

  lemma RunnerStepKeeps(s: State, l: Label)
    requires Inv(s) && RunnerStep(s, l).Some?
    ensures Inv(RunnerStep(s, l).value)
  {
    var t := RunnerStep(s, l).value;
    if l.Launch? {
      LaunchKeeps(s, l.gen);
    } else {
      if s.runners[l.gen].pc !in {Popping, WaitingForRuns} {
        PastWaiting(s, l.gen);
      }
      RunnerMoveKeepsRuns(s, t, l.gen);
    }
  }

  lemma RunStepKeeps(s: State, l: Label)
    requires Inv(s) && RunStep(s, l).Some?
    ensures Inv(RunStep(s, l).value)
  {
    hide RunStep, Generations, RunsKept, ManagerKept, LogKept, NoCancelledAhead;
    RunStepMovesRuns(s, l);
    RunStepKeepsRuns(s, l);
    RunStepKeepsLog(s, l);
    OnlyRunsMove(s, RunStep(s, l).value);
  }

  lemma RunStepMovesRuns(s: State, l: Label)
    requires Inv(s) && RunStep(s, l).Some?
    ensures var t := RunStep(s, l).value; t == s.(runs := t.runs)
    ensures IsRunLabel(l) && l.run < |s.runs|
    ensures s.runs[l.run].pc != Finished ==> s.chanField == Some(s.runs[l.run].gen)
  {
    hide Inv;
    if l.run < |s.runs| && s.runs[l.run].pc != Finished {
      UnfinishedIsNewest(s, l.run);
    }
  }

  lemma OnlyRunsMove(s: State, t: State)
    requires Inv(s) && t == s.(runs := t.runs) && RunsKept(t) && LogKept(t)
    ensures Inv(t)
  {
    hide RunsKept, LogKept;
  }

  lemma RunStepKeepsRuns(s: State, l: Label)
    requires RunsKept(s) && RunStep(s, l).Some? && !RunStep(s, l).value.manager.Crashed?
    requires s.runs[l.run].pc != Finished ==> s.chanField == Some(s.runs[l.run].gen)
    ensures RunsKept(RunStep(s, l).value)
  {
  }

  lemma RunStepKeepsLog(s: State, l: Label)
    requires LogKept(s) && RunStep(s, l).Some?
    ensures LogKept(RunStep(s, l).value)
  {
    var t := RunStep(s, l).value;
    forall r | 0 <= r < |t.runs| && t.runs[r].pc in {Sent, Finished} ensures Logged(t, r) { assert Logged(s, r); }
  }

  /** Every step from a good state leads to a good state or is one of the two known crashes. */
  lemma StepKeeps(s: State, l: Label)
    requires Inv(s) && Step(s, l).Some?
    ensures Inv(Step(s, l).value) || KnownCrash(s, l, Step(s, l).value)
  {
    if IsRunnerLabel(l) {
      RunnerStepKeeps(s, l);
    } else if IsRunLabel(l) {
      RunStepKeeps(s, l);
    } else {
      ManagerStepKeeps(s, l);
    }
  }

  // ---------- Whole executions ----------

  /** In any interleaving every state is good, unless the last step was one of the two known crashes. */
  lemma {:induction false} ExecutionKeeps(labels: seq<Label>)
    requires Execution(labels).Some?
    ensures Inv(Execution(labels).value) ||
            (labels != [] && Execution(labels[..|labels| - 1]).Some? && Inv(Execution(labels[..|labels| - 1]).value) &&
             KnownCrash(Execution(labels[..|labels| - 1]).value, labels[|labels| - 1], Execution(labels).value))
  {
    if labels != [] {
      var init := labels[..|labels| - 1];
      ExecutionKeeps(init);
      StepKeeps(Execution(init).value, labels[|labels| - 1]);
    }
  }

  lemma GoodUnlessCrashed(labels: seq<Label>)
    requires Execution(labels).Some? && !Execution(labels).value.manager.Crashed?
    ensures Inv(Execution(labels).value)
  {
    ExecutionKeeps(labels);
  }

  /**
   Main result on crashes: in no interleaving does a goroutine send on a closed channel, is a channel closed twice, is
   a running thread started, or does the runner end prematurely. The process panics exactly when its last step activates
   a bad jobfile or receives the record of a run that could not be carried out.
   */
  lemma CrashesOnlyAsKnown(labels: seq<Label>)
    requires Execution(labels).Some?
    ensures var s := Execution(labels).value;
            && (s.manager.Crashed? ==> s.manager.reason in {NilJobfile, RunError})
            && (s.manager.Crashed? <==>
                  labels != [] && var before := Execution(labels[..|labels| - 1]);
                                  before.Some? && KnownCrash(before.value, labels[|labels| - 1], s))
  {
    ExecutionKeeps(labels);
  }

  /** At any time no goroutine of a run is about to send on a closed channel. */
  lemma NoSendOnClosed(labels: seq<Label>, run: nat)
    requires Execution(labels).Some?
    ensures Step(Execution(labels).value, SendOnClosed(run)).None?
  {
    ExecutionKeeps(labels);
    hide Execution, Inv;
    var s := Execution(labels).value;
    if Inv(s) {
      NoSendOnClosedIn(s, run);
    }
  }

  lemma NoSendOnClosedIn(s: State, run: nat)
    requires Inv(s)
    ensures Step(s, SendOnClosed(run)).None?
  {
  }

  /** Closed implies not running: whenever the channel field is closed, Running is false, so a Start will not panic. */
  lemma ClosedMeansNotRunning(labels: seq<Label>)
    requires Execution(labels).Some? && !Execution(labels).value.manager.Crashed?
    ensures var s := Execution(labels).value; IsClosed(s, s.chanField) ==> !s.running
  {
    ExecutionKeeps(labels);
  }

  /**
   Main result on records: no record is handled twice, and each goes to the run log of the jobfile its run was launched
   under.
   */
  lemma HandledOnceInOwnLog(labels: seq<Label>, i: nat)
    requires Execution(labels).Some? && !Execution(labels).value.manager.Crashed?
    requires i < |Execution(labels).value.log|
    ensures var s := Execution(labels).value;
            && s.log[i].run < |s.runs| && s.runs[s.log[i].run].gen < |s.runners|
            && s.log[i].jfile == s.runners[s.runs[s.log[i].run].gen].jfile
            && forall j | 0 <= j < |s.log| && j != i :: s.log[j].run != s.log[i].run
  {
    GoodUnlessCrashed(labels);
    hide Execution, Inv;
    LogEntryKept(Execution(labels).value, i);
  }

  lemma LogEntryKept(s: State, i: nat)
    requires Inv(s) && i < |s.log|
    ensures s.log[i].run < |s.runs| && s.runs[s.log[i].run].gen < |s.runners|
    ensures s.log[i].jfile == s.runners[s.runs[s.log[i].run].gen].jfile
    ensures forall j | 0 <= j < |s.log| && j != i :: s.log[j].run != s.log[i].run
  {
  }

  /**
   Main result on draining: when a new jobfile is activated, and when the manager has exited, no run is in flight and
   the record of every run ever launched has been handled.
   */
  lemma NothingInFlight(labels: seq<Label>, run: nat)
    requires Execution(labels).Some?
    requires Execution(labels).value.manager in {Activating, Starting, Exited}
    requires run < |Execution(labels).value.runs|
    ensures Execution(labels).value.runs[run].pc == Finished && Logged(Execution(labels).value, run)
  {
    ExecutionKeeps(labels);
    var s := Execution(labels).value;
    assert RunKept(s, s.runs[run]);
  }

  // ---------- Draining ends ----------

  /** A label of a step by which draining goes on, not one that launches another run. */
  predicate Drains(l: Label) {
    l.Receive? || l.SeeClosed? || (IsRunnerLabel(l) && !l.Launch?) || IsRunLabel(l)
  }

  function RunRank(run: Run): nat {
    (if run.chan.None? then 1 else 0) +
    match run.pc
    case Executing => 3
    case Executed(_) => 2
    case Sent => 1
    case Finished => 0
  }

  function RunnerRank(runner: Runner): nat {
    match runner.pc
    case Beginning => 5
    case Popping => 4
    case WaitingForRuns => 3
    case ClearingRunning => 2
    case ClosingChan => 1
    case Ended => 0
  }

  function RunsRank(runs: seq<Run>): nat {
    if runs == [] then 0 else RunsRank(runs[..|runs| - 1]) + RunRank(runs[|runs| - 1])
  }

  function RunnersRank(runners: seq<Runner>): nat {
    if runners == [] then 0 else RunnersRank(runners[..|runners| - 1]) + RunnerRank(runners[|runners| - 1])
  }

  /** How much is left to do before a drain ends. */
  function DrainRank(s: State): nat {
    RunsRank(s.runs) + RunnersRank(s.runners) + if s.manager.Draining? then 1 else 0
  }

  lemma {:induction false} RunsRankUpdate(runs: seq<Run>, r: nat, run: Run)
    requires r < |runs|
    ensures RunsRank(runs[r := run]) + RunRank(runs[r]) == RunsRank(runs) + RunRank(run)
  {
    var n := |runs| - 1;
    if r < n {
      RunsRankUpdate(runs[..n], r, run);
      assert runs[r := run][..n] == runs[..n][r := run];
    } else {
      assert runs[r := run][..n] == runs[..n];
    }
  }

  lemma {:induction false} RunnersRankUpdate(runners: seq<Runner>, g: nat, runner: Runner)
    requires g < |runners|
    ensures RunnersRank(runners[g := runner]) + RunnerRank(runners[g]) == RunnersRank(runners) + RunnerRank(runner)
  {
    var n := |runners| - 1;
    if g < n {
      RunnersRankUpdate(runners[..n], g, runner);
      assert runners[g := runner][..n] == runners[..n][g := runner];
    } else {
      assert runners[g := runner][..n] == runners[..n];
    }
  }

  /** Every step of a drain, launches aside, leaves less to do. */
  lemma DrainShrinks(s: State, l: Label)
    requires Inv(s) && s.manager.Draining? && Drains(l) && Step(s, l).Some? && Inv(Step(s, l).value)
    ensures DrainRank(Step(s, l).value) < DrainRank(s)
  {
    GoodIsNotCrashed(Step(s, l).value);
    hide Inv, RunnerStep, RunStep, ManagerStep, DrainRank;
    if IsRunnerLabel(l) {
      RunnerStepShrinks(s, l);
    } else if IsRunLabel(l) {
      RunStepShrinks(s, l);
    } else {
      ManagerStepShrinks(s, l);
    }
  }

  lemma GoodIsNotCrashed(s: State)
    requires Inv(s)
    ensures !s.manager.Crashed?
  {
  }

  lemma ManagerStepShrinks(s: State, l: Label)
    requires s.manager.Draining? && (l.Receive? || l.SeeClosed?)
    requires ManagerStep(s, l).Some? && !ManagerStep(s, l).value.manager.Crashed?
    ensures DrainRank(ManagerStep(s, l).value) < DrainRank(s)
  {
    if l.Receive? {
      RunsRankUpdate(s.runs, l.run, s.runs[l.run].(pc := Sent));
    }
    hide RunnersRank, RunsRank;
  }

  lemma RunnerStepShrinks(s: State, l: Label)
    requires RunnerStep(s, l).Some? && !l.Launch? && !RunnerStep(s, l).value.manager.Crashed?
    ensures DrainRank(RunnerStep(s, l).value) < DrainRank(s)
  {
    var t := RunnerStep(s, l).value;
    RunnersRankUpdate(s.runners, l.gen, t.runners[l.gen]);
    hide RunnersRank, RunsRank;
  }

  lemma RunStepShrinks(s: State, l: Label)
    requires Inv(s) && RunStep(s, l).Some? && !RunStep(s, l).value.manager.Crashed?
    ensures DrainRank(RunStep(s, l).value) < DrainRank(s)
  {
    var t := RunStep(s, l).value;
    assert RunKept(s, s.runs[l.run]);
    RunsRankUpdate(s.runs, l.run, t.runs[l.run]);
    hide RunnersRank, RunsRank;
  }

  /** Draining never gets stuck: in every state of it, some step of it is possible. */
  lemma DrainGoesOn(s: State) returns (l: Label)
    requires Inv(s) && s.manager.Draining?
    ensures Drains(l) && Step(s, l).Some?
  {
    if IsClosed(s, s.manager.chan) {
      l := SeeClosed;
    } else {
      var gen := |s.runners| - 1;
      assert s.chanField == Some(gen) && gen in s.cancelled;
      match s.runners[gen].pc
      case Beginning => l := RunnerBegins(gen);
      case Popping => l := PopReturnsNil(gen);
      case WaitingForRuns =>
        if AllRunsFinished(s, gen) {
          l := RunsAreDone(gen);
        } else {
          var r :| 0 <= r < |s.runs| && s.runs[r].gen == gen && s.runs[r].pc != Finished;
          l := RunGoesOn(s, r);
        }
      case ClearingRunning => l := ClearRunning(gen);
      case ClosingChan => l := CloseChan(gen);
    }
  }

  lemma RunGoesOn(s: State, r: nat) returns (l: Label)
    requires Inv(s) && s.manager.Draining? && r < |s.runs| && s.runs[r].pc != Finished
    ensures Drains(l) && Step(s, l).Some?
  {
    UnfinishedIsNewest(s, r);
    match s.runs[r].pc
    case Executing => l := Execute(r, false);
    case Executed(_) => l := if s.runs[r].chan.None? then ReadChanField(r) else Receive(r);
    case Sent => l := TellWaitGroup(r);
  }

  /** The state after some more steps, if all are possible. */
  function Continued(s: State, labels: seq<Label>): Option<State>
    decreases |labels|
  {
    if labels == [] then Some(s)
    else
      var t := Step(s, labels[0]);
      if t.None? then None else Continued(t.value, labels[1..])
  }

  /**
   Main result on progress: from every state of a drain, steps of it alone lead to its end, at most as many as there is
   left to do; the end is the activation, the exit, or the panic on the record of a run that could not be carried out.
   */
  lemma {:induction false} DrainEnds(s: State) returns (labels: seq<Label>)
    requires Inv(s) && s.manager.Draining?
    ensures |labels| <= DrainRank(s) && forall l | l in labels :: Drains(l)
    ensures Continued(s, labels).Some? && !Continued(s, labels).value.manager.Draining?
    decreases DrainRank(s)
  {
    hide Inv, DrainRank;
    var l := DrainGoesOn(s);
    StepKeeps(s, l);
    var t := Step(s, l).value;
    if Inv(t) {
      DrainShrinks(s, l);
      if t.manager.Draining? {
        var rest := DrainEnds(t);
        labels := [l] + rest;
        assert labels[1..] == rest;
      } else {
        labels := [l];
        DrainRankPositive(s, t);
      }
    } else {
      labels := [l];
      DrainingHasRank(s);
    }
  }

  lemma DrainRankPositive(s: State, t: State)
    requires DrainRank(t) < DrainRank(s)
    ensures DrainRank(s) >= 1
  {
  }

  lemma DrainingHasRank(s: State)
    requires s.manager.Draining?
    ensures DrainRank(s) >= 1
  {
  }

  function Launches(labels: seq<Label>): nat {
    if labels == [] then 0 else (if labels[0].Launch? then 1 else 0) + Launches(labels[1..])
  }

  /** The manager is draining in every state before the last of these steps. */
  ghost predicate DrainsThroughout(s: State, labels: seq<Label>)
    decreases |labels|
  {
    labels == [] ||
    (s.manager.Draining? && Step(s, labels[0]).Some? && DrainsThroughout(Step(s, labels[0]).value, labels[1..]))
  }

  /** While the manager drains, every step of the system is a step of the drain or a launch. */
  lemma DrainingSteps(s: State, l: Label)
    requires s.manager.Draining? && Step(s, l).Some?
    ensures Drains(l) || l.Launch?
  {
  }

  lemma LaunchGrows(s: State, l: Label)
    requires l.Launch? && Step(s, l).Some?
    ensures DrainRank(Step(s, l).value) == DrainRank(s) + 4
  {
    var t := Step(s, l).value;
    assert t.runs[..|s.runs|] == s.runs;
  }

  lemma NoStepAfterCrash(s: State, labels: seq<Label>)
    requires !s.manager.Draining? && DrainsThroughout(s, labels)
    ensures labels == []
  {
  }

  /**
   Main result on fairness: no schedule can keep a drain going but by launching. Whatever steps the system takes while
   the manager drains, in whatever order, there are at most as many as there was left to do, and five more for each
   launch; since a drain never gets stuck, every schedule that launches finitely often comes to its end.
   */
  lemma {:induction false} EveryDrainEnds(s: State, labels: seq<Label>)
    requires Inv(s) && s.manager.Draining? && DrainsThroughout(s, labels)
    ensures |labels| <= DrainRank(s) + 5 * Launches(labels)
    decreases |labels|
  {
    hide Inv, DrainRank, Step;
    if labels != [] {
      var l, rest := labels[0], labels[1..];
      DrainingSteps(s, l);
      StepKeeps(s, l);
      var t := Step(s, l).value;
      DrainingHasRank(s);
      if l.Launch? {
        LaunchGrows(s, l);
      } else if Inv(t) {
        DrainShrinks(s, l);
      }
      if Inv(t) && t.manager.Draining? {
        EveryDrainEnds(t, rest);
      } else {
        CrashIsNotDraining(s, l, t);
        NoStepAfterCrash(t, rest);
      }
    }
  }

  lemma CrashIsNotDraining(s: State, l: Label, t: State)
    ensures KnownCrash(s, l, t) ==> !t.manager.Draining?
  {
  }

  // ---------- Which way a drain ends ----------

  /** Where the manager can be once a shutdown has been asked for, and where it cannot be before. */
  ghost predicate ShutdownKept(labels: seq<Label>, m: ManagerPc) {
    if ShutdownCommand in labels then
      m == Cancelling(Shutdown) || (m.Draining? && m.after == Shutdown) || m == Exited || m == Crashed(RunError)
    else
      m != Exited && (m.Cancelling? || m.Draining? ==> m.after == Reload)
  }

  lemma OneMoreLabel(labels: seq<Label>)
    requires labels != [] && Execution(labels).Some?
    ensures var init, l := labels[..|labels| - 1], labels[|labels| - 1];
            && labels == init + [l]
            && Execution(init).Some? && Step(Execution(init).value, l) == Execution(labels)
            && forall k :: k in labels <==> k in init || k == l
  {
    var init, l := labels[..|labels| - 1], labels[|labels| - 1];
    assert labels == init + [l];
  }

  lemma {:induction false} ShutdownIsKept(labels: seq<Label>)
    requires Execution(labels).Some?
    ensures ShutdownKept(labels, Execution(labels).value.manager)
  {
    if labels != [] {
      var init, l := labels[..|labels| - 1], labels[|labels| - 1];
      OneMoreLabel(labels);
      ShutdownIsKept(init);
      CrashesOnlyAsKnown(labels);
      hide Execution, KnownCrash;
      ShutdownStep(init, labels, Execution(init).value, l);
    }
  }

  lemma ShutdownStep(init: seq<Label>, labels: seq<Label>, s: State, l: Label)
    requires ShutdownKept(init, s.manager) && Step(s, l).Some?
    requires forall k :: k in labels <==> k in init || k == l
    requires Step(s, l).value.manager.Crashed? ==> Step(s, l).value.manager.reason in {NilJobfile, RunError}
    ensures ShutdownKept(labels, Step(s, l).value.manager)
  {
  }

  /** The manager exits only if a shutdown was asked for. */
  lemma ExitedMeansShutdown(labels: seq<Label>)
    requires Execution(labels).Some? && Execution(labels).value.manager == Exited
    ensures ShutdownCommand in labels
  {
    ShutdownIsKept(labels);
  }

  /**
   Main result on shutting down: once it has been asked for, the manager only ever cancels, drains, has exited, or has
   panicked on the record of a run that could not be carried out; no jobfile is activated and no runner is started.
   */
  lemma ShutdownEndsInExit(labels: seq<Label>)
    requires Execution(labels).Some? && ShutdownCommand in labels
    ensures var m := Execution(labels).value.manager;
            m.Cancelling? || m.Draining? || m == Exited || m == Crashed(RunError)
  {
    ShutdownIsKept(labels);
  }

  /** A drain ends in the exit if a shutdown was asked for, and otherwise in the activation of the new jobfile. */
  lemma DrainEndsAsAsked(labels: seq<Label>, l: Label)
    requires Execution(labels).Some? && Execution(labels).value.manager.Draining?
    requires Execution(labels + [l]).Some?
    ensures var m := Execution(labels + [l]).value.manager;
            m.Draining? || m == Crashed(RunError) || m == if ShutdownCommand in labels then Exited else Activating
  {
    ShutdownIsKept(labels);
    CrashesOnlyAsKnown(labels + [l]);
    assert (labels + [l])[..|labels|] == labels;
    hide Execution, KnownCrash;
    OutOfDraining(Execution(labels).value, l);
  }

  lemma OutOfDraining(s: State, l: Label)
    requires s.manager.Draining? && Step(s, l).Some?
    ensures var m := Step(s, l).value.manager;
            m.Draining? || m.Crashed? || m == if s.manager.after == Shutdown then Exited else Activating
    ensures Step(s, l).value.manager != Crashed(NilJobfile)
  {
  }

  // ---------- Which phase, and which jobfile ----------

  /** A step that can move the manager on; handling a record does not. */
  predicate MovesManager(l: Label) {
    !IsRunnerLabel(l) && !IsRunLabel(l) && !l.Receive?
  }

  /** The last step that moved the manager, if any. */
  function LastMove(labels: seq<Label>): Option<Label> {
    if labels == [] then None
    else if MovesManager(labels[|labels| - 1]) then Some(labels[|labels| - 1])
    else LastMove(labels[..|labels| - 1])
  }

  /** The phase that a command or an event puts the manager in, whatever happens beside it. */
  ghost predicate PhaseAfter(move: Option<Label>, started: bool, m: ManagerPc) {
    match move
    case None => m == OpeningJobfile
    case Some(ReloadCommand) => m == OpeningJobfile
    case Some(JobfileGood) => m == Cancelling(Reload)
    case Some(ReplaceCommand) => m == Cancelling(Reload)
    case Some(ShutdownCommand) => m == Cancelling(Shutdown)
    case Some(CancelRunner) => m.Draining?
    case Some(SeeClosed) => m == Activating || m == Exited
    case Some(ActivateGood) => m == Starting
    case Some(StartRunner) => m == Idle
    case Some(JobfileBad) => m == if started then Idle else Starting
    case Some(_) => false
  }

  /** While the process has not panicked, the manager's last move alone says in which phase it is. */
  lemma {:induction false} PhaseIsOfLastMove(labels: seq<Label>)
    requires Execution(labels).Some? && !Execution(labels).value.manager.Crashed?
    ensures PhaseAfter(LastMove(labels), StartRunner in labels, Execution(labels).value.manager)
    ensures StartRunner in labels <==> Execution(labels).value.runners != []
  {
    if labels != [] {
      var init, l := labels[..|labels| - 1], labels[|labels| - 1];
      OneMoreLabel(labels);
      CrashStays(Execution(init).value, l);
      PhaseIsOfLastMove(init);
      GoodUnlessCrashed(init);
      hide Execution;
      OpeningMeansRunning(Execution(init).value);
      hide Inv;
      PhaseStep(init, labels, Execution(init).value, l);
    }
  }

  lemma CrashStays(s: State, l: Label)
    requires Step(s, l).Some?
    ensures !s.manager.Crashed?
  {
  }

  /** While a jobfile is being opened, the thread runs if it was ever started. */
  lemma OpeningMeansRunning(s: State)
    requires Inv(s)
    ensures s.manager == OpeningJobfile ==> (s.running <==> s.runners != [])
  {
  }

  lemma PhaseStep(init: seq<Label>, labels: seq<Label>, s: State, l: Label)
    requires labels == init + [l] && Step(s, l).Some? && !Step(s, l).value.manager.Crashed?
    requires s.manager == OpeningJobfile ==> (s.running <==> s.runners != [])
    requires PhaseAfter(LastMove(init), StartRunner in init, s.manager)
    requires StartRunner in init <==> s.runners != []
    ensures PhaseAfter(LastMove(labels), StartRunner in labels, Step(s, l).value.manager)
    ensures StartRunner in labels <==> Step(s, l).value.runners != []
  {
    assert labels[..|labels| - 1] == init;
  }

  /** How many jobfiles have been activated. */
  function Activations(labels: seq<Label>): nat {
    if labels == [] then 0
    else Activations(labels[..|labels| - 1]) + if labels[|labels| - 1] == ActivateGood then 1 else 0
  }

  lemma {:induction false} JobfileIsLastActivated(labels: seq<Label>)
    requires Execution(labels).Some?
    ensures Execution(labels).value.jfile == Activations(labels)
    ensures Execution(labels).value.nextJfile == Activations(labels) + 1
  {
    if labels != [] {
      OneMoreLabel(labels);
      JobfileIsLastActivated(labels[..|labels| - 1]);
    }
  }

  /**
   Main result on reloading: whenever the manager waits for records or commands, the runner that is on takes its jobs
   from the jobfile that was activated last.
   */
  lemma RunnerHasLastJobfile(labels: seq<Label>)
    requires Execution(labels).Some? && Execution(labels).value.manager == Idle
    ensures var s := Execution(labels).value;
            s.runners != [] && s.runners[|s.runners| - 1].jfile == Activations(labels)
  {
    GoodUnlessCrashed(labels);
    JobfileIsLastActivated(labels);
  }
}
