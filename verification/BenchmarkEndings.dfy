/** When a benchmark run comes to an end, and when that end is a closed run. */
module BenchmarkEndings {
  import opened BenchmarkChord
  import opened BenchmarkSafety
  import opened BenchmarkRuns

  /** Nothing can happen any more. */
  ghost predicate Stopped(s: State) {
    forall step :: !Enabled(s, step)
  }

  predicate HasRaised(s: State) {
    exists i | 0 <= i < |s.tasks| :: s.tasks[i].Raised?
  }

  // ----- which stopped runs are closed -----

  /** A run with items that has not been dispatched still waits for its launch. */
  ghost predicate LaunchInv(s: State) {
    |s.items| > 0 && !s.dispatched ==> s.run.status.RunPending?
  }

  lemma {:induction false} RunKeepsLaunch(s: State, steps: seq<Step>)
    requires Inv(s) && LaunchInv(s) && ValidRun(s, steps)
    ensures LaunchInv(Final(s, steps))
    decreases |steps|
  {
    if steps != [] {
      StepKeepsInv(s, steps[0]);
      hide Inv, ComputedRows, SuccessCount, FinishedCount;
      RunKeepsLaunch(Next(s, steps[0]), steps[1..]);
    }
  }

  /** In a stopped run every dispatched header task has returned or raised, since a running one could still raise. */
  lemma StoppedTasks(s: State)
    requires Stopped(s) && s.dispatched && |s.tasks| == |s.items| && !HasRaised(s)
    ensures AllReturned(s.tasks)
  {
    forall i | 0 <= i < |s.tasks| ensures s.tasks[i].Returned? {
      assert !Enabled(s, Raise(i));
    }
  }

  lemma StoppedCallback(s: State)
    requires Stopped(s) && s.dispatched && |s.tasks| == |s.items| && AllReturned(s.tasks)
    ensures s.callback.Closed? || s.callback.Stuck?
  {
    assert !Enabled(s, FireCallback) && !Enabled(s, WriteMetrics) && !Enabled(s, CallbackCountTotal);
    assert !Enabled(s, CallbackCountDone) && !Enabled(s, Close);
  }

  /**
   * A run in which nothing can happen any more is closed if and only if it has items, no header
   * task raised and the callback did not raise either.
   */
  lemma StoppedRunIsClosedIff(n: nat, steps: seq<Step>)
    requires ValidRun(Init(n), steps) && Stopped(Final(Init(n), steps))
    ensures var s := Final(Init(n), steps); IsClosed(s) <==> n > 0 && !HasRaised(s) && !s.callback.Stuck?
  {
    InitHolds(n);
    RunKeepsInv(Init(n), steps);
    RunKeepsLaunch(Init(n), steps);
    var s := Final(Init(n), steps);
    if IsClosed(s) && (n == 0 || HasRaised(s)) {
      SomeRunsNeverClose(n, steps);
    }
    hide Final, ValidRun, Stopped, ComputedRows, SuccessCount, FinishedCount, TaskInv;
    if n > 0 && !HasRaised(s) && !s.callback.Stuck? {
      NotLaunchable(s);
      StoppedTasks(s);
      StoppedCallback(s);
    }
  }

  lemma NotLaunchable(s: State)
    requires Stopped(s) && |s.tasks| == |s.items|
    ensures s.dispatched || !s.run.status.RunPending?
  {
    assert !Enabled(s, Launch);
  }

  // ----- every run stops -----

  /** How many more steps a header task can take. */
  function TaskWork(pc: TaskPc): nat {
    match pc
    case Queued => 8
    case Started => 7
    case Failing => 1
    case Finishing(_) => 6
    case CountingTotal(_) => 5
    case CountingDone(_, _) => 4
    case Writing(_, _, _) => 3
    case Notifying(_, _, _) => 2
    case Returned(_) => 0
    case Raised => 0
  }

  function TasksWork(tasks: seq<TaskPc>): nat {
    if tasks == [] then 0 else TasksWork(tasks[..|tasks| - 1]) + TaskWork(tasks[|tasks| - 1])
  }

  function CallbackWork(pc: CallbackPc): nat {
    match pc
    case Waiting => 5
    case Measuring => 4
    case Recounting => 3
    case RecountingDone(_) => 2
    case Closing(_, _) => 1
    case Closed => 0
    case Stuck => 0
  }

  function Work(s: State): nat {
    (if !s.dispatched && s.run.status.RunPending? then 1 else 0) + TasksWork(s.tasks) + CallbackWork(s.callback)
  }

  lemma {:induction false} TasksWorkUpdate(tasks: seq<TaskPc>, i: nat, pc: TaskPc)
    requires i < |tasks|
    ensures TasksWork(tasks[i := pc]) + TaskWork(tasks[i]) == TasksWork(tasks) + TaskWork(pc)
  {
    var n := |tasks| - 1;
    hide TaskWork;
    if i < n {
      TasksWorkUpdate(tasks[..n], i, pc);
      assert tasks[i := pc][..n] == tasks[..n][i := pc];
    } else {
      assert tasks[i := pc][..n] == tasks[..n];
    }
  }

  lemma {:induction false} InitialWork(n: nat)
    ensures TasksWork(seq(n, _ => Queued)) == 8 * n
  {
    if n > 0 {
      InitialWork(n - 1);
      assert seq(n, _ => Queued)[..n - 1] == seq(n - 1, _ => Queued);
    }
  }

  /** A header task's step moves that task alone, to a counter with less work left. */
  lemma TaskStepMoves(s: State, step: Step)
    requires Enabled(s, step)
    requires !step.Launch? && !step.FireCallback? && !step.WriteMetrics? && !step.CallbackCountTotal?
    requires !step.CallbackCountDone? && !step.Close? && !step.CallbackRaises?
    ensures var s' := Next(s, step);
      && s'.dispatched == s.dispatched && s'.run.status == s.run.status && s'.callback == s.callback
      && |s'.tasks| == |s.tasks| && s'.tasks == s.tasks[step.i := s'.tasks[step.i]]
      && TaskWork(s'.tasks[step.i]) < TaskWork(s.tasks[step.i])
  {
    hide FinishedCount;
  }

  /** Every step leaves less work. */
  lemma StepDecreasesWork(s: State, step: Step)
    requires Enabled(s, step)
    ensures Work(Next(s, step)) < Work(s)
  {
    match step
    case Launch => hide TasksWork, FinishedCount;
    case FireCallback => hide TasksWork;
    case WriteMetrics => hide TasksWork, ComputedRows;
    case CallbackCountTotal => hide TasksWork;
    case CallbackCountDone => hide TasksWork, FinishedCount;
    case Close => hide TasksWork, SuccessCount;
    case CallbackRaises => hide TasksWork;
    case _ =>
      TaskStepMoves(s, step);
      TasksWorkUpdate(s.tasks, step.i, Next(s, step).tasks[step.i]);
      hide Next, TasksWork, TaskWork, CallbackWork;
  }

  lemma {:induction false} RunsAreShort(s: State, steps: seq<Step>)
    requires ValidRun(s, steps)
    ensures |steps| + Work(Final(s, steps)) <= Work(s)
    decreases |steps|
  {
    if steps != [] {
      hide Work, Next, Enabled;
      StepDecreasesWork(s, steps[0]);
      RunsAreShort(Next(s, steps[0]), steps[1..]);
    }
  }

  /** No run of `n` items takes more than 8 n + 6 steps. */
  lemma EveryRunIsBounded(n: nat, steps: seq<Step>)
    requires ValidRun(Init(n), steps)
    ensures |steps| <= 8 * n + 6
  {
    RunsAreShort(Init(n), steps);
    InitialWork(n);
    hide TasksWork;
  }

  lemma {:induction false} StopsFrom(s: State) returns (more: seq<Step>)
    ensures ValidRun(s, more) && Stopped(Final(s, more))
    decreases Work(s)
  {
    if Stopped(s) {
      more := [];
    } else {
      var step :| Enabled(s, step);
      hide Enabled, Next, Work, Stopped;
      StepDecreasesWork(s, step);
      var rest := StopsFrom(Next(s, step));
      more := [step] + rest;
      assert more[1..] == rest;
    }
  }

  /** Every run can be continued to one that has stopped, and is closed then unless a task or the callback raised. */
  lemma EveryRunStops(n: nat, steps: seq<Step>) returns (all: seq<Step>)
    requires ValidRun(Init(n), steps)
    ensures steps <= all && ValidRun(Init(n), all) && Stopped(Final(Init(n), all))
    ensures var s := Final(Init(n), all); IsClosed(s) <==> n > 0 && !HasRaised(s) && !s.callback.Stuck?
  {
    var more := StopsFrom(Final(Init(n), steps));
    RunsConcat(Init(n), steps, more);
    all := steps + more;
    StoppedRunIsClosedIff(n, all);
  }

  // ----- one raised task is enough -----

  lemma {:induction false} RaisedStays(s: State, steps: seq<Step>, i: nat)
    requires ValidRun(s, steps) && i < |s.tasks| && s.tasks[i].Raised?
    ensures i < |Final(s, steps).tasks| && Final(s, steps).tasks[i].Raised?
    decreases |steps|
  {
    if steps != [] {
      RaisedStep(s, steps[0], i);
      hide Next, Enabled;
      RaisedStays(Next(s, steps[0]), steps[1..], i);
    }
  }

  lemma RaisedStep(s: State, step: Step, i: nat)
    requires Enabled(s, step) && i < |s.tasks| && s.tasks[i].Raised?
    ensures i < |Next(s, step).tasks| && Next(s, step).tasks[i].Raised?
  {
    hide FinishedCount, ComputedRows, SuccessCount;
  }

  /** From a state with a raised header task no continuation closes the run. */
  lemma RaisedTaskBlocksClosing(n: nat, steps: seq<Step>, more: seq<Step>)
    requires ValidRun(Init(n), steps) && HasRaised(Final(Init(n), steps))
    requires ValidRun(Final(Init(n), steps), more)
    ensures !IsClosed(Final(Final(Init(n), steps), more))
  {
    var s := Final(Init(n), steps);
    var i :| 0 <= i < |s.tasks| && s.tasks[i].Raised?;
    RaisedStays(s, more, i);
    RunsConcat(Init(n), steps, more);
    SomeRunsNeverClose(n, steps + more);
  }

  /** Every run with items can get there: launched, its first header task raises at once. */
  lemma SomeTaskMayRaise(n: nat)
    requires n >= 1
    ensures var steps := [Launch, Raise(0)]; ValidRun(Init(n), steps) && HasRaised(Final(Init(n), steps))
  {
    var steps := [Launch, Raise(0)];
    var s1 := Next(Init(n), Launch);
    var s2 := Next(s1, Raise(0));
    assert s2.tasks[0].Raised?;
    assert steps[1..] == [Raise(0)] && steps[1..][1..] == [];
    hide Enabled, Next, Init;
    assert ValidRun(s2, []);
    assert ValidRun(s1, [Raise(0)]) && Final(s1, [Raise(0)]) == s2;
  }
}
