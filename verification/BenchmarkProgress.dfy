/** The stored counter of a benchmark run over time: when a late write takes it back, and when none can. */
module BenchmarkProgress {
  import opened Wrappers
  import opened BenchmarkChord
  import opened BenchmarkSafety

  // ----- looking back along a run -----

  /** A run unfolded at its first step. */
  lemma FirstStep(s: State, steps: seq<Step>, step: Step, rest: seq<Step>)
    requires steps != [] && step == steps[0] && rest == steps[1..]
    ensures ValidRun(s, steps) <==> Enabled(s, step) && ValidRun(Next(s, step), rest)
    ensures ValidRun(s, steps) ==> Final(s, steps) == Final(Next(s, step), rest)
  {
    hide Next, Enabled;
  }

  lemma NoSteps(s: State, steps: seq<Step>)
    requires steps == []
    ensures ValidRun(s, steps) && Final(s, steps) == s
  {
  }

  lemma {:induction false} RunsSplit(s: State, steps: seq<Step>, k: nat)
    requires ValidRun(s, steps) && k <= |steps|
    ensures ValidRun(s, steps[..k]) && ValidRun(Final(s, steps[..k]), steps[k..])
    ensures Final(s, steps) == Final(Final(s, steps[..k]), steps[k..])
    decreases k
  {
    hide *;
    if k == 0 {
      assert steps[0..] == steps;
      NoSteps(s, steps[..0]);
    } else {
      var rest := steps[1..];
      assert rest[..k - 1] == steps[..k][1..] && rest[k - 1..] == steps[k..];
      FirstStep(s, steps, steps[0], rest);
      FirstStep(s, steps[..k], steps[0], rest[..k - 1]);
      RunsSplit(Next(s, steps[0]), rest, k - 1);
    }
  }

  /** The run before its last step. */
  lemma LastStep(s: State, steps: seq<Step>)
    requires ValidRun(s, steps) && steps != []
    ensures var n := |steps| - 1;
      && ValidRun(s, steps[..n]) && Enabled(Final(s, steps[..n]), steps[n])
      && Final(s, steps) == Next(Final(s, steps[..n]), steps[n])
  {
    var n := |steps| - 1;
    RunsSplit(s, steps, n);
    assert steps[n..] == [steps[n]] && steps[n..][1..] == [];
    hide Next, Enabled;
  }

  /** The state after the first `k` steps. */
  ghost function At(n: nat, steps: seq<Step>, k: nat): State
    requires ValidRun(Init(n), steps) && k <= |steps|
  {
    RunsSplit(Init(n), steps, k);
    Final(Init(n), steps[..k])
  }

  ghost function FinishedAt(n: nat, steps: seq<Step>, k: nat): nat
    requires ValidRun(Init(n), steps) && k <= |steps|
  {
    FinishedCount(At(n, steps, k).items)
  }

  ghost function CompletedAt(n: nat, steps: seq<Step>, k: nat): nat
    requires ValidRun(Init(n), steps) && k <= |steps|
  {
    At(n, steps, k).run.completedItems
  }

  /** When task `i` last recounted, -1 for never. */
  function LastCount(steps: seq<Step>, i: nat): (k: int)
    ensures -1 <= k < |steps| && (k >= 0 ==> steps[k] == CountDone(i))
  {
    if steps == [] then -1
    else if steps[|steps| - 1] == CountDone(i) then |steps| - 1
    else LastCount(steps[..|steps| - 1], i)
  }

  /** When a recount was last written. */
  function LastWrite(steps: seq<Step>): (k: int)
    ensures -1 <= k < |steps| && (k >= 0 ==> steps[k].WriteProgress?)
  {
    if steps == [] then -1
    else if steps[|steps| - 1].WriteProgress? then |steps| - 1
    else LastWrite(steps[..|steps| - 1])
  }

  /** When the recount that is stored now was made. */
  function StoredCount(steps: seq<Step>): (k: int)
    ensures -1 <= k < |steps|
  {
    var w := LastWrite(steps);
    if w < 0 then -1 else LastCount(steps[..w], steps[w].i)
  }

  /** The stored recount was made after task `i`'s own, and saw more finished items. */
  ghost predicate Overtaken(n: nat, steps: seq<Step>, i: nat)
    requires ValidRun(Init(n), steps)
  {
    var own, stored := LastCount(steps, i), StoredCount(steps);
    0 <= own < stored && FinishedAt(n, steps, own) < FinishedAt(n, steps, stored)
  }

  // ----- what a run's counters are -----

  lemma AtPrefix(n: nat, steps: seq<Step>, l: nat, k: nat)
    requires ValidRun(Init(n), steps) && k <= l <= |steps|
    ensures ValidRun(Init(n), steps[..l]) && At(n, steps[..l], k) == At(n, steps, k)
  {
    AtIs(n, steps, l);
    AtIs(n, steps, k);
    AtIs(n, steps[..l], k);
    assert steps[..l][..k] == steps[..k];
    hide *;
  }

  lemma AtNext(n: nat, steps: seq<Step>, k: nat)
    requires ValidRun(Init(n), steps) && k < |steps|
    ensures Inv(At(n, steps, k)) && Enabled(At(n, steps, k), steps[k]) && At(n, steps, k + 1) == Next(At(n, steps, k), steps[k])
  {
    AtIs(n, steps, k);
    AtIs(n, steps, k + 1);
    hide *;
    InitHolds(n);
    RunKeepsInv(Init(n), steps[..k]);
    LastStep(Init(n), steps[..k + 1]);
    assert steps[..k + 1][..k] == steps[..k];
  }

  lemma AtIs(n: nat, steps: seq<Step>, k: nat)
    requires ValidRun(Init(n), steps) && k <= |steps|
    ensures ValidRun(Init(n), steps[..k]) && At(n, steps, k) == Final(Init(n), steps[..k])
  {
    RunsSplit(Init(n), steps, k);
    hide ValidRun, Final, Init;
  }

  lemma AtStart(n: nat, steps: seq<Step>)
    requires steps == []
    ensures ValidRun(Init(n), steps) && At(n, steps, 0) == Init(n)
  {
    hide Init;
  }

  lemma AtEnd(n: nat, steps: seq<Step>)
    requires ValidRun(Init(n), steps)
    ensures At(n, steps, |steps|) == Final(Init(n), steps)
  {
    assert steps[..|steps|] == steps;
    hide Init, Final, ValidRun;
  }

  /** A task about to write holds what its own last recount saw. */
  lemma {:induction false} WritingHoldsCount(n: nat, steps: seq<Step>, i: nat)
    requires ValidRun(Init(n), steps)
    requires i < |At(n, steps, |steps|).tasks| && At(n, steps, |steps|).tasks[i].Writing?
    ensures LastCount(steps, i) >= 0
    ensures At(n, steps, |steps|).tasks[i].done == FinishedAt(n, steps, LastCount(steps, i))
    decreases |steps|
  {
    hide At;
    if steps == [] {
      AtStart(n, steps);
    } else {
      var m := |steps| - 1;
      AtNext(n, steps, m);
      AtPrefix(n, steps, m, m);
      WritingComesFrom(At(n, steps, m), steps[m], i);
      hide Next, Enabled, ValidRun, Init, Inv, FinishedCount;
      if steps[m] != CountDone(i) {
        WritingHoldsCount(n, steps[..m], i);
        AtPrefix(n, steps, m, LastCount(steps[..m], i));
      }
    }
  }

  lemma WritingComesFrom(s: State, step: Step, i: nat)
    requires Enabled(s, step) && i < |Next(s, step).tasks| && Next(s, step).tasks[i].Writing?
    ensures i < |s.tasks|
    ensures step == CountDone(i) ==> Next(s, step).tasks[i].done == FinishedCount(s.items)
    ensures step != CountDone(i) ==> Next(s, step).tasks[i] == s.tasks[i]
  {
    hide FinishedCount, ComputedRows, SuccessCount;
  }

  /** Until the callback runs, the counter is what the recount written last saw. */
  lemma {:induction false} CounterIsStoredCount(n: nat, steps: seq<Step>)
    requires ValidRun(Init(n), steps) && At(n, steps, |steps|).callback.Waiting?
    ensures LastWrite(steps) >= 0 ==> StoredCount(steps) >= 0
    ensures CompletedAt(n, steps, |steps|) == if StoredCount(steps) >= 0 then FinishedAt(n, steps, StoredCount(steps)) else 0
    decreases |steps|
  {
    if steps == [] {
      AtStart(n, steps);
    } else {
      var m := |steps| - 1;
      AtNext(n, steps, m);
      AtPrefix(n, steps, m, m);
      CounterComesFrom(At(n, steps, m), steps[m]);
      hide At, Next, Enabled, ValidRun, Init, Inv, FinishedCount;
      if steps[m].WriteProgress? {
        WritingHoldsCount(n, steps[..m], steps[m].i);
        AtPrefix(n, steps, m, LastCount(steps[..m], steps[m].i));
      } else {
        SameStoredCount(steps);
        CounterIsStoredCount(n, steps[..m]);
        if StoredCount(steps) >= 0 { AtPrefix(n, steps, m, StoredCount(steps)); }
      }
    }
  }

  lemma SameStoredCount(steps: seq<Step>)
    requires steps != [] && !steps[|steps| - 1].WriteProgress?
    ensures LastWrite(steps) == LastWrite(steps[..|steps| - 1])
    ensures StoredCount(steps) == StoredCount(steps[..|steps| - 1])
  {
    var front := steps[..|steps| - 1];
    if LastWrite(front) >= 0 { assert front[..LastWrite(front)] == steps[..LastWrite(front)]; }
  }

  lemma CounterComesFrom(s: State, step: Step)
    requires Inv(s) && Enabled(s, step) && Next(s, step).callback.Waiting?
    ensures s.callback.Waiting?
    ensures step.WriteProgress? ==>
      step.i < |s.tasks| && s.tasks[step.i].Writing? && Next(s, step).run.completedItems == s.tasks[step.i].done
    ensures !step.WriteProgress? ==> Next(s, step).run.completedItems == s.run.completedItems
  {
    hide Inv, FinishedCount, ComputedRows, SuccessCount;
  }

  // ----- finished items never become unfinished -----

  lemma StepKeepsFinished(s: State, step: Step)
    requires Inv(s) && Enabled(s, step)
    ensures FinishedCount(s.items) <= FinishedCount(Next(s, step).items)
  {
    hide ComputedRows, SuccessCount, FinishedCount;
    match step
    case Start(i) => FinishedOne(s, i, ItemRunning);
    case FailItem(i) => FinishedOne(s, i, ItemFailed);
    case Finish(i) => FinishedOne(s, i, StatusOf(s.tasks[i].result));
    case _ =>
  }

  lemma FinishedOne(s: State, i: nat, status: ItemStatus)
    requires Inv(s) && i < |s.items| && (s.tasks[i].Queued? || s.tasks[i].Failing? || s.tasks[i].Finishing?)
    ensures FinishedCount(s.items) <= FinishedCount(s.items[i := status])
  {
    assert TaskInv(s.items, i, s.tasks[i]);
    FinishedCountUpdate(s.items, i, status);
    hide FinishedCount;
  }

  lemma {:induction false} FinishedGrows(n: nat, steps: seq<Step>, k: nat, l: nat)
    requires ValidRun(Init(n), steps) && k <= l <= |steps|
    ensures FinishedAt(n, steps, k) <= FinishedAt(n, steps, l)
    decreases l - k
  {
    if k < l {
      FinishedGrows(n, steps, k, l - 1);
      AtNext(n, steps, l - 1);
      StepKeepsFinished(At(n, steps, l - 1), steps[l - 1]);
      hide At, Next, Enabled, ValidRun, Init, Inv, FinishedCount;
    }
  }

  // ----- main theorems -----

  /**
   * A write lowers the stored counter if and only if the recount it overwrites was made after
   * the writer's own and saw more finished items.
   */
  lemma WriteLowersIffOvertaken(n: nat, steps: seq<Step>, i: nat)
    requires ValidRun(Init(n), steps) && Enabled(Final(Init(n), steps), WriteProgress(i))
    ensures var s := Final(Init(n), steps);
      Next(s, WriteProgress(i)).run.completedItems < s.run.completedItems <==> Overtaken(n, steps, i)
  {
    AtEnd(n, steps);
    var s := At(n, steps, |steps|);
    InitHolds(n);
    RunKeepsInv(Init(n), steps);
    HeadersRunBeforeCallback(s, i);
    WritesDone(s, i);
    hide Next, Enabled, Inv, ValidRun, Init, Final, At, FinishedCount;
    WritingHoldsCount(n, steps, i);
    CounterIsStoredCount(n, steps);
    var own, stored := LastCount(steps, i), StoredCount(steps);
    if 0 <= stored <= own { FinishedGrows(n, steps, stored, own); }
  }

  lemma WritesDone(s: State, i: nat)
    requires Enabled(s, WriteProgress(i))
    ensures i < |s.tasks| && s.tasks[i].Writing?
    ensures Next(s, WriteProgress(i)).run.completedItems == s.tasks[i].done
  {
  }

  ghost predicate Monotone(n: nat, steps: seq<Step>)
    requires ValidRun(Init(n), steps)
  {
    forall k: nat, l: nat | k <= l <= |steps| :: CompletedAt(n, steps, k) <= CompletedAt(n, steps, l)
  }

  /** Step `k` is a write that some other recount has overtaken. */
  ghost predicate OvertakenAt(n: nat, steps: seq<Step>, k: nat)
    requires ValidRun(Init(n), steps) && k < |steps|
  {
    RunsSplit(Init(n), steps, k);
    steps[k].WriteProgress? && Overtaken(n, steps[..k], steps[k].i)
  }

  lemma StepLowersIffOvertaken(n: nat, steps: seq<Step>, k: nat)
    requires ValidRun(Init(n), steps) && k < |steps|
    ensures CompletedAt(n, steps, k + 1) < CompletedAt(n, steps, k) <==> OvertakenAt(n, steps, k)
  {
    AtNext(n, steps, k);
    RunsSplit(Init(n), steps, k);
    var s := At(n, steps, k);
    assert s == Final(Init(n), steps[..k]);
    if steps[k].WriteProgress? {
      hide Next, Enabled, Inv, ValidRun, Init, Final, At, Overtaken;
      WriteLowersIffOvertaken(n, steps[..k], steps[k].i);
    } else {
      hide ValidRun, Init, Final, At, Overtaken;
      OtherStepsKeepCounter(s, steps[k]);
    }
  }

  lemma OtherStepsKeepCounter(s: State, step: Step)
    requires Inv(s) && Enabled(s, step) && !step.WriteProgress?
    ensures s.run.completedItems <= Next(s, step).run.completedItems
  {
    hide FinishedCount, ComputedRows, SuccessCount, TaskInv;
  }

  lemma {:induction false} NoStepLowers(n: nat, steps: seq<Step>, k: nat, l: nat)
    requires ValidRun(Init(n), steps) && k <= l <= |steps|
    requires forall j: nat | j < |steps| :: !OvertakenAt(n, steps, j)
    ensures CompletedAt(n, steps, k) <= CompletedAt(n, steps, l)
    decreases l - k
  {
    hide OvertakenAt, CompletedAt, ValidRun, Init;
    if k < l {
      NoStepLowers(n, steps, k, l - 1);
      StepLowersIffOvertaken(n, steps, l - 1);
    }
  }

  /** The counter never goes down in a run if and only if no write in it has been overtaken. */
  lemma ProgressIsMonotoneIff(n: nat, steps: seq<Step>)
    requires ValidRun(Init(n), steps)
    ensures Monotone(n, steps) <==> forall k: nat | k < |steps| :: !OvertakenAt(n, steps, k)
  {
    hide OvertakenAt, CompletedAt, ValidRun, Init;
    if Monotone(n, steps) {
      forall k: nat | k < |steps| ensures !OvertakenAt(n, steps, k) {
        StepLowersIffOvertaken(n, steps, k);
        assert CompletedAt(n, steps, k) <= CompletedAt(n, steps, k + 1);
      }
    }
    if forall k: nat | k < |steps| :: !OvertakenAt(n, steps, k) {
      forall k: nat, l: nat | k <= l <= |steps| ensures CompletedAt(n, steps, k) <= CompletedAt(n, steps, l) {
        NoStepLowers(n, steps, k, l);
      }
    }
  }

  /** In particular, when no write comes between a task's recount and its own write. */
  lemma UndisturbedProgressIsMonotone(n: nat, steps: seq<Step>)
    requires ValidRun(Init(n), steps)
    requires forall k: nat | k < |steps| && steps[k].WriteProgress? :: LastWrite(steps[..k]) < LastCount(steps[..k], steps[k].i)
    ensures Monotone(n, steps)
  {
    forall k: nat | k < |steps| ensures !OvertakenAt(n, steps, k) {
      RunsSplit(Init(n), steps, k);
      hide ValidRun, Init, FinishedAt;
      if steps[k].WriteProgress? { assert StoredCount(steps[..k]) <= LastWrite(steps[..k]); }
    }
    hide OvertakenAt, Monotone, ValidRun, Init;
    ProgressIsMonotoneIff(n, steps);
  }

  // ----- and some writes do lower it -----

  ghost predicate Leads(s: State, step: Step, t: State) {
    Enabled(s, step) && Next(s, step) == t
  }

  /** Every step of the run leads from one listed state to the next. */
  ghost predicate Through(s: State, steps: seq<Step>, states: seq<State>)
    decreases |steps|
  {
    && |states| == |steps|
    && (steps != [] ==> Leads(s, steps[0], states[0]) && Through(states[0], steps[1..], states[1..]))
  }

  lemma {:induction false} ThroughIsRun(s: State, steps: seq<Step>, states: seq<State>)
    requires Through(s, steps, states)
    ensures ValidRun(s, steps) && Final(s, steps) == if steps == [] then s else states[|states| - 1]
    decreases |steps|
  {
    if steps != [] {
      ThroughIsRun(states[0], steps[1..], states[1..]);
      hide Enabled, Next, Through;
    }
  }

  lemma {:induction false} ThroughSnoc(s: State, steps: seq<Step>, states: seq<State>, step: Step, t: State)
    requires Through(s, steps, states) && Leads(if steps == [] then s else states[|states| - 1], step, t)
    ensures Through(s, steps + [step], states + [t])
    decreases |steps|
  {
    hide Leads;
    if steps == [] {
      assert [step][1..] == [] && [t][1..] == [];
    } else {
      ThroughSnoc(states[0], steps[1..], states[1..], step, t);
      assert (steps + [step])[1..] == steps[1..] + [step] && (states + [t])[1..] == states[1..] + [t];
    }
  }

  /** A launched run of two items, both gateway calls of which succeed. */
  function Two(a: TaskPc, x: ItemStatus, b: TaskPc, y: ItemStatus, completed: nat): State {
    State(Run(RunRunning, 2, completed), [x, y], true, [a, b], Waiting, [], [(0, 2)])
  }

  function Ok(i: nat): TaskResult {
    Succeeded(i, 10, None, 1, 1)
  }

  lemma BothStart()
    ensures Leads(Init(2), Launch, Two(Queued, ItemPending, Queued, ItemPending, 0))
    ensures Leads(Two(Queued, ItemPending, Queued, ItemPending, 0), Start(0), Two(Started, ItemRunning, Queued, ItemPending, 0))
    ensures Leads(Two(Started, ItemRunning, Queued, ItemPending, 0), Start(1), Two(Started, ItemRunning, Started, ItemRunning, 0))
  {
  }

  lemma BothAnswer()
    ensures Leads(Two(Started, ItemRunning, Started, ItemRunning, 0), GatewayReturns(0, Ok(0)),
                  Two(Finishing(Ok(0)), ItemRunning, Started, ItemRunning, 0))
    ensures Leads(Two(Finishing(Ok(0)), ItemRunning, Started, ItemRunning, 0), GatewayReturns(1, Ok(1)),
                  Two(Finishing(Ok(0)), ItemRunning, Finishing(Ok(1)), ItemRunning, 0))
  {
  }

  lemma TwoCounts()
    ensures FinishedCount([ItemComplete, ItemRunning]) == 1 && FinishedCount([ItemComplete, ItemComplete]) == 2
  {
    assert [ItemComplete, ItemRunning][..1] == [ItemComplete] == [ItemComplete, ItemComplete][..1];
    assert [ItemComplete][..0] == [];
  }

  lemma FirstCounts()
    ensures var b := Finishing(Ok(1));
      && Leads(Two(Finishing(Ok(0)), ItemRunning, b, ItemRunning, 0), Finish(0), Two(CountingTotal(Ok(0)), ItemComplete, b, ItemRunning, 0))
      && Leads(Two(CountingTotal(Ok(0)), ItemComplete, b, ItemRunning, 0), CountTotal(0), Two(CountingDone(Ok(0), 2), ItemComplete, b, ItemRunning, 0))
      && Leads(Two(CountingDone(Ok(0), 2), ItemComplete, b, ItemRunning, 0), CountDone(0), Two(Writing(Ok(0), 2, 1), ItemComplete, b, ItemRunning, 0))
  {
    TwoCounts();
    hide FinishedCount;
  }

  lemma SecondCounts()
    ensures var a := Writing(Ok(0), 2, 1);
      && Leads(Two(a, ItemComplete, Finishing(Ok(1)), ItemRunning, 0), Finish(1), Two(a, ItemComplete, CountingTotal(Ok(1)), ItemComplete, 0))
      && Leads(Two(a, ItemComplete, CountingTotal(Ok(1)), ItemComplete, 0), CountTotal(1), Two(a, ItemComplete, CountingDone(Ok(1), 2), ItemComplete, 0))
      && Leads(Two(a, ItemComplete, CountingDone(Ok(1), 2), ItemComplete, 0), CountDone(1), Two(a, ItemComplete, Writing(Ok(1), 2, 2), ItemComplete, 0))
  {
    TwoCounts();
    hide FinishedCount;
  }

  lemma SecondWritesFirst()
    ensures var a := Writing(Ok(0), 2, 1);
      && Leads(Two(a, ItemComplete, Writing(Ok(1), 2, 2), ItemComplete, 0), WriteProgress(1), Two(a, ItemComplete, Notifying(Ok(1), 2, 2), ItemComplete, 2))
      && Leads(Two(a, ItemComplete, Notifying(Ok(1), 2, 2), ItemComplete, 2), WriteProgress(0),
               Two(Notifying(Ok(0), 2, 1), ItemComplete, Notifying(Ok(1), 2, 2), ItemComplete, 1))
  {
  }

  lemma ReachStart()
    ensures Through(Init(2), [], [])
  {
  }

  /** Both tasks up to having a recount in hand, task 0's being the older one. */
  lemma BothCount() returns (steps: seq<Step>, states: seq<State>)
    ensures Through(Init(2), steps, states) && steps != []
    ensures states[|states| - 1] == Two(Writing(Ok(0), 2, 1), ItemComplete, Writing(Ok(1), 2, 2), ItemComplete, 0)
  {
    hide *;
    ReachStart();
    BothStart();
    BothAnswer();
    FirstCounts();
    SecondCounts();
    steps, states := [], [];
    steps, states := Along(steps, states, Launch, Two(Queued, ItemPending, Queued, ItemPending, 0));
    steps, states := Along(steps, states, Start(0), Two(Started, ItemRunning, Queued, ItemPending, 0));
    steps, states := Along(steps, states, Start(1), Two(Started, ItemRunning, Started, ItemRunning, 0));
    steps, states := Along(steps, states, GatewayReturns(0, Ok(0)), Two(Finishing(Ok(0)), ItemRunning, Started, ItemRunning, 0));
    var b := Finishing(Ok(1));
    steps, states := Along(steps, states, GatewayReturns(1, Ok(1)), Two(Finishing(Ok(0)), ItemRunning, b, ItemRunning, 0));
    steps, states := Along(steps, states, Finish(0), Two(CountingTotal(Ok(0)), ItemComplete, b, ItemRunning, 0));
    steps, states := Along(steps, states, CountTotal(0), Two(CountingDone(Ok(0), 2), ItemComplete, b, ItemRunning, 0));
    var a := Writing(Ok(0), 2, 1);
    steps, states := Along(steps, states, CountDone(0), Two(a, ItemComplete, b, ItemRunning, 0));
    steps, states := Along(steps, states, Finish(1), Two(a, ItemComplete, CountingTotal(Ok(1)), ItemComplete, 0));
    steps, states := Along(steps, states, CountTotal(1), Two(a, ItemComplete, CountingDone(Ok(1), 2), ItemComplete, 0));
    steps, states := Along(steps, states, CountDone(1), Two(a, ItemComplete, Writing(Ok(1), 2, 2), ItemComplete, 0));
  }

  lemma Along(steps: seq<Step>, states: seq<State>, step: Step, t: State) returns (longer: seq<Step>, further: seq<State>)
    requires Through(Init(2), steps, states) && |states| == |steps|
    requires Leads(if steps == [] then Init(2) else states[|states| - 1], step, t)
    ensures longer == steps + [step] && further == states + [t] && Through(Init(2), longer, further)
    ensures further[|further| - 1] == t
  {
    longer, further := steps + [step], states + [t];
    ThroughSnoc(Init(2), steps, states, step, t);
    hide *;
  }

  /** Task 0 recounts first and writes last, so the stored counter goes from 2 back to 1. */
  lemma ProgressCanRegress() returns (steps: seq<Step>, late: Step)
    ensures ValidRun(Init(2), steps) && ValidRun(Init(2), steps + [late])
    ensures Final(Init(2), steps).run.completedItems == 2
    ensures Final(Init(2), steps + [late]).run.completedItems == 1
  {
    var a, last := Writing(Ok(0), 2, 1), Notifying(Ok(1), 2, 2);
    var before, after := Two(a, ItemComplete, last, ItemComplete, 2), Two(Notifying(Ok(0), 2, 1), ItemComplete, last, ItemComplete, 1);
    assert before.run.completedItems == 2 && after.run.completedItems == 1;
    hide *;
    var states;
    steps, states := BothCount();
    SecondWritesFirst();
    steps, states := Along(steps, states, WriteProgress(1), before);
    ThroughIsRun(Init(2), steps, states);
    late := WriteProgress(0);
    var all, further := Along(steps, states, late, after);
    ThroughIsRun(Init(2), all, further);
  }
}
