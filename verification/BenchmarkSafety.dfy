/** What every interleaving of a benchmark chord keeps, and what a closed run means. */
module BenchmarkSafety {
  import opened BenchmarkChord

  // ----- counting finished items -----

  lemma {:induction false} FinishedCountUpdate(items: seq<ItemStatus>, i: nat, status: ItemStatus)
    requires i < |items|
    ensures FinishedCount(items[i := status]) + (if IsFinished(items[i]) then 1 else 0)
            == FinishedCount(items) + (if IsFinished(status) then 1 else 0)
    decreases |items|
  {
    var n := |items| - 1;
    if i < n {
      FinishedCountUpdate(items[..n], i, status);
      assert items[i := status][..n] == items[..n][i := status];
    } else {
      assert items[i := status][..n] == items[..n];
    }
  }

  lemma {:induction false} FullCountMeansAllFinished(items: seq<ItemStatus>)
    ensures FinishedCount(items) == |items| <==> forall i | 0 <= i < |items| :: IsFinished(items[i])
    decreases |items|
  {
    if items != [] {
      var n := |items| - 1;
      FullCountMeansAllFinished(items[..n]);
      if forall i | 0 <= i < |items| :: IsFinished(items[i]) {
        assert forall i | 0 <= i < n :: IsFinished(items[..n][i]);
      }
      if FinishedCount(items) == |items| {
        forall i | 0 <= i < |items| ensures IsFinished(items[i]) {
          if i < n { assert IsFinished(items[..n][i]); }
        }
      }
    }
  }

  lemma {:induction false} NobodyFinishedAtStart(items: seq<ItemStatus>)
    requires forall i | 0 <= i < |items| :: items[i].ItemPending?
    ensures FinishedCount(items) == 0
    decreases |items|
  {
    if items != [] { NobodyFinishedAtStart(items[..|items| - 1]); }
  }

  // ----- the invariant -----

  /** An item's stored status and its task's program counter agree; no recount exceeds the truth. */
  ghost predicate TaskInv(items: seq<ItemStatus>, i: nat, pc: TaskPc)
    requires i < |items|
  {
    match pc
    case Queued => items[i].ItemPending?
    case Started => items[i].ItemRunning?
    case Failing => items[i].ItemRunning?
    case Finishing(r) => items[i].ItemRunning? && r.item == i
    case CountingTotal(r) => items[i] == StatusOf(r) && r.item == i
    case CountingDone(r, total) => items[i] == StatusOf(r) && r.item == i && total == |items|
    case Writing(r, total, done) => items[i] == StatusOf(r) && r.item == i && total == |items| && done <= FinishedCount(items)
    case Notifying(r, total, done) => items[i] == StatusOf(r) && r.item == i && total == |items| && done <= FinishedCount(items)
    case Returned(r) => items[i] == StatusOf(r) && r.item == i
    case Raised => true
  }

  ghost predicate ProgressInv(s: State) {
    && s.run.totalItems == |s.items|
    && s.run.completedItems <= FinishedCount(s.items)
    && forall k | 0 <= k < |s.progress| :: Announced(s, s.progress[k])
  }

  /** A published progress event never overstates, and is on the beat or final. */
  ghost predicate Announced(s: State, event: (nat, nat)) {
    event.1 == |s.items| && event.0 <= FinishedCount(s.items) && (event.0 % PROGRESS_EVERY == 0 || event.0 == event.1)
  }

  ghost predicate Inv(s: State) {
    && |s.tasks| == |s.items|
    && (forall i | 0 <= i < |s.tasks| :: TaskInv(s.items, i, s.tasks[i]))
    && ProgressInv(s)
    && CallbackInv(s)
    && (s.dispatched ==> |s.items| > 0)
  }

  ghost predicate CallbackInv(s: State) {
    && (!s.callback.Waiting? ==> s.dispatched && AllReturned(s.tasks))
    && (s.callback.RecountingDone? ==> s.callback.total == |s.items|)
    && (s.callback.Closing? ==> s.callback.total == |s.items| == s.callback.done)
    && (s.callback.Waiting? || s.callback.Measuring? ==> s.metrics == [])
    && (s.callback.Recounting? || s.callback.RecountingDone? || s.callback.Closing? || s.callback.Closed? ==>
          s.metrics == ComputedRows(Results(s.tasks)))
    && (s.callback.Stuck? ==> s.metrics == [] || s.metrics == ComputedRows(Results(s.tasks)))
    && (s.callback.Closed? <==> s.run.status.RunComplete? || s.run.status.RunFailed?)
    && (s.callback.Closed? ==>
          && s.run.completedItems == |s.items|
          && (s.run.status.RunFailed? <==> SuccessCount(Results(s.tasks)) == 0))
    && (s.run.status.RunPending? ==> !s.dispatched)
  }

  lemma AllReturnedMeansAllFinished(s: State)
    requires |s.tasks| == |s.items| && AllReturned(s.tasks)
    requires forall i | 0 <= i < |s.tasks| :: TaskInv(s.items, i, s.tasks[i])
    ensures FinishedCount(s.items) == |s.items|
  {
    forall i | 0 <= i < |s.items| ensures IsFinished(s.items[i]) {
      assert TaskInv(s.items, i, s.tasks[i]);
    }
    FullCountMeansAllFinished(s.items);
  }

  /** A task that moves without touching its item. */
  lemma QuietTaskStep(s: State, i: nat, pc: TaskPc)
    requires Inv(s) && s.callback.Waiting? && i < |s.tasks| && TaskInv(s.items, i, pc)
    ensures Inv(Goto(s, i, pc))
  {
    var s' := Goto(s, i, pc);
    forall j | 0 <= j < |s'.tasks| ensures TaskInv(s'.items, j, s'.tasks[j]) {
      assert TaskInv(s.items, j, s.tasks[j]);
    }
  }

  /** A task that moves and writes its item: the number of finished items does not go down. */
  lemma ItemTaskStep(s: State, i: nat, pc: TaskPc, status: ItemStatus)
    requires Inv(s) && s.callback.Waiting? && i < |s.tasks| && !IsFinished(s.items[i])
    requires TaskInv(s.items[i := status], i, pc)
    ensures Inv(SetItem(Goto(s, i, pc), i, status))
  {
    FinishedCountUpdate(s.items, i, status);
    var s' := SetItem(Goto(s, i, pc), i, status);
    assert FinishedCount(s.items) <= FinishedCount(s'.items);
    forall j | 0 <= j < |s'.tasks| ensures TaskInv(s'.items, j, s'.tasks[j]) {
      assert TaskInv(s.items, j, s.tasks[j]);
    }
    forall k | 0 <= k < |s'.progress| ensures Announced(s', s'.progress[k]) {
      assert Announced(s, s.progress[k]);
    }
  }

  lemma HeadersRunBeforeCallback(s: State, i: nat)
    requires Inv(s) && i < |s.tasks| && !s.tasks[i].Returned?
    ensures s.callback.Waiting?
  {
  }

  lemma TaskStepKeepsInv(s: State, step: Step)
    requires Inv(s) && Enabled(s, step)
    requires !step.Launch? && !step.FireCallback? && !step.WriteMetrics? && !step.CallbackCountTotal?
    requires !step.CallbackCountDone? && !step.Close? && !step.CallbackRaises?
    ensures Inv(Next(s, step))
  {
    var i := step.i;
    var pc := s.tasks[i];
    HeadersRunBeforeCallback(s, i);
    assert TaskInv(s.items, i, pc);
    match step
    case Start(_) => ItemTaskStep(s, i, Started, ItemRunning);
    case FailItem(_) => ItemTaskStep(s, i, Returned(NotSucceeded(i)), ItemFailed);
    case Finish(_) => ItemTaskStep(s, i, CountingTotal(pc.result), StatusOf(pc.result));
    case Notify(_) =>
      QuietTaskStep(s, i, Returned(pc.result));
    case WriteProgress(_) =>
      QuietTaskStep(s, i, Notifying(pc.result, pc.total, pc.done));
    case RowUnavailable(_) => QuietTaskStep(s, i, Failing);
    case GatewayReturns(_, result) => QuietTaskStep(s, i, Finishing(result));
    case CountTotal(_) => QuietTaskStep(s, i, CountingDone(pc.result, |s.items|));
    case CountDone(_) => QuietTaskStep(s, i, Writing(pc.result, pc.total, FinishedCount(s.items)));
    case Raise(_) => QuietTaskStep(s, i, Raised);
    case _ =>
  }

  lemma StepKeepsInv(s: State, step: Step)
    requires Inv(s) && Enabled(s, step)
    ensures Inv(Next(s, step))
  {
    hide FinishedCount, ComputedRows, SuccessCount, TaskInv;
    var s' := Next(s, step);
    match step
    case Launch =>
      assert Announced(s', (0, |s.items|));
      forall k | 0 <= k < |s.progress| ensures Announced(s', s.progress[k]) { assert Announced(s, s.progress[k]); }
    case FireCallback =>
    case WriteMetrics =>
    case CallbackCountTotal =>
    case CallbackCountDone => AllReturnedMeansAllFinished(s);
    case Close => AllReturnedMeansAllFinished(s);
    case CallbackRaises =>
    case _ => TaskStepKeepsInv(s, step);
  }

  lemma {:induction false} RunKeepsInv(s: State, steps: seq<Step>)
    requires Inv(s) && ValidRun(s, steps)
    ensures Inv(Final(s, steps)) && |Final(s, steps).items| == |s.items|
    decreases |steps|
  {
    if steps != [] {
      StepKeepsInv(s, steps[0]);
      RunKeepsInv(Next(s, steps[0]), steps[1..]);
    }
  }

  lemma InitHolds(n: nat)
    ensures Inv(Init(n))
  {
    NobodyFinishedAtStart(Init(n).items);
  }

  // ----- runs one after the other -----

  lemma {:induction false} RunsConcat(s: State, steps: seq<Step>, more: seq<Step>)
    requires ValidRun(s, steps) && ValidRun(Final(s, steps), more)
    ensures ValidRun(s, steps + more) && Final(s, steps + more) == Final(Final(s, steps), more)
    decreases |steps|
  {
    if steps == [] {
      assert steps + more == more;
    } else {
      assert (steps + more)[1..] == steps[1..] + more;
      hide Next, Enabled;
      RunsConcat(Next(s, steps[0]), steps[1..], more);
    }
  }
}
