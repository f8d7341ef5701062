/** Theorems about whole runs of a benchmark chord, under every interleaving of its header tasks. */
module BenchmarkRuns {
  import opened Wrappers
  import opened BenchmarkChord
  import opened BenchmarkSafety

  /**
   * However late recounts are written, the stored counter never exceeds the number of
   * items that are really finished, nor that number the total, and no published
   * progress event overstates it either.
   */
  lemma ProgressNeverOverstates(n: nat, steps: seq<Step>)
    requires ValidRun(Init(n), steps)
    ensures var s := Final(Init(n), steps);
      && s.run.completedItems <= FinishedCount(s.items) <= s.run.totalItems == n
      && forall k | 0 <= k < |s.progress| :: s.progress[k].0 <= FinishedCount(s.items) && s.progress[k].1 == n
  {
    InitHolds(n);
    RunKeepsInv(Init(n), steps);
    var s := Final(Init(n), steps);
    forall k | 0 <= k < |s.progress| ensures s.progress[k].0 <= FinishedCount(s.items) && s.progress[k].1 == n {
      assert Announced(s, s.progress[k]);
    }
  }

  /** A recount is announced exactly when it counted a multiple of five items or all of them. */
  lemma NotifyAnnounces(s: State, i: nat)
    requires Enabled(s, Notify(i))
    ensures var pc, s' := s.tasks[i], Next(s, Notify(i));
      && s'.tasks[i] == Returned(pc.result)
      && (pc.done % 5 == 0 || pc.done == pc.total ==> s'.progress == s.progress + [(pc.done, pc.total)])
      && (pc.done % 5 != 0 && pc.done != pc.total ==> s'.progress == s.progress)
  {
  }

  ghost predicate Spaced(progress: seq<(nat, nat)>, n: nat) {
    forall k | 0 <= k < |progress| :: progress[k].1 == n && (progress[k].0 % 5 == 0 || progress[k].0 == n)
  }

  lemma StepKeepsSpacing(s: State, step: Step, n: nat)
    requires Inv(s) && Enabled(s, step) && |s.items| == n && Spaced(s.progress, n)
    ensures |Next(s, step).items| == n && Spaced(Next(s, step).progress, n)
  {
    if step.Notify? {
      NotifyAnnounces(s, step.i);
      assert TaskInv(s.items, step.i, s.tasks[step.i]);
    }
    hide FinishedCount, ComputedRows, SuccessCount, AllReturned, TaskInv;
  }

  lemma {:induction false} RunKeepsSpacing(s: State, steps: seq<Step>, n: nat)
    requires Inv(s) && ValidRun(s, steps) && |s.items| == n && Spaced(s.progress, n)
    ensures Spaced(Final(s, steps).progress, n)
    decreases |steps|
  {
    if steps != [] {
      StepKeepsInv(s, steps[0]);
      StepKeepsSpacing(s, steps[0], n);
      hide Inv, Next, Enabled, Spaced;
      RunKeepsSpacing(Next(s, steps[0]), steps[1..], n);
    }
  }

  /** So every announced count is a multiple of five or the number of items. */
  lemma AnnouncedCountsAreSpaced(n: nat, steps: seq<Step>)
    requires ValidRun(Init(n), steps)
    ensures Spaced(Final(Init(n), steps).progress, n)
  {
    InitHolds(n);
    RunKeepsSpacing(Init(n), steps, n);
  }

  ghost predicate IsClosed(s: State) {
    s.run.status.RunComplete? || s.run.status.RunFailed?
  }

  /**
   * A closed run is exact: every item is finished and the counter equals the total. It
   * is FAILED exactly when no item is COMPLETE, and its metric rows are those of the
   * header results, whose success flags are the items' stored statuses.
   */
  lemma ClosedRunIsExact(n: nat, steps: seq<Step>)
    requires ValidRun(Init(n), steps) && IsClosed(Final(Init(n), steps))
    ensures var s := Final(Init(n), steps);
      && |s.items| == |s.tasks| == n && (forall i | 0 <= i < n :: IsFinished(s.items[i]))
      && s.run.completedItems == FinishedCount(s.items) == s.run.totalItems == n
      && (s.run.status.RunFailed? <==> forall i | 0 <= i < n :: !s.items[i].ItemComplete?)
      && AllReturned(s.tasks) && s.metrics == ComputedRows(Results(s.tasks))
      && (forall i | 0 <= i < n :: Results(s.tasks)[i].item == i && (Results(s.tasks)[i].Succeeded? <==> s.items[i].ItemComplete?))
      && n > 0
  {
    InitHolds(n);
    RunKeepsInv(Init(n), steps);
    var s := Final(Init(n), steps);
    AllReturnedMeansAllFinished(s);
    FullCountMeansAllFinished(s.items);
    forall i | 0 <= i < n
      ensures Results(s.tasks)[i].item == i && (Results(s.tasks)[i].Succeeded? <==> s.items[i].ItemComplete?)
    {
      assert TaskInv(s.items, i, s.tasks[i]);
    }
    NoSuccessMeansNoneSucceeded(Results(s.tasks));
  }

  lemma {:induction false} NoSuccessMeansNoneSucceeded(results: seq<TaskResult>)
    ensures SuccessCount(results) == 0 <==> forall i | 0 <= i < |results| :: !results[i].Succeeded?
    decreases |results|
  {
    if results != [] {
      var n := |results| - 1;
      NoSuccessMeansNoneSucceeded(results[..n]);
      if forall i | 0 <= i < |results| :: !results[i].Succeeded? {
        assert forall i | 0 <= i < n :: !results[..n][i].Succeeded?;
      }
      if SuccessCount(results) == 0 {
        forall i | 0 <= i < |results| ensures !results[i].Succeeded? {
          if i < n { assert !results[..n][i].Succeeded?; }
        }
      }
    }
  }

  /** Once closed, no step is left: no late recount can touch the run, its items or its metrics. */
  lemma ClosedRunIsFinal(n: nat, steps: seq<Step>, step: Step)
    requires ValidRun(Init(n), steps) && IsClosed(Final(Init(n), steps))
    ensures !Enabled(Final(Init(n), steps), step)
  {
    InitHolds(n);
    RunKeepsInv(Init(n), steps);
  }

  /** A run with no items, or with a header task that raised, is never closed. */
  lemma SomeRunsNeverClose(n: nat, steps: seq<Step>)
    requires ValidRun(Init(n), steps)
    requires n == 0 || exists i | 0 <= i < |Final(Init(n), steps).tasks| :: Final(Init(n), steps).tasks[i].Raised?
    ensures !IsClosed(Final(Init(n), steps))
  {
    InitHolds(n);
    RunKeepsInv(Init(n), steps);
  }

  // ----- computed metrics -----

  ghost predicate DistinctItems(results: seq<TaskResult>) {
    forall i, j | 0 <= i < j < |results| :: results[i].item != results[j].item
  }

  ghost predicate OneRowPerMetric(rows: seq<MetricRow>) {
    forall k, l | 0 <= k < l < |rows| :: rows[k].item != rows[l].item || rows[k].metric != rows[l].metric
  }

  function MissingCosts(results: seq<TaskResult>): nat {
    if results == [] then 0
    else
      var r := results[|results| - 1];
      MissingCosts(results[..|results| - 1]) + (if r.Succeeded? && r.costUsd.None? then 1 else 0)
  }

  function OneRow(item: nat, metric: (string, Option<real>)): seq<MetricRow> {
    if metric.1.Some? then [MetricRow(item, metric.0, metric.1.value)] else []
  }

  lemma RowsOfSnoc(item: nat, metrics: seq<(string, Option<real>)>, metric: (string, Option<real>))
    ensures RowsOf(item, metrics + [metric]) == RowsOf(item, metrics) + OneRow(item, metric)
    ensures metrics == [] ==> RowsOf(item, metrics) == []
  {
    assert (metrics + [metric])[..|metrics|] == metrics;
  }

  lemma RowsOfFour(item: nat, a: (string, Option<real>), b: (string, Option<real>), c: (string, Option<real>), d: (string, Option<real>))
    ensures RowsOf(item, [a, b, c, d]) == OneRow(item, a) + OneRow(item, b) + OneRow(item, c) + OneRow(item, d)
  {
    hide RowsOf, OneRow;
    var none: seq<(string, Option<real>)> := [];
    RowsOfSnoc(item, none, a);
    RowsOfSnoc(item, none + [a], b);
    RowsOfSnoc(item, none + [a] + [b], c);
    RowsOfSnoc(item, none + [a] + [b] + [c], d);
    assert none + [a] + [b] + [c] + [d] == [a, b, c, d];
  }

  lemma RowsOfSuccess(r: TaskResult)
    requires r.Succeeded?
    ensures var rows := RowsOf(r.item, MetricsOf(r));
      && |rows| == (if r.costUsd.None? then 3 else 4)
      && OneRowPerMetric(rows)
      && forall k | 0 <= k < |rows| :: IsRowOf(rows[k], r)
  {
    hide RowsOf;
    var m := MetricsOf(r);
    RowsOfFour(r.item, m[0], m[1], m[2], m[3]);
    assert m[0] in m && m[1] in m && m[2] in m && m[3] in m;
  }

  lemma {:induction false} ComputedRowsCount(results: seq<TaskResult>)
    ensures |ComputedRows(results)| + MissingCosts(results) == 4 * SuccessCount(results)
    ensures MissingCosts(results) <= SuccessCount(results)
    decreases |results|
  {
    if results != [] {
      var r := results[|results| - 1];
      ComputedRowsCount(results[..|results| - 1]);
      if r.Succeeded? { RowsOfSuccess(r); }
    }
  }

  /**
   * Metric rows belong to successes only, at most one per item and metric, and every
   * success has four of them, or three when its cost is unknown.
   */
  lemma {:induction false} ComputedRowsFacts(results: seq<TaskResult>)
    requires DistinctItems(results)
    ensures |ComputedRows(results)| + MissingCosts(results) == 4 * SuccessCount(results)
    ensures MissingCosts(results) <= SuccessCount(results)
    ensures forall k | 0 <= k < |ComputedRows(results)| :: FromSuccess(ComputedRows(results)[k], results)
    ensures OneRowPerMetric(ComputedRows(results))
    decreases |results|
  {
    ComputedRowsCount(results);
    forall k | 0 <= k < |ComputedRows(results)| ensures FromSuccess(ComputedRows(results)[k], results) {
      ComputedRowsAreReported(results, ComputedRows(results)[k]);
    }
    if results != [] {
      var front, r := results[..|results| - 1], results[|results| - 1];
      ComputedRowsFacts(front);
      if r.Succeeded? { RowsOfSuccess(r); }
      var before := ComputedRows(front);
      forall k | 0 <= k < |before| ensures before[k].item != r.item {
        assert FromSuccess(before[k], front);
      }
    }
  }

  // ----- what a closed run's rows are, told by its steps -----

  /** What the task got from the gateway and has not lost by raising. */
  function HeldResult(pc: TaskPc): Option<TaskResult> {
    if pc.Finishing? || pc.CountingTotal? || pc.CountingDone? || pc.Writing? || pc.Notifying? || pc.Returned? then Some(pc.result)
    else None
  }

  /** The task is past the gateway call and goes on holding its result until it returns or raises. */
  ghost predicate HoldsOrRaised(pc: TaskPc, r: TaskResult) {
    HeldResult(pc) == Some(r) || pc.Raised?
  }

  lemma ResultStaysPut(s: State, step: Step, i: nat, r: TaskResult)
    requires Enabled(s, step) && i < |s.tasks|
    ensures |Next(s, step).tasks| == |s.tasks|
    ensures step == GatewayReturns(i, r) || HoldsOrRaised(s.tasks[i], r) ==> HoldsOrRaised(Next(s, step).tasks[i], r)
    ensures r.Succeeded? && HeldResult(Next(s, step).tasks[i]) == Some(r) ==>
      step == GatewayReturns(i, r) || HeldResult(s.tasks[i]) == Some(r)
  {
    hide FinishedCount, ComputedRows, SuccessCount, AllReturned;
  }

  lemma {:induction false} ResultIsFromGateway(s: State, steps: seq<Step>, i: nat, r: TaskResult)
    requires ValidRun(s, steps) && i < |s.tasks|
    ensures |Final(s, steps).tasks| == |s.tasks|
    ensures GatewayReturns(i, r) in steps || HoldsOrRaised(s.tasks[i], r) ==> HoldsOrRaised(Final(s, steps).tasks[i], r)
    ensures r.Succeeded? && HeldResult(Final(s, steps).tasks[i]) == Some(r) ==>
      GatewayReturns(i, r) in steps || HeldResult(s.tasks[i]) == Some(r)
    decreases |steps|
  {
    hide Next, Enabled, HoldsOrRaised, HeldResult;
    if steps != [] {
      var rest := steps[1..];
      assert steps == [steps[0]] + rest;
      ResultStaysPut(s, steps[0], i, r);
      ResultIsFromGateway(Next(s, steps[0]), rest, i, r);
    }
  }

  /**
   * The metric rows of a closed run are exactly what the gateway reported for the items it
   * succeeded on: a row of item i is there if and only if some call for i came back with
   * that value for that metric.
   */
  lemma ClosedRunRows(n: nat, steps: seq<Step>, row: MetricRow)
    requires ValidRun(Init(n), steps) && IsClosed(Final(Init(n), steps))
    ensures row in Final(Init(n), steps).metrics
      <==> exists r: TaskResult :: row.item < n && GatewayReturns(row.item, r) in steps && Reports(r, row.metric, row.value)
  {
    hide *;
    var results := ClosedRunResults(n, steps);
    ComputedRowsAreReported(results, row);
    if FromSuccess(row, results) {
      ReportedRow(row, results);
      var i :| 0 <= i < |results| && IsRowOf(row, results[i]) && row.item == results[i].item
        && Reports(results[i], row.metric, row.value) && results[i].Succeeded?;
      ResultIsFromGateway(Init(n), steps, i, results[i]);
    }
    if r: TaskResult :| row.item < n && GatewayReturns(row.item, r) in steps && Reports(r, row.metric, row.value) {
      ResultIsFromGateway(Init(n), steps, row.item, r);
      HoldingIsReturning(Final(Init(n), steps).tasks[row.item], r);
      RowIsReported(row, results, row.item);
    }
  }

  lemma HoldingIsReturning(pc: TaskPc, r: TaskResult)
    requires pc.Returned? && HoldsOrRaised(pc, r)
    ensures pc.result == r
  {
  }

  lemma ReportedRow(row: MetricRow, results: seq<TaskResult>)
    requires FromSuccess(row, results)
    ensures exists i | 0 <= i < |results| ::
      IsRowOf(row, results[i]) && row.item == results[i].item && Reports(results[i], row.metric, row.value) && results[i].Succeeded?
  {
    var i :| 0 <= i < |results| && IsRowOf(row, results[i]);
    assert IsRowOf(row, results[i]) && Reports(results[i], row.metric, row.value);
  }

  lemma RowIsReported(row: MetricRow, results: seq<TaskResult>, i: nat)
    requires i < |results| && row.item == results[i].item && Reports(results[i], row.metric, row.value)
    ensures FromSuccess(row, results)
  {
    assert IsRowOf(row, results[i]);
  }

  /** The header results of a closed run are what its tasks hold. */
  lemma ClosedRunResults(n: nat, steps: seq<Step>) returns (results: seq<TaskResult>)
    requires ValidRun(Init(n), steps) && IsClosed(Final(Init(n), steps))
    ensures var s := Final(Init(n), steps);
      && |results| == |s.tasks| == |Init(n).tasks| == n && s.metrics == ComputedRows(results)
      && (forall i | 0 <= i < n :: s.tasks[i].Returned? && s.tasks[i].result == results[i] && results[i].item == i)
      && (forall i | 0 <= i < n :: HeldResult(s.tasks[i]) == Some(results[i]) && HeldResult(Init(n).tasks[i]).None?)
  {
    ClosedRunIsExact(n, steps);
    results := Results(Final(Init(n), steps).tasks);
  }

  /** In a closed run the metric rows number between three and four times the COMPLETE items and name only those. */
  lemma ClosedRunMetrics(n: nat, steps: seq<Step>)
    requires ValidRun(Init(n), steps) && IsClosed(Final(Init(n), steps))
    ensures var s := Final(Init(n), steps);
      && |s.items| == n && 3 * CompleteCount(s.items) <= |s.metrics| <= 4 * CompleteCount(s.items)
      && OneRowPerMetric(s.metrics)
      && forall k | 0 <= k < |s.metrics| :: s.metrics[k].item < n && s.items[s.metrics[k].item].ItemComplete?
  {
    ClosedRunIsExact(n, steps);
    var s := Final(Init(n), steps);
    InitHolds(n);
    RunKeepsInv(Init(n), steps);
    var results := Results(s.tasks);
    ComputedRowsFacts(results);
    SuccessesAreCompletes(results, s.items);
    forall k | 0 <= k < |s.metrics| ensures s.metrics[k].item < n && s.items[s.metrics[k].item].ItemComplete? {
      assert FromSuccess(s.metrics[k], results);
    }
  }

  function CompleteCount(items: seq<ItemStatus>): nat {
    if items == [] then 0 else CompleteCount(items[..|items| - 1]) + (if items[|items| - 1].ItemComplete? then 1 else 0)
  }

  lemma {:induction false} SuccessesAreCompletes(results: seq<TaskResult>, items: seq<ItemStatus>)
    requires |results| == |items|
    requires forall i | 0 <= i < |items| :: results[i].Succeeded? <==> items[i].ItemComplete?
    ensures SuccessCount(results) == CompleteCount(items)
    decreases |items|
  {
    if items != [] {
      SuccessesAreCompletes(results[..|items| - 1], items[..|items| - 1]);
    }
  }
}
