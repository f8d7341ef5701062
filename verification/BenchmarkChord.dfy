/**
 * A benchmark run as a Celery chord: one header task per item, running concurrently,
 * and a callback that closes the run. Each statement of `refresh_progress` is a step
 * of its own, so a recount may be written long after it was made.
 * Every header task is delivered once and items are not deleted.
 */
module BenchmarkChord {
  import opened Wrappers

  datatype ItemStatus = ItemPending | ItemRunning | ItemComplete | ItemFailed
  datatype RunStatus = RunPending | RunRunning | RunComplete | RunFailed

  /** What a header task reports to the callback. */
  datatype TaskResult =
    | Succeeded(item: nat, latencyMs: nat, costUsd: Option<real>, inputTokens: nat, outputTokens: nat)
    | NotSucceeded(item: nat)

  datatype TaskPc =
    | Queued
    | Started
    | Failing
    | Finishing(result: TaskResult)
    | CountingTotal(result: TaskResult)
    | CountingDone(result: TaskResult, total: nat)
    | Writing(result: TaskResult, total: nat, done: nat)
    | Notifying(result: TaskResult, total: nat, done: nat)
    | Returned(result: TaskResult)
    | Raised

  datatype CallbackPc = Waiting | Measuring | Recounting | RecountingDone(total: nat) | Closing(total: nat, done: nat) | Closed | Stuck

  datatype Run = Run(status: RunStatus, totalItems: nat, completedItems: nat)

  datatype MetricRow = MetricRow(item: nat, metric: string, value: real)

  datatype State = State(
    run: Run,
    items: seq<ItemStatus>,
    dispatched: bool,
    tasks: seq<TaskPc>,
    callback: CallbackPc,
    metrics: seq<MetricRow>,
    progress: seq<(nat, nat)>)  // (completed, total) of every published RUNNING event

  datatype Step =
    | Launch
    | Start(i: nat)
    | RowUnavailable(i: nat)
    | GatewayReturns(i: nat, result: TaskResult)
    | FailItem(i: nat)
    | Finish(i: nat)
    | CountTotal(i: nat)
    | CountDone(i: nat)
    | WriteProgress(i: nat)
    | Notify(i: nat)
    | Raise(i: nat)
    | FireCallback
    | WriteMetrics
    | CallbackCountTotal
    | CallbackCountDone
    | Close
    | CallbackRaises

  const PROGRESS_EVERY := 5

  /** The API materialised `n` items before enqueueing the launch. */
  function Init(n: nat): State {
    State(Run(RunPending, n, 0), seq(n, _ => ItemPending), false, seq(n, _ => Queued), Waiting, [], [])
  }

  predicate IsFinished(s: ItemStatus) {
    s.ItemComplete? || s.ItemFailed?
  }

  /** SELECT count(*) WHERE status IN (complete, failed). */
  function FinishedCount(items: seq<ItemStatus>): (n: nat)
    ensures n <= |items|
  {
    if items == [] then 0 else FinishedCount(items[..|items| - 1]) + (if IsFinished(items[|items| - 1]) then 1 else 0)
  }

  function StatusOf(r: TaskResult): ItemStatus {
    if r.Succeeded? then ItemComplete else ItemFailed
  }

  predicate AllReturned(tasks: seq<TaskPc>) {
    forall i | 0 <= i < |tasks| :: tasks[i].Returned?
  }

  function Results(tasks: seq<TaskPc>): seq<TaskResult>
    requires AllReturned(tasks)
  {
    seq(|tasks|, i requires 0 <= i < |tasks| => tasks[i].result)
  }

  /** The four request-derived metrics of one success; a missing cost yields no row. */
  function MetricsOf(r: TaskResult): seq<(string, Option<real>)>
    requires r.Succeeded?
  {
    [("latency_ms", Some(r.latencyMs as real)), ("cost_usd", r.costUsd),
     ("input_tokens", Some(r.inputTokens as real)), ("output_tokens", Some(r.outputTokens as real))]
  }

  function RowsOf(item: nat, metrics: seq<(string, Option<real>)>): seq<MetricRow> {
    if metrics == [] then []
    else
      var (name, value) := metrics[|metrics| - 1];
      RowsOf(item, metrics[..|metrics| - 1]) + (if value.Some? then [MetricRow(item, name, value.value)] else [])
  }

  function ComputedRows(results: seq<TaskResult>): seq<MetricRow> {
    if results == [] then []
    else
      var r := results[|results| - 1];
      ComputedRows(results[..|results| - 1]) + (if r.Succeeded? then RowsOf(r.item, MetricsOf(r)) else [])
  }

  function SuccessCount(results: seq<TaskResult>): nat {
    if results == [] then 0
    else SuccessCount(results[..|results| - 1]) + (if results[|results| - 1].Succeeded? then 1 else 0)
  }

  predicate Enabled(s: State, step: Step) {
    |s.tasks| == |s.items| &&
    match step
    case Launch => !s.dispatched && s.run.status.RunPending?
    case FireCallback => s.dispatched && s.callback.Waiting? && AllReturned(s.tasks)
    case WriteMetrics => s.callback.Measuring? && AllReturned(s.tasks)
    case CallbackCountTotal => s.callback.Recounting?
    case CallbackCountDone => s.callback.RecountingDone?
    case Close => s.callback.Closing? && AllReturned(s.tasks)
    case CallbackRaises => s.callback.Measuring? || s.callback.Recounting? || s.callback.RecountingDone? || s.callback.Closing?
    case _ => s.dispatched && step.i < |s.tasks| && TaskEnabled(s.tasks[step.i], step)
  }

  predicate TaskEnabled(pc: TaskPc, step: Step) {
    match step
    case Start(_) => pc.Queued?
    case RowUnavailable(_) => pc.Started?
    case GatewayReturns(i, result) => pc.Started? && result.item == i
    case FailItem(_) => pc.Failing?
    case Finish(_) => pc.Finishing?
    case CountTotal(_) => pc.CountingTotal?
    case CountDone(_) => pc.CountingDone?
    case WriteProgress(_) => pc.Writing?
    case Notify(_) => pc.Notifying?
    case Raise(_) => !pc.Returned? && !pc.Raised?
    case _ => false
  }

  function Goto(s: State, i: nat, pc: TaskPc): State
    requires i < |s.tasks|
  {
    s.(tasks := s.tasks[i := pc])
  }

  function SetItem(s: State, i: nat, status: ItemStatus): State
    requires i < |s.items|
  {
    s.(items := s.items[i := status])
  }

  function TaskStep(s: State, step: Step): State
    requires |s.tasks| == |s.items|
    requires !step.Launch? && !step.FireCallback? && !step.WriteMetrics? && !step.CallbackCountTotal?
    requires !step.CallbackCountDone? && !step.Close? && !step.CallbackRaises?
    requires step.i < |s.tasks| && TaskEnabled(s.tasks[step.i], step)
  {
    var pc := s.tasks[step.i];
    match step
    case Start(i) => SetItem(Goto(s, i, Started), i, ItemRunning)
    case RowUnavailable(i) => Goto(s, i, Failing)
    case GatewayReturns(i, result) => Goto(s, i, Finishing(result))
    case FailItem(i) => SetItem(Goto(s, i, Returned(NotSucceeded(i))), i, ItemFailed)
    case Finish(i) => SetItem(Goto(s, i, CountingTotal(pc.result)), i, StatusOf(pc.result))
    case CountTotal(i) => Goto(s, i, CountingDone(pc.result, |s.items|))
    case CountDone(i) => Goto(s, i, Writing(pc.result, pc.total, FinishedCount(s.items)))
    case WriteProgress(i) =>
      Goto(s, i, Notifying(pc.result, pc.total, pc.done))
      .(run := s.run.(completedItems := pc.done, totalItems := pc.total))
    case Notify(i) =>
      var s' := Goto(s, i, Returned(pc.result));
      if pc.done % PROGRESS_EVERY != 0 && pc.done != pc.total then s'
      else s'.(progress := s.progress + [(pc.done, pc.total)])
    case Raise(i) => Goto(s, i, Raised)
  }

  function Next(s: State, step: Step): State
    requires Enabled(s, step)
  {
    match step
    case Launch =>
      // with no items nothing is dispatched, and the run has already been marked running
      s.(run := s.run.(status := RunRunning), dispatched := |s.items| > 0, progress := s.progress + [(0, |s.items|)])
    case FireCallback => s.(callback := Measuring)
    case WriteMetrics => s.(callback := Recounting, metrics := s.metrics + ComputedRows(Results(s.tasks)))
    case CallbackCountTotal => s.(callback := RecountingDone(|s.items|))
    case CallbackCountDone => s.(callback := Closing(s.callback.total, FinishedCount(s.items)))
    case Close =>
      var results := Results(s.tasks);
      var allFailed := results != [] && SuccessCount(results) == 0;
      s.(callback := Closed,
         run := Run(if allFailed then RunFailed else RunComplete, s.callback.total, s.callback.done))
    case CallbackRaises => s.(callback := Stuck)
    case _ => TaskStep(s, step)
  }

  ghost predicate ValidRun(s: State, steps: seq<Step>)
    decreases |steps|
  {
    steps == [] || (Enabled(s, steps[0]) && ValidRun(Next(s, steps[0]), steps[1..]))
  }

  ghost function Final(s: State, steps: seq<Step>): State
    requires ValidRun(s, steps)
    decreases |steps|
  {
    if steps == [] then s else Final(Next(s, steps[0]), steps[1..])
  }

  // ----- which rows those are -----

  /** The result reports this value for the metric. */
  predicate Reports(r: TaskResult, metric: string, value: real) {
    && r.Succeeded?
    && (|| (metric == "latency_ms" && value == r.latencyMs as real)
        || (metric == "cost_usd" && r.costUsd == Some(value))
        || (metric == "input_tokens" && value == r.inputTokens as real)
        || (metric == "output_tokens" && value == r.outputTokens as real))
  }

  ghost predicate IsRowOf(row: MetricRow, r: TaskResult) {
    row.item == r.item && Reports(r, row.metric, row.value)
  }

  ghost predicate FromSuccess(row: MetricRow, results: seq<TaskResult>) {
    exists k | 0 <= k < |results| :: IsRowOf(row, results[k])
  }

  lemma {:induction false} RowsOfMembers(item: nat, metrics: seq<(string, Option<real>)>, row: MetricRow)
    ensures row in RowsOf(item, metrics) <==> row.item == item && (row.metric, Some(row.value)) in metrics
    decreases |metrics|
  {
    if metrics != [] {
      var front, last := metrics[..|metrics| - 1], metrics[|metrics| - 1];
      assert metrics == front + [last];
      RowsOfMembers(item, front, row);
      var (name, value) := last;
      if value.Some? { assert row in [MetricRow(item, name, value.value)] <==> row.item == item && (row.metric, Some(row.value)) == last; }
    }
  }

  lemma MetricsOfMembers(r: TaskResult, metric: string, value: real)
    requires r.Succeeded?
    ensures (metric, Some(value)) in MetricsOf(r) <==> Reports(r, metric, value)
  {
  }

  /** A row is written exactly for an item, metric and value that some success reports. */
  lemma {:induction false} ComputedRowsAreReported(results: seq<TaskResult>, row: MetricRow)
    ensures row in ComputedRows(results) <==> FromSuccess(row, results)
    decreases |results|
  {
    hide *;
    if results == [] {
      NothingReported(results, row);
    } else {
      var front, r := results[..|results| - 1], results[|results| - 1];
      ComputedRowsAreReported(front, row);
      FromSuccessSnoc(results, row);
      ComputedRowsSnoc(results, row);
      RowsOfResult(r, row);
    }
  }

  lemma NothingReported(results: seq<TaskResult>, row: MetricRow)
    requires results == []
    ensures row !in ComputedRows(results) && !FromSuccess(row, results)
  {
  }

  lemma FromSuccessSnoc(results: seq<TaskResult>, row: MetricRow)
    requires results != []
    ensures FromSuccess(row, results) <==> FromSuccess(row, results[..|results| - 1]) || IsRowOf(row, results[|results| - 1])
  {
    hide IsRowOf;
    var front := results[..|results| - 1];
    if k :| 0 <= k < |front| && IsRowOf(row, front[k]) { assert IsRowOf(row, results[k]); }
    if k :| 0 <= k < |front| && IsRowOf(row, results[k]) { assert IsRowOf(row, front[k]); }
  }

  lemma ComputedRowsSnoc(results: seq<TaskResult>, row: MetricRow)
    requires results != []
    ensures var r := results[|results| - 1];
      row in ComputedRows(results)
      <==> row in ComputedRows(results[..|results| - 1]) || (r.Succeeded? && row in RowsOf(r.item, MetricsOf(r)))
  {
    hide RowsOf, MetricsOf;
  }

  lemma RowsOfResult(r: TaskResult, row: MetricRow)
    ensures IsRowOf(row, r) <==> r.Succeeded? && row in RowsOf(r.item, MetricsOf(r))
  {
    if r.Succeeded? {
      RowsOfMembers(r.item, MetricsOf(r), row);
      MetricsOfMembers(r, row.metric, row.value);
      hide MetricsOf, RowsOf, Reports;
    }
  }

  /** The callback's two loops: for each success, for each metric that has a value, one row. */
  method WriteComputedMetrics(results: seq<TaskResult>) returns (rows: seq<MetricRow>, computed: nat)
    ensures rows == ComputedRows(results)
    ensures computed == |rows|
    ensures forall row :: row in rows <==> FromSuccess(row, results)
  {
    rows, computed := [], 0;
    for k := 0 to |results|
      invariant rows == ComputedRows(results[..k]) && computed == |rows|
    {
      assert results[..k + 1][..k] == results[..k];
      if results[k].Succeeded? {
        var metrics := MetricsOf(results[k]);
        ghost var before := rows;
        for m := 0 to |metrics|
          invariant rows == before + RowsOf(results[k].item, metrics[..m]) && computed == |rows|
        {
          assert metrics[..m + 1][..m] == metrics[..m];
          var (name, value) := metrics[m];
          if value.Some? {
            rows := rows + [MetricRow(results[k].item, name, value.value)];
            computed := computed + 1;
          }
        }
        assert metrics[..|metrics|] == metrics;
      }
    }
    assert results[..|results|] == results;
    forall row ensures row in rows <==> FromSuccess(row, results) { ComputedRowsAreReported(results, row); }
  }
}
