/**
 * Whose text a committed version holds, told by the steps of the run alone: the last
 * thing its transaction began, or the creation of its prompt.
 */
module PromptVersionsContents {
  import opened Wrappers
  import opened PromptVersions
  import opened PromptVersionsSafety

  // ----- looking back along a run -----

  lemma {:induction false} LastStep(s: State, steps: seq<Step>)
    requires steps != [] && Runs(s, steps)
    ensures var n := |steps| - 1;
      && Runs(s, steps[..n]) && Enabled(After(s, steps[..n]), steps[n])
      && After(s, steps) == Next(After(s, steps[..n]), steps[n])
    decreases |steps|
  {
    var n := |steps| - 1;
    hide Next, Enabled;
    if n > 0 {
      var rest := steps[1..];
      LastStep(Next(s, steps[0]), rest);
      assert rest[..n - 1] == steps[..n][1..];
    }
  }

  predicate Begins(step: Step, t: int) {
    (step.Begin? || step.BeginRollback?) && step.t == t
  }

  /** Where the transaction last began, -1 for nowhere. */
  function LastBegin(steps: seq<Step>, t: int): (k: int)
    ensures -1 <= k < |steps| && (k >= 0 ==> Begins(steps[k], t))
    ensures forall l | k < l < |steps| :: !Begins(steps[l], t)
  {
    if steps == [] then -1
    else if Begins(steps[|steps| - 1], t) then |steps| - 1
    else LastBegin(steps[..|steps| - 1], t)
  }

  /** The step asks for a version of `p` with this text. */
  predicate AsksFor(step: Step, p: Id, content: string, origin: Origin) {
    || (step.Begin? && step.p == p && step.content == content && origin == Written)
    || (step.BeginRollback? && step.p == p && step.source.content == content && origin == CopyOf(step.source.number))
  }

  /** What the transaction will commit is what it last asked for. */
  ghost predicate HoldsRequest(w: Work, steps: seq<Step>, t: int) {
    var k := LastBegin(steps, t);
    && k >= 0
    && match w
       case Chosen(p, content, origin) => AsksFor(steps[k], p, content, origin)
       case Numbered(p, content, origin, _) => AsksFor(steps[k], p, content, origin)
       case Inserted(v) => AsksFor(steps[k], v.prompt, v.content, v.origin)
  }

  lemma WorkAfterStep(s: State, step: Step, steps: seq<Step>, t: int)
    requires steps != [] && step == steps[|steps| - 1] && Enabled(s, step)
    requires t in s.work ==> HoldsRequest(s.work[t], steps[..|steps| - 1], t)
    ensures t in Next(s, step).work ==> HoldsRequest(Next(s, step).work[t], steps, t)
  {
    hide Taken, Latest, FirstVersion, Without, Locked, Blocked;
  }

  lemma {:induction false} WorkHoldsRequest(steps: seq<Step>, t: int)
    requires Runs(START, steps)
    ensures t in After(START, steps).work ==> HoldsRequest(After(START, steps).work[t], steps, t)
    decreases |steps|
  {
    if steps != [] {
      var n := |steps| - 1;
      LastStep(START, steps);
      WorkHoldsRequest(steps[..n], t);
      hide Next, Enabled, HoldsRequest, After, Runs;
      WorkAfterStep(After(START, steps[..n]), steps[n], steps, t);
    }
  }

  // ----- what a commit stores -----

  /**
   * A commit appends one version, of the prompt and with the text its transaction last asked
   * for: the client's own, or that of the version rolled back to, which was in the table then.
   * Its number is one past the prompt's history.
   */
  lemma CommitStoresWhatWasBegun(steps: seq<Step>, t: int)
    requires Runs(START, steps) && Enabled(After(START, steps), Commit(t))
    ensures var k, s, s' := LastBegin(steps, t), After(START, steps), Next(After(START, steps), Commit(t));
      && k >= 0 && |s'.table| == |s.table| + 1 && s.table <= s'.table
      && var v := s'.table[|s.table|];
      && v.prompt == steps[k].p
      && v.number == |History(s, v.prompt)| + 1
      && (steps[k].Begin? ==> v.content == steps[k].content && v.origin == Written)
      && (steps[k].BeginRollback? ==>
          v.content == steps[k].source.content && v.origin == CopyOf(steps[k].source.number)
          && steps[k].source.prompt == v.prompt && steps[k].source.number < v.number)
  {
    WorkHoldsRequest(steps, t);
    StartIsOk();
    RunKeepsInv(START, steps);
    var s := After(START, steps);
    var w := s.work[t];
    assert WorkOk(s, w);
    RollbackSourceIsOwn(steps, LastBegin(steps, t));
    hide History, After, Runs, Inv;
  }

  lemma RollbackSourceIsOwn(steps: seq<Step>, k: int)
    requires Runs(START, steps)
    ensures 0 <= k < |steps| && steps[k].BeginRollback? ==> steps[k].source.prompt == steps[k].p
    decreases |steps|
  {
    if 0 <= k < |steps| {
      LastStep(START, steps);
      if k < |steps| - 1 {
        RollbackSourceIsOwn(steps[..|steps| - 1], k);
      }
    }
  }

  /** A prompt made with a first text starts with version 1 holding it; without one, or with an empty one, it has no version. */
  lemma CreationStoresFirstText(steps: seq<Step>, p: Id, first: Option<string>)
    requires Runs(START, steps) && Enabled(After(START, steps), CreatePrompt(p, first))
    ensures var h := History(Next(After(START, steps), CreatePrompt(p, first)), p);
      && (first == None || first == Some("") ==> h == [])
      && (first != None && first != Some("") ==>
          |h| == 1 && h[0].prompt == p && h[0].number == 1 && h[0].content == first.value && h[0].origin == Written)
  {
    StartIsOk();
    RunKeepsInv(START, steps);
    var s := After(START, steps);
    assert History(s, p) == [];
    HistoryStep(s, CreatePrompt(p, first), p);
    hide History, After, Runs, Inv;
  }

  /** The other steps store nothing. */
  lemma OnlyCommitsAndCreationsStore(s: State, step: Step, p: Id)
    requires Enabled(s, step) && !step.Commit? && !step.CreatePrompt?
    ensures History(Next(s, step), p) == if step == DeletePrompt(p) then [] else History(s, p)
  {
    HistoryStep(s, step, p);
  }

  // ----- where every version comes from -----

  /** Some step of the run asked for this version. */
  ghost predicate IsSupplied(v: Version, steps: seq<Step>) {
    || (exists k | 0 <= k < |steps| :: AsksFor(steps[k], v.prompt, v.content, v.origin))
    || (v.number == 1 && v.origin == Written && CreatePrompt(v.prompt, Some(v.content)) in steps)
  }

  lemma SuppliedLater(v: Version, steps: seq<Step>)
    requires steps != [] && IsSupplied(v, steps[..|steps| - 1])
    ensures IsSupplied(v, steps)
  {
    var front := steps[..|steps| - 1];
    if k :| 0 <= k < |front| && AsksFor(front[k], v.prompt, v.content, v.origin) {
      assert AsksFor(steps[k], v.prompt, v.content, v.origin);
    }
  }

  lemma {:induction false} WithoutKeeps(table: seq<Version>, p: Id, v: Version)
    ensures v in Without(table, p) <==> v in table && v.prompt != p
  {
    if table != [] { WithoutKeeps(table[..|table| - 1], p, v); }
  }

  /** Only a commit and a creation bring a version into the table. */
  lemma NewVersionsSource(s: State, step: Step, v: Version)
    requires Enabled(s, step) && v in Next(s, step).table && v !in s.table
    ensures (step.Commit? && v == s.work[step.t].version) || (step.CreatePrompt? && v in FirstVersion(step.p, step.first))
  {
    hide Latest, FirstVersion, Without, Taken, Locked, Blocked;
    if step.DeletePrompt? { WithoutKeeps(s.table, step.p, v); }
  }

  lemma NewVersionIsSupplied(steps: seq<Step>, s: State, v: Version)
    requires steps != [] && Enabled(s, steps[|steps| - 1])
    requires v in Next(s, steps[|steps| - 1]).table && v !in s.table
    requires forall t | t in s.work :: HoldsRequest(s.work[t], steps[..|steps| - 1], t)
    ensures IsSupplied(v, steps)
  {
    var n := |steps| - 1;
    NewVersionsSource(s, steps[n], v);
    if steps[n].Commit? {
      var k := LastBegin(steps[..n], steps[n].t);
      assert AsksFor(steps[k], v.prompt, v.content, v.origin);
    }
    hide Next;
  }

  /**
   * Every committed version holds what some client asked for: the text of a begun version or of
   * its prompt's creation if it is marked as written, the text of the version rolled back to if
   * it is marked as a copy.
   */
  lemma {:induction false} EveryVersionWasAskedFor(steps: seq<Step>, v: Version)
    requires Runs(START, steps) && v in After(START, steps).table
    ensures IsSupplied(v, steps)
    decreases |steps|
  {
    if steps != [] {
      var n := |steps| - 1;
      LastStep(START, steps);
      if v in After(START, steps[..n]).table {
        EveryVersionWasAskedFor(steps[..n], v);
        SuppliedLater(v, steps);
      } else {
        hide *;
        var s := After(START, steps[..n]);
        forall t | t in s.work ensures HoldsRequest(s.work[t], steps[..n], t) { WorkHoldsRequest(steps[..n], t); }
        NewVersionIsSupplied(steps, s, v);
      }
    }
  }

  // ----- the committed operations, read off the steps -----

  /** The operations the run committed, in order, each with what its transaction last asked for. */
  function Committed(steps: seq<Step>): seq<Op> {
    if steps == [] then []
    else
      var n := |steps| - 1;
      Committed(steps[..n]) +
      match steps[n]
      case Commit(t) =>
        var k := LastBegin(steps[..n], t);
        if k < 0 then []
        else if steps[k].Begin? then [Append(steps[k].p, steps[k].content, Written)]
        else [Append(steps[k].p, steps[k].source.content, CopyOf(steps[k].source.number))]
      case CreatePrompt(p, first) => [Create(p, first)]
      case DeletePrompt(p) => [Delete(p)]
      case _ => []
  }

  lemma {:induction false} LogIsCommitted(steps: seq<Step>)
    requires Runs(START, steps)
    ensures After(START, steps).log == Committed(steps)
    decreases |steps|
  {
    if steps != [] {
      var n := |steps| - 1;
      LastStep(START, steps);
      LogIsCommitted(steps[..n]);
      if steps[n].Commit? { WorkHoldsRequest(steps[..n], steps[n].t); }
      hide After, Runs, Latest, Without, FirstVersion, Taken, Locked, Blocked;
    }
  }
}
