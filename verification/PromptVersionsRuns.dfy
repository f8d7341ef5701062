/** What the version history promises over whole runs. */
module PromptVersionsRuns {
  import opened Wrappers
  import opened PromptVersions
  import opened PromptVersionsSafety
  import opened PromptVersionsContents

  /**
   * However transactions interleave and abort, a prompt's committed versions are numbered 1..n in
   * commit order, the latest number is n, a number is taken exactly when it is one of 1..n, and
   * every rollback holds the content of the older version it names. A deleted prompt has none.
   */
  lemma NumbersAreConsecutive(steps: seq<Step>, p: Id)
    requires Runs(START, steps)
    ensures var s := After(START, steps);
      && Consecutive(History(s, p), p)
      && Latest(s.table, p) == |History(s, p)|
      && (forall k: nat :: Taken(s.table, p, k) <==> 1 <= k <= |History(s, p)|)
      && (p !in s.prompts ==> History(s, p) == [])
  {
    StartIsOk();
    RunKeepsInv(START, steps);
    var s := After(START, steps);
    assert TableOk(s);
    hide After, Runs, Taken, Latest, WorksOk, OneInserter;
    LatestCounts(s, p);
    forall k: nat ensures Taken(s.table, p, k) <==> 1 <= k <= |History(s, p)| {
      TakenNumbers(s, p, k);
    }
    TableConsecutive(s, p);
    hide History, Consecutive;
  }

  lemma TableConsecutive(s: State, p: Id)
    requires TableOk(s)
    ensures Consecutive(History(s, p), p)
  {
  }

  // ----- append only -----

  lemma StepOnlyAppends(s: State, step: Step, p: Id)
    requires Inv(s) && Enabled(s, step)
    ensures p in s.prompts && p in Next(s, step).prompts ==> History(s, p) <= History(Next(s, step), p)
    ensures p in s.ever && p !in s.prompts ==> p in Next(s, step).ever && p !in Next(s, step).prompts
    ensures s.ever <= Next(s, step).ever
  {
    HistoryStep(s, step, p);
    PromptsStep(s, step);
    hide Next, History, Inv;
  }

  /**
   * From any point of any run on: while a prompt lives, its history only gets longer, nothing in
   * it changing or disappearing; once deleted it stays deleted.
   */
  lemma {:induction false} HistoryIsAppendOnly(s: State, steps: seq<Step>, p: Id)
    requires Inv(s) && Runs(s, steps)
    ensures p in s.ever && p in After(s, steps).prompts ==> p in s.prompts && History(s, p) <= History(After(s, steps), p)
    ensures p in s.ever && p !in s.prompts ==> History(After(s, steps), p) == []
    decreases |steps|
  {
    RunKeepsInv(s, steps);
    TableGone(After(s, steps), p);
    if steps != [] {
      var next := Next(s, steps[0]);
      StepKeepsInv(s, steps[0]);
      StepOnlyAppends(s, steps[0], p);
      assert After(s, steps) == After(next, steps[1..]);
      hide Next, Inv, History, After, Enabled;
      HistoryIsAppendOnly(next, steps[1..], p);
    }
  }

  lemma TableGone(s: State, p: Id)
    requires Inv(s)
    ensures p !in s.prompts ==> History(s, p) == []
  {
  }

  // ----- who gets the number -----

  /**
   * A transaction that read the greatest number gets to insert exactly when its number is still
   * one past the committed ones; a stale read aborts, and only a transaction that would still be
   * next ever waits.
   */
  lemma StaleReadsAbort(steps: seq<Step>, t: int)
    requires Runs(START, steps)
    requires var s := After(START, steps); t in s.work && s.work[t].Numbered? && s.work[t].prompt in s.prompts
    ensures var s := After(START, steps);
      var w := s.work[t];
      var next := |History(s, w.prompt)| + 1;
      && 1 <= w.number <= next
      && (Blocked(s, t, w.prompt, w.number) ==> w.number == next)
      && (Enabled(s, Insert(t)) ==> (t in Next(s, Insert(t)).work <==> w.number == next))
  {
    StartIsOk();
    RunKeepsInv(START, steps);
    var s := After(START, steps);
    var w := s.work[t];
    hide After, Runs;
    assert WorkOk(s, w);
    TakenNumbers(s, w.prompt, w.number);
    if Blocked(s, t, w.prompt, w.number) {
      var u :| u in s.work && u != t && s.work[u].Inserted? && s.work[u].version.prompt == w.prompt && s.work[u].version.number == w.number;
      assert WorkOk(s, s.work[u]);
    }
    hide History, Taken;
  }

  // ----- serialisability -----

  lemma StepIsSerial(s: State, step: Step)
    requires Inv(s) && Enabled(s, step) && Replay(s.log) == Store(s.prompts, s.table)
    ensures var s' := Next(s, step); Replay(s'.log) == Store(s'.prompts, s'.table)
  {
    var s' := Next(s, step);
    if s'.log != s.log {
      assert s'.log[..|s.log|] == s.log && |s'.log| == |s.log| + 1;
    }
    match step
    case Commit(t) =>
      var w := s.work[t];
      assert WorkOk(s, w);
      LatestCounts(s, w.version.prompt);
      hide Inv, History;
      assert w.version == Version(w.version.prompt, Latest(s.table, w.version.prompt) + 1, w.version.content, w.version.origin);
    case _ =>
      hide Inv;
  }

  lemma {:induction false} RunIsSerial(s: State, steps: seq<Step>)
    requires Inv(s) && Runs(s, steps) && Replay(s.log) == Store(s.prompts, s.table)
    ensures var s' := After(s, steps); Replay(s'.log) == Store(s'.prompts, s'.table)
    decreases |steps|
  {
    if steps != [] {
      StepKeepsInv(s, steps[0]);
      StepIsSerial(s, steps[0]);
      hide Inv, Next, Enabled, Replay;
      RunIsSerial(Next(s, steps[0]), steps[1..]);
    }
  }

  /**
   * The committed prompts and versions are those of running the committed operations, as the
   * steps asked for them, one at a time, each numbering its version by the greatest number it finds.
   */
  lemma VersioningIsSerialisable(steps: seq<Step>)
    requires Runs(START, steps)
    ensures var s := After(START, steps); Replay(Committed(steps)) == Store(s.prompts, s.table)
  {
    StartIsOk();
    RunIsSerial(START, steps);
    LogIsCommitted(steps);
  }

  // ----- what can always be done -----

  /** A rollback can begin exactly on a version of the living prompt's history that is not its last one. */
  lemma RollbackBeginsOnOlder(steps: seq<Step>, t: int, p: Id, v: Version)
    requires Runs(START, steps) && t !in After(START, steps).work
    ensures var s := After(START, steps);
      Enabled(s, BeginRollback(t, p, v)) <==> v in History(s, p) && v.number < |History(s, p)|
  {
    StartIsOk();
    RunKeepsInv(START, steps);
    var s := After(START, steps);
    hide After, Runs;
    LatestCounts(s, p);
    InHistory(s.table, v);
    VersionsAreOfPrompt(s, p, v);
    VersionsAreNumbered(s, v);
    hide Inv, Latest;
  }

  lemma VersionsAreOfPrompt(s: State, p: Id, v: Version)
    requires Inv(s)
    ensures v in History(s, p) ==> v.prompt == p && p in s.prompts
  {
    assert Consecutive(History(s, p), p);
  }

  lemma VersionsAreNumbered(s: State, v: Version)
    requires Inv(s)
    ensures v in History(s, v.prompt) ==> 1 <= v.number <= |History(s, v.prompt)|
  {
    assert Consecutive(History(s, v.prompt), v.prompt);
  }

  /** The steps of a transaction that nothing interferes with. */
  function Alone(begin: Step, t: int): seq<Step> {
    [begin, ReadMax(t), Insert(t), Commit(t)]
  }

  /**
   * Whatever has happened before, while no transaction has inserted into a living prompt, a new
   * transaction that writes to it or rolls it back to an older version goes through when left
   * alone, and appends its version.
   */
  lemma RequestsGoThroughAlone(steps: seq<Step>, begin: Step, t: int)
    requires Runs(START, steps) && Begins(begin, t)
    requires begin.p in After(START, steps).prompts && t !in After(START, steps).work
    requires begin.BeginRollback? ==>
      begin.source in History(After(START, steps), begin.p) && begin.source.number < |History(After(START, steps), begin.p)|
    requires !Locked(After(START, steps), begin.p)
    ensures var s := After(START, steps);
      && Runs(s, Alone(begin, t))
      && History(After(s, Alone(begin, t)), begin.p)
         == History(s, begin.p)
            + [if begin.Begin? then Version(begin.p, |History(s, begin.p)| + 1, begin.content, Written)
               else Version(begin.p, |History(s, begin.p)| + 1, begin.source.content, CopyOf(begin.source.number))]
      && t !in After(s, Alone(begin, t)).work
  {
    StartIsOk();
    RunKeepsInv(START, steps);
    var s := After(START, steps);
    if begin.BeginRollback? { RollbackBeginsOnOlder(steps, t, begin.p, begin.source); }
    assert Enabled(s, begin);
    LatestCounts(s, begin.p);
    TakenNumbers(s, begin.p, |History(s, begin.p)| + 1);
    hide After, Runs, Inv, History, Latest, Taken;
    AloneFromStart(s, begin, t, |History(s, begin.p)|);
    HistoryGrows(s, After(s, Alone(begin, t)), begin.p);
  }

  lemma HistoryGrows(s: State, s': State, p: Id)
    requires |s'.table| == |s.table| + 1 && s'.table[..|s.table|] == s.table && s'.table[|s.table|].prompt == p
    ensures History(s', p) == History(s, p) + [s'.table[|s.table|]]
  {
  }

  lemma AloneFromStart(s: State, begin: Step, t: int, n: nat)
    requires Begins(begin, t) && Enabled(s, begin) && !Locked(s, begin.p)
    requires Latest(s.table, begin.p) == n && !Taken(s.table, begin.p, n + 1)
    ensures Runs(s, Alone(begin, t))
    ensures var s' := After(s, Alone(begin, t));
      && t !in s'.work
      && s'.table
         == s.table
            + [if begin.Begin? then Version(begin.p, n + 1, begin.content, Written)
               else Version(begin.p, n + 1, begin.source.content, CopyOf(begin.source.number))]
  {
    hide Latest, Taken;
    var one := Next(s, begin);
    var two := Next(one, ReadMax(t));
    assert !Blocked(two, t, begin.p, n + 1);
    var three := Next(two, Insert(t));
    var four := Next(three, Commit(t));
    FourSteps(s, begin, ReadMax(t), Insert(t), Commit(t), one, two, three, four);
  }

  lemma FourSteps(s: State, a: Step, b: Step, c: Step, d: Step, one: State, two: State, three: State, four: State)
    requires Enabled(s, a) && one == Next(s, a) && Enabled(one, b) && two == Next(one, b)
    requires Enabled(two, c) && three == Next(two, c) && Enabled(three, d) && four == Next(three, d)
    ensures Runs(s, [a, b, c, d]) && After(s, [a, b, c, d]) == four
  {
    hide Next, Enabled;
    assert [a, b, c, d][1..] == [b, c, d] && [b, c, d][1..] == [c, d] && [c, d][1..] == [d] && [d][1..] == [];
    assert Runs(four, []) && After(four, []) == four;
    assert Runs(three, [d]) && After(three, [d]) == four;
    assert Runs(two, [c, d]) && After(two, [c, d]) == four;
    assert Runs(one, [b, c, d]) && After(one, [b, c, d]) == four;
  }

  /**
   * An open transaction can always be given up, which stores nothing and leaves the others as they
   * were; a prompt can be deleted exactly when it lives and nobody has inserted into it, and a new
   * one can be made.
   */
  lemma EndingsAreOpen(s: State, t: int, p: Id, first: Option<string>)
    ensures Enabled(s, Abort(t)) <==> t in s.work
    ensures t in s.work ==>
      var s' := Next(s, Abort(t));
      && s'.table == s.table && s'.prompts == s.prompts && t !in s'.work
      && forall u | u != t :: (u in s'.work <==> u in s.work) && (u in s.work ==> s'.work[u] == s.work[u])
    ensures Enabled(s, DeletePrompt(p))
       <==> p in s.prompts && forall u | u in s.work && s.work[u].Inserted? :: s.work[u].version.prompt != p
    ensures p !in s.ever ==> Enabled(s, CreatePrompt(p, first))
    ensures Enabled(s, DeletePrompt(p)) ==>
      p !in Next(s, DeletePrompt(p)).prompts && History(Next(s, DeletePrompt(p)), p) == []
  {
    if Enabled(s, DeletePrompt(p)) { HistoryStep(s, DeletePrompt(p), p); }
    hide History;
  }
}
