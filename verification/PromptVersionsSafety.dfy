/** The invariant of the version table, and what every run keeps. */
module PromptVersionsSafety {
  import opened Wrappers
  import opened PromptVersions

  function History(s: State, p: Id): seq<Version> {
    VersionsOf(s.table, p)
  }

  // ----- the invariant -----

  /** Versions numbered 1, 2, ... in commit order, each rollback a copy of an earlier one. */
  ghost predicate Consecutive(h: seq<Version>, p: Id) {
    forall i | 0 <= i < |h| :: h[i].prompt == p && h[i].number == i + 1 && CopiesOlder(h, h[i].content, h[i].origin, i + 1)
  }

  /** A copy is of a version before `number`, with the same content. */
  ghost predicate CopiesOlder(h: seq<Version>, content: string, origin: Origin, number: nat) {
    origin.CopyOf? ==> 1 <= origin.number < number && origin.number <= |h| && h[origin.number - 1].content == content
  }

  /** Given that its prompt lives, what an open transaction knows of the committed history. */
  ghost predicate WorkFits(h: seq<Version>, w: Work) {
    match w
    case Chosen(_, content, origin) => CopiesOlder(h, content, origin, |h| + 1)
    case Numbered(_, content, origin, number) => 1 <= number <= |h| + 1 && CopiesOlder(h, content, origin, number)
    case Inserted(v) => v.number == |h| + 1 && CopiesOlder(h, v.content, v.origin, v.number)
  }

  function PromptOf(w: Work): Id {
    match w
    case Chosen(p, _, _) => p
    case Numbered(p, _, _, _) => p
    case Inserted(v) => v.prompt
  }

  ghost predicate WorkOk(s: State, w: Work) {
    && PromptOf(w) in s.ever
    && (w.Inserted? ==> PromptOf(w) in s.prompts)
    && (PromptOf(w) in s.prompts ==> WorkFits(History(s, PromptOf(w)), w))
  }

  ghost predicate TableOk(s: State) {
    && s.prompts <= s.ever
    && (forall p :: Consecutive(History(s, p), p))
    && (forall p | p !in s.prompts :: History(s, p) == [])
  }

  ghost predicate WorksOk(s: State) {
    forall t | t in s.work :: WorkOk(s, s.work[t])
  }

  /** At most one open transaction has inserted into a prompt. */
  ghost predicate OneInserter(s: State) {
    forall t, u | t in s.work && u in s.work && s.work[t].Inserted? && s.work[u].Inserted? && t != u ::
      s.work[t].version.prompt != s.work[u].version.prompt
  }

  ghost predicate Inv(s: State) {
    TableOk(s) && WorksOk(s) && OneInserter(s)
  }

  // ----- the queries on a consecutive history -----

  lemma {:induction false} LatestOfHistory(table: seq<Version>, p: Id)
    ensures Latest(VersionsOf(table, p), p) == Latest(table, p)
  {
    if table != [] {
      LatestOfHistory(table[..|table| - 1], p);
      var rest := VersionsOf(table[..|table| - 1], p);
      if table[|table| - 1].prompt == p {
        assert (rest + [table[|table| - 1]])[..|rest|] == rest;
      }
    }
  }

  lemma {:induction false} LatestOfConsecutive(h: seq<Version>, p: Id)
    requires forall i | 0 <= i < |h| :: h[i].prompt == p && h[i].number == i + 1
    ensures Latest(h, p) == |h|
  {
    if h != [] { LatestOfConsecutive(h[..|h| - 1], p); }
  }

  /** latest_version_number counts the prompt's versions. */
  lemma LatestCounts(s: State, p: Id)
    requires TableOk(s)
    ensures Latest(s.table, p) == |History(s, p)|
  {
    assert Consecutive(History(s, p), p);
    LatestOfHistory(s.table, p);
    LatestOfConsecutive(History(s, p), p);
  }

  lemma {:induction false} InHistory(table: seq<Version>, v: Version)
    ensures v in table <==> v in VersionsOf(table, v.prompt)
  {
    if table != [] { InHistory(table[..|table| - 1], v); }
  }

  /** A number is taken exactly when it is one of 1..n. */
  lemma TakenNumbers(s: State, p: Id, number: nat)
    requires TableOk(s)
    ensures Taken(s.table, p, number) <==> 1 <= number <= |History(s, p)|
  {
    var h := History(s, p);
    assert Consecutive(h, p);
    hide History;
    if Taken(s.table, p, number) {
      var v :| v in s.table && v.prompt == p && v.number == number;
      InHistory(s.table, v);
      HistoryUnfolds(s, p);
      var i :| 0 <= i < |h| && h[i] == v;
    }
    if 1 <= number <= |h| {
      InHistory(s.table, h[number - 1]);
      HistoryUnfolds(s, p);
      assert h[number - 1] in s.table;
    }
  }

  lemma HistoryUnfolds(s: State, p: Id)
    ensures History(s, p) == VersionsOf(s.table, p)
  {
  }

  lemma VersionsOfAppend(table: seq<Version>, v: Version, p: Id)
    ensures VersionsOf(table + [v], p) == if v.prompt == p then VersionsOf(table, p) + [v] else VersionsOf(table, p)
  {
    assert (table + [v])[..|table|] == table;
  }

  lemma {:induction false} VersionsOfWithout(table: seq<Version>, gone: Id, p: Id)
    ensures VersionsOf(Without(table, gone), p) == if p == gone then [] else VersionsOf(table, p)
  {
    if table != [] {
      var front, v := table[..|table| - 1], table[|table| - 1];
      VersionsOfWithout(front, gone, p);
      VersionsOfAppend(Without(front, gone), v, p);
    }
  }

  // ----- what one step does to a history -----

  function Added(s: State, step: Step, p: Id): seq<Version>
    requires Enabled(s, step)
  {
    match step
    case Commit(t) => if s.work[t].version.prompt == p then [s.work[t].version] else []
    case CreatePrompt(q, first) => if q == p then FirstVersion(p, first) else []
    case _ => []
  }

  lemma HistoryStep(s: State, step: Step, p: Id)
    requires Enabled(s, step)
    ensures History(Next(s, step), p) == if step == DeletePrompt(p) then [] else History(s, p) + Added(s, step, p)
  {
    match step
    case Commit(t) => VersionsOfAppend(s.table, s.work[t].version, p);
    case CreatePrompt(q, first) =>
      if FirstVersion(q, first) != [] { VersionsOfAppend(s.table, FirstVersion(q, first)[0], p); }
      else { assert s.table + FirstVersion(q, first) == s.table; }
    case DeletePrompt(q) => VersionsOfWithout(s.table, q, p);
    case _ =>
  }

  // ----- preservation -----

  lemma ConsecutiveGrows(h: seq<Version>, v: Version)
    requires Consecutive(h, v.prompt) && v.number == |h| + 1 && CopiesOlder(h, v.content, v.origin, v.number)
    ensures Consecutive(h + [v], v.prompt)
  {
  }

  lemma StepKeepsTable(s: State, step: Step)
    requires Inv(s) && Enabled(s, step)
    ensures TableOk(Next(s, step))
  {
    var s' := Next(s, step);
    hide Next, History, CopiesOlder;
    forall p
      ensures Consecutive(History(s', p), p)
      ensures p !in s'.prompts ==> History(s', p) == []
    {
      HistoryStep(s, step, p);
      PromptsStep(s, step);
      assert Consecutive(History(s, p), p);
      if step.Commit? && s.work[step.t].version.prompt == p {
        assert WorkOk(s, s.work[step.t]);
        ConsecutiveGrows(History(s, p), s.work[step.t].version);
      } else if step.CreatePrompt? && step.p == p {
        assert History(s, p) == [];
        FirstIsConsecutive(p, step.first);
      }
    }
    PromptsStep(s, step);
  }

  lemma FirstIsConsecutive(p: Id, first: Option<string>)
    ensures Consecutive([] + FirstVersion(p, first), p)
  {
  }

  lemma PromptsStep(s: State, step: Step)
    requires Enabled(s, step)
    ensures Next(s, step).prompts
         == if step.CreatePrompt? then s.prompts + {step.p} else if step.DeletePrompt? then s.prompts - {step.p} else s.prompts
    ensures Next(s, step).ever == if step.CreatePrompt? then s.ever + {step.p} else s.ever
  {
  }

  /** A transaction's knowledge survives a longer history, unless its own number is taken. */
  lemma WorkFitsLater(h: seq<Version>, added: seq<Version>, w: Work)
    requires WorkFits(h, w) && (w.Inserted? ==> added == [])
    ensures WorkFits(h + added, w)
  {
  }

  /** The transactions a step leaves alone stay in order. */
  lemma OthersStayOk(s: State, step: Step, t: int)
    requires Inv(s) && Enabled(s, step) && t in s.work
    requires step.Commit? ==> step.t != t
    ensures WorkOk(Next(s, step), s.work[t])
  {
    var w := s.work[t];
    var p := PromptOf(w);
    assert WorkOk(s, w);
    HistoryStep(s, step, p);
    PromptsStep(s, step);
    if step.CreatePrompt? { assert step.p != p; }
    assert w.Inserted? ==> Locked(s, p);
    hide Next, History, Consecutive;
    if p in s.prompts && step != DeletePrompt(p) {
      WorkFitsLater(History(s, p), Added(s, step, p), w);
    }
  }

  /** The transaction that moves is in order where it arrives. */
  lemma MoverIsOk(s: State, step: Step, t: int)
    requires Inv(s) && Enabled(s, step)
    requires step.ReadMax? || step.Insert? || step.Begin? || step.BeginRollback?
    requires step.t == t
    ensures t in Next(s, step).work ==> WorkOk(Next(s, step), Next(s, step).work[t])
  {
    match step
    case Begin(_, p, _) => HistoryStep(s, step, p);
    case BeginRollback(_, p, v) =>
      HistoryStep(s, step, p);
      InHistory(s.table, v);
      LatestCounts(s, p);
      assert Consecutive(History(s, p), p);
    case ReadMax(_) =>
      var w := s.work[t];
      assert WorkOk(s, w);
      HistoryStep(s, step, w.prompt);
      LatestCounts(s, w.prompt);
    case Insert(_) =>
      var w := s.work[t];
      assert WorkOk(s, w);
      HistoryStep(s, step, w.prompt);
      TakenNumbers(s, w.prompt, w.number);
  }

  lemma StepKeepsWorks(s: State, step: Step)
    requires Inv(s) && Enabled(s, step)
    ensures WorksOk(Next(s, step))
  {
    var s' := Next(s, step);
    forall t | t in s'.work ensures WorkOk(s', s'.work[t]) {
      if t in s.work && s'.work[t] == s.work[t] {
        OthersStayOk(s, step, t);
      } else {
        MoverIsOk(s, step, t);
      }
    }
  }

  lemma StepKeepsOneInserter(s: State, step: Step)
    requires Inv(s) && Enabled(s, step)
    ensures OneInserter(Next(s, step))
  {
    var s' := Next(s, step);
    if step.Insert? && step.t in s'.work {
      var w := s.work[step.t];
      TakenNumbers(s, w.prompt, w.number);
      assert WorkOk(s, w);
      hide History, Taken;
      forall u | u in s.work && s.work[u].Inserted? && u != step.t ensures s.work[u].version.prompt != w.prompt {
        assert WorkOk(s, s.work[u]);
      }
    }
  }

  lemma StepKeepsInv(s: State, step: Step)
    requires Inv(s) && Enabled(s, step)
    ensures Inv(Next(s, step))
  {
    StepKeepsTable(s, step);
    StepKeepsWorks(s, step);
    StepKeepsOneInserter(s, step);
    hide *;
  }

  lemma StartIsOk()
    ensures Inv(START)
  {
  }

  lemma {:induction false} RunKeepsInv(s: State, steps: seq<Step>)
    requires Inv(s) && Runs(s, steps)
    ensures Inv(After(s, steps))
    decreases |steps|
  {
    if steps != [] {
      StepKeepsInv(s, steps[0]);
      RunKeepsInv(Next(s, steps[0]), steps[1..]);
      hide Inv, Next, Enabled;
    }
  }
}
