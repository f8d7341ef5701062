/**
 * Append-only prompt versions under concurrent transactions: each reads the greatest number,
 * inserts the next one and commits, under a unique (prompt, number) index.
 */
module PromptVersions {
  import opened Wrappers

  type Id = int

  /** Whether a version's content was written by the client or copied by a rollback. */
  datatype Origin = Written | CopyOf(number: nat)

  datatype Version = Version(prompt: Id, number: nat, content: string, origin: Origin)

  /** How far a transaction has come. */
  datatype Work =
    | Chosen(prompt: Id, content: string, origin: Origin)
    | Numbered(prompt: Id, content: string, origin: Origin, number: nat)
    | Inserted(version: Version)

  /** What has been committed, in order. */
  datatype Op =
    | Create(prompt: Id, first: Option<string>)
    | Append(prompt: Id, content: string, origin: Origin)
    | Delete(prompt: Id)

  /** `prompts` and `table` hold what is committed; `ever` and `log` record the past. */
  datatype State = State(
    ever: set<Id>, prompts: set<Id>, table: seq<Version>, work: map<int, Work>, log: seq<Op>)

  datatype Step =
    | Begin(t: int, p: Id, content: string)
    | BeginRollback(t: int, p: Id, source: Version)
    | ReadMax(t: int)
    | Insert(t: int)
    | Commit(t: int)
    | Abort(t: int)
    | CreatePrompt(p: Id, first: Option<string>)
    | DeletePrompt(p: Id)

  const START := State({}, {}, [], map[], [])

  // ----- the queries -----

  /** latest_version_number. */
  function Latest(table: seq<Version>, p: Id): nat {
    if table == [] then 0
    else
      var v := table[|table| - 1];
      var rest := Latest(table[..|table| - 1], p);
      if v.prompt == p && v.number > rest then v.number else rest
  }

  function VersionsOf(table: seq<Version>, p: Id): seq<Version> {
    if table == [] then []
    else
      var v := table[|table| - 1];
      var rest := VersionsOf(table[..|table| - 1], p);
      if v.prompt == p then rest + [v] else rest
  }

  /** Deleting a prompt cascades to its versions. */
  function Without(table: seq<Version>, p: Id): seq<Version> {
    if table == [] then []
    else
      var v := table[|table| - 1];
      var rest := Without(table[..|table| - 1], p);
      if v.prompt == p then rest else rest + [v]
  }

  predicate Taken(table: seq<Version>, p: Id, number: nat) {
    exists v | v in table :: v.prompt == p && v.number == number
  }

  /** An empty first text counts as none. */
  function FirstVersion(p: Id, first: Option<string>): seq<Version> {
    if first.None? || first.value == "" then [] else [Version(p, 1, first.value, Written)]
  }

  // ----- the steps -----

  /** Another open transaction has inserted the same key: the index makes this one wait. */
  predicate Blocked(s: State, t: int, p: Id, number: nat) {
    exists u | u in s.work :: u != t && s.work[u].Inserted? && s.work[u].version.prompt == p && s.work[u].version.number == number
  }

  /** An inserted row holds a key lock on its prompt. */
  predicate Locked(s: State, p: Id) {
    exists u | u in s.work :: s.work[u].Inserted? && s.work[u].version.prompt == p
  }

  predicate Enabled(s: State, step: Step) {
    match step
    case Begin(t, p, _) => t !in s.work && p in s.prompts
    case BeginRollback(t, p, v) =>
      t !in s.work && p in s.prompts && v in s.table && v.prompt == p && v.number != Latest(s.table, p)
    case ReadMax(t) => t in s.work && s.work[t].Chosen?
    case Insert(t) => t in s.work && s.work[t].Numbered? && !Blocked(s, t, s.work[t].prompt, s.work[t].number)
    case Commit(t) => t in s.work && s.work[t].Inserted?
    case Abort(t) => t in s.work
    case CreatePrompt(p, _) => p !in s.ever
    case DeletePrompt(p) => p in s.prompts && !Locked(s, p)
  }

  function Next(s: State, step: Step): State
    requires Enabled(s, step)
  {
    match step
    case Begin(t, p, content) => s.(work := s.work[t := Chosen(p, content, Written)])
    case BeginRollback(t, p, v) => s.(work := s.work[t := Chosen(p, v.content, CopyOf(v.number))])
    case ReadMax(t) =>
      var w := s.work[t];
      s.(work := s.work[t := Numbered(w.prompt, w.content, w.origin, Latest(s.table, w.prompt) + 1)])
    case Insert(t) =>
      var w := s.work[t];
      // A gone prompt fails the foreign key and a committed number the unique index: both abort.
      if w.prompt !in s.prompts || Taken(s.table, w.prompt, w.number) then s.(work := s.work - {t})
      else s.(work := s.work[t := Inserted(Version(w.prompt, w.number, w.content, w.origin))])
    case Commit(t) =>
      var v := s.work[t].version;
      s.(table := s.table + [v], work := s.work - {t}, log := s.log + [Append(v.prompt, v.content, v.origin)])
    case Abort(t) => s.(work := s.work - {t})
    case CreatePrompt(p, first) =>
      s.(ever := s.ever + {p}, prompts := s.prompts + {p}, table := s.table + FirstVersion(p, first),
         log := s.log + [Create(p, first)])
    case DeletePrompt(p) =>
      s.(prompts := s.prompts - {p}, table := Without(s.table, p), log := s.log + [Delete(p)])
  }

  /** A run from `s`: every step is enabled when it is taken. */
  predicate Runs(s: State, steps: seq<Step>)
    decreases |steps|
  {
    steps == [] || (Enabled(s, steps[0]) && Runs(Next(s, steps[0]), steps[1..]))
  }

  function After(s: State, steps: seq<Step>): State
    requires Runs(s, steps)
    decreases |steps|
  {
    if steps == [] then s else After(Next(s, steps[0]), steps[1..])
  }

  // ----- one transaction at a time -----

  datatype Store = Store(prompts: set<Id>, table: seq<Version>)

  /** Each operation alone, numbering by the greatest number of that moment. */
  function Apply(store: Store, op: Op): Store {
    match op
    case Create(p, first) => Store(store.prompts + {p}, store.table + FirstVersion(p, first))
    case Append(p, content, origin) =>
      store.(table := store.table + [Version(p, Latest(store.table, p) + 1, content, origin)])
    case Delete(p) => Store(store.prompts - {p}, Without(store.table, p))
  }

  function Replay(log: seq<Op>): Store {
    if log == [] then Store({}, []) else Apply(Replay(log[..|log| - 1]), log[|log| - 1])
  }
}
