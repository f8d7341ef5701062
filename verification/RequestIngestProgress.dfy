/** What one consumer gets done when the others pause: a message it holds is dealt with to the end. */
module RequestIngestProgress {
  import opened Wrappers
  import opened RequestIngest
  import opened RequestIngestSafety
  import opened RequestIngestRows
  import opened RequestIngestRuns

  /** Consumer `i` holds a delivered message and has not begun with it. */
  ghost predicate Holding(s: State, i: nat) {
    && |s.catalogues| > 0 && s.delivered <= |s.stream|
    && i < |s.consumers| && s.consumers[i].pc.Idle? && s.consumers[i].next < s.consumers[i].limit
    && s.consumers[i].next < |s.stream|
  }

  /** ... and its row, by the present catalogue, is `r`. */
  ghost predicate HoldingRow(s: State, i: nat, r: Row) {
    && Holding(s, i)
    && IsRowOf(r, s.consumers[i].next, s.stream[s.consumers[i].next], Seen(Now(s), Now(s), Now(s)), s.catalogues)
  }

  lemma ReachedStateHolds(n: nat, c: Catalogue, steps: seq<Step>, i: nat)
    requires ValidRun(Init(n, c), steps)
    requires var s := Final(Init(n, c), steps);
      i < |s.consumers| && s.consumers[i].pc.Idle? && s.consumers[i].next < s.consumers[i].limit
    ensures Holding(Final(Init(n, c), steps), i)
  {
    InitHolds(n, c);
    RunKeepsInv(Init(n, c), steps);
    var s := Final(Init(n, c), steps);
    assert Placed(s.consumers[i], s.delivered);
  }

  // ----- the way of a new row -----

  lemma BeginAndCheck(s: State, i: nat)
    requires Holding(s, i) && forall q | q in s.committed :: q.eventId != StreamEventId(s.stream[s.consumers[i].next])
    ensures Leads(s, Begin(i), Goto(s, i, Checking))
    ensures Leads(Goto(s, i, Checking), Check(i), Goto(s, i, Resolving))
  {
    HasEventIffRow(s.committed, StreamEventId(s.stream[s.consumers[i].next]));
    hide HasEvent, StreamEventId;
    assert Goto(Goto(s, i, Checking), i, Resolving) == Goto(s, i, Resolving);
  }

  lemma LookUps(s: State, i: nat, r: Row)
    requires HoldingRow(s, i, r)
    ensures Leads(Goto(s, i, Resolving), Resolve(i), Goto(s, i, LookingUpKey(r.projectId, Now(s))))
    ensures Leads(Goto(s, i, LookingUpKey(r.projectId, Now(s))), LookUpKey(i), Goto(s, i, Inserting(r, Now(s), Now(s))))
  {
    var pos := s.consumers[i].next;
    var m, c := s.stream[pos], s.catalogues[Now(s)];
    ProjectIsBilled(m, c, r.projectId);
    KeyIsUsed(m, c, r.apiKeyId);
    BuiltRowCopies(r, pos, m, r.projectId, r.apiKeyId);
    var looking, inserting := LookingUpKey(r.projectId, Now(s)), Inserting(r, Now(s), Now(s));
    assert Goto(Goto(s, i, Resolving), i, looking) == Goto(s, i, looking);
    assert Goto(Goto(s, i, looking), i, inserting) == Goto(s, i, inserting);
    hide ResolveProject, ResolveApiKeyId, BuildRow, IsBilledTo, IsMadeWith, Copies, RefersToRows;
  }

  lemma InsertGoesThrough(s: State, i: nat, r: Row)
    requires HoldingRow(s, i, r)
    requires forall q | q in s.committed :: q.eventId != r.eventId
    requires forall j | 0 <= j < |s.consumers| && s.consumers[j].pc.CommittingRow? :: s.consumers[j].pc.row.eventId != r.eventId
    ensures Leads(Goto(s, i, Inserting(r, Now(s), Now(s))), Insert(i), Goto(s, i, CommittingRow(r, Seen(Now(s), Now(s), Now(s)))))
  {
    HasEventIffRow(s.committed, r.eventId);
    ForeignKeysAreRows(r, s.catalogues[Now(s)]);
    var inserting, committing := Inserting(r, Now(s), Now(s)), CommittingRow(r, Seen(Now(s), Now(s), Now(s)));
    assert Goto(Goto(s, i, inserting), i, committing) == Goto(s, i, committing);
    hide HasEvent, ForeignKeysHold, RefersToRows, IsBilledTo, IsMadeWith, Copies;
  }

  /** The state after the commit, the ack and the publish of consumer `i`'s row. */
  function Told(s: State, i: nat, r: Row): State
    requires |s.catalogues| > 0 && i < |s.consumers|
  {
    s.(committed := s.committed + [r], stored := s.stored + [r], published := s.published + [r],
       acked := s.acked + {s.consumers[i].next},
       serial := s.serial + [SerialOp.Ingested(s.consumers[i].next, Seen(Now(s), Now(s), Now(s)))],
       consumers := s.consumers[i := Consumer(Idle, s.consumers[i].next + 1, s.consumers[i].limit)])
  }

  lemma CommitAndTell(s: State, i: nat, r: Row) returns (committed: State, acked: State)
    requires Holding(s, i)
    ensures Leads(Goto(s, i, CommittingRow(r, Seen(Now(s), Now(s), Now(s)))), Commit(i), committed)
    ensures Leads(committed, Ack(i), acked)
    ensures Leads(acked, Publish(i), Told(s, i, r))
  {
    var c := s.consumers[i];
    committed := Goto(s, i, Acking(Some(r)))
      .(committed := s.committed + [r], stored := s.stored + [r],
        serial := s.serial + [SerialOp.Ingested(c.next, Seen(Now(s), Now(s), Now(s)))]);
    acked := committed.(acked := s.acked + {c.next}, consumers := s.consumers[i := c.(pc := Publishing(r))]);
    assert Next(Goto(s, i, CommittingRow(r, Seen(Now(s), Now(s), Now(s)))), Commit(i)) == committed;
    assert Next(committed, Ack(i)) == acked;
    assert Next(acked, Publish(i)) == Told(s, i, r);
  }

  function IngestAlone(i: nat): seq<Step> {
    [Begin(i), Check(i), Resolve(i), LookUpKey(i), Insert(i), Commit(i), Ack(i), Publish(i)]
  }

  /**
   * A message whose row is new and refers to what exists is stored, acknowledged and announced by
   * its consumer alone, in eight steps, and the consumer is ready for its next message.
   */
  lemma MessageIsIngestedAlone(s: State, i: nat, r: Row)
    requires HoldingRow(s, i, r)
    requires forall q | q in s.committed :: q.eventId != r.eventId
    requires forall j | 0 <= j < |s.consumers| && s.consumers[j].pc.CommittingRow? :: s.consumers[j].pc.row.eventId != r.eventId
    ensures ValidRun(s, IngestAlone(i))
    ensures var s' := Final(s, IngestAlone(i));
      && s'.committed == s.committed + [r] && s'.published == s.published + [r]
      && s'.acked == s.acked + {s.consumers[i].next}
      && s'.consumers == s.consumers[i := Consumer(Idle, s.consumers[i].next + 1, s.consumers[i].limit)]
  {
    var told := IngestReaches(s, i, r);
    hide *;
    Arrived(s, IngestAlone(i), told);
  }

  /** ... as far as the insert. */
  lemma InsertReached(s: State, i: nat, r: Row) returns (steps: seq<Step>)
    requires HoldingRow(s, i, r) && i < |s.consumers| && |s.catalogues| > 0
    requires forall q | q in s.committed :: q.eventId != r.eventId
    ensures steps == [Begin(i), Check(i), Resolve(i), LookUpKey(i)]
    ensures Reaches(s, steps, Goto(s, i, Inserting(r, Now(s), Now(s))))
  {
    RowHasEventId(s, i, r);
    hide *;
    HoldingRowHolds(s, i, r);
    BeginAndCheck(s, i);
    LookUps(s, i, r);
    var checking, resolving := Goto(s, i, Checking), Goto(s, i, Resolving);
    var looking, inserting := Goto(s, i, LookingUpKey(r.projectId, Now(s))), Goto(s, i, Inserting(r, Now(s), Now(s)));
    steps := Start(s);
    ReachOneMore(s, steps, s, Begin(i), checking);
    ReachOneMore(s, steps + [Begin(i)], checking, Check(i), resolving);
    steps := steps + [Begin(i)] + [Check(i)];
    ReachOneMore(s, steps, resolving, Resolve(i), looking);
    ReachOneMore(s, steps + [Resolve(i)], looking, LookUpKey(i), inserting);
    steps := steps + [Resolve(i)] + [LookUpKey(i)];
  }

  lemma IngestReaches(s: State, i: nat, r: Row) returns (told: State)
    requires HoldingRow(s, i, r)
    requires forall q | q in s.committed :: q.eventId != r.eventId
    requires forall j | 0 <= j < |s.consumers| && s.consumers[j].pc.CommittingRow? :: s.consumers[j].pc.row.eventId != r.eventId
    ensures Reaches(s, IngestAlone(i), told) && told == Told(s, i, r)
  {
    HoldingRowHolds(s, i, r);
    hide *;
    var steps := InsertReached(s, i, r);
    InsertGoesThrough(s, i, r);
    var committed, acked := CommitAndTell(s, i, r);
    told := Told(s, i, r);
    var inserting, committing := Goto(s, i, Inserting(r, Now(s), Now(s))), Goto(s, i, CommittingRow(r, Seen(Now(s), Now(s), Now(s))));
    ReachOneMore(s, steps, inserting, Insert(i), committing);
    ReachOneMore(s, steps + [Insert(i)], committing, Commit(i), committed);
    steps := steps + [Insert(i)] + [Commit(i)];
    ReachOneMore(s, steps, committed, Ack(i), acked);
    ReachOneMore(s, steps + [Ack(i)], acked, Publish(i), told);
    steps := steps + [Ack(i)] + [Publish(i)];
    IngestAloneIs(i);
    assert steps == IngestAlone(i);
  }

  lemma IngestAloneIs(i: nat)
    ensures IngestAlone(i) == [Begin(i), Check(i), Resolve(i), LookUpKey(i), Insert(i), Commit(i), Ack(i), Publish(i)]
  {
  }

  lemma HoldingRowHolds(s: State, i: nat, r: Row)
    requires HoldingRow(s, i, r)
    ensures Holding(s, i) && i < |s.consumers| && |s.catalogues| > 0 && s.consumers[i].next < |s.stream|
  {
  }

  lemma RowHasEventId(s: State, i: nat, r: Row)
    requires HoldingRow(s, i, r)
    ensures r.eventId == StreamEventId(s.stream[s.consumers[i].next])
  {
  }

  lemma Start(s: State) returns (steps: seq<Step>)
    ensures steps == [] && Reaches(s, steps, s)
  {
    steps := [];
  }

  lemma Arrived(s: State, steps: seq<Step>, t: State)
    requires Reaches(s, steps, t)
    ensures ValidRun(s, steps) && Final(s, steps) == t
  {
  }

  // ----- the way of a message without a row -----

  /** The state once consumer `i` has acknowledged its message without storing anything. */
  function Skipped(s: State, i: nat): State
    requires |s.catalogues| > 0 && i < |s.consumers|
  {
    s.(acked := s.acked + {s.consumers[i].next},
       serial := s.serial + [SerialOp.Ingested(s.consumers[i].next, Seen(Now(s), Now(s), Now(s)))],
       consumers := s.consumers[i := Consumer(Idle, s.consumers[i].next + 1, s.consumers[i].limit)])
  }

  lemma SkipSteps(s: State, i: nat) returns (decided: State, committed: State)
    requires Holding(s, i)
    ensures decided == Serialise(Goto(s, i, CommittingNothing), SerialOp.Ingested(s.consumers[i].next, Seen(Now(s), Now(s), Now(s))))
    ensures Leads(decided, Commit(i), committed)
    ensures Leads(committed, Ack(i), Skipped(s, i))
  {
    decided := Serialise(Goto(s, i, CommittingNothing), SerialOp.Ingested(s.consumers[i].next, Seen(Now(s), Now(s), Now(s))));
    committed := decided.(consumers := s.consumers[i := s.consumers[i].(pc := Acking(None))]);
    assert Next(decided, Commit(i)) == committed;
    assert Next(committed, Ack(i)) == Skipped(s, i);
  }

  lemma DecideToSkip(s: State, i: nat, decided: State)
    requires Holding(s, i)
    requires decided == Serialise(Goto(s, i, CommittingNothing), SerialOp.Ingested(s.consumers[i].next, Seen(Now(s), Now(s), Now(s))))
    ensures Leads(s, Begin(i), Goto(s, i, Checking))
    ensures (exists q :: q in s.committed && q.eventId == StreamEventId(s.stream[s.consumers[i].next])) ==>
      Leads(Goto(s, i, Checking), Check(i), decided)
    ensures (forall project: Uuid :: !IsBilledTo(s.stream[s.consumers[i].next], s.catalogues[Now(s)].keys, project)) ==>
      Leads(Goto(s, i, Resolving), Resolve(i), decided)
  {
    var m, c := s.stream[s.consumers[i].next], s.catalogues[Now(s)];
    HasEventIffRow(s.committed, StreamEventId(m));
    if ResolveProject(m, c).Some? { ProjectIsBilled(m, c, ResolveProject(m, c).value); }
    hide HasEvent, StreamEventId, ResolveProject, IsBilledTo;
    assert Goto(Goto(s, i, Checking), i, CommittingNothing) == Goto(s, i, CommittingNothing);
    assert Goto(Goto(s, i, Resolving), i, CommittingNothing) == Goto(s, i, CommittingNothing);
  }

  /** The row stores the message's event. */
  predicate Stores(q: Row, m: Message) {
    (m.eventId != "" ==> q.eventId == m.eventId) && (m.eventId == "" ==> q.eventId == m.entryId)
  }

  ghost predicate NothingToStore(s: State, i: nat)
    requires Holding(s, i)
  {
    var m := s.stream[s.consumers[i].next];
    || (exists q :: q in s.committed && Stores(q, m))
    || (forall project: Uuid :: !IsBilledTo(m, s.catalogues[Now(s)].keys, project))
  }

  /**
   * A message whose event is in the table, or for which no project can be found, is acknowledged
   * by its consumer alone with nothing stored and nothing announced.
   */
  lemma MessageIsSkippedAlone(s: State, i: nat) returns (more: seq<Step>)
    requires Holding(s, i) && NothingToStore(s, i)
    ensures ValidRun(s, more) && forall k | 0 <= k < |more| :: !IsMishap(more[k])
    ensures var s' := Final(s, more);
      && s'.committed == s.committed && s'.published == s.published
      && s'.acked == s.acked + {s.consumers[i].next}
      && s'.consumers == s.consumers[i := Consumer(Idle, s.consumers[i].next + 1, s.consumers[i].limit)]
  {
    more := SkipReaches(s, i);
    assert forall k | 0 <= k < |more| :: !IsMishap(more[k]);
    var skipped := Skipped(s, i);
    hide *;
    Arrived(s, more, skipped);
  }

  lemma SkipReaches(s: State, i: nat) returns (more: seq<Step>)
    requires Holding(s, i) && NothingToStore(s, i)
    ensures Reaches(s, more, Skipped(s, i))
    ensures more == [Begin(i), Check(i), Commit(i), Ack(i)] || more == [Begin(i), Check(i), Resolve(i), Commit(i), Ack(i)]
  {
    var known := ToldApart(s, i);
    hide *;
    HoldingIs(s, i);
    var decided, committed := SkipSteps(s, i);
    DecideToSkip(s, i, decided);
    var checking, resolving, skipped := Goto(s, i, Checking), Goto(s, i, Resolving), Skipped(s, i);
    more := Start(s);
    ReachOneMore(s, more, s, Begin(i), checking);
    more := more + [Begin(i)];
    if known {
      ReachOneMore(s, more, checking, Check(i), decided);
      more := more + [Check(i)];
    } else {
      BeginAndCheck(s, i);
      ReachOneMore(s, more, checking, Check(i), resolving);
      ReachOneMore(s, more + [Check(i)], resolving, Resolve(i), decided);
      more := more + [Check(i)] + [Resolve(i)];
    }
    ReachOneMore(s, more, decided, Commit(i), committed);
    ReachOneMore(s, more + [Commit(i)], committed, Ack(i), skipped);
    more := more + [Commit(i)] + [Ack(i)];
  }

  lemma HoldingIs(s: State, i: nat)
    requires Holding(s, i)
    ensures i < |s.consumers| && |s.catalogues| > 0 && s.consumers[i].next < |s.stream|
  {
  }

  lemma ToldApart(s: State, i: nat) returns (known: bool)
    requires Holding(s, i) && NothingToStore(s, i)
    ensures known ==> exists q :: q in s.committed && q.eventId == StreamEventId(s.stream[s.consumers[i].next])
    ensures !known ==>
      && (forall q | q in s.committed :: q.eventId != StreamEventId(s.stream[s.consumers[i].next]))
      && (forall project: Uuid :: !IsBilledTo(s.stream[s.consumers[i].next], s.catalogues[Now(s)].keys, project))
  {
    var m := s.stream[s.consumers[i].next];
    assert forall q: Row :: Stores(q, m) <==> q.eventId == StreamEventId(m);
    known := exists q :: q in s.committed && Stores(q, m);
  }

  /**
   * A consumer that is done with its batch can take any 1 to 100 of the entries nobody has read,
   * and gets the oldest of them; the reply can be lost whenever it can arrive.
   */
  lemma BatchesAreRead(s: State, i: nat, count: nat)
    requires Ownership(s) && i < |s.consumers| && s.consumers[i].pc.Idle? && s.consumers[i].next == s.consumers[i].limit
    ensures Enabled(s, Read(i, count)) <==> 1 <= count <= 100 && s.delivered + count <= |s.stream|
    ensures Enabled(s, ReadReplyLost(i, count)) <==> Enabled(s, Read(i, count))
    ensures Enabled(s, Read(i, count)) ==>
      && Next(s, Read(i, count)).delivered == s.delivered + count
      && Next(s, Read(i, count)).consumers == s.consumers[i := Consumer(Idle, s.delivered, s.delivered + count)]
  {
    assert |s.catalogues| > 0 && s.delivered <= |s.stream|;
    hide Ownership;
  }

  /** Every other await may fail where it may succeed, and a consumer may die anywhere. */
  lemma MishapsAreOpen(s: State, i: nat)
    requires Ownership(s) && i < |s.consumers|
    ensures Enabled(s, CommitRaises(i)) <==> Enabled(s, Commit(i))
    ensures Enabled(s, AckRaises(i)) <==> Enabled(s, Ack(i))
    ensures Enabled(s, Crash(i))
    ensures Enabled(s, IngestRaises(i)) <==>
      s.consumers[i].pc.Checking? || s.consumers[i].pc.Resolving? || s.consumers[i].pc.LookingUpKey? || s.consumers[i].pc.Inserting?
  {
    assert |s.catalogues| > 0 && s.delivered <= |s.stream|;
    hide Ownership, InsertBlocked;
  }
}
