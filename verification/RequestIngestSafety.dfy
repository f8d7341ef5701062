/** What every interleaving of the ingest protocol keeps, and what whole runs amount to. */
module RequestIngestSafety {
  import opened Wrappers
  import opened RequestIngest

  // ----- the invariant, in layers -----

  /** Consumers own disjoint stretches of the delivered stream. */
  ghost predicate Ownership(s: State) {
    && |s.catalogues| > 0
    && s.delivered <= |s.stream|
    && (forall i | 0 <= i < |s.consumers| :: Placed(s.consumers[i], s.delivered))
    && (forall i, j | 0 <= i < j < |s.consumers| :: Apart(s.consumers[i], s.consumers[j]))
  }

  ghost predicate Placed(c: Consumer, delivered: nat) {
    c.next <= c.limit <= delivered && (c.pc != Idle ==> c.next < c.limit)
  }

  ghost predicate Apart(c: Consumer, d: Consumer) {
    c.next == c.limit || d.next == d.limit || c.limit <= d.next || d.limit <= c.next
  }

  /** What a consumer's program counter remembers is what its reads returned. */
  ghost predicate Faithful(s: State, c: Consumer) {
    match c.pc
    case LookingUpKey(project, forProject) =>
      && c.next < |s.stream| && forProject < |s.catalogues|
      && ResolveProject(s.stream[c.next], s.catalogues[forProject]) == Some(project)
    case Inserting(row, forProject, forKey) =>
      && forProject <= forKey < |s.catalogues|
      && BuiltFrom(s, c.next, row, forProject, forKey)
    case CommittingRow(row, seen) =>
      && seen.forProject <= seen.forKey <= seen.forInsert < |s.catalogues|
      && BuiltFrom(s, c.next, row, seen.forProject, seen.forKey)
      && ForeignKeysHold(row, s.catalogues[seen.forInsert])
      && !HasEvent(s.committed, row.eventId)
    case _ => true
  }

  ghost predicate BuiltFrom(s: State, pos: nat, row: Row, forProject: nat, forKey: nat)
    requires forProject < |s.catalogues| && forKey < |s.catalogues|
  {
    && pos < |s.stream|
    && ResolveProject(s.stream[pos], s.catalogues[forProject]) == Some(row.projectId)
    && row == BuildRow(pos, s.stream[pos], row.projectId, ResolveApiKeyId(s.stream[pos], s.catalogues[forKey]))
  }

  /** The unique index: no two uncommitted rows share an event id. */
  ghost predicate OneInserter(s: State) {
    forall i, j | 0 <= i < j < |s.consumers| && s.consumers[i].pc.CommittingRow? && s.consumers[j].pc.CommittingRow? ::
      s.consumers[i].pc.row.eventId != s.consumers[j].pc.row.eventId
  }

  ghost predicate DistinctEvents(table: seq<Row>) {
    forall k, l | 0 <= k < l < |table| :: table[k].eventId != table[l].eventId
  }

  ghost predicate TableInv(s: State) {
    && (forall i | 0 <= i < |s.consumers| :: Faithful(s, s.consumers[i]))
    && OneInserter(s)
    && DistinctEvents(s.committed)
    && ValidOps(s.serial, |s.stream|, |s.catalogues|)
    && s.committed == RunSerial(s.serial, s.stream, s.catalogues)
  }

  // ----- frame facts about the reference run -----

  lemma {:induction false} SerialRunIgnoresGrowth(ops: seq<SerialOp>, stream: seq<Message>, catalogues: seq<Catalogue>,
                                 stream': seq<Message>, catalogues': seq<Catalogue>)
    requires ValidOps(ops, |stream|, |catalogues|)
    requires stream <= stream' && catalogues <= catalogues'
    ensures ValidOps(ops, |stream'|, |catalogues'|)
    ensures RunSerial(ops, stream', catalogues') == RunSerial(ops, stream, catalogues)
    decreases |ops|
  {
    if ops != [] {
      var op := ops[|ops| - 1];
      assert ValidOp(op, |stream|, |catalogues|);
      SerialRunIgnoresGrowth(ops[..|ops| - 1], stream, catalogues, stream', catalogues');
    }
  }

  lemma SerialRunSnoc(ops: seq<SerialOp>, op: SerialOp, stream: seq<Message>, catalogues: seq<Catalogue>)
    requires ValidOps(ops, |stream|, |catalogues|) && ValidOp(op, |stream|, |catalogues|)
    ensures ValidOps(ops + [op], |stream|, |catalogues|)
    ensures RunSerial(ops + [op], stream, catalogues) == ApplyOp(RunSerial(ops, stream, catalogues), op, stream, catalogues)
  {
    assert (ops + [op])[..|ops + [op]| - 1] == ops;
  }

  lemma {:induction false} PruneKeepsOrderAndDistinctness(table: seq<Row>, ids: set<nat>)
    ensures forall r :: r in WithoutIds(table, ids) <==> r in table && r.id !in ids
    ensures DistinctEvents(table) ==> DistinctEvents(WithoutIds(table, ids))
    decreases |table|
  {
    if table != [] {
      var front, last := table[..|table| - 1], table[|table| - 1];
      PruneKeepsOrderAndDistinctness(front, ids);
      assert table == front + [last];
      if DistinctEvents(table) {
        assert forall r | r in front :: r.eventId != last.eventId;
      }
    }
  }

  lemma HasEventIffRow(table: seq<Row>, id: string)
    ensures HasEvent(table, id) <==> exists r :: r in table && r.eventId == id
  {
    if r :| r in table && r.eventId == id {
      var k :| 0 <= k < |table| && table[k] == r;
      assert table[k].eventId == id;
    }
  }

  // ----- every step keeps the invariant -----

  /** Consumer `i` keeps, shrinks or empties its stretch, or takes one nobody had. */
  lemma MoveKeepsOwnership(s: State, s': State, i: nat)
    requires Ownership(s) && i < |s.consumers| == |s'.consumers|
    requires s'.consumers == s.consumers[i := s'.consumers[i]]
    requires s.stream == s'.stream && s.catalogues == s'.catalogues
    requires s.delivered <= s'.delivered <= |s'.stream|
    requires Placed(s'.consumers[i], s'.delivered)
    requires (s.consumers[i].next <= s'.consumers[i].next && s'.consumers[i].limit == s.consumers[i].limit)
             || s'.consumers[i].next == s.delivered
    ensures Ownership(s')
  {
    forall j | 0 <= j < |s'.consumers| ensures Placed(s'.consumers[j], s'.delivered) {
      if j != i { assert Placed(s.consumers[j], s.delivered); }
    }
    forall j, k | 0 <= j < k < |s'.consumers| ensures Apart(s'.consumers[j], s'.consumers[k]) {
      assert Apart(s.consumers[j], s.consumers[k]);
      assert Placed(s.consumers[j], s.delivered) && Placed(s.consumers[k], s.delivered);
    }
  }

  /** The steps in which a consumer stays on its message. */
  ghost predicate Stays(step: Step) {
    step.Begin? || step.Check? || step.Resolve? || step.LookUpKey? || step.Insert? || step.Commit? || step.CommitRaises?
    || step.IngestRaises?
  }

  /** Consumer `i` alone changes, to `c`; the stream and the catalogues do not. */
  ghost predicate Moved(s: State, s': State, i: nat, c: Consumer)
    requires i < |s.consumers|
  {
    s'.consumers == s.consumers[i := c] && s'.stream == s.stream && s'.catalogues == s.catalogues
  }

  /** The consumer's program counter moves on; nothing is delivered or acknowledged. */
  ghost predicate MovedOn(s: State, s': State, i: nat)
    requires i < |s.consumers|
  {
    && |s'.consumers| == |s.consumers| && s'.consumers[i].pc != Idle
    && Moved(s, s', i, s.consumers[i].(pc := s'.consumers[i].pc))
    && s'.delivered == s.delivered && s'.acked == s.acked
  }

  lemma CheckingMovesOn(s: State, i: nat)
    ensures Enabled(s, Check(i)) ==> MovedOn(s, DoCheck(s, i), i)
    ensures Enabled(s, Resolve(i)) ==> MovedOn(s, DoResolve(s, i), i)
    ensures Enabled(s, LookUpKey(i)) ==> MovedOn(s, DoLookUpKey(s, i), i)
  {
    hide HasEvent, ResolveProject, ResolveApiKeyId, BuildRow;
  }

  lemma WritingMovesOn(s: State, i: nat)
    ensures Enabled(s, Insert(i)) ==> MovedOn(s, DoInsert(s, i), i)
    ensures Enabled(s, Commit(i)) ==> MovedOn(s, DoCommit(s, i), i)
    ensures Enabled(s, CommitRaises(i)) ==> MovedOn(s, DoCommitRaises(s, i), i)
  {
    hide HasEvent, ForeignKeysHold, InsertBlocked;
  }

  lemma StayingMovesOn(s: State, step: Step)
    requires Enabled(s, step) && Stays(step)
    ensures step.i < |s.consumers| && MovedOn(s, Next(s, step), step.i)
  {
    CheckingMovesOn(s, step.i);
    WritingMovesOn(s, step.i);
    if step.Begin? || step.IngestRaises? {
      hide DoCheck, DoResolve, DoLookUpKey, DoInsert, DoCommit, DoCommitRaises, InsertBlocked;
    } else {
      hide DoCheck, DoResolve, DoLookUpKey, DoInsert, DoCommit, DoCommitRaises, MovedOn, InsertBlocked;
    }
  }

  /** The consumer after a step in which it does not stay on its message. */
  ghost function Left(s: State, step: Step): Consumer
    requires !step.Produce? && !step.ChangeCatalogue? && !step.Prune? && step.i < |s.consumers|
  {
    var c := s.consumers[step.i];
    if step.Read? then Consumer(Idle, s.delivered, s.delivered + step.count)
    else if step.ReadReplyLost? then c
    else if step.Ack? && c.pc.Acking? && c.pc.persisted.Some? then c.(pc := Publishing(c.pc.persisted.value))
    else if step.Ack? || step.Publish? then Consumer(Idle, c.next + 1, c.limit)
    else Consumer(Idle, c.limit, c.limit)
  }

  /** Ending a message or a batch, or taking a new one. */
  lemma LeavingMoves(s: State, step: Step)
    requires Enabled(s, step) && !Stays(step) && !step.Produce? && !step.ChangeCatalogue? && !step.Prune?
    ensures step.i < |s.consumers|
    ensures s.delivered <= Next(s, step).delivered <= |s.stream|
    ensures step.Read? || step.ReadReplyLost? ==> Next(s, step).delivered == s.delivered + step.count
    ensures !step.Read? && !step.ReadReplyLost? ==> Next(s, step).delivered == s.delivered
    ensures Next(s, step).acked == if step.Ack? then s.acked + {s.consumers[step.i].next} else s.acked
    ensures Moved(s, Next(s, step), step.i, Left(s, step))
    ensures step.Ack? ==> s.consumers[step.i].pc.Acking?
    ensures step.Publish? ==> s.consumers[step.i].pc.Publishing?
  {
    hide Positions, CarriedRows, PendingFrom;
  }

  /** A step of consumer `i` moves that consumer alone: it stays on its message, finishes it, drops its batch or takes a new one. */
  lemma StepMovesOneConsumer(s: State, step: Step)
    requires Ownership(s) && Enabled(s, step)
    requires !step.Produce? && !step.ChangeCatalogue? && !step.Prune?
    ensures |Next(s, step).consumers| == |s.consumers|
    ensures Next(s, step).consumers == s.consumers[step.i := Next(s, step).consumers[step.i]]
    ensures Next(s, step).stream == s.stream && Next(s, step).catalogues == s.catalogues
    ensures s.delivered <= Next(s, step).delivered <= |s.stream|
    ensures Placed(Next(s, step).consumers[step.i], Next(s, step).delivered)
    ensures (s.consumers[step.i].next <= Next(s, step).consumers[step.i].next
             && Next(s, step).consumers[step.i].limit == s.consumers[step.i].limit)
            || Next(s, step).consumers[step.i].next == s.delivered
  {
    assert Placed(s.consumers[step.i], s.delivered) && s.delivered <= |s.stream|;
    if Stays(step) {
      NotIdleWhileStaying(s, step);
      StayingMovesOn(s, step);
      hide Next, Enabled, Ownership;
    } else {
      LeavingMoves(s, step);
      hide Next, Enabled, Ownership;
    }
  }

  lemma NotIdleWhileStaying(s: State, step: Step)
    requires Enabled(s, step) && Stays(step)
    ensures s.consumers[step.i].next < s.consumers[step.i].limit || s.consumers[step.i].pc != Idle
  {
    hide InsertBlocked;
  }

  lemma StepKeepsOwnership(s: State, step: Step)
    requires Ownership(s) && Enabled(s, step)
    ensures Ownership(Next(s, step))
  {
    if !step.Produce? && !step.ChangeCatalogue? && !step.Prune? {
      StepMovesOneConsumer(s, step);
      MoveKeepsOwnership(s, Next(s, step), step.i);
    }
  }

  /** Consumer `i` moved and nothing it shares with the others changed. */
  lemma QuietMoveKeepsTable(s: State, s': State, i: nat)
    requires TableInv(s)
    requires |s'.consumers| == |s.consumers| && i < |s.consumers|
    requires s'.consumers == s.consumers[i := s'.consumers[i]]
    requires s'.stream == s.stream && s'.catalogues == s.catalogues
    requires s'.committed == s.committed && s'.serial == s.serial
    requires Faithful(s', s'.consumers[i])
    requires s'.consumers[i].pc.CommittingRow? ==> s.consumers[i].pc.Inserting?
    requires s'.consumers[i].pc.CommittingRow? ==> s'.consumers[i].pc.row == s.consumers[i].pc.row
    requires s'.consumers[i].pc.CommittingRow? ==> !InsertBlocked(s, i, s.consumers[i].pc.row.eventId)
    ensures TableInv(s')
  {
    forall j | 0 <= j < |s'.consumers| ensures Faithful(s', s'.consumers[j]) {
      if j != i { assert Faithful(s, s.consumers[j]); }
    }
  }

  /** Consumer `i` decided its event stores nothing: a no-op of the reference run. */
  lemma NoRowKeepsTable(s: State, i: nat, seen: Seen)
    requires TableInv(s) && i < |s.consumers| && s.consumers[i].next < |s.stream|
    requires seen.forProject <= seen.forKey <= seen.forInsert < |s.catalogues|
    requires AtomicIngest(s.committed, s.consumers[i].next, s.stream[s.consumers[i].next], seen, s.catalogues) == s.committed
    ensures TableInv(Serialise(Goto(s, i, CommittingNothing), Ingested(s.consumers[i].next, seen)))
  {
    var op := Ingested(s.consumers[i].next, seen);
    SerialRunSnoc(s.serial, op, s.stream, s.catalogues);
    var s' := Serialise(Goto(s, i, CommittingNothing), op);
    forall j | 0 <= j < |s'.consumers| ensures Faithful(s', s'.consumers[j]) {
      if j != i { assert Faithful(s, s.consumers[j]); }
    }
  }

  lemma GrowthKeepsTable(s: State, s': State)
    requires TableInv(s) && s.stream <= s'.stream && s.catalogues <= s'.catalogues
    requires s'.consumers == s.consumers && s'.committed == s.committed && s'.serial == s.serial
    ensures TableInv(s')
  {
    SerialRunIgnoresGrowth(s.serial, s.stream, s.catalogues, s'.stream, s'.catalogues);
    forall j | 0 <= j < |s'.consumers| ensures Faithful(s', s'.consumers[j]) {
      assert Faithful(s, s.consumers[j]);
    }
  }

  lemma PruneKeepsTable(s: State, ids: set<nat>)
    requires TableInv(s)
    ensures TableInv(Serialise(s, Pruned(ids)).(committed := WithoutIds(s.committed, ids)))
  {
    SerialRunSnoc(s.serial, Pruned(ids), s.stream, s.catalogues);
    PruneKeepsOrderAndDistinctness(s.committed, ids);
    var s' := Serialise(s, Pruned(ids)).(committed := WithoutIds(s.committed, ids));
    forall j | 0 <= j < |s'.consumers| ensures Faithful(s', s'.consumers[j]) {
      assert Faithful(s, s.consumers[j]);
      if s.consumers[j].pc.CommittingRow? {
        HasEventIffRow(s.committed, s.consumers[j].pc.row.eventId);
        HasEventIffRow(s'.committed, s.consumers[j].pc.row.eventId);
      }
    }
  }

  lemma CommitKeepsTable(s: State, i: nat)
    requires Ownership(s) && TableInv(s) && Enabled(s, Commit(i)) && s.consumers[i].pc.CommittingRow?
    ensures TableInv(DoCommit(s, i))
  {
    hide RunSerial, ForeignKeysHold, Apart;
    var c := s.consumers[i];
    assert Faithful(s, c);
    assert Placed(c, s.delivered);
    var op := Ingested(c.next, c.pc.seen);
    SerialRunSnoc(s.serial, op, s.stream, s.catalogues);
    var s' := DoCommit(s, i);
    assert RowFor(c.next, s.stream[c.next], c.pc.seen, s.catalogues) == Some(c.pc.row);
    assert s'.committed == s.committed + [c.pc.row];
    forall j | 0 <= j < |s'.consumers| ensures Faithful(s', s'.consumers[j]) {
      if j != i {
        assert Faithful(s, s.consumers[j]);
        if s.consumers[j].pc.CommittingRow? {
          assert s.consumers[j].pc.row.eventId != c.pc.row.eventId by {
            if i < j { assert s.consumers[i].pc.CommittingRow?; }
          }
        }
      }
    }
  }

  lemma InsertKeepsTable(s: State, i: nat)
    requires Ownership(s) && TableInv(s) && Enabled(s, Insert(i))
    ensures TableInv(DoInsert(s, i))
  {
    var c := s.consumers[i];
    assert Faithful(s, c);
    assert Placed(c, s.delivered);
    var seen := Seen(c.pc.forProject, c.pc.forKey, Now(s));
    if HasEvent(s.committed, c.pc.row.eventId) || !ForeignKeysHold(c.pc.row, s.catalogues[Now(s)]) {
      NoRowKeepsTable(s, i, seen);
    } else {
      QuietMoveKeepsTable(s, DoInsert(s, i), i);
    }
  }

  lemma CheckKeepsTable(s: State, i: nat)
    requires Ownership(s) && TableInv(s) && Enabled(s, Check(i))
    ensures TableInv(DoCheck(s, i))
  {
    hide RunSerial, ForeignKeysHold, Apart;
    assert Placed(s.consumers[i], s.delivered);
    if HasEvent(s.committed, StreamEventId(s.stream[s.consumers[i].next])) {
      NoRowKeepsTable(s, i, Seen(Now(s), Now(s), Now(s)));
    } else {
      QuietMoveKeepsTable(s, DoCheck(s, i), i);
    }
  }

  lemma ResolveKeepsTable(s: State, i: nat)
    requires Ownership(s) && TableInv(s) && Enabled(s, Resolve(i))
    ensures TableInv(DoResolve(s, i))
  {
    hide RunSerial, ForeignKeysHold, Apart;
    assert Placed(s.consumers[i], s.delivered);
    if ResolveProject(s.stream[s.consumers[i].next], s.catalogues[Now(s)]).None? {
      NoRowKeepsTable(s, i, Seen(Now(s), Now(s), Now(s)));
    } else {
      QuietMoveKeepsTable(s, DoResolve(s, i), i);
    }
  }

  /** The steps that neither read for nor write to the table. */
  ghost predicate LeavesTable(step: Step) {
    step.Read? || step.Begin? || step.LookUpKey? || step.CommitRaises? || step.IngestRaises? || step.Ack? || step.AckRaises?
    || step.Publish? || step.Crash?
  }

  /** Such a step builds at most a row, from what it read. */
  lemma LeavingTableFacts(s: State, step: Step)
    requires Enabled(s, step) && LeavesTable(step)
    ensures step.i < |s.consumers| && |Next(s, step).consumers| == |s.consumers|
    ensures Next(s, step).committed == s.committed && Next(s, step).serial == s.serial
    ensures var pc := Next(s, step).consumers[step.i].pc;
      if step.LookUpKey? then pc.Inserting? else pc.Idle? || pc.Checking? || pc.Acking? || pc.Publishing?
  {
    hide HasEvent, ForeignKeysHold, ResolveProject, ResolveApiKeyId, Positions, CarriedRows, PendingFrom;
  }

  lemma LookingUpIsFaithful(s: State, i: nat)
    requires Enabled(s, LookUpKey(i)) && Faithful(s, s.consumers[i])
    ensures Faithful(DoLookUpKey(s, i), DoLookUpKey(s, i).consumers[i])
  {
    hide ResolveProject, ResolveApiKeyId, StreamEventId;
  }

  lemma LeavingTableKeepsIt(s: State, step: Step)
    requires Ownership(s) && TableInv(s) && Enabled(s, step) && LeavesTable(step)
    ensures TableInv(Next(s, step))
  {
    LeavingTableFacts(s, step);
    var s' := Next(s, step);
    assert Faithful(s, s.consumers[step.i]);
    StepMovesOneConsumer(s, step);
    if step.LookUpKey? {
      assert s' == DoLookUpKey(s, step.i);
      LookingUpIsFaithful(s, step.i);
      hide Next, Enabled, TableInv, Ownership, Faithful, DoLookUpKey;
      QuietMoveKeepsTable(s, s', step.i);
    } else {
      hide Next, Enabled, TableInv, Ownership;
      QuietMoveKeepsTable(s, s', step.i);
    }
  }

  lemma StepKeepsTable(s: State, step: Step)
    requires Ownership(s) && TableInv(s) && Enabled(s, step)
    ensures TableInv(Next(s, step))
  {
    hide TableInv, Ownership, RunSerial, HasEvent, ForeignKeysHold;
    var s' := Next(s, step);
    match step
    case Produce(_) => GrowthKeepsTable(s, s');
    case ChangeCatalogue(_) => GrowthKeepsTable(s, s');
    case Prune(ids) => PruneKeepsTable(s, ids);
    case ReadReplyLost(_, _) => GrowthKeepsTable(s, s');
    case Insert(i) => InsertKeepsTable(s, i);
    case Check(i) => CheckKeepsTable(s, i);
    case Resolve(i) => ResolveKeepsTable(s, i);
    case Commit(i) =>
      if s.consumers[i].pc.CommittingRow? { CommitKeepsTable(s, i); } else { NothingCommittedKeepsTable(s, i); }
    case _ => LeavingTableKeepsIt(s, step);
  }

  lemma NothingCommittedKeepsTable(s: State, i: nat)
    requires Ownership(s) && TableInv(s) && Enabled(s, Commit(i)) && s.consumers[i].pc.CommittingNothing?
    ensures TableInv(DoCommit(s, i))
  {
    hide RunSerial, ForeignKeysHold, Apart, HasEvent;
    QuietMoveKeepsTable(s, DoCommit(s, i), i);
  }
}
