/** Where every delivered event and every dashboard delta of the ingest protocol ends up. */
module RequestIngestLedger {
  import opened RequestIngest
  import opened RequestIngestSafety

  // ----- events: each delivered position has exactly one fate -----

  ghost predicate InSerial(ops: seq<SerialOp>, p: nat) {
    exists k | 0 <= k < |ops| :: ops[k].Ingested? && ops[k].pos == p
  }

  ghost predicate Holds(c: Consumer, p: nat) {
    PendingFrom(c) <= p < c.limit
  }

  ghost predicate Pending(s: State, p: nat) {
    exists i | 0 <= i < |s.consumers| :: Holds(s.consumers[i], p)
  }

  ghost predicate OneFate(s: State, p: nat) {
    && (p < s.delivered <==> InSerial(s.serial, p) || p in s.dropped || Pending(s, p))
    && !(InSerial(s.serial, p) && p in s.dropped)
    && !(Pending(s, p) && (InSerial(s.serial, p) || p in s.dropped))
  }

  ghost predicate DistinctPositions(ops: seq<SerialOp>) {
    forall k, l | 0 <= k < l < |ops| && ops[k].Ingested? && ops[l].Ingested? :: ops[k].pos != ops[l].pos
  }

  ghost predicate Accounted(s: State) {
    && DistinctPositions(s.serial)
    && forall p: nat :: OneFate(s, p)
  }

  lemma InSerialSnoc(ops: seq<SerialOp>, op: SerialOp, p: nat)
    ensures InSerial(ops + [op], p) <==> InSerial(ops, p) || (op.Ingested? && op.pos == p)
  {
    if InSerial(ops, p) {
      var k :| 0 <= k < |ops| && ops[k].Ingested? && ops[k].pos == p;
      assert (ops + [op])[k] == ops[k];
    }
    assert (ops + [op])[|ops|] == op;
  }

  lemma NotHeldElsewhere(s: State, i: nat, j: nat, p: nat)
    requires Ownership(s) && i < |s.consumers| && j < |s.consumers| && i != j
    requires Holds(s.consumers[i], p)
    ensures !Holds(s.consumers[j], p)
  {
    if i < j { assert Apart(s.consumers[i], s.consumers[j]); } else { assert Apart(s.consumers[j], s.consumers[i]); }
  }

  /** Consumer `i` hands the positions `gone` over to the serial order (`op`) or to `dropped`. */
  lemma HandOver(s: State, s': State, i: nat, gone: set<nat>)
    requires Ownership(s) && Accounted(s)
    requires i < |s.consumers| == |s'.consumers| && s'.consumers == s.consumers[i := s'.consumers[i]]
    requires s'.delivered == s.delivered
    requires forall p: nat :: Holds(s.consumers[i], p) <==> Holds(s'.consumers[i], p) || p in gone
    requires forall p: nat :: !(Holds(s'.consumers[i], p) && p in gone)
    requires (s'.serial == s.serial && s'.dropped == s.dropped + gone)
             || (s'.dropped == s.dropped && exists p: nat, seen ::
                  gone == {p} && s'.serial == s.serial + [Ingested(p, seen)])
    ensures Accounted(s')
  {
    forall p: nat ensures Pending(s, p) <==> Pending(s', p) || p in gone {
      FateOfOne(s, s', i, gone, p);
    }
    forall p: nat | p in gone ensures Pending(s, p) && !Pending(s', p) {
      FateOfOne(s, s', i, gone, p);
    }
    if !(s'.serial == s.serial && s'.dropped == s.dropped + gone) {
      var q: nat, seen :| gone == {q} && s'.serial == s.serial + [Ingested(q, seen)];
      assert OneFate(s, q);
      forall p: nat ensures InSerial(s'.serial, p) <==> InSerial(s.serial, p) || p in gone {
        InSerialSnoc(s.serial, Ingested(q, seen), p);
      }
    }
    forall p: nat ensures OneFate(s', p) {
      assert OneFate(s, p);
    }
  }

  lemma FateOfOne(s: State, s': State, i: nat, gone: set<nat>, p: nat)
    requires Ownership(s)
    requires i < |s.consumers| == |s'.consumers| && s'.consumers == s.consumers[i := s'.consumers[i]]
    requires Holds(s.consumers[i], p) <==> Holds(s'.consumers[i], p) || p in gone
    requires !(Holds(s'.consumers[i], p) && p in gone)
    ensures Pending(s, p) <==> Pending(s', p) || p in gone
    ensures p in gone ==> Pending(s, p) && !Pending(s', p)
  {
    if Pending(s, p) {
      var j :| 0 <= j < |s.consumers| && Holds(s.consumers[j], p);
      if j != i { assert Holds(s'.consumers[j], p); }
    }
    if Pending(s', p) {
      var j :| 0 <= j < |s'.consumers| && Holds(s'.consumers[j], p);
      if j != i { assert Holds(s.consumers[j], p); if p in gone { NotHeldElsewhere(s, i, j, p); } }
    }
  }

  lemma DeliveryKeepsAccount(s: State, step: Step)
    requires Ownership(s) && Accounted(s) && Enabled(s, step)
    requires step.Read? || step.ReadReplyLost?
    ensures Accounted(Next(s, step))
  {
    var s' := Next(s, step);
    forall p: nat ensures OneFate(s', p) {
      assert OneFate(s, p);
      if Pending(s, p) {
        var j :| 0 <= j < |s.consumers| && Holds(s.consumers[j], p);
        assert Placed(s.consumers[j], s.delivered);
        assert Holds(s'.consumers[j], p);
      }
      if Pending(s', p) {
        var j :| 0 <= j < |s'.consumers| && Holds(s'.consumers[j], p);
        if j != step.i || step.ReadReplyLost? { assert Holds(s.consumers[j], p); }
      }
      if step.Read? && s.delivered <= p < s'.delivered { assert Holds(s'.consumers[step.i], p); }
    }
  }

  lemma StepKeepsAccount(s: State, step: Step)
    requires Ownership(s) && Accounted(s) && Enabled(s, step)
    ensures Accounted(Next(s, step))
  {
    var s' := Next(s, step);
    match step
    case Produce(_) => SameFates(s, s');
    case ChangeCatalogue(_) => SameFates(s, s');
    case Prune(ids) =>
      forall p: nat ensures InSerial(s'.serial, p) <==> InSerial(s.serial, p) { InSerialSnoc(s.serial, Pruned(ids), p); }
      SameFates(s, s');
    case Read(_, _) => DeliveryKeepsAccount(s, step);
    case ReadReplyLost(_, _) => DeliveryKeepsAccount(s, step);
    case AckRaises(i) => HandOver(s, s', i, Positions(PendingFrom(s.consumers[i]), s.consumers[i].limit));
    case Crash(i) => HandOver(s, s', i, Positions(PendingFrom(s.consumers[i]), s.consumers[i].limit));
    case _ => MessageStepKeepsAccount(s, step);
  }

  lemma SameFates(s: State, s': State)
    requires Accounted(s) && DistinctPositions(s'.serial)
    requires s'.consumers == s.consumers && s'.delivered == s.delivered && s'.dropped == s.dropped
    requires forall p: nat :: InSerial(s'.serial, p) <==> InSerial(s.serial, p)
    ensures Accounted(s')
  {
    forall p: nat ensures OneFate(s', p) { assert OneFate(s, p); }
  }

  /** Consumer `i` goes on with its message, or settles it by a serial operation or by giving it up. */
  ghost predicate Settles(s: State, s': State, i: nat)
    requires i < |s.consumers| == |s'.consumers|
  {
    var c, c' := s.consumers[i], s'.consumers[i];
    && c'.limit == c.limit && s'.delivered == s.delivered
    && (if PendingFrom(c') == PendingFrom(c) then s'.serial == s.serial && s'.dropped == s.dropped
        else
          && PendingFrom(c) == c.next && PendingFrom(c') == c.next + 1
          && ((s'.serial == s.serial && s'.dropped == s.dropped + {c.next})
              || (s'.dropped == s.dropped && exists seen :: s'.serial == s.serial + [Ingested(c.next, seen)])))
  }

  lemma CheckingSettles(s: State, i: nat)
    ensures Enabled(s, Check(i)) ==> |DoCheck(s, i).consumers| == |s.consumers| && Settles(s, DoCheck(s, i), i)
    ensures Enabled(s, Resolve(i)) ==> |DoResolve(s, i).consumers| == |s.consumers| && Settles(s, DoResolve(s, i), i)
    ensures Enabled(s, LookUpKey(i)) ==> |DoLookUpKey(s, i).consumers| == |s.consumers| && Settles(s, DoLookUpKey(s, i), i)
  {
    hide HasEvent, ResolveProject, ResolveApiKeyId, BuildRow;
  }

  lemma WritingSettles(s: State, i: nat)
    ensures Enabled(s, Insert(i)) ==> |DoInsert(s, i).consumers| == |s.consumers| && Settles(s, DoInsert(s, i), i)
    ensures Enabled(s, Commit(i)) ==> |DoCommit(s, i).consumers| == |s.consumers| && Settles(s, DoCommit(s, i), i)
    ensures Enabled(s, CommitRaises(i)) ==> |DoCommitRaises(s, i).consumers| == |s.consumers| && Settles(s, DoCommitRaises(s, i), i)
  {
    hide HasEvent, ForeignKeysHold, InsertBlocked;
  }

  lemma OtherMessageStepsSettle(s: State, step: Step)
    requires Enabled(s, step) && (step.Begin? || step.IngestRaises? || step.Ack? || step.Publish?)
    ensures |Next(s, step).consumers| == |s.consumers| && Settles(s, Next(s, step), step.i)
  {
    hide DoCheck, DoResolve, DoLookUpKey, DoInsert, DoCommit, DoCommitRaises, InsertBlocked;
  }

  lemma MessageStepSettles(s: State, step: Step)
    requires Enabled(s, step) && (Stays(step) || step.Ack? || step.Publish?)
    ensures step.i < |s.consumers| == |Next(s, step).consumers| && Settles(s, Next(s, step), step.i)
  {
    if step.Begin? || step.IngestRaises? || step.Ack? || step.Publish? {
      OtherMessageStepsSettle(s, step);
      hide Settles, Next;
    } else {
      CheckingSettles(s, step.i);
      WritingSettles(s, step.i);
      hide DoCheck, DoResolve, DoLookUpKey, DoInsert, DoCommit, DoCommitRaises, InsertBlocked, Settles;
    }
  }

  lemma MessageStepKeepsAccount(s: State, step: Step)
    requires Ownership(s) && Accounted(s) && Enabled(s, step)
    requires Stays(step) || step.Ack? || step.Publish?
    ensures Accounted(Next(s, step))
  {
    StepMovesOneConsumer(s, step);
    MessageStepSettles(s, step);
    var s', i := Next(s, step), step.i;
    var c := s.consumers[i];
    InBatch(s, step);
    hide Next, Enabled, Ownership, Accounted, PendingFrom;
    if PendingFrom(s'.consumers[i]) == PendingFrom(c) {
      HandOver(s, s', i, {});
    } else {
      HandOver(s, s', i, {c.next});
    }
  }

  lemma InBatch(s: State, step: Step)
    requires Ownership(s) && Enabled(s, step) && (Stays(step) || step.Ack? || step.Publish?)
    ensures s.consumers[step.i].next < s.consumers[step.i].limit
  {
    assert Placed(s.consumers[step.i], s.delivered);
    hide InsertBlocked, Ownership;
  }

  // ----- deltas: stored and phantom rows are published, lost or still carried -----

  function Count(rows: seq<Row>, r: Row): nat
    decreases |rows|
  {
    if rows == [] then 0 else Count(rows[..|rows| - 1], r) + (if rows[|rows| - 1] == r then 1 else 0)
  }

  lemma {:induction false} CountConcat(a: seq<Row>, b: seq<Row>, r: Row)
    ensures Count(a + b, r) == Count(a, r) + Count(b, r)
    decreases |b|
  {
    if b == [] {
      assert a + b == a;
    } else {
      assert (a + b)[..|a + b| - 1] == a + b[..|b| - 1];
      CountConcat(a, b[..|b| - 1], r);
    }
  }

  lemma CountEmpty(r: Row)
    ensures Count([], r) == 0
  {
  }

  /** How many consumers still mean to publish `r`. */
  function Carried(cs: seq<Consumer>, r: Row): nat
    decreases |cs|
  {
    if cs == [] then 0 else Carried(cs[..|cs| - 1], r) + Count(CarriedRows(cs[|cs| - 1]), r)
  }

  lemma {:induction false} CarriedUpdate(cs: seq<Consumer>, i: nat, c: Consumer, r: Row)
    requires i < |cs|
    ensures Carried(cs[i := c], r) + Count(CarriedRows(cs[i]), r) == Carried(cs, r) + Count(CarriedRows(c), r)
    decreases |cs|
  {
    var n := |cs| - 1;
    if i < n {
      CarriedUpdate(cs[..n], i, c, r);
      assert cs[i := c][..n] == cs[..n][i := c];
    } else {
      assert cs[i := c][..n] == cs[..n];
    }
  }

  ghost predicate Balanced(s: State, r: Row) {
    Count(s.stored, r) + Count(s.phantom, r) == Count(s.published, r) + Count(s.lost, r) + Carried(s.consumers, r)
  }

  ghost predicate DeltasBalance(s: State) {
    forall r :: Balanced(s, r)
  }

  /** The books stay balanced when consumer `i`'s change is matched by the four lists. */
  lemma MoveKeepsBalance(s: State, s': State, i: nat, r: Row)
    requires Balanced(s, r) && i < |s.consumers| == |s'.consumers|
    requires s'.consumers == s.consumers[i := s'.consumers[i]]
    requires Count(s'.stored, r) + Count(s'.phantom, r) + Count(CarriedRows(s.consumers[i]), r)
             + Count(s.published, r) + Count(s.lost, r)
             == Count(s'.published, r) + Count(s'.lost, r) + Count(CarriedRows(s'.consumers[i]), r)
             + Count(s.stored, r) + Count(s.phantom, r)
    ensures Balanced(s', r)
  {
    CarriedUpdate(s.consumers, i, s'.consumers[i], r);
  }

  lemma CommitKeepsBalance(s: State, i: nat, r: Row)
    requires Balanced(s, r) && Enabled(s, Commit(i))
    ensures Balanced(DoCommit(s, i), r)
  {
    CountEmpty(r);
    hide Count, Carried, Balanced, HasEvent, Positions;
    var s' := DoCommit(s, i);
    assert s'.stored == s.stored + CarriedRows(s'.consumers[i]);
    CountConcat(s.stored, CarriedRows(s'.consumers[i]), r);
    MoveKeepsBalance(s, s', i, r);
  }

  lemma FailedCommitKeepsBalance(s: State, i: nat, r: Row)
    requires Balanced(s, r) && Enabled(s, CommitRaises(i))
    ensures Balanced(DoCommitRaises(s, i), r)
  {
    CountEmpty(r);
    hide Count, Carried, Balanced, HasEvent, Positions;
    var s' := DoCommitRaises(s, i);
    assert s'.phantom == s.phantom + CarriedRows(s'.consumers[i]);
    CountConcat(s.phantom, CarriedRows(s'.consumers[i]), r);
    MoveKeepsBalance(s, s', i, r);
  }

  lemma AbandonKeepsBalance(s: State, i: nat, r: Row)
    requires Balanced(s, r) && i < |s.consumers|
    ensures Balanced(AbandonBatch(s, i), r)
  {
    CountEmpty(r);
    hide Count, Carried, Balanced, HasEvent, Positions;
    var s' := AbandonBatch(s, i);
    CountConcat(s.lost, CarriedRows(s.consumers[i]), r);
    MoveKeepsBalance(s, s', i, r);
  }

  lemma AckKeepsBalance(s: State, i: nat, r: Row)
    requires Balanced(s, r) && Enabled(s, Ack(i))
    ensures Balanced(DoAck(s, i), r)
  {
    CountEmpty(r);
    hide Count, Carried, Balanced, HasEvent, Positions;
    MoveKeepsBalance(s, DoAck(s, i), i, r);
  }

  lemma PublishKeepsBalance(s: State, i: nat, r: Row)
    requires Balanced(s, r) && Enabled(s, Publish(i))
    ensures Balanced(Next(s, Publish(i)), r)
  {
    CountEmpty(r);
    hide Count, Carried, Balanced, HasEvent, Positions;
    var s' := Next(s, Publish(i));
    assert s'.published == s.published + CarriedRows(s.consumers[i]);
    CountConcat(s.published, CarriedRows(s.consumers[i]), r);
    MoveKeepsBalance(s, s', i, r);
  }

  ghost predicate Reads(step: Step) {
    step.Begin? || step.Check? || step.Resolve? || step.LookUpKey? || step.Insert? || step.IngestRaises? || step.Read?
  }

  lemma ReadingMovesNoRow(s: State, step: Step)
    requires Enabled(s, step) && Reads(step)
    ensures |Next(s, step).consumers| == |s.consumers|
    ensures Next(s, step).stored == s.stored && Next(s, step).phantom == s.phantom
    ensures Next(s, step).published == s.published && Next(s, step).lost == s.lost
    ensures CarriedRows(s.consumers[step.i]) == [] == CarriedRows(Next(s, step).consumers[step.i])
  {
  }

  lemma ReadingKeepsBalance(s: State, step: Step, r: Row)
    requires Ownership(s) && Balanced(s, r) && Enabled(s, step) && Reads(step)
    ensures Balanced(Next(s, step), r)
  {
    var s' := Next(s, step);
    ReadingMovesNoRow(s, step);
    assert s'.consumers == s.consumers[step.i := s'.consumers[step.i]] by { StepMovesOneConsumer(s, step); }
    MoveKeepsBalance(s, s', step.i, r);
  }

  lemma StepKeepsBalanceOf(s: State, step: Step, r: Row)
    requires Ownership(s) && Balanced(s, r) && Enabled(s, step)
    ensures Balanced(Next(s, step), r)
  {
    hide Count, Carried, HasEvent, Positions, Ownership;
    match step
    case Produce(_) =>
    case ChangeCatalogue(_) =>
    case Prune(_) =>
    case ReadReplyLost(_, _) =>
    case Publish(i) => PublishKeepsBalance(s, i, r);
    case Crash(i) => AbandonKeepsBalance(s, i, r);
    case AckRaises(i) => AbandonKeepsBalance(s, i, r);
    case Commit(i) => CommitKeepsBalance(s, i, r);
    case CommitRaises(i) => FailedCommitKeepsBalance(s, i, r);
    case Ack(i) => AckKeepsBalance(s, i, r);
    case _ => ReadingKeepsBalance(s, step, r);
  }

  lemma StepKeepsBalance(s: State, step: Step)
    requires Ownership(s) && DeltasBalance(s) && Enabled(s, step)
    ensures DeltasBalance(Next(s, step))
  {
    forall r ensures Balanced(Next(s, step), r) {
      assert Balanced(s, r);
      StepKeepsBalanceOf(s, step, r);
    }
  }

  ghost predicate DistinctIds(rows: seq<Row>) {
    forall k, l | 0 <= k < l < |rows| :: rows[k].id != rows[l].id
  }

  /** A stored row's event is in the serial order, a phantom row's event was dropped. */
  ghost predicate RowsTraced(s: State) {
    && DistinctIds(s.stored) && DistinctIds(s.phantom)
    && (forall r | r in s.stored :: InSerial(s.serial, r.id))
    && (forall r | r in s.phantom :: r.id in s.dropped)
    && (forall r | r in s.committed :: r in s.stored)
  }

  lemma StepKeepsTraces(s: State, step: Step)
    requires Ownership(s) && TableInv(s) && Accounted(s) && RowsTraced(s) && Enabled(s, step)
    ensures RowsTraced(Next(s, step))
  {
    hide RunSerial, ValidOps, Apart, OneInserter, DistinctPositions, OneFate;
    SerialOnlyGrows(s, step);
    if step.Prune? {
      PruneKeepsOrderAndDistinctness(s.committed, step.ids);
    } else if step.Commit? && s.consumers[step.i].pc.CommittingRow? {
      CommitTraces(s, step.i);
    } else if step.CommitRaises? && s.consumers[step.i].pc.CommittingRow? {
      FailedCommitTraces(s, step.i);
    } else {
      OtherStepsMoveNoRow(s, step);
    }
  }

  lemma OtherStepsMoveNoRow(s: State, step: Step)
    requires Enabled(s, step) && !step.Prune?
    requires (step.Commit? || step.CommitRaises?) ==> !s.consumers[step.i].pc.CommittingRow?
    ensures Next(s, step).stored == s.stored && Next(s, step).phantom == s.phantom && Next(s, step).committed == s.committed
  {
    hide HasEvent, InsertBlocked, ResolveProject, ResolveApiKeyId, ForeignKeysHold, BuildRow, Positions;
  }

  lemma FailedCommitTraces(s: State, i: nat)
    requires Ownership(s) && TableInv(s) && Accounted(s) && RowsTraced(s)
    requires Enabled(s, CommitRaises(i)) && s.consumers[i].pc.CommittingRow?
    ensures RowsTraced(DoCommitRaises(s, i))
  {
    hide RunSerial, ValidOps, Apart, OneInserter;
    var c := s.consumers[i];
    assert Faithful(s, c) && Placed(c, s.delivered) && OneFate(s, c.next) && Holds(c, c.next);
  }

  lemma SerialOnlyGrows(s: State, step: Step)
    requires Ownership(s) && Enabled(s, step)
    ensures forall p: nat :: InSerial(s.serial, p) ==> InSerial(Next(s, step).serial, p)
    ensures s.dropped <= Next(s, step).dropped
  {
    var s' := Next(s, step);
    assert s.serial <= s'.serial;
    forall p: nat | InSerial(s.serial, p) ensures InSerial(s'.serial, p) {
      var k :| 0 <= k < |s.serial| && s.serial[k].Ingested? && s.serial[k].pos == p;
      assert s'.serial[k] == s.serial[k];
    }
  }

  lemma CommitTraces(s: State, i: nat)
    requires Ownership(s) && TableInv(s) && Accounted(s) && RowsTraced(s)
    requires Enabled(s, Commit(i)) && s.consumers[i].pc.CommittingRow?
    ensures RowsTraced(DoCommit(s, i))
  {
    var c := s.consumers[i];
    assert Faithful(s, c) && Placed(c, s.delivered) && OneFate(s, c.next) && Holds(c, c.next);
    var s' := DoCommit(s, i);
    assert s'.serial == s.serial + [Ingested(c.next, c.pc.seen)];
    forall r | r in s'.stored ensures InSerial(s'.serial, r.id) {
      InSerialSnoc(s.serial, Ingested(c.next, c.pc.seen), r.id);
    }
  }
}
