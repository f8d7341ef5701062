/** What acknowledging a message says about it. */
module RequestIngestAcks {
  import opened RequestIngest
  import opened RequestIngestSafety
  import opened RequestIngestLedger
  import opened RequestIngestRuns

  /** The consumer has the position in its batch and has not acknowledged it. */
  ghost predicate Unacked(c: Consumer, p: nat) {
    (if c.pc.Publishing? then c.next + 1 else c.next) <= p < c.limit
  }

  ghost predicate Awaited(s: State, p: nat) {
    exists i | 0 <= i < |s.consumers| :: Unacked(s.consumers[i], p)
  }

  ghost predicate AckedOnce(s: State, p: nat) {
    p in s.acked ==> p < s.delivered && !Awaited(s, p)
  }

  ghost predicate AckedOrAwaited(s: State, p: nat) {
    p < s.delivered ==> p in s.acked || Awaited(s, p)
  }

  /** What a consumer's step does to acknowledgements. */
  ghost predicate AckStep(s: State, s': State, i: nat, p: nat)
    requires i < |s.consumers| == |s'.consumers|
  {
    var c, c' := s.consumers[i], s'.consumers[i];
    && s'.consumers == s.consumers[i := c'] && s.delivered <= s'.delivered
    && (p in s'.acked ==> p in s.acked || (Unacked(c, p) && p == c.next))
    && (p in s.acked ==> p in s'.acked)
    && (Unacked(c', p) ==> (Unacked(c, p) && p !in s'.acked - s.acked) || s.delivered <= p)
  }

  lemma StayingAcks(s: State, step: Step, p: nat)
    requires Ownership(s) && Enabled(s, step) && Stays(step)
    ensures |Next(s, step).consumers| == |s.consumers| && AckStep(s, Next(s, step), step.i, p)
  {
    StillHeld(s, step);
    StayingMovesOn(s, step);
    hide Next, Enabled, Ownership, Stays;
  }

  lemma LeavingAcks(s: State, step: Step, p: nat)
    requires Ownership(s) && Enabled(s, step)
    requires !Stays(step) && !step.Produce? && !step.ChangeCatalogue? && !step.Prune?
    ensures |Next(s, step).consumers| == |s.consumers| && AckStep(s, Next(s, step), step.i, p)
  {
    assert Placed(s.consumers[step.i], s.delivered);
    LeavingMoves(s, step);
    hide Next, Enabled, Ownership, Stays, Unacked, Left;
    LeftUnacked(s, step, p);
  }

  /** What a consumer that does not stay on its message still has to acknowledge. */
  lemma LeftUnacked(s: State, step: Step, p: nat)
    requires !Stays(step) && !step.Produce? && !step.ChangeCatalogue? && !step.Prune? && step.i < |s.consumers|
    requires Placed(s.consumers[step.i], s.delivered)
    requires (step.Ack? ==> s.consumers[step.i].pc.Acking?) && (step.Publish? ==> s.consumers[step.i].pc.Publishing?)
    ensures Unacked(Left(s, step), p) ==> Unacked(s.consumers[step.i], p) || s.delivered <= p
    ensures step.Ack? ==> Unacked(s.consumers[step.i], s.consumers[step.i].next) && !Unacked(Left(s, step), s.consumers[step.i].next)
  {
  }

  lemma StepAcks(s: State, step: Step, p: nat)
    requires Ownership(s) && Enabled(s, step)
    requires !step.Produce? && !step.ChangeCatalogue? && !step.Prune?
    ensures |Next(s, step).consumers| == |s.consumers| && AckStep(s, Next(s, step), step.i, p)
  {
    hide Next, Enabled, Ownership, AckStep;
    if Stays(step) { StayingAcks(s, step, p); } else { LeavingAcks(s, step, p); }
  }

  /** Without a mishap nothing slips from a consumer's hands. */
  lemma CleanStepAcks(s: State, step: Step, p: nat)
    requires Ownership(s) && Enabled(s, step) && !IsMishap(step)
    requires !step.Produce? && !step.ChangeCatalogue? && !step.Prune?
    ensures |Next(s, step).consumers| == |s.consumers|
    ensures var c, c' := s.consumers[step.i], Next(s, step).consumers[step.i];
      && (Unacked(c, p) ==> Unacked(c', p) || p in Next(s, step).acked)
      && (s.delivered <= p < Next(s, step).delivered ==> Unacked(c', p))
  {
    if Stays(step) {
      StillHeld(s, step);
      StayingMovesOn(s, step);
      hide Next, Enabled, Ownership;
    } else {
      LeavingMoves(s, step);
      hide Next, Enabled, Ownership;
    }
  }

  lemma StillHeld(s: State, step: Step)
    requires Enabled(s, step) && Stays(step)
    ensures !s.consumers[step.i].pc.Publishing?
    ensures !Next(s, step).consumers[step.i].pc.Publishing?
  {
    hide HasEvent, InsertBlocked, ForeignKeysHold, ResolveProject, ResolveApiKeyId, BuildRow;
  }

  lemma OnlyOneAwaits(s: State, i: nat, j: nat, p: nat)
    requires Ownership(s) && i < |s.consumers| && j < |s.consumers| && i != j && Unacked(s.consumers[i], p)
    ensures !Unacked(s.consumers[j], p) && p < s.delivered
  {
    assert Placed(s.consumers[i], s.delivered);
    if i < j { assert Apart(s.consumers[i], s.consumers[j]); } else { assert Apart(s.consumers[j], s.consumers[i]); }
  }

  lemma AwaitedComesFrom(s: State, s': State, i: nat, p: nat)
    requires Ownership(s) && i < |s.consumers| == |s'.consumers| && AckStep(s, s', i, p)
    ensures Awaited(s', p) ==> (Awaited(s, p) && p !in s'.acked - s.acked) || s.delivered <= p
  {
    hide Ownership, Unacked;
    if Awaited(s', p) {
      var j :| 0 <= j < |s'.consumers| && Unacked(s'.consumers[j], p);
      if j == i {
        assert Unacked(s.consumers[i], p) ==> Awaited(s, p);
      } else {
        assert Unacked(s.consumers[j], p) && Awaited(s, p);
        if p in s'.acked - s.acked { OnlyOneAwaits(s, j, i, p); }
      }
    }
  }

  lemma AckedStaysOnce(s: State, s': State, i: nat, p: nat)
    requires Ownership(s) && i < |s.consumers| == |s'.consumers| && AckStep(s, s', i, p) && AckedOnce(s, p)
    ensures AckedOnce(s', p)
  {
    assert Placed(s.consumers[i], s.delivered);
    hide Ownership, Awaited;
    AwaitedComesFrom(s, s', i, p);
  }

  lemma AwaitedStays(s: State, s': State, i: nat, p: nat)
    requires i < |s.consumers| == |s'.consumers| && AckStep(s, s', i, p) && AckedOrAwaited(s, p)
    requires Unacked(s.consumers[i], p) ==> Unacked(s'.consumers[i], p) || p in s'.acked
    requires s.delivered <= p < s'.delivered ==> Unacked(s'.consumers[i], p)
    ensures AckedOrAwaited(s', p)
  {
    if p < s.delivered && Awaited(s, p) {
      var j :| 0 <= j < |s.consumers| && Unacked(s.consumers[j], p);
      if j != i { assert Unacked(s'.consumers[j], p); }
    }
    if Unacked(s'.consumers[i], p) { assert Awaited(s', p); }
  }

  lemma StepKeepsAcks(s: State, step: Step, p: nat)
    requires Ownership(s) && Enabled(s, step)
    ensures AckedOnce(s, p) ==> AckedOnce(Next(s, step), p)
    ensures AckedOrAwaited(s, p) && !IsMishap(step) ==> AckedOrAwaited(Next(s, step), p)
  {
    if step.Produce? || step.ChangeCatalogue? || step.Prune? {
      var s' := Next(s, step);
      assert s'.consumers == s.consumers && s'.acked == s.acked && s'.delivered == s.delivered;
      assert Awaited(s', p) <==> Awaited(s, p);
    } else {
      StepAcks(s, step, p);
      if !IsMishap(step) { CleanStepAcks(s, step, p); }
      hide Next, Enabled, Ownership, AckStep, AckedOnce, AckedOrAwaited, Unacked;
      if AckedOnce(s, p) { AckedStaysOnce(s, Next(s, step), step.i, p); }
      if AckedOrAwaited(s, p) && !IsMishap(step) { AwaitedStays(s, Next(s, step), step.i, p); }
    }
  }

  lemma {:induction false} RunKeepsAcks(s: State, steps: seq<Step>, p: nat)
    requires Ownership(s) && ValidRun(s, steps)
    ensures AckedOnce(s, p) ==> AckedOnce(Final(s, steps), p)
    ensures AckedOrAwaited(s, p) && (forall k | 0 <= k < |steps| :: !IsMishap(steps[k])) ==> AckedOrAwaited(Final(s, steps), p)
    decreases |steps|
  {
    if steps != [] {
      var rest := steps[1..];
      StepKeepsOwnership(s, steps[0]);
      StepKeepsAcks(s, steps[0], p);
      assert forall k | 0 <= k < |rest| :: rest[k] == steps[k + 1];
      hide Next, Enabled, Ownership, AckedOnce, AckedOrAwaited;
      RunKeepsAcks(Next(s, steps[0]), rest, p);
    }
  }

  /** A pending message is not acknowledged yet. */
  lemma PendingIsAwaited(s: State, p: nat)
    ensures Pending(s, p) ==> Awaited(s, p)
    ensures (forall i | 0 <= i < |s.consumers| :: s.consumers[i].pc.Idle?) ==> (Pending(s, p) <==> Awaited(s, p))
  {
    if Pending(s, p) {
      var i :| 0 <= i < |s.consumers| && Holds(s.consumers[i], p);
      assert Unacked(s.consumers[i], p);
    }
    if Awaited(s, p) {
      var i :| 0 <= i < |s.consumers| && Unacked(s.consumers[i], p);
      assert s.consumers[i].pc.Idle? ==> Holds(s.consumers[i], p);
    }
  }

  lemma InitAcks(n: nat, c: Catalogue, p: nat)
    ensures Ownership(Init(n, c)) && AckedOnce(Init(n, c), p) && AckedOrAwaited(Init(n, c), p)
  {
  }

  /**
   * In every reachable state an acknowledged message was delivered, is no longer held by any
   * consumer to be acknowledged, and was either serialised or given up on: an ack does not mean a row.
   */
  lemma AckedMessagesAreSettled(n: nat, c: Catalogue, steps: seq<Step>, p: nat)
    requires ValidRun(Init(n, c), steps) && p in Final(Init(n, c), steps).acked
    ensures var s := Final(Init(n, c), steps);
      && p < s.delivered && !Awaited(s, p) && !Pending(s, p)
      && (InSerial(s.serial, p) <==> p !in s.dropped)
  {
    InitAcks(n, c, p);
    RunKeepsAcks(Init(n, c), steps, p);
    IngestIsSerialisable(n, c, steps);
    var s := Final(Init(n, c), steps);
    assert OneFate(s, p);
    PendingIsAwaited(s, p);
    hide Init, Final, ValidRun, Pending, Awaited;
  }

  /**
   * In a run with no crash and no error the acknowledged messages are exactly the delivered ones
   * nobody holds for acknowledging, and all of them are in the serial order; once every consumer
   * is idle they are exactly the delivered ones no longer pending.
   */
  lemma CleanRunsAcknowledge(n: nat, c: Catalogue, steps: seq<Step>, p: nat)
    requires ValidRun(Init(n, c), steps)
    requires forall k | 0 <= k < |steps| :: !IsMishap(steps[k])
    ensures var s := Final(Init(n, c), steps);
      && (p in s.acked <==> p < s.delivered && !Awaited(s, p))
      && (p in s.acked ==> InSerial(s.serial, p))
      && ((forall i | 0 <= i < |s.consumers| :: s.consumers[i].pc.Idle?) ==> (p in s.acked <==> p < s.delivered && !Pending(s, p)))
  {
    InitAcks(n, c, p);
    RunKeepsAcks(Init(n, c), steps, p);
    WithoutFailuresNothingIsWrittenOff(Init(n, c), steps);
    var s := Final(Init(n, c), steps);
    assert s.dropped == {};
    PendingIsAwaited(s, p);
    if p in s.acked { AckedMessagesAreSettled(n, c, steps, p); }
    hide Init, Final, ValidRun, Pending, Awaited;
  }

  /**
   * In such a run, once all messages delivered have been acknowledged and every consumer is idle,
   * deltas and stored rows agree as multisets, so every column has the same total.
   */
  lemma AcknowledgedRunsConserveTotals(n: nat, c: Catalogue, steps: seq<Step>, column: Row -> real)
    requires ValidRun(Init(n, c), steps)
    requires forall k | 0 <= k < |steps| :: !IsMishap(steps[k])
    requires forall i | 0 <= i < |Final(Init(n, c), steps).consumers| :: Final(Init(n, c), steps).consumers[i].pc.Idle?
    requires forall p: nat | p < Final(Init(n, c), steps).delivered :: p in Final(Init(n, c), steps).acked
    ensures var s := Final(Init(n, c), steps);
      && (forall r :: Count(s.published, r) == Count(s.stored, r))
      && SumBy(s.published, column) == SumBy(s.stored, column)
      && (forall p: nat :: InSerial(s.serial, p) <==> p < s.delivered)
  {
    CleanRunsConserveTotals(n, c, steps, column);
    IngestIsSerialisable(n, c, steps);
    var s := Final(Init(n, c), steps);
    forall p: nat ensures InSerial(s.serial, p) <==> p < s.delivered {
      CleanRunsAcknowledge(n, c, steps, p);
      assert OneFate(s, p);
    }
  }
}
