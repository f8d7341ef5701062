/** Theorems about whole runs of the ingest protocol, from the empty table, under every interleaving. */
module RequestIngestRuns {
  import opened Wrappers
  import opened RequestIngest
  import opened RequestIngestSafety
  import opened RequestIngestLedger
  import opened RequestIngestRows

  ghost predicate Inv(s: State) {
    Ownership(s) && TableInv(s) && Accounted(s) && DeltasBalance(s) && RowsTraced(s) && RowsHaveSources(s)
  }

  lemma {:induction false} NothingCarriedAtStart(cs: seq<Consumer>, r: Row)
    requires forall i | 0 <= i < |cs| :: cs[i].pc.Idle?
    ensures Carried(cs, r) == 0
    decreases |cs|
  {
    if cs != [] {
      NothingCarriedAtStart(cs[..|cs| - 1], r);
    }
  }

  lemma InitHolds(n: nat, c: Catalogue)
    ensures Inv(Init(n, c))
  {
    var s := Init(n, c);
    forall r ensures Balanced(s, r) {
      NothingCarriedAtStart(s.consumers, r);
    }
    forall p: nat ensures OneFate(s, p) {
    }
  }

  lemma {:induction false} RunKeepsInv(s: State, steps: seq<Step>)
    requires Inv(s) && ValidRun(s, steps)
    ensures Inv(Final(s, steps))
    decreases |steps|
  {
    if steps != [] {
      StepKeepsOwnership(s, steps[0]);
      StepKeepsTable(s, steps[0]);
      StepKeepsAccount(s, steps[0]);
      StepKeepsBalance(s, steps[0]);
      StepKeepsTraces(s, steps[0]);
      StepKeepsSources(s, steps[0]);
      hide Next, Ownership, TableInv, Accounted, DeltasBalance, RowsTraced, RowsHaveSources;
      RunKeepsInv(Next(s, steps[0]), steps[1..]);
    }
  }

  // ----- main theorems -----

  /**
   * Serialisability: the committed table is what a one-at-a-time run of "insert if the
   * event id is new and the event is attributable" leaves behind. That run takes every
   * delivered event exactly once, except those given up on and those still in progress.
   * The replay is given twice: by the reference functions, and as a sequence of tables
   * each of which gains at most the row of one event.
   */
  lemma IngestIsSerialisable(n: nat, c: Catalogue, steps: seq<Step>)
    requires ValidRun(Init(n, c), steps)
    ensures var s := Final(Init(n, c), steps);
      && ValidOps(s.serial, |s.stream|, |s.catalogues|)
      && s.committed == RunSerial(s.serial, s.stream, s.catalogues)
      && (exists tables :: IsReplay(tables, s.serial, s.stream, s.catalogues) && tables[|s.serial|] == s.committed)
      && DistinctPositions(s.serial)
      && forall p: nat :: OneFate(s, p)
  {
    InitHolds(n, c);
    RunKeepsInv(Init(n, c), steps);
    var s := Final(Init(n, c), steps);
    var tables := SerialRunIsReplay(s.serial, s.stream, s.catalogues);
  }

  /**
   * Every row ever committed, or announced after a commit that raised, is that of a
   * delivered message: its columns are the message's, and its project and key are the
   * message's own or those of the first unrevoked key with the message's prefix, in
   * catalogue versions that were in force. A row still in the table is one of them.
   */
  lemma RowsComeFromTheirMessages(n: nat, c: Catalogue, steps: seq<Step>)
    requires ValidRun(Init(n, c), steps)
    ensures var s := Final(Init(n, c), steps);
      && s.delivered <= |s.stream|
      && (forall r | r in s.committed :: r in s.stored)
      && forall r: Row | r in s.stored || r in s.phantom ::
        r.id < s.delivered && exists seen :: IsRowOf(r, r.id, s.stream[r.id], seen, s.catalogues)
  {
    InitHolds(n, c);
    RunKeepsInv(Init(n, c), steps);
    var s := Final(Init(n, c), steps);
    forall r: Row | r in s.stored || r in s.phantom
      ensures r.id < s.delivered && exists seen :: IsRowOf(r, r.id, s.stream[r.id], seen, s.catalogues)
    {
      assert OneFate(s, r.id) && HasSource(s, r);
    }
  }

  /** The event of a row names a project, or its prefix was some unrevoked key's: other events get no row and no delta. */
  lemma RowsAreAttributable(n: nat, c: Catalogue, steps: seq<Step>, r: Row)
    requires ValidRun(Init(n, c), steps)
    requires var s := Final(Init(n, c), steps); r in s.stored || r in s.phantom || r in s.published
    ensures var s := Final(Init(n, c), steps);
      && r.id < |s.stream|
      && (s.stream[r.id].projectId.Some?
          || (s.stream[r.id].keyPrefix != ""
              && exists v: nat :: v < |s.catalogues| && SomeLive(s.catalogues[v].keys, s.stream[r.id].keyPrefix)))
  {
    RowsComeFromTheirMessages(n, c, steps);
    InitHolds(n, c);
    RunKeepsInv(Init(n, c), steps);
    var s := Final(Init(n, c), steps);
    if r in s.published { PublishedHasSource(s, r); }
    var seen :| IsRowOf(r, r.id, s.stream[r.id], seen, s.catalogues);
    if s.stream[r.id].projectId.None? {
      var k: nat :| FirstLiveAt(s.catalogues[seen.forProject].keys, s.stream[r.id].keyPrefix, k);
      assert SomeLive(s.catalogues[seen.forProject].keys, s.stream[r.id].keyPrefix);
    }
  }

  /** The existence check and the insert are not atomic, yet no event id is ever in two rows. */
  lemma OneRowPerEvent(n: nat, c: Catalogue, steps: seq<Step>)
    requires ValidRun(Init(n, c), steps)
    ensures DistinctEvents(Final(Init(n, c), steps).committed)
  {
    InitHolds(n, c);
    RunKeepsInv(Init(n, c), steps);
  }

  /** With no retention deletes, an event id has a row exactly when some serialised event with it is attributable. */
  lemma {:induction false} ServedExactly(ops: seq<SerialOp>, stream: seq<Message>, catalogues: seq<Catalogue>, id: string)
    requires ValidOps(ops, |stream|, |catalogues|)
    requires forall k | 0 <= k < |ops| :: ops[k].Ingested?
    ensures HasEvent(RunSerial(ops, stream, catalogues), id) <==>
      SomeAttributes(ops, stream, catalogues, id)
    decreases |ops|
  {
    hide *;
    LastServed(ops, stream, catalogues);
    SomeAttributesSnoc(ops, stream, catalogues, id);
    if ops != [] {
      var n := |ops| - 1;
      ServedExactly(ops[..n], stream, catalogues, id);
      OneMoreServed(RunSerial(ops[..n], stream, catalogues), ops[n], stream, catalogues, id);
    } else {
      NothingServed(RunSerial(ops, stream, catalogues), id);
    }
  }

  lemma NothingServed(table: seq<Row>, id: string)
    requires table == []
    ensures !HasEvent(table, id)
  {
  }

  lemma LastServed(ops: seq<SerialOp>, stream: seq<Message>, catalogues: seq<Catalogue>)
    requires ValidOps(ops, |stream|, |catalogues|)
    requires forall k | 0 <= k < |ops| :: ops[k].Ingested?
    ensures ops == [] ==> RunSerial(ops, stream, catalogues) == []
    ensures ops != [] ==>
      var n := |ops| - 1;
      && ValidOps(ops[..n], |stream|, |catalogues|) && ValidOp(ops[n], |stream|, |catalogues|) && ops[n].Ingested?
      && (forall k | 0 <= k < n :: ops[..n][k].Ingested?)
      && ops[n].pos < |stream| && ops[n].seen.forProject < |catalogues| && ops[n].seen.forKey < |catalogues|
      && ops[n].seen.forInsert < |catalogues|
      && RunSerial(ops, stream, catalogues)
         == AtomicIngest(RunSerial(ops[..n], stream, catalogues), ops[n].pos, stream[ops[n].pos], ops[n].seen, catalogues)
  {
    hide AtomicIngest;
    if ops != [] { assert ValidOp(ops[|ops| - 1], |stream|, |catalogues|); }
  }

  lemma SomeAttributesSnoc(ops: seq<SerialOp>, stream: seq<Message>, catalogues: seq<Catalogue>, id: string)
    ensures ops == [] ==> !SomeAttributes(ops, stream, catalogues, id)
    ensures ops != [] ==>
      (SomeAttributes(ops, stream, catalogues, id)
       <==> SomeAttributes(ops[..|ops| - 1], stream, catalogues, id) || Attributes(ops[|ops| - 1], stream, catalogues, id))
  {
    hide Attributes;
    if ops != [] {
      var front := ops[..|ops| - 1];
      if k :| 0 <= k < |front| && Attributes(ops[k], stream, catalogues, id) {
        assert Attributes(front[k], stream, catalogues, id);
      }
      if k :| 0 <= k < |front| && Attributes(front[k], stream, catalogues, id) {
        assert Attributes(ops[k], stream, catalogues, id);
      }
    }
  }

  lemma OneMoreServed(table: seq<Row>, op: SerialOp, stream: seq<Message>, catalogues: seq<Catalogue>, id: string)
    requires ValidOp(op, |stream|, |catalogues|) && op.Ingested?
    ensures HasEvent(AtomicIngest(table, op.pos, stream[op.pos], op.seen, catalogues), id)
       <==> HasEvent(table, id) || Attributes(op, stream, catalogues, id)
  {
    var after := AtomicIngest(table, op.pos, stream[op.pos], op.seen, catalogues);
    AtomicIngestIsSerialStep(table, op.pos, op.seen, stream, catalogues);
    HasEventIffRow(table, id);
    HasEventIffRow(after, id);
    hide AtomicIngest, HasEvent, IsRowOf;
    if Attributes(op, stream, catalogues, id) && !HasEvent(table, id) {
      var r: Row :| r.eventId == id && IsRowOf(r, op.pos, stream[op.pos], op.seen, catalogues);
      assert IsNewRow(table, r, op, stream, catalogues);
    }
  }

  ghost predicate SomeAttributes(ops: seq<SerialOp>, stream: seq<Message>, catalogues: seq<Catalogue>, id: string) {
    exists k | 0 <= k < |ops| :: Attributes(ops[k], stream, catalogues, id)
  }

  ghost predicate Attributes(op: SerialOp, stream: seq<Message>, catalogues: seq<Catalogue>, id: string) {
    && ValidOp(op, |stream|, |catalogues|) && op.Ingested?
    && exists r: Row :: r.eventId == id && IsRowOf(r, op.pos, stream[op.pos], op.seen, catalogues)
  }

  /**
   * Delta conservation in every reachable state: each row that was committed, or whose
   * commit raised, is in exactly one of three places: its delta was attempted, its delta
   * is lost, or a consumer still carries it. No row gets two deltas, and a delta names
   * a stored row exactly when that row's commit did not raise.
   */
  lemma DeltasAreConserved(n: nat, c: Catalogue, steps: seq<Step>)
    requires ValidRun(Init(n, c), steps)
    ensures var s := Final(Init(n, c), steps);
      && (forall r :: Balanced(s, r))
      && DistinctIds(s.published)
      && (forall r | r in s.published :: r in s.stored <==> r !in s.phantom)
  {
    InitHolds(n, c);
    RunKeepsInv(Init(n, c), steps);
    var s := Final(Init(n, c), steps);
    forall r | r in s.published ensures r in s.stored <==> r !in s.phantom {
      PublishedHasSource(s, r);
      assert OneFate(s, r.id);
    }
    forall k, l | 0 <= k < l < |s.published| ensures s.published[k].id != s.published[l].id {
      PublishedHasSource(s, s.published[k]);
      PublishedHasSource(s, s.published[l]);
      assert OneFate(s, s.published[k].id);
      if s.published[k].id == s.published[l].id {
        assert s.published[k] == s.published[l];
        NoDoubleCount(s, s.published[k]);
        TwoOccurrences(s.published, k, l);
      }
    }
  }

  lemma PublishedHasSource(s: State, r: Row)
    requires Inv(s) && r in s.published
    ensures r in s.stored || r in s.phantom
  {
    assert Balanced(s, r);
    CountIffIn(s.published, r);
    CountIffIn(s.stored, r);
    CountIffIn(s.phantom, r);
  }

  lemma NoDoubleCount(s: State, r: Row)
    requires Inv(s)
    ensures Count(s.published, r) <= 1
  {
    assert Balanced(s, r) && OneFate(s, r.id);
    CountIffIn(s.stored, r);
    CountIffIn(s.phantom, r);
    AtMostOnce(s.stored, r);
    AtMostOnce(s.phantom, r);
  }

  lemma {:induction false} CountIffIn(rows: seq<Row>, r: Row)
    ensures Count(rows, r) > 0 <==> r in rows
    decreases |rows|
  {
    if rows != [] {
      CountIffIn(rows[..|rows| - 1], r);
      assert rows == rows[..|rows| - 1] + [rows[|rows| - 1]];
    }
  }

  lemma {:induction false} AtMostOnce(rows: seq<Row>, r: Row)
    requires DistinctIds(rows)
    ensures Count(rows, r) <= 1
    decreases |rows|
  {
    if rows != [] {
      AtMostOnce(rows[..|rows| - 1], r);
      CountIffIn(rows[..|rows| - 1], r);
    }
  }

  lemma {:induction false} TwoOccurrences(rows: seq<Row>, k: nat, l: nat)
    requires k < l < |rows| && rows[k] == rows[l]
    ensures Count(rows, rows[k]) >= 2
    decreases |rows|
  {
    var front := rows[..|rows| - 1];
    if l == |rows| - 1 {
      assert front[k] == rows[k];
      CountIffIn(front, rows[k]);
    } else {
      TwoOccurrences(front, k, l);
    }
  }

  // ----- when a delta names no row -----

  lemma {:induction false} RunSnoc(s: State, steps: seq<Step>, step: Step)
    requires ValidRun(s, steps) && Enabled(Final(s, steps), step)
    ensures ValidRun(s, steps + [step]) && Final(s, steps + [step]) == Next(Final(s, steps), step)
    decreases |steps|
  {
    if steps == [] {
      assert [step][1..] == [];
      assert ValidRun(Next(s, step), []);
    } else {
      assert (steps + [step])[1..] == steps[1..] + [step];
      RunSnoc(Next(s, steps[0]), steps[1..], step);
    }
  }

  lemma UncommittedRowIsNew(s: State, i: nat)
    requires Inv(s) && i < |s.consumers| && s.consumers[i].pc.CommittingRow?
    ensures s.consumers[i].pc.row !in s.stored
  {
    var c := s.consumers[i];
    assert Faithful(s, c) && Placed(c, s.delivered) && OneFate(s, c.next) && Holds(c, c.next);
  }

  /** A commit that raises leaves `persisted` set: the next ack and publish announce a row that is not in the table. */
  lemma FailedCommitIsAnnounced(s: State, i: nat)
    requires Inv(s) && Enabled(s, CommitRaises(i)) && s.consumers[i].pc.CommittingRow?
    ensures Enabled(DoCommitRaises(s, i), Ack(i))
    ensures Enabled(DoAck(DoCommitRaises(s, i), i), Publish(i))
    ensures var s' := Next(DoAck(DoCommitRaises(s, i), i), Publish(i));
      && s'.published == s.published + [s.consumers[i].pc.row]
      && s'.stored == s.stored && s'.committed == s.committed
      && s.consumers[i].pc.row !in s'.stored
  {
    UncommittedRowIsNew(s, i);
    hide Inv;
    FailedCommitStep(s, i);
    var raised := DoCommitRaises(s, i);
    hide DoCommitRaises, Enabled;
    AnnounceSteps(raised, i, s.consumers[i].pc.row);
  }

  lemma FailedCommitStep(s: State, i: nat)
    requires Enabled(s, CommitRaises(i)) && s.consumers[i].pc.CommittingRow?
    ensures var s' := DoCommitRaises(s, i);
      && i < |s'.consumers| && s'.consumers[i].pc == Acking(Some(s.consumers[i].pc.row))
      && s'.published == s.published && s'.stored == s.stored && s'.committed == s.committed
      && |s'.catalogues| > 0 && s'.delivered <= |s'.stream|
  {
  }

  /** From a carried row to its delta. */
  lemma AnnounceSteps(s: State, i: nat, row: Row)
    requires |s.catalogues| > 0 && s.delivered <= |s.stream| && i < |s.consumers| && s.consumers[i].pc == Acking(Some(row))
    ensures Enabled(s, Ack(i)) && Enabled(DoAck(s, i), Publish(i))
    ensures var s' := Next(DoAck(s, i), Publish(i));
      s'.published == s.published + [row] && s'.stored == s.stored && s'.committed == s.committed
  {
    var acked := DoAck(s, i);
    assert acked.consumers[i].pc == Publishing(row);
    assert acked.published == s.published && acked.stored == s.stored && acked.committed == s.committed;
    assert Enabled(acked, Publish(i));
    hide DoAck;
  }

  const WITNESS := Message("1-0", "e", Some(7), "", None, None, None, "gpt", 1.0, 2, 3)
  const WITNESS_ROW := BuildRow(0, WITNESS, 7, None)
  const WITNESS_CATALOGUE := Catalogue({7}, {}, {}, [])

  function WitnessState(pc: Pc): State {
    Init(1, WITNESS_CATALOGUE).(stream := [WITNESS], delivered := 1, consumers := [Consumer(pc, 0, 1)])
  }

  ghost predicate Leads(s: State, step: Step, t: State) {
    Enabled(s, step) && Next(s, step) == t
  }

  lemma WitnessStarts()
    ensures var s0 := Init(1, WITNESS_CATALOGUE); Leads(s0, Produce(WITNESS), s0.(stream := [WITNESS]))
  {
  }

  lemma WitnessIsRead()
    ensures Leads(Init(1, WITNESS_CATALOGUE).(stream := [WITNESS]), Read(0, 1), WitnessState(Idle))
    ensures Leads(WitnessState(Idle), Begin(0), WitnessState(Checking))
  {
  }

  lemma WitnessIsChecked()
    ensures Leads(WitnessState(Checking), Check(0), WitnessState(Resolving))
    ensures Leads(WitnessState(Resolving), Resolve(0), WitnessState(LookingUpKey(7, 0)))
  {
  }

  lemma WitnessIsInserted()
    ensures Leads(WitnessState(LookingUpKey(7, 0)), LookUpKey(0), WitnessState(Inserting(WITNESS_ROW, 0, 0)))
    ensures Leads(WitnessState(Inserting(WITNESS_ROW, 0, 0)), Insert(0),
                  WitnessState(CommittingRow(WITNESS_ROW, Seen(0, 0, 0))))
  {
  }

  ghost predicate Reaches(s: State, steps: seq<Step>, t: State) {
    ValidRun(s, steps) && Final(s, steps) == t
  }

  lemma ReachOneMore(s: State, steps: seq<Step>, t: State, step: Step, u: State)
    requires Reaches(s, steps, t) && Leads(t, step, u)
    ensures Reaches(s, steps + [step], u)
  {
    RunSnoc(s, steps, step);
  }

  lemma WitnessReachesCommit() returns (steps: seq<Step>)
    ensures Reaches(Init(1, WITNESS_CATALOGUE), steps, WitnessState(CommittingRow(WITNESS_ROW, Seen(0, 0, 0))))
  {
    hide Leads;
    var s0 := Init(1, WITNESS_CATALOGUE);
    WitnessStarts();
    WitnessIsRead();
    WitnessIsChecked();
    WitnessIsInserted();
    steps := [];
    assert Reaches(s0, [], s0);
    ReachOneMore(s0, steps, s0, Produce(WITNESS), s0.(stream := [WITNESS]));
    steps := steps + [Produce(WITNESS)];
    ReachOneMore(s0, steps, s0.(stream := [WITNESS]), Read(0, 1), WitnessState(Idle));
    steps := steps + [Read(0, 1)];
    ReachOneMore(s0, steps, WitnessState(Idle), Begin(0), WitnessState(Checking));
    steps := steps + [Begin(0)];
    ReachOneMore(s0, steps, WitnessState(Checking), Check(0), WitnessState(Resolving));
    steps := steps + [Check(0)];
    ReachOneMore(s0, steps, WitnessState(Resolving), Resolve(0), WitnessState(LookingUpKey(7, 0)));
    steps := steps + [Resolve(0)];
    var inserting := Inserting(WITNESS_ROW, 0, 0);
    ReachOneMore(s0, steps, WitnessState(LookingUpKey(7, 0)), LookUpKey(0), WitnessState(inserting));
    steps := steps + [LookUpKey(0)];
    ReachOneMore(s0, steps, WitnessState(inserting), Insert(0), WitnessState(CommittingRow(WITNESS_ROW, Seen(0, 0, 0))));
    steps := steps + [Insert(0)];
  }

  /** ... and such a commit is reached from the empty table: not every delta names a stored row. */
  lemma SomeDeltaNamesNoRow() returns (steps: seq<Step>)
    ensures ValidRun(Init(1, WITNESS_CATALOGUE), steps)
    ensures Final(Init(1, WITNESS_CATALOGUE), steps).published == [WITNESS_ROW]
    ensures Final(Init(1, WITNESS_CATALOGUE), steps).stored == []
  {
    var s0 := Init(1, WITNESS_CATALOGUE);
    steps := WitnessReachesCommit();
    var raised := WitnessState(Acking(Some(WITNESS_ROW))).(phantom := [WITNESS_ROW], dropped := {0});
    var acked := raised.(consumers := [Consumer(Publishing(WITNESS_ROW), 0, 1)], acked := {0});
    var told := acked.(consumers := [Consumer(Idle, 1, 1)], published := [WITNESS_ROW]);
    WitnessIsAnnounced(raised, acked, told);
    hide Leads;
    ReachOneMore(s0, steps, WitnessState(CommittingRow(WITNESS_ROW, Seen(0, 0, 0))), CommitRaises(0), raised);
    ReachOneMore(s0, steps + [CommitRaises(0)], raised, Ack(0), acked);
    ReachOneMore(s0, steps + [CommitRaises(0)] + [Ack(0)], acked, Publish(0), told);
    steps := steps + [CommitRaises(0)] + [Ack(0)] + [Publish(0)];
  }

  lemma WitnessIsAnnounced(raised: State, acked: State, told: State)
    requires raised == WitnessState(Acking(Some(WITNESS_ROW))).(phantom := [WITNESS_ROW], dropped := {0})
    requires acked == raised.(consumers := [Consumer(Publishing(WITNESS_ROW), 0, 1)], acked := {0})
    requires told == acked.(consumers := [Consumer(Idle, 1, 1)], published := [WITNESS_ROW])
    ensures Leads(WitnessState(CommittingRow(WITNESS_ROW, Seen(0, 0, 0))), CommitRaises(0), raised)
    ensures Leads(raised, Ack(0), acked) && Leads(acked, Publish(0), told)
  {
  }

  predicate IsMishap(step: Step) {
    step.ReadReplyLost? || step.CommitRaises? || step.IngestRaises? || step.AckRaises? || step.Crash?
  }

  lemma {:induction false} WithoutFailuresNothingIsWrittenOff(s: State, steps: seq<Step>)
    requires ValidRun(s, steps)
    ensures (forall k | 0 <= k < |steps| :: !steps[k].CommitRaises?) ==> Final(s, steps).phantom == s.phantom
    ensures (forall k | 0 <= k < |steps| :: !IsMishap(steps[k])) ==>
      Final(s, steps).lost == s.lost && Final(s, steps).dropped == s.dropped && Final(s, steps).phantom == s.phantom
    decreases |steps|
  {
    if steps != [] {
      var s', rest := Next(s, steps[0]), steps[1..];
      WithoutFailuresNothingIsWrittenOff(s', rest);
      assert forall k | 0 <= k < |rest| :: rest[k] == steps[k + 1];
    }
  }

  /** If no commit raises, every delta names a row that was stored. */
  lemma DeltasNameStoredRows(n: nat, c: Catalogue, steps: seq<Step>)
    requires ValidRun(Init(n, c), steps)
    requires forall k | 0 <= k < |steps| :: !steps[k].CommitRaises?
    ensures forall r | r in Final(Init(n, c), steps).published :: r in Final(Init(n, c), steps).stored
  {
    DeltasAreConserved(n, c, steps);
    WithoutFailuresNothingIsWrittenOff(Init(n, c), steps);
  }

  // ----- failure-free runs -----

  ghost function SumBy(rows: seq<Row>, column: Row -> real): real
    decreases |rows|
  {
    if rows == [] then 0.0 else SumBy(rows[..|rows| - 1], column) + column(rows[|rows| - 1])
  }

  lemma {:induction false} SumByConcat(a: seq<Row>, b: seq<Row>, column: Row -> real)
    ensures SumBy(a + b, column) == SumBy(a, column) + SumBy(b, column)
    decreases |b|
  {
    if b == [] {
      assert a + b == a;
    } else {
      assert (a + b)[..|a + b| - 1] == a + b[..|b| - 1];
      SumByConcat(a, b[..|b| - 1], column);
    }
  }

  lemma {:induction false} SameCountsSameSum(a: seq<Row>, b: seq<Row>, column: Row -> real)
    requires forall r :: Count(a, r) == Count(b, r)
    ensures SumBy(a, column) == SumBy(b, column)
    decreases |a|
  {
    if a == [] {
      if b != [] {
        assert Count(a, b[0]) == Count(b, b[0]);
        CountIffIn(b, b[0]);
      }
    } else {
      var front, x := a[..|a| - 1], a[|a| - 1];
      CountIffIn(a, x);
      CountIffIn(b, x);
      var k :| 0 <= k < |b| && b[k] == x;
      var pre, post := b[..k], b[k + 1..];
      assert b == pre + [x] + post;
      forall r ensures Count(front, r) == Count(pre + post, r) {
        CountConcat(pre + [x], post, r);
        CountConcat(pre, [x], r);
        CountConcat(pre, post, r);
        CountOne(x, r);
        assert Count(a, r) == Count(b, r);
      }
      SameCountsSameSum(front, pre + post, column);
      SumByConcat(pre + [x], post, column);
      SumByConcat(pre, [x], column);
      SumByConcat(pre, post, column);
      assert [x][..0] == [];
    }
  }

  lemma CountOne(x: Row, r: Row)
    ensures Count([x], r) == if x == r then 1 else 0
  {
    assert [x][..0] == [];
  }

  /**
   * In a run with no crash and no error, once no consumer is between a commit and its
   * publish, the deltas are the stored rows: every column sums to the same total, and
   * every delivered event that is not still pending has been serialised.
   */
  lemma CleanRunsConserveTotals(n: nat, c: Catalogue, steps: seq<Step>, column: Row -> real)
    requires ValidRun(Init(n, c), steps)
    requires forall k | 0 <= k < |steps| :: !IsMishap(steps[k])
    requires forall i | 0 <= i < |Final(Init(n, c), steps).consumers| :: Final(Init(n, c), steps).consumers[i].pc.Idle?
    ensures var s := Final(Init(n, c), steps);
      && (forall r :: Count(s.published, r) == Count(s.stored, r))
      && SumBy(s.published, column) == SumBy(s.stored, column)
      && (forall p: nat | p < s.delivered && !Pending(s, p) :: InSerial(s.serial, p))
  {
    DeltasAreConserved(n, c, steps);
    IngestIsSerialisable(n, c, steps);
    WithoutFailuresNothingIsWrittenOff(Init(n, c), steps);
    var s := Final(Init(n, c), steps);
    forall r ensures Count(s.published, r) == Count(s.stored, r) {
      assert Balanced(s, r);
      NothingCarriedAtStart(s.consumers, r);
    }
    SameCountsSameSum(s.published, s.stored, column);
    forall p: nat | p < s.delivered && !Pending(s, p) ensures InSerial(s.serial, p) {
      assert OneFate(s, p);
    }
  }
}
