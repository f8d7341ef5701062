/**
 * Gateway request ingest: many consumers of one Redis consumer group drain the
 * completion stream into the `request` table and publish dashboard deltas.
 *
 * Every await of the consumer loop is one step, so the existence check, the two
 * key lookups, the insert, the commit, the ack and the publish of one consumer
 * interleave freely with those of the others, with producers, with catalogue
 * changes and with retention deletes. Any step may fail and any consumer may die.
 */
module RequestIngest {
  import opened Wrappers

  type Uuid = nat

  /** One stream entry, its fields already coerced; "" is an absent string. */
  datatype Message = Message(
    entryId: string, eventId: string, projectId: Option<Uuid>, keyPrefix: string,
    apiKeyId: Option<Uuid>, routingPolicyId: Option<Uuid>, providerId: Option<Uuid>,
    modelId: string, costUsd: real, inputTokens: int, outputTokens: int)

  datatype ApiKey = ApiKey(id: Uuid, prefix: string, projectId: Uuid, revoked: bool)

  /** The tables an event refers to. */
  datatype Catalogue = Catalogue(
    projects: set<Uuid>, policies: set<Uuid>, providers: set<Uuid>, keys: seq<ApiKey>)

  /** A `request` row. `id` is the stream position it came from: a fresh key. */
  datatype Row = Row(
    id: nat, eventId: string, projectId: Uuid, apiKeyId: Option<Uuid>,
    routingPolicyId: Option<Uuid>, providerId: Option<Uuid>,
    modelId: string, costUsd: real, inputTokens: int, outputTokens: int)

  const BATCH := 100

  // ----- what one event turns into -----

  function StreamEventId(m: Message): string {
    if m.eventId != "" then m.eventId else m.entryId
  }

  function FirstLiveKey(keys: seq<ApiKey>, prefix: string): Option<ApiKey> {
    if keys == [] then None
    else if keys[0].prefix == prefix && !keys[0].revoked then Some(keys[0])
    else FirstLiveKey(keys[1..], prefix)
  }

  function ResolveProject(m: Message, c: Catalogue): Option<Uuid> {
    if m.projectId.Some? then m.projectId
    else if m.keyPrefix == "" then None
    else match FirstLiveKey(c.keys, m.keyPrefix)
      case Some(key) => Some(key.projectId)
      case None => None
  }

  function ResolveApiKeyId(m: Message, c: Catalogue): Option<Uuid> {
    if m.keyPrefix == "" then m.apiKeyId
    else match FirstLiveKey(c.keys, m.keyPrefix)
      case Some(key) => Some(key.id)
      case None => None
  }

  function BuildRow(pos: nat, m: Message, project: Uuid, apiKey: Option<Uuid>): Row {
    Row(pos, StreamEventId(m), project, apiKey, m.routingPolicyId, m.providerId,
        if m.modelId != "" then m.modelId else "unknown", m.costUsd, m.inputTokens, m.outputTokens)
  }

  predicate ForeignKeysHold(r: Row, c: Catalogue) {
    && r.projectId in c.projects
    && (r.apiKeyId.Some? ==> exists k | 0 <= k < |c.keys| :: c.keys[k].id == r.apiKeyId.value)
    && (r.routingPolicyId.Some? ==> r.routingPolicyId.value in c.policies)
    && (r.providerId.Some? ==> r.providerId.value in c.providers)
  }

  predicate HasEvent(table: seq<Row>, eventId: string) {
    exists k | 0 <= k < |table| :: table[k].eventId == eventId
  }

  // ----- the concurrent system -----

  /** Which catalogue version each of the three reads of one ingest saw. */
  datatype Seen = Seen(forProject: nat, forKey: nat, forInsert: nat)

  datatype Pc =
    | Idle
    | Checking
    | Resolving
    | LookingUpKey(project: Uuid, forProject: nat)
    | Inserting(row: Row, forProject: nat, forKey: nat)
    | CommittingRow(row: Row, seen: Seen)
    | CommittingNothing
    | Acking(persisted: Option<Row>)
    | Publishing(row: Row)

  /** A consumer holds the delivered stream positions [next, limit); when it is not idle it works on `next`. */
  datatype Consumer = Consumer(pc: Pc, next: nat, limit: nat)

  /** The one-at-a-time operations the table is claimed to be a run of. */
  datatype SerialOp = Ingested(pos: nat, seen: Seen) | Pruned(ids: set<nat>)

  datatype State = State(
    stream: seq<Message>,       // everything ever XADDed
    delivered: nat,             // the group's last-delivered position
    consumers: seq<Consumer>,
    committed: seq<Row>,        // the `request` table
    acked: set<nat>,
    published: seq<Row>,        // rows whose delta was attempted
    catalogues: seq<Catalogue>, // versions; the last one is current
    // history, read by no step's guard
    stored: seq<Row>,           // every row ever committed
    phantom: seq<Row>,          // rows whose commit raised and took no effect
    lost: seq<Row>,             // rows whose delta will never be attempted
    dropped: set<nat>,          // positions given up on
    serial: seq<SerialOp>)

  datatype Step =
    | Produce(m: Message)
    | ChangeCatalogue(c: Catalogue)
    | Prune(ids: set<nat>)
    | Read(i: nat, count: nat)
    | ReadReplyLost(i: nat, count: nat)
    | Begin(i: nat)
    | Check(i: nat)
    | Resolve(i: nat)
    | LookUpKey(i: nat)
    | Insert(i: nat)
    | Commit(i: nat)
    | CommitRaises(i: nat)
    | IngestRaises(i: nat)
    | Ack(i: nat)
    | AckRaises(i: nat)
    | Publish(i: nat)
    | Crash(i: nat)

  function Init(n: nat, c: Catalogue): State {
    State([], 0, seq(n, _ => Consumer(Idle, 0, 0)), [], {}, [], [c], [], [], [], {}, [])
  }

  /** Another transaction holds an uncommitted row with this event id, so the unique index makes an insert wait. */
  predicate InsertBlocked(s: State, i: nat, eventId: string) {
    exists j | 0 <= j < |s.consumers| ::
      j != i && s.consumers[j].pc.CommittingRow? && s.consumers[j].pc.row.eventId == eventId
  }

  predicate InIngest(pc: Pc) {
    pc.Checking? || pc.Resolving? || pc.LookingUpKey? || pc.Inserting?
  }

  predicate Enabled(s: State, step: Step) {
    && |s.catalogues| > 0 && s.delivered <= |s.stream|
    && (step.Produce? || step.ChangeCatalogue? || step.Prune? ||
        (step.i < |s.consumers| && ConsumerEnabled(s, step)))
  }

  predicate ConsumerEnabled(s: State, step: Step)
    requires !step.Produce? && !step.ChangeCatalogue? && !step.Prune?
    requires step.i < |s.consumers|
  {
    var c := s.consumers[step.i];
    match step
    case Read(_, count) => c.pc.Idle? && c.next >= c.limit && 1 <= count <= BATCH && s.delivered + count <= |s.stream|
    case ReadReplyLost(_, count) => c.pc.Idle? && c.next >= c.limit && 1 <= count <= BATCH && s.delivered + count <= |s.stream|
    case Begin(_) => c.pc.Idle? && c.next < c.limit
    case Check(_) => c.pc.Checking? && c.next < |s.stream|
    case Resolve(_) => c.pc.Resolving? && c.next < |s.stream|
    case LookUpKey(_) => c.pc.LookingUpKey? && c.next < |s.stream|
    case Insert(i) => c.pc.Inserting? && !InsertBlocked(s, i, c.pc.row.eventId)
    case Commit(_) => c.pc.CommittingRow? || c.pc.CommittingNothing?
    case CommitRaises(_) => c.pc.CommittingRow? || c.pc.CommittingNothing?
    case IngestRaises(_) => InIngest(c.pc)
    case Ack(_) => c.pc.Acking?
    case AckRaises(_) => c.pc.Acking?
    case Publish(_) => c.pc.Publishing?
    case Crash(_) => true
    case _ => false
  }

  function Goto(s: State, i: nat, pc: Pc): State
    requires i < |s.consumers|
  {
    s.(consumers := s.consumers[i := s.consumers[i].(pc := pc)])
  }

  function Positions(lo: nat, hi: nat): (r: set<nat>)
    ensures forall p :: p in r <==> lo <= p < hi
    decreases hi - lo
  {
    if lo >= hi then {} else {lo} + Positions(lo + 1, hi)
  }

  /** The message is dealt with; the loop moves to the next one of the batch. */
  function FinishMessage(s: State, i: nat): State
    requires i < |s.consumers|
  {
    s.(consumers := s.consumers[i := Consumer(Idle, s.consumers[i].next + 1, s.consumers[i].limit)])
  }

  /** The consumer forgets its batch; delivered entries are never read again. */
  function AbandonBatch(s: State, i: nat): State
    requires i < |s.consumers|
  {
    var c := s.consumers[i];
    s.(consumers := s.consumers[i := Consumer(Idle, c.limit, c.limit)],
       dropped := s.dropped + Positions(PendingFrom(c), c.limit),
       lost := s.lost + CarriedRows(c))
  }

  /** The first position of a consumer that has no place in the serial order yet. */
  function PendingFrom(c: Consumer): nat {
    if c.pc.CommittingNothing? || c.pc.Acking? || c.pc.Publishing? then c.next + 1 else c.next
  }

  /** The row whose delta this consumer still means to publish. */
  function CarriedRows(c: Consumer): seq<Row> {
    if c.pc.Publishing? then [c.pc.row]
    else if c.pc.Acking? && c.pc.persisted.Some? then [c.pc.persisted.value]
    else []
  }

  function Now(s: State): nat
    requires |s.catalogues| > 0
  {
    |s.catalogues| - 1
  }

  function Serialise(s: State, op: SerialOp): State {
    s.(serial := s.serial + [op])
  }

  function DoCheck(s: State, i: nat): State
    requires Enabled(s, Check(i))
  {
    var c := s.consumers[i];
    if HasEvent(s.committed, StreamEventId(s.stream[c.next])) then
      Serialise(Goto(s, i, CommittingNothing), Ingested(c.next, Seen(Now(s), Now(s), Now(s))))
    else Goto(s, i, Resolving)
  }

  function DoResolve(s: State, i: nat): State
    requires Enabled(s, Resolve(i))
  {
    var c := s.consumers[i];
    match ResolveProject(s.stream[c.next], s.catalogues[Now(s)])
    case None => Serialise(Goto(s, i, CommittingNothing), Ingested(c.next, Seen(Now(s), Now(s), Now(s))))
    case Some(project) => Goto(s, i, LookingUpKey(project, Now(s)))
  }

  function DoLookUpKey(s: State, i: nat): State
    requires Enabled(s, LookUpKey(i))
  {
    var c := s.consumers[i];
    var m := s.stream[c.next];
    var row := BuildRow(c.next, m, c.pc.project, ResolveApiKeyId(m, s.catalogues[Now(s)]));
    Goto(s, i, Inserting(row, c.pc.forProject, Now(s)))
  }

  /** The insert meets the unique index and the foreign keys; an IntegrityError is rolled back and means "nothing to store". */
  function DoInsert(s: State, i: nat): State
    requires Enabled(s, Insert(i))
  {
    var c := s.consumers[i];
    var seen := Seen(c.pc.forProject, c.pc.forKey, Now(s));
    if HasEvent(s.committed, c.pc.row.eventId) || !ForeignKeysHold(c.pc.row, s.catalogues[Now(s)]) then
      Serialise(Goto(s, i, CommittingNothing), Ingested(c.next, seen))
    else Goto(s, i, CommittingRow(c.pc.row, seen))
  }

  /**
   * The commit takes effect. Whether its reply arrives makes no difference: an exception here is
   * logged, and the loop acks and publishes the row it was given all the same.
   */
  function DoCommit(s: State, i: nat): State
    requires Enabled(s, Commit(i))
  {
    var c := s.consumers[i];
    if c.pc.CommittingNothing? then Goto(s, i, Acking(None))
    else
      Serialise(Goto(s, i, Acking(Some(c.pc.row))), Ingested(c.next, c.pc.seen))
      .(committed := s.committed + [c.pc.row], stored := s.stored + [c.pc.row])
  }

  /** The commit raises without effect. `persisted` was assigned before it, so it survives the exception. */
  function DoCommitRaises(s: State, i: nat): State
    requires Enabled(s, CommitRaises(i))
  {
    var c := s.consumers[i];
    if c.pc.CommittingNothing? then Goto(s, i, Acking(None))
    else
      Goto(s, i, Acking(Some(c.pc.row)))
      .(phantom := s.phantom + [c.pc.row], dropped := s.dropped + {c.next})
  }

  function DoAck(s: State, i: nat): State
    requires Enabled(s, Ack(i))
  {
    var c := s.consumers[i];
    var s' := s.(acked := s.acked + {c.next});
    match c.pc.persisted
    case Some(row) => Goto(s', i, Publishing(row))
    case None => FinishMessage(s', i)
  }

  function Next(s: State, step: Step): State
    requires Enabled(s, step)
  {
    match step
    case Produce(m) => s.(stream := s.stream + [m])
    case ChangeCatalogue(c) => s.(catalogues := s.catalogues + [c])
    case Prune(ids) => Serialise(s, Pruned(ids)).(committed := WithoutIds(s.committed, ids))
    case Read(i, count) =>
      s.(consumers := s.consumers[i := Consumer(Idle, s.delivered, s.delivered + count)],
         delivered := s.delivered + count)
    case ReadReplyLost(i, count) =>
      s.(delivered := s.delivered + count,
         dropped := s.dropped + Positions(s.delivered, s.delivered + count))
    case Begin(i) => Goto(s, i, Checking)
    case Check(i) => DoCheck(s, i)
    case Resolve(i) => DoResolve(s, i)
    case LookUpKey(i) => DoLookUpKey(s, i)
    case Insert(i) => DoInsert(s, i)
    case Commit(i) => DoCommit(s, i)
    case CommitRaises(i) => DoCommitRaises(s, i)
    case IngestRaises(i) => Goto(s, i, Acking(None)).(dropped := s.dropped + {s.consumers[i].next})
    case Ack(i) => DoAck(s, i)
    case AckRaises(i) => AbandonBatch(s, i)
    case Publish(i) => FinishMessage(s, i).(published := s.published + [s.consumers[i].pc.row])
    case Crash(i) => AbandonBatch(s, i)
  }

  ghost predicate ValidRun(s: State, steps: seq<Step>)
    decreases |steps|
  {
    steps == [] || (Enabled(s, steps[0]) && ValidRun(Next(s, steps[0]), steps[1..]))
  }

  ghost function Final(s: State, steps: seq<Step>): State
    requires ValidRun(s, steps)
    decreases |steps|
  {
    if steps == [] then s else Final(Next(s, steps[0]), steps[1..])
  }

  // ----- the one-at-a-time reference -----

  function WithoutIds(table: seq<Row>, ids: set<nat>): seq<Row> {
    if table == [] then []
    else
      var rest := WithoutIds(table[..|table| - 1], ids);
      if table[|table| - 1].id in ids then rest else rest + [table[|table| - 1]]
  }

  ghost predicate ValidOp(op: SerialOp, streamLen: nat, catalogueLen: nat) {
    op.Ingested? ==>
      && op.pos < streamLen
      && op.seen.forProject <= op.seen.forKey <= op.seen.forInsert < catalogueLen
  }

  ghost predicate ValidOps(ops: seq<SerialOp>, streamLen: nat, catalogueLen: nat) {
    forall k | 0 <= k < |ops| :: ValidOp(ops[k], streamLen, catalogueLen)
  }

  /** The row an event yields, if it can be attributed and refers only to things that exist. */
  function RowFor(pos: nat, m: Message, seen: Seen, catalogues: seq<Catalogue>): Option<Row>
    requires seen.forProject < |catalogues| && seen.forKey < |catalogues| && seen.forInsert < |catalogues|
  {
    match ResolveProject(m, catalogues[seen.forProject])
    case None => None
    case Some(project) =>
      var row := BuildRow(pos, m, project, ResolveApiKeyId(m, catalogues[seen.forKey]));
      if ForeignKeysHold(row, catalogues[seen.forInsert]) then Some(row) else None
  }

  /** Insert the event if its id is new and it is attributable; nothing else happens meanwhile. */
  function AtomicIngest(table: seq<Row>, pos: nat, m: Message, seen: Seen, catalogues: seq<Catalogue>): seq<Row>
    requires seen.forProject < |catalogues| && seen.forKey < |catalogues| && seen.forInsert < |catalogues|
  {
    if HasEvent(table, StreamEventId(m)) then table
    else match RowFor(pos, m, seen, catalogues)
      case None => table
      case Some(row) => table + [row]
  }

  ghost function ApplyOp(table: seq<Row>, op: SerialOp, stream: seq<Message>, catalogues: seq<Catalogue>): seq<Row>
    requires ValidOp(op, |stream|, |catalogues|)
  {
    match op
    case Ingested(pos, seen) => AtomicIngest(table, pos, stream[pos], seen, catalogues)
    case Pruned(ids) => WithoutIds(table, ids)
  }

  ghost function RunSerial(ops: seq<SerialOp>, stream: seq<Message>, catalogues: seq<Catalogue>): seq<Row>
    requires ValidOps(ops, |stream|, |catalogues|)
    decreases |ops|
  {
    if ops == [] then []
    else ApplyOp(RunSerial(ops[..|ops| - 1], stream, catalogues), ops[|ops| - 1], stream, catalogues)
  }
}
