/**
 * What a `request` row says about the event it came from, column by column. Nothing
 * stated here mentions the functions the steps build rows with.
 */
module RequestIngestRows {
  import opened Wrappers
  import opened RequestIngest
  import opened RequestIngestSafety

  // ----- the columns -----

  predicate IsLive(key: ApiKey, prefix: string) {
    key.prefix == prefix && !key.revoked
  }

  /** Key `k` is the first unrevoked one with the prefix. */
  ghost predicate FirstLiveAt(keys: seq<ApiKey>, prefix: string, k: nat) {
    && k < |keys| && IsLive(keys[k], prefix)
    && forall j | 0 <= j < k :: !IsLive(keys[j], prefix)
  }

  ghost predicate SomeLive(keys: seq<ApiKey>, prefix: string) {
    exists k: nat :: k < |keys| && IsLive(keys[k], prefix)
  }

  /** The event names the project, or its key prefix leads to it. */
  ghost predicate IsBilledTo(m: Message, keys: seq<ApiKey>, project: Uuid) {
    && (m.projectId.Some? ==> m.projectId.value == project)
    && (m.projectId.None? ==>
        m.keyPrefix != "" && exists k: nat :: FirstLiveAt(keys, m.keyPrefix, k) && keys[k].projectId == project)
  }

  /** A key prefix overrides the key id the event carries, even when no key has it. */
  ghost predicate IsMadeWith(m: Message, keys: seq<ApiKey>, apiKey: Option<Uuid>) {
    && (m.keyPrefix == "" ==> apiKey == m.apiKeyId)
    && (m.keyPrefix != "" && apiKey.None? ==> !SomeLive(keys, m.keyPrefix))
    && (m.keyPrefix != "" && apiKey.Some? ==>
        exists k: nat :: FirstLiveAt(keys, m.keyPrefix, k) && keys[k].id == apiKey.value)
  }

  predicate Copies(r: Row, m: Message) {
    && (m.eventId != "" ==> r.eventId == m.eventId)
    && (m.eventId == "" ==> r.eventId == m.entryId)
    && (m.modelId != "" ==> r.modelId == m.modelId)
    && (m.modelId == "" ==> r.modelId == "unknown")
    && r.routingPolicyId == m.routingPolicyId && r.providerId == m.providerId
    && r.costUsd == m.costUsd && r.inputTokens == m.inputTokens && r.outputTokens == m.outputTokens
  }

  /** Everything the row refers to was there. */
  ghost predicate RefersToRows(r: Row, c: Catalogue) {
    && r.projectId in c.projects
    && (r.apiKeyId == None || exists key :: key in c.keys && r.apiKeyId == Some(key.id))
    && (r.routingPolicyId == None || exists p :: p in c.policies && r.routingPolicyId == Some(p))
    && (r.providerId == None || exists p :: p in c.providers && r.providerId == Some(p))
  }

  /** `r` is the row of event `m` at stream position `pos`, its lookups made in the catalogue versions `seen`. */
  ghost predicate IsRowOf(r: Row, pos: nat, m: Message, seen: Seen, catalogues: seq<Catalogue>) {
    && seen.forProject <= seen.forKey <= seen.forInsert < |catalogues|
    && r.id == pos && Copies(r, m)
    && IsBilledTo(m, catalogues[seen.forProject].keys, r.projectId)
    && IsMadeWith(m, catalogues[seen.forKey].keys, r.apiKeyId)
    && RefersToRows(r, catalogues[seen.forInsert])
  }

  lemma {:induction false} FirstLiveKeyIsFirst(keys: seq<ApiKey>, prefix: string)
    ensures FirstLiveKey(keys, prefix).None? <==> !SomeLive(keys, prefix)
    ensures FirstLiveKey(keys, prefix).Some? ==>
      exists k: nat :: FirstLiveAt(keys, prefix, k) && keys[k] == FirstLiveKey(keys, prefix).value
    decreases |keys|
  {
    if keys != [] && !IsLive(keys[0], prefix) {
      var rest := keys[1..];
      FirstLiveKeyIsFirst(rest, prefix);
      if SomeLive(keys, prefix) {
        var k: nat :| k < |keys| && IsLive(keys[k], prefix);
        assert rest[k - 1] == keys[k];
      }
      if SomeLive(rest, prefix) {
        var k: nat :| FirstLiveAt(rest, prefix, k) && rest[k] == FirstLiveKey(keys, prefix).value;
        assert keys[k + 1] == rest[k];
        forall j | 0 <= j < k + 1 ensures !IsLive(keys[j], prefix) {
          if j > 0 { assert keys[j] == rest[j - 1]; }
        }
        assert FirstLiveAt(keys, prefix, k + 1);
      }
    } else if keys != [] {
      assert FirstLiveAt(keys, prefix, 0);
    }
  }

  lemma FirstLiveIsUnique(keys: seq<ApiKey>, prefix: string, k: nat, l: nat)
    requires FirstLiveAt(keys, prefix, k) && FirstLiveAt(keys, prefix, l)
    ensures k == l
  {
  }

  lemma ProjectIsBilled(m: Message, c: Catalogue, project: Uuid)
    ensures ResolveProject(m, c) == Some(project) <==> IsBilledTo(m, c.keys, project)
  {
    FirstLiveKeyIsFirst(c.keys, m.keyPrefix);
    forall k: nat, l: nat | FirstLiveAt(c.keys, m.keyPrefix, k) && FirstLiveAt(c.keys, m.keyPrefix, l) ensures k == l {
      FirstLiveIsUnique(c.keys, m.keyPrefix, k, l);
    }
    hide FirstLiveKey;
  }

  lemma KeyIsUsed(m: Message, c: Catalogue, apiKey: Option<Uuid>)
    ensures ResolveApiKeyId(m, c) == apiKey <==> IsMadeWith(m, c.keys, apiKey)
  {
    FirstLiveKeyIsFirst(c.keys, m.keyPrefix);
    forall k: nat, l: nat | FirstLiveAt(c.keys, m.keyPrefix, k) && FirstLiveAt(c.keys, m.keyPrefix, l) ensures k == l {
      FirstLiveIsUnique(c.keys, m.keyPrefix, k, l);
    }
    hide FirstLiveKey;
  }

  lemma ForeignKeysAreRows(r: Row, c: Catalogue)
    ensures ForeignKeysHold(r, c) <==> RefersToRows(r, c)
  {
    if r.apiKeyId.Some? {
      if key :| key in c.keys && r.apiKeyId == Some(key.id) {
        var k :| 0 <= k < |c.keys| && c.keys[k] == key;
      }
    }
  }

  lemma BuiltRowCopies(r: Row, pos: nat, m: Message, project: Uuid, apiKey: Option<Uuid>)
    ensures r == BuildRow(pos, m, project, apiKey)
       <==> r.id == pos && Copies(r, m) && r.projectId == project && r.apiKeyId == apiKey
  {
  }

  /** The reference run yields, for an event, exactly the row described above, or none when there is none. */
  lemma EventYieldsItsRow(pos: nat, m: Message, seen: Seen, catalogues: seq<Catalogue>, r: Row)
    requires seen.forProject <= seen.forKey <= seen.forInsert < |catalogues|
    ensures RowFor(pos, m, seen, catalogues) == Some(r) <==> IsRowOf(r, pos, m, seen, catalogues)
  {
    var project := ResolveProject(m, catalogues[seen.forProject]);
    var apiKey := ResolveApiKeyId(m, catalogues[seen.forKey]);
    ProjectIsBilled(m, catalogues[seen.forProject], r.projectId);
    KeyIsUsed(m, catalogues[seen.forKey], r.apiKeyId);
    ForeignKeysAreRows(r, catalogues[seen.forInsert]);
    BuiltRowCopies(r, pos, m, r.projectId, apiKey);
    hide ResolveProject, ResolveApiKeyId, BuildRow, Copies, ForeignKeysHold, RefersToRows, IsBilledTo, IsMadeWith;
  }

  // ----- the replay, told by its steps -----

  /** One step of the replay: an event whose id is in the table, or that has no row, changes nothing. */
  ghost predicate SerialStep(table: seq<Row>, op: SerialOp, stream: seq<Message>, catalogues: seq<Catalogue>, table': seq<Row>) {
    && (op.Ingested? ==>
        && op.pos < |stream|
        && ((exists r | r in table' :: table' == table + [r] && IsNewRow(table, r, op, stream, catalogues))
            || (table' == table && forall r :: !IsNewRow(table, r, op, stream, catalogues))))
    && (op.Pruned? ==> forall r :: r in table' <==> r in table && r.id !in op.ids)
  }

  ghost predicate IsNewRow(table: seq<Row>, r: Row, op: SerialOp, stream: seq<Message>, catalogues: seq<Catalogue>)
    requires op.Ingested? && op.pos < |stream|
  {
    && IsRowOf(r, op.pos, stream[op.pos], op.seen, catalogues)
    && forall q | q in table :: q.eventId != r.eventId
  }

  /** `tables` are the successive tables of a replay of `ops`, from the empty one. */
  ghost predicate IsReplay(tables: seq<seq<Row>>, ops: seq<SerialOp>, stream: seq<Message>, catalogues: seq<Catalogue>) {
    && |tables| == |ops| + 1 && tables[0] == []
    && forall k | 0 <= k < |ops| :: SerialStepAt(tables, ops, stream, catalogues, k)
  }

  ghost predicate SerialStepAt(tables: seq<seq<Row>>, ops: seq<SerialOp>, stream: seq<Message>, catalogues: seq<Catalogue>, k: nat)
    requires |tables| == |ops| + 1 && k < |ops|
  {
    SerialStep(tables[k], ops[k], stream, catalogues, tables[k + 1])
  }

  lemma OpIsSerialStep(table: seq<Row>, op: SerialOp, stream: seq<Message>, catalogues: seq<Catalogue>)
    requires ValidOp(op, |stream|, |catalogues|)
    ensures SerialStep(table, op, stream, catalogues, ApplyOp(table, op, stream, catalogues))
  {
    match op
    case Pruned(ids) => PruneKeepsOrderAndDistinctness(table, ids);
    case Ingested(pos, seen) => AtomicIngestIsSerialStep(table, pos, seen, stream, catalogues);
  }

  lemma AtomicIngestIsSerialStep(table: seq<Row>, pos: nat, seen: Seen, stream: seq<Message>, catalogues: seq<Catalogue>)
    requires ValidOp(Ingested(pos, seen), |stream|, |catalogues|)
    ensures SerialStep(table, Ingested(pos, seen), stream, catalogues, AtomicIngest(table, pos, stream[pos], seen, catalogues))
  {
    var m := stream[pos];
    forall r ensures RowFor(pos, m, seen, catalogues) == Some(r) <==> IsRowOf(r, pos, m, seen, catalogues) {
      EventYieldsItsRow(pos, m, seen, catalogues, r);
    }
    forall r | IsRowOf(r, pos, m, seen, catalogues) ensures r.eventId == StreamEventId(m) {
    }
    HasEventIffRow(table, StreamEventId(m));
    hide RowFor, IsRowOf, StreamEventId, HasEvent;
    if r :| RowFor(pos, m, seen, catalogues) == Some(r) && !HasEvent(table, StreamEventId(m)) {
      assert IsNewRow(table, r, Ingested(pos, seen), stream, catalogues);
      assert r in table + [r];
    }
  }

  lemma {:induction false} SerialRunIsReplay(ops: seq<SerialOp>, stream: seq<Message>, catalogues: seq<Catalogue>)
    returns (tables: seq<seq<Row>>)
    requires ValidOps(ops, |stream|, |catalogues|)
    ensures IsReplay(tables, ops, stream, catalogues)
    ensures tables[|ops|] == RunSerial(ops, stream, catalogues)
    decreases |ops|
  {
    hide ApplyOp, SerialStep;
    if ops == [] {
      tables := [[]];
    } else {
      var n := |ops| - 1;
      var before := SerialRunIsReplay(ops[..n], stream, catalogues);
      assert ValidOp(ops[n], |stream|, |catalogues|);
      OpIsSerialStep(before[n], ops[n], stream, catalogues);
      tables := before + [RunSerial(ops, stream, catalogues)];
      forall k | 0 <= k < |ops| ensures SerialStepAt(tables, ops, stream, catalogues, k) {
        if k < n { assert SerialStepAt(before, ops[..n], stream, catalogues, k); }
      }
    }
  }

  // ----- where stored rows come from -----

  /** The row is that of the stream entry it is keyed by, in some catalogue versions. */
  ghost predicate HasSource(s: State, r: Row) {
    r.id < |s.stream| && exists seen :: IsRowOf(r, r.id, s.stream[r.id], seen, s.catalogues)
  }

  ghost predicate RowsHaveSources(s: State) {
    (forall r | r in s.stored :: HasSource(s, r)) && (forall r | r in s.phantom :: HasSource(s, r))
  }

  lemma SourceSurvivesGrowth(s: State, s': State, r: Row)
    requires HasSource(s, r) && s.stream <= s'.stream && s.catalogues <= s'.catalogues
    ensures HasSource(s', r)
  {
    var seen :| IsRowOf(r, r.id, s.stream[r.id], seen, s.catalogues);
    assert s'.stream[r.id] == s.stream[r.id];
    assert IsRowOf(r, r.id, s'.stream[r.id], seen, s'.catalogues);
  }

  lemma UncommittedRowHasSource(s: State, c: Consumer)
    requires Faithful(s, c) && c.pc.CommittingRow?
    ensures HasSource(s, c.pc.row)
  {
    var pos, row, seen := c.next, c.pc.row, c.pc.seen;
    var apiKey := ResolveApiKeyId(s.stream[pos], s.catalogues[seen.forKey]);
    BuiltRowCopies(row, pos, s.stream[pos], row.projectId, apiKey);
    EventYieldsItsRow(pos, s.stream[pos], seen, s.catalogues, row);
    hide ResolveProject, ResolveApiKeyId, BuildRow, ForeignKeysHold, IsRowOf;
    assert RowFor(pos, s.stream[pos], seen, s.catalogues) == Some(row);
  }

  /**
   * A lookup reads the catalogue of its own moment and remembers which that was; an event
   * that no project can be found for then goes no further.
   */
  lemma LookupsReadTheCurrentCatalogue(s: State, i: nat)
    ensures Enabled(s, Resolve(i)) ==>
      var pc := Next(s, Resolve(i)).consumers[i].pc;
      && (pc.LookingUpKey? || pc.CommittingNothing?)
      && (pc.LookingUpKey? ==>
          pc.forProject == Now(s) && IsBilledTo(s.stream[s.consumers[i].next], s.catalogues[Now(s)].keys, pc.project))
      && (pc.CommittingNothing? ==>
          forall project: Uuid :: !IsBilledTo(s.stream[s.consumers[i].next], s.catalogues[Now(s)].keys, project))
    ensures Enabled(s, LookUpKey(i)) ==>
      var c, pc := s.consumers[i], Next(s, LookUpKey(i)).consumers[i].pc;
      && pc.Inserting? && pc.forProject == c.pc.forProject && pc.forKey == Now(s)
      && pc.row.projectId == c.pc.project && pc.row.id == c.next && Copies(pc.row, s.stream[c.next])
      && IsMadeWith(s.stream[c.next], s.catalogues[Now(s)].keys, pc.row.apiKeyId)
  {
    if Enabled(s, Resolve(i)) {
      var m, c := s.stream[s.consumers[i].next], s.catalogues[Now(s)];
      forall project: Uuid ensures ResolveProject(m, c) == Some(project) <==> IsBilledTo(m, c.keys, project) {
        ProjectIsBilled(m, c, project);
      }
    }
    if Enabled(s, LookUpKey(i)) {
      var m, c := s.stream[s.consumers[i].next], s.catalogues[Now(s)];
      KeyIsUsed(m, c, ResolveApiKeyId(m, c));
    }
    hide ResolveProject, ResolveApiKeyId, IsBilledTo, IsMadeWith;
  }

  /** An insert goes through exactly when the event id is new and everything the row refers to is there now. */
  lemma InsertsMeetTheCurrentTables(s: State, i: nat)
    requires Enabled(s, Insert(i))
    ensures var row, pc := s.consumers[i].pc.row, Next(s, Insert(i)).consumers[i].pc;
      && (pc.CommittingRow? || pc.CommittingNothing?)
      && (pc.CommittingRow? <==>
          (forall q | q in s.committed :: q.eventId != row.eventId) && RefersToRows(row, s.catalogues[Now(s)]))
      && (pc.CommittingRow? ==>
          && pc.row == row
          && pc.seen == Seen(s.consumers[i].pc.forProject, s.consumers[i].pc.forKey, Now(s)))
  {
    HasEventIffRow(s.committed, s.consumers[i].pc.row.eventId);
    ForeignKeysAreRows(s.consumers[i].pc.row, s.catalogues[Now(s)]);
    hide HasEvent, ForeignKeysHold, RefersToRows, InsertBlocked;
  }

  lemma NewRowsWereUncommitted(s: State, step: Step)
    requires Enabled(s, step)
    ensures s.stream <= Next(s, step).stream && s.catalogues <= Next(s, step).catalogues
    ensures (Next(s, step).stored == s.stored && Next(s, step).phantom == s.phantom)
      || (step.i < |s.consumers| && s.consumers[step.i].pc.CommittingRow?
          && (forall r | r in Next(s, step).stored :: r in s.stored || r == s.consumers[step.i].pc.row)
          && (forall r | r in Next(s, step).phantom :: r in s.phantom || r == s.consumers[step.i].pc.row))
  {
    hide HasEvent, InsertBlocked, ResolveProject, ResolveApiKeyId, ForeignKeysHold, BuildRow, Positions, WithoutIds;
  }

  lemma StepKeepsSources(s: State, step: Step)
    requires TableInv(s) && RowsHaveSources(s) && Enabled(s, step)
    ensures RowsHaveSources(Next(s, step))
  {
    var s' := Next(s, step);
    NewRowsWereUncommitted(s, step);
    var here := step.Commit? || step.CommitRaises?;
    if here && s.consumers[step.i].pc.CommittingRow? {
      assert Faithful(s, s.consumers[step.i]);
      UncommittedRowHasSource(s, s.consumers[step.i]);
    } 
    hide Next, Enabled, HasSource, TableInv;
    forall r | r in s'.stored || r in s'.phantom ensures HasSource(s', r) {
      SourceSurvivesGrowth(s, s', r);
    }
  }
}
