/** What holds in every run of the edge agent: delivery safety, monotonicity, and convergence of retries. */
module EdgeRuns {
  import opened Text
  import opened EdgeData
  import opened EdgeStore
  import opened EdgeSync
  import opened EdgeFlush
  import opened EdgeProtocol

  // ----- Nothing accepted is forgotten, nothing stored changes -----

  /** t may come after s: rows keep their contents and their flag, and the table only grows. */
  ghost predicate Later(s: Sys, t: Sys) {
    && (forall id | id in s.rows :: id in t.rows && t.rows[id] == s.rows[id].(flushed := t.rows[id].flushed)
          && (s.rows[id].flushed ==> t.rows[id].flushed))
    && (forall k | k in s.pg :: k in t.pg && t.pg[k] == s.pg[k])
    && s.lost <= t.lost && s.node == t.node
  }

  lemma LaterStep(s: Sys, step: Step)
    requires Enabled(s, step) && Inv(s)
    ensures Later(s, Next(s, step))
  {
    hide KeyFor, Prefix, IsBatch, BatchesInv, AckedInv, FlaggedInv;
  }

  lemma {:induction false} LaterAlong(trace: seq<Sys>, steps: seq<Step>, i: nat, j: nat)
    requires IsRun(trace, steps) && Init(trace[0]) && i <= j < |trace|
    ensures Later(trace[i], trace[j])
    decreases j
  {
    hide Enabled, Next, Inv, Init;
    if i < j {
      LaterAlong(trace, steps, i, j - 1);
      InvAlong(trace, steps, j - 1);
      RunStep(trace, steps, j - 1);
      LaterStep(trace[j - 1], steps[j - 1]);
    }
  }

  /**
   * Delivery safety over every interleaving: a row accepted at i is, at every later j, still queued and unflushed,
   * or in the committed table, or one that was acknowledged by a transaction that did not commit.
   */
  lemma DeliverySafety(trace: seq<Sys>, steps: seq<Step>, i: nat, j: nat, id: Id)
    requires IsRun(trace, steps) && Init(trace[0]) && i <= j < |trace|
    requires id in trace[i].rows
    ensures id in trace[j].rows
         && trace[j].rows[id].(flushed := false) == trace[i].rows[id].(flushed := false)
    ensures !trace[j].rows[id].flushed || Delivered(trace[j], id) || id in trace[j].lost
  {
    hide Enabled, Next, Init, BatchesInv, LocksInv, AckedInv, Delivered;
    LaterAlong(trace, steps, i, j);
    InvAlong(trace, steps, j);
  }

  /** A transaction that acknowledged something ends without committing. */
  predicate LosingEnd(s: Sys, step: Step) {
    && step.EndTxn? && step.sid in s.syncers && s.syncers[step.sid].Upserting?
    && s.syncers[step.sid].acked != [] && !s.syncers[step.sid].txn.AutoCommit?
    && (s.syncers[step.sid].txn.Aborted? || !step.commit)
  }

  /** lost grows exactly at those ends. */
  lemma LostStep(s: Sys, step: Step)
    requires Enabled(s, step)
    ensures Next(s, step).lost == if LosingEnd(s, step) then s.lost + SetOf(s.syncers[step.sid].acked) else s.lost
  {
  }

  lemma {:induction false} NothingLost(trace: seq<Sys>, steps: seq<Step>, j: nat)
    requires IsRun(trace, steps) && Init(trace[0]) && j < |trace|
    requires forall k | 0 <= k < j :: !LosingEnd(trace[k], steps[k])
    ensures trace[j].lost == {}
  {
    hide Enabled, Next, LosingEnd;
    if j > 0 {
      NothingLost(trace, steps, j - 1);
      RunStep(trace, steps, j - 1);
      LostStep(trace[j - 1], steps[j - 1]);
    }
  }

  /** If every transaction that acknowledged a row commits, flagged rows are delivered rows, crashes or not. */
  lemma FlaggedMeansDelivered(trace: seq<Sys>, steps: seq<Step>, j: nat, id: Id)
    requires IsRun(trace, steps) && Init(trace[0]) && j < |trace|
    requires forall k | 0 <= k < j :: !LosingEnd(trace[k], steps[k])
    requires id in trace[j].rows && trace[j].rows[id].flushed
    ensures Delivered(trace[j], id)
  {
    hide Enabled, Next, Init, LosingEnd, BatchesInv, LocksInv, AckedInv, Delivered;
    NothingLost(trace, steps, j);
    InvAlong(trace, steps, j);
  }

  // ----- A loss is permanent -----

  ghost predicate DistinctKeys(rows: Queue) {
    forall a, b | a in rows && b in rows && RowKey(rows[a]) == RowKey(rows[b]) :: a == b
  }

  /** Flagged, not delivered, and in nobody's hands. */
  ghost predicate GoneFor(s: Sys, id: Id) {
    && id in s.rows && s.rows[id].flushed && !Delivered(s, id)
    && forall sid | sid in s.syncers ::
         && (forall ev | ev in Batch(s.syncers[sid]) :: ev.id != id)
         && RowKey(s.rows[id]) !in Writes(s.syncers[sid])
  }

  lemma GoneStep(s: Sys, step: Step, id: Id)
    requires Enabled(s, step) && BatchesInv(s) && GoneFor(s, id) && DistinctKeys(Next(s, step).rows)
    ensures GoneFor(Next(s, step), id)
  {
    hide KeyFor, Prefix;
    var t := Next(s, step);
    assert t.rows[id].topic == s.rows[id].topic && t.rows[id].ts == s.rows[id].ts;
    if step.UpsertNext? {
      var ev := s.syncers[step.sid].batch[s.syncers[step.sid].next];
      assert ev in Batch(s.syncers[step.sid]);
      assert RowKey(t.rows[ev.id]) == KeyOf(ev);
    }
  }

  /** When no two rows share a key, a row that was flagged without being delivered never will be. */
  lemma {:induction false} LossIsPermanent(trace: seq<Sys>, steps: seq<Step>, i: nat, j: nat, id: Id)
    requires IsRun(trace, steps) && Init(trace[0]) && i <= j < |trace|
    requires GoneFor(trace[i], id) && forall k | i <= k <= j :: DistinctKeys(trace[k].rows)
    ensures GoneFor(trace[j], id)
    decreases j
  {
    hide Enabled, Next, Init, LocksInv, AckedInv, FlaggedInv, BatchesInv, DistinctKeys, GoneFor;
    if i < j {
      LossIsPermanent(trace, steps, i, j - 1, id);
      InvAlong(trace, steps, j - 1);
      RunStep(trace, steps, j - 1);
      GoneStep(trace[j - 1], steps[j - 1], id);
    }
  }

  // ----- Retries converge -----

  function RowRecord(row: Row, node: string): Stored {
    Stored(row.payload, node)
  }

  /** Everything in t beyond base is the record of an accepted row. */
  ghost predicate FromRows(t: Table, base: Table, rows: Queue, node: string) {
    forall k | k in t ::
      (k in base && t[k] == base[k]) || (k !in base && IsRecord(k, t[k], rows, node))
  }

  ghost predicate IsRecord(k: Key, v: Stored, rows: Queue, node: string) {
    exists id | id in rows :: RowKey(rows[id]) == k && rows[id].payload != "" && v == RowRecord(rows[id], node)
  }

  ghost predicate OriginInv(s: Sys, base: Table) {
    && (forall k | k in base :: k in s.pg && s.pg[k] == base[k])
    && FromRows(s.pg, base, s.rows, s.node)
    && forall sid | sid in s.syncers :: FromRows(Writes(s.syncers[sid]), map[], s.rows, s.node)
  }

  lemma RecordKept(k: Key, v: Stored, rows: Queue, later: Queue, node: string)
    requires IsRecord(k, v, rows, node)
    requires forall id | id in rows :: id in later && later[id] == rows[id].(flushed := later[id].flushed)
    ensures IsRecord(k, v, later, node)
  {
    hide KeyFor, Prefix;
    var id :| id in rows && RowKey(rows[id]) == k && rows[id].payload != "" && v == RowRecord(rows[id], node);
    assert id in later && RowKey(later[id]) == k && RowRecord(later[id], node) == v;
  }

  lemma OriginStep(s: Sys, step: Step, base: Table)
    requires Enabled(s, step) && Inv(s) && OriginInv(s, base)
    ensures OriginInv(Next(s, step), base)
  {
    hide Enabled, Next, OriginInv;
    if step.UpsertNext? {
      OriginUpsert(s, step, base);
    } else {
      OriginElse(s, step, base);
    }
  }

  lemma OriginUpsert(s: Sys, step: Step, base: Table)
    requires step.UpsertNext? && Enabled(s, step) && BatchesInv(s) && OriginInv(s, base)
    ensures OriginInv(Next(s, step), base)
  {
    hide KeyOf, StoredAs, Prefix, IsBatch, BatchesInv, IsRecord, Locked;
    UpsertIsRecord(s, step);
  }

  lemma OriginElse(s: Sys, step: Step, base: Table)
    requires !step.UpsertNext? && Enabled(s, step) && Inv(s) && OriginInv(s, base)
    ensures OriginInv(Next(s, step), base)
  {
    hide KeyFor, Prefix, IsBatch, AckedInv, FlaggedInv, IsRecord;
    var t := Next(s, step);
    LaterStep(s, step);
    forall k, v | IsRecord(k, v, s.rows, s.node)
      ensures IsRecord(k, v, t.rows, t.node)
    {
      RecordKept(k, v, s.rows, t.rows, s.node);
    }
  }

  lemma UpsertIsRecord(s: Sys, step: Step)
    requires step.UpsertNext? && Enabled(s, step) && BatchesInv(s)
    ensures var y := s.syncers[step.sid];
            UpsertOf(s, y, step.ok).ok ==>
              IsRecord(KeyOf(y.batch[y.next]), StoredAs(y.batch[y.next], s.node), s.rows, s.node)
  {
    hide KeyFor, Prefix;
    var y := s.syncers[step.sid];
    var ev := y.batch[y.next];
    assert ev in Batch(y);
    assert RowKey(s.rows[ev.id]) == KeyOf(ev);
  }

  lemma {:induction false} OriginAlong(trace: seq<Sys>, steps: seq<Step>, i: nat)
    requires IsRun(trace, steps) && Init(trace[0]) && i < |trace|
    ensures OriginInv(trace[i], trace[0].pg)
  {
    if i > 0 {
      hide Enabled, Next, Inv, Init, OriginInv;
      OriginAlong(trace, steps, i - 1);
      InvAlong(trace, steps, i - 1);
      RunStep(trace, steps, i - 1);
      OriginStep(trace[i - 1], steps[i - 1], trace[0].pg);
    }
  }

  /**
   * What is stored under the key of a delivered row that the initial table lacked: the record of some accepted row with
   * that key, so of this row if all accepted rows with its key have its payload, as they do when no key is shared.
   */
  lemma DeliveredPayload(trace: seq<Sys>, steps: seq<Step>, j: nat, id: Id)
    requires IsRun(trace, steps) && Init(trace[0]) && j < |trace|
    requires id in trace[j].rows && Delivered(trace[j], id) && RowKey(trace[j].rows[id]) !in trace[0].pg
    ensures var s := trace[j];
            var key := RowKey(s.rows[id]);
            && IsRecord(key, s.pg[key], s.rows, s.node)
            && ((forall other | other in s.rows && RowKey(s.rows[other]) == key ::
                   s.rows[other].payload == s.rows[id].payload)
                  ==> s.pg[key] == RowRecord(s.rows[id], s.node))
            && (DistinctKeys(s.rows) ==> s.pg[key] == RowRecord(s.rows[id], s.node))
  {
    hide Enabled, Next, Init, Inv, IsRun, KeyFor, Prefix;
    OriginAlong(trace, steps, j);
  }

  /** Everything in the table beyond the initial one is the record of an accepted row: its key, its payload, the node. */
  lemma StoredRecord(trace: seq<Sys>, steps: seq<Step>, j: nat, key: Key) returns (id: Id)
    requires IsRun(trace, steps) && Init(trace[0]) && j < |trace|
    requires key in trace[j].pg && key !in trace[0].pg
    ensures id in trace[j].rows && IsKeyOf(key, trace[j].rows[id]) && trace[j].rows[id].payload != ""
    ensures trace[j].pg[key].payload == trace[j].rows[id].payload && trace[j].pg[key].edgeNode == trace[j].node
  {
    hide Enabled, Next, Init, Inv, IsRun, KeyFor, Prefix, Names, IsKeyOf;
    OriginAlong(trace, steps, j);
    var s := trace[j];
    assert IsRecord(key, s.pg[key], s.rows, s.node);
    id :| id in s.rows && RowKey(s.rows[id]) == key && s.rows[id].payload != ""
      && s.pg[key] == RowRecord(s.rows[id], s.node);
    RowKeyIff(s.rows[id], key);
  }

  /**
   * A record of the initial table stays. Under any other delivered key, what is stored is the own record of every row
   * with that key exactly when these rows all have one payload.
   */
  lemma PayloadIff(trace: seq<Sys>, steps: seq<Step>, j: nat, key: Key)
    requires IsRun(trace, steps) && Init(trace[0]) && j < |trace| && key in trace[j].pg
    ensures key in trace[0].pg ==> trace[j].pg[key] == trace[0].pg[key]
    ensures key !in trace[0].pg ==>
              var s := trace[j];
              (forall id | id in s.rows && RowKey(s.rows[id]) == key :: s.pg[key] == RowRecord(s.rows[id], s.node))
              <==> (forall a, b | a in s.rows && b in s.rows && RowKey(s.rows[a]) == key && RowKey(s.rows[b]) == key ::
                      s.rows[a].payload == s.rows[b].payload)
  {
    hide Enabled, Next, Init, Inv, IsRun, KeyFor, Prefix;
    OriginAlong(trace, steps, j);
    var s := trace[j];
    if key !in trace[0].pg {
      assert IsRecord(key, s.pg[key], s.rows, s.node);
    }
  }

  /**
   * So of two delivered rows with one key and different payloads at least one is lost: the table holds, and in every
   * later state keeps, a payload that is not its own.
   */
  lemma SharedKeyLoses(trace: seq<Sys>, steps: seq<Step>, j: nat, k: nat, a: Id, b: Id)
    requires IsRun(trace, steps) && Init(trace[0]) && j <= k < |trace|
    requires a in trace[j].rows && b in trace[j].rows && RowKey(trace[j].rows[a]) == RowKey(trace[j].rows[b])
    requires trace[j].rows[a].payload != trace[j].rows[b].payload && Delivered(trace[j], a)
    ensures var key := RowKey(trace[j].rows[a]);
            && Delivered(trace[j], b) && key in trace[k].pg && trace[k].pg[key] == trace[j].pg[key]
            && (trace[k].pg[key].payload != trace[j].rows[a].payload
                || trace[k].pg[key].payload != trace[j].rows[b].payload)
  {
    hide Enabled, Next, Init, Inv, IsRun, KeyFor, Prefix;
    LaterAlong(trace, steps, j, k);
  }

  /** events lists, in some order and once each, the delivered rows whose keys base lacks. */
  ghost predicate Lists(events: seq<Event>, s: Sys, base: Table) {
    && (forall i | 0 <= i < |events| ::
          && events[i].id in s.rows && events[i] == EventOf(events[i].id, s.rows[events[i].id])
          && Delivered(s, events[i].id) && KeyOf(events[i]) !in base)
    && (forall i, j | 0 <= i < j < |events| :: events[i].id != events[j].id)
    && (forall id | id in s.rows && Delivered(s, id) && RowKey(s.rows[id]) !in base ::
          exists i :: 0 <= i < |events| && events[i].id == id)
  }

  /**
   * Retry convergence: when no two rows share a key, any run, whatever crashes, partial marks and duplicate syncs it
   * contains, has reached the table that one undisturbed flush of its delivered rows makes of the initial table.
   */
  lemma RetryConvergence(trace: seq<Sys>, steps: seq<Step>, i: nat, events: seq<Event>)
    requires IsRun(trace, steps) && Init(trace[0]) && i < |trace|
    requires DistinctKeys(trace[i].rows) && Lists(events, trace[i], trace[0].pg)
    ensures Flush(trace[0].pg, trace[i].rows, events, trace[i].node, ALL_WELL).table == trace[i].pg
  {
    hide Enabled, Next, Init, Inv, IsRun;
    OriginAlong(trace, steps, i);
    SameTable(trace[i], trace[0].pg, events);
  }

  lemma SameTable(s: Sys, base: Table, events: seq<Event>)
    requires OriginInv(s, base) && DistinctKeys(s.rows) && Lists(events, s, base)
    ensures Flush(base, s.rows, events, s.node, ALL_WELL).table == s.pg
  {
    hide KeyFor, Prefix, Flush;
    forall i: nat | i < |events|
      ensures Good(events, ALL_WELL.upserts, i) && s.pg[KeyOf(events[i])] == StoredAs(events[i], s.node)
    {
      ListedRecord(s, base, events, i);
    }
    ExactEffect(base, s.rows, events, s.node, ALL_WELL);
    var writes :| IsMissing(writes, base, Keys(events), Records(events, s.node))
      && Flush(base, s.rows, events, s.node, ALL_WELL).table == base + writes;
    WritesAre(s, base, events, writes);
  }

  lemma ListedRecord(s: Sys, base: Table, events: seq<Event>, i: nat)
    requires OriginInv(s, base) && DistinctKeys(s.rows) && Lists(events, s, base) && i < |events|
    ensures events[i].payload.Some? && KeyOf(events[i]) in s.pg
         && s.pg[KeyOf(events[i])] == StoredAs(events[i], s.node)
  {
    hide KeyFor, Prefix;
    var id := events[i].id;
    assert RowKey(s.rows[id]) == KeyOf(events[i]);
    assert IsRecord(KeyOf(events[i]), s.pg[KeyOf(events[i])], s.rows, s.node);
  }

  lemma ListedDistinct(s: Sys, base: Table, events: seq<Event>)
    requires DistinctKeys(s.rows) && Lists(events, s, base)
    ensures forall i, j | 0 <= i < j < |events| :: Keys(events)[i] != Keys(events)[j]
  {
    hide KeyFor, Prefix;
    forall i, j | 0 <= i < j < |events|
      ensures Keys(events)[i] != Keys(events)[j]
    {
      assert RowKey(s.rows[events[i].id]) == Keys(events)[i] && RowKey(s.rows[events[j].id]) == Keys(events)[j];
    }
  }

  lemma ListedCover(s: Sys, base: Table, events: seq<Event>, k: Key)
    requires OriginInv(s, base) && Lists(events, s, base) && k in s.pg && k !in base
    ensures k in Keys(events)
  {
    hide KeyFor, Prefix;
    assert IsRecord(k, s.pg[k], s.rows, s.node);
    var id :| id in s.rows && RowKey(s.rows[id]) == k;
    assert Delivered(s, id);
    var i :| 0 <= i < |events| && events[i].id == id;
    assert Keys(events)[i] == k;
  }

  lemma WritesAre(s: Sys, base: Table, events: seq<Event>, writes: Table)
    requires OriginInv(s, base) && DistinctKeys(s.rows) && Lists(events, s, base)
    requires forall i: nat | i < |events| ::
               KeyOf(events[i]) in s.pg && s.pg[KeyOf(events[i])] == StoredAs(events[i], s.node)
    requires IsMissing(writes, base, Keys(events), Records(events, s.node))
    ensures base + writes == s.pg
  {
    hide KeyOf, StoredAs, DistinctKeys, Lists, FromRows;
    var keys := Keys(events);
    ListedDistinct(s, base, events);
    forall k | k in writes
      ensures k in s.pg && writes[k] == s.pg[k] && k !in base
    {
      var i :| 0 <= i < |keys| && keys[i] == k;
      assert keys[i] !in keys[..i];
    }
    forall k | k in s.pg && k !in base
      ensures k in writes
    {
      ListedCover(s, base, events, k);
    }
  }
}
