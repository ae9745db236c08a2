/**
 * The edge agent as a step system: main inserting events, the sync thread, any number of further do_sync calls made
 * by signal handlers, and crashes between any two steps.
 */
module EdgeProtocol {
  import opened Text
  import opened EdgeData

  /** Where one do_sync is. One that is not in the map of syncers has not read its batch yet. */
  datatype Syncer =
    | Batched(batch: seq<Event>)
    | Upserting(batch: seq<Event>, next: nat, acked: seq<Id>, txn: Txn)
    | Marking(acked: seq<Id>)

  datatype MainPc = Serving | Stopping | Exited
  datatype ThreadPc = Waiting | Syncing | FinalSync | Done

  /** The syncer that runs in the sync thread; every other number is a flush made by a signal handler. */
  const THREAD: nat := 0

  /** lost is a history variable: the rows acknowledged inside a transaction that did not commit. */
  datatype Sys = Sys(rows: Queue, pg: Table, syncers: map<nat, Syncer>, main: MainPc, thread: ThreadPc, stop: bool,
                     lost: set<Id>, node: string)

  datatype Step =
    | Arrive(id: Id, row: Row)                // on_message: buffer_event_insert succeeds
    | Wake                                    // the thread starts a periodic do_sync
    | SeeStop                                 // the thread observes stop and starts its final do_sync
    | Read(sid: nat, batch: seq<Event>)       // buffer_events_read_unflushed
    | Connected(sid: nat, begin: bool)        // connected, prepared, BEGIN sent
    | UpsertNext(sid: nat, ok: bool)
    | EndTxn(sid: nat, commit: bool)
    | Mark(sid: nat, ids: set<Id>)            // the UPDATEs that take effect together
    | Return(sid: nat)                        // do_sync returns
    | Stop                                    // main leaves its loop and calls sync_stop
    | Join                                    // pthread_join returns and main exits
    | Crash                                   // the process dies at any point and is started again

  function Writes(y: Syncer): Table {
    if y.Upserting? && y.txn.Open? then y.txn.writes else map[]
  }

  function Acked(y: Syncer): seq<Id> {
    if y.Batched? then [] else y.acked
  }

  function Batch(y: Syncer): seq<Event> {
    if y.Marking? then [] else y.batch
  }

  /** Another open transaction has inserted the key, so PostgreSQL makes this statement wait. */
  predicate Locked(s: Sys, sid: nat, key: Key) {
    exists o | o in s.syncers :: o != sid && key in Writes(s.syncers[o])
  }

  function UpsertOf(s: Sys, y: Syncer, ok: bool): Statement
    requires y.Upserting? && y.next < |y.batch|
  {
    Upsert(s.pg, y.txn, y.batch[y.next], s.node, ok)
  }

  ghost predicate Enabled(s: Sys, step: Step) {
    match step
    case Arrive(id, row) => s.main.Serving? && id !in s.rows && !row.flushed
    case Wake => s.main != Exited && s.thread.Waiting?
    case SeeStop => s.main != Exited && s.thread.Waiting? && s.stop
    case Read(sid, batch) =>
      && s.main != Exited && sid !in s.syncers && (sid == THREAD ==> s.thread in {Syncing, FinalSync})
      && batch != [] && IsBatch(s.rows, batch, BUFFER_FLUSH_LIMIT)
    case Connected(sid, begin) => sid in s.syncers && s.syncers[sid].Batched?
    case UpsertNext(sid, ok) =>
      && sid in s.syncers && s.syncers[sid].Upserting? && s.syncers[sid].next < |s.syncers[sid].batch|
      && (ok ==> !Locked(s, sid, KeyOf(s.syncers[sid].batch[s.syncers[sid].next])))
    case EndTxn(sid, commit) =>
      sid in s.syncers && s.syncers[sid].Upserting? && s.syncers[sid].next == |s.syncers[sid].batch|
    case Mark(sid, ids) => sid in s.syncers && s.syncers[sid].Marking? && ids <= SetOf(s.syncers[sid].acked)
    case Return(sid) =>
      if sid in s.syncers then !s.syncers[sid].Upserting?
      else sid == THREAD && s.main != Exited && s.thread in {Syncing, FinalSync}
    case Stop => s.main.Serving?
    case Join => s.main.Stopping? && s.thread.Done?
    case Crash => true
  }

  function Next(s: Sys, step: Step): Sys
    requires Enabled(s, step)
  {
    match step
    case Arrive(id, row) => s.(rows := s.rows[id := row])
    case Wake => s.(thread := Syncing)
    case SeeStop => s.(thread := FinalSync)
    case Read(sid, batch) => s.(syncers := s.syncers[sid := Batched(batch)])
    case Connected(sid, begin) =>
      s.(syncers := s.syncers[sid := Upserting(s.syncers[sid].batch, 0, [], Begin(begin))])
    case UpsertNext(sid, ok) =>
      var y := s.syncers[sid];
      var r := UpsertOf(s, y, ok);
      var acked := if r.ok then y.acked + [y.batch[y.next].id] else y.acked;
      s.(pg := r.table, syncers := s.syncers[sid := Upserting(y.batch, y.next + 1, acked, r.txn)])
    case EndTxn(sid, commit) =>
      var y := s.syncers[sid];
      var committed := y.txn.AutoCommit? || (y.txn.Open? && commit);
      s.(pg := Commit(s.pg, y.txn, commit), syncers := s.syncers[sid := Marking(y.acked)],
         lost := if committed then s.lost else s.lost + SetOf(y.acked))
    case Mark(sid, ids) => s.(rows := Flag(s.rows, ids))
    case Return(sid) =>
      s.(syncers := s.syncers - {sid},
         thread := if sid != THREAD then s.thread else if s.thread.FinalSync? then Done else Waiting)
    case Stop => s.(main := Stopping, stop := true)
    case Join => s.(main := Exited, syncers := map[])
    case Crash => s.(syncers := map[], main := Serving, thread := Waiting, stop := false)
  }

  ghost predicate Init(s: Sys) {
    s.rows == map[] && s.syncers == map[] && s.main.Serving? && s.thread.Waiting? && !s.stop && s.lost == {}
  }

  /** trace[0] steps[0] trace[1] steps[1] ... is a run. */
  ghost predicate IsRun(trace: seq<Sys>, steps: seq<Step>) {
    && |trace| == |steps| + 1
    && forall i | 0 <= i < |steps| :: Enabled(trace[i], steps[i]) && trace[i + 1] == Next(trace[i], steps[i])
  }

  // ----- The invariant -----

  /** Every event in hand is an accepted row as it was read. */
  ghost predicate BatchesInv(s: Sys) {
    forall sid | sid in s.syncers ::
      && (forall ev | ev in Batch(s.syncers[sid]) :: ev.id in s.rows && ev == EventOf(ev.id, s.rows[ev.id]))
      && (s.syncers[sid].Upserting? ==> s.syncers[sid].next <= |s.syncers[sid].batch|)
  }

  /** Open transactions hold disjoint sets of new keys: the row locks of PostgreSQL. */
  ghost predicate LocksInv(s: Sys) {
    WritesNew(s) && WritesDisjoint(s)
  }

  ghost predicate WritesNew(s: Sys) {
    forall sid, k | sid in s.syncers && k in Writes(s.syncers[sid]) :: k !in s.pg
  }

  ghost predicate WritesDisjoint(s: Sys) {
    forall a, b, k | a in s.syncers && b in s.syncers && a != b && k in Writes(s.syncers[a]) ::
      k !in Writes(s.syncers[b])
  }

  predicate Delivered(s: Sys, id: Id)
    requires id in s.rows
  {
    RowKey(s.rows[id]) in s.pg
  }

  /** An acknowledged row is delivered, or will be if its transaction commits, or is lost. */
  ghost predicate AckedInv(s: Sys) {
    forall sid, id | sid in s.syncers && id in Acked(s.syncers[sid]) ::
      && id in s.rows
      && (match s.syncers[sid]
          case Batched(_) => true
          case Upserting(_, _, _, txn) => txn.Aborted? || Delivered(s, id) || RowKey(s.rows[id]) in Writes(s.syncers[sid])
          case Marking(_) => Delivered(s, id) || id in s.lost)
  }

  ghost predicate FlaggedInv(s: Sys) {
    forall id | id in s.rows && s.rows[id].flushed :: Delivered(s, id) || id in s.lost
  }

  ghost predicate Inv(s: Sys) {
    BatchesInv(s) && LocksInv(s) && AckedInv(s) && FlaggedInv(s)
  }

  lemma BatchesStep(s: Sys, step: Step)
    requires Enabled(s, step) && BatchesInv(s)
    ensures BatchesInv(Next(s, step))
  {
    hide KeyFor, Prefix, Upsert;
  }

  lemma LocksStep(s: Sys, step: Step)
    requires Enabled(s, step) && LocksInv(s)
    ensures LocksInv(Next(s, step))
  {
    hide KeyFor, IsBatch, StoredAs;
    if step.UpsertNext? {
      LocksUpsert(s, step);
    }
  }

  lemma LocksUpsert(s: Sys, step: Step)
    requires step.UpsertNext? && Enabled(s, step) && LocksInv(s)
    ensures LocksInv(Next(s, step))
  {
    hide Enabled, Next, WritesNew, WritesDisjoint;
    UpsertNew(s, step);
    UpsertDisjoint(s, step);
  }

  lemma UpsertNew(s: Sys, step: Step)
    requires step.UpsertNext? && Enabled(s, step) && LocksInv(s)
    ensures WritesNew(Next(s, step))
  {
    hide KeyOf, IsBatch, StoredAs;
  }

  lemma UpsertDisjoint(s: Sys, step: Step)
    requires step.UpsertNext? && Enabled(s, step) && WritesDisjoint(s)
    ensures WritesDisjoint(Next(s, step))
  {
    hide KeyOf, IsBatch, StoredAs;
  }

  lemma AckedStep(s: Sys, step: Step)
    requires Enabled(s, step) && Inv(s)
    ensures AckedInv(Next(s, step))
  {
    hide Enabled, Next, AckedInv;
    if step.UpsertNext? {
      AckedUpsert(s, step);
    } else if step.EndTxn? {
      AckedEnd(s, step);
    } else {
      AckedElse(s, step);
    }
  }

  lemma AckedUpsert(s: Sys, step: Step)
    requires step.UpsertNext? && Enabled(s, step) && BatchesInv(s) && AckedInv(s)
    ensures AckedInv(Next(s, step))
  {
    hide KeyFor, Prefix, IsBatch;
  }

  lemma AckedEnd(s: Sys, step: Step)
    requires step.EndTxn? && Enabled(s, step) && AckedInv(s)
    ensures AckedInv(Next(s, step))
  {
    hide KeyFor, Prefix, IsBatch;
  }

  lemma AckedElse(s: Sys, step: Step)
    requires !step.UpsertNext? && !step.EndTxn? && Enabled(s, step) && AckedInv(s)
    ensures AckedInv(Next(s, step))
  {
    hide KeyFor, Prefix, IsBatch;
  }

  lemma FlaggedStep(s: Sys, step: Step)
    requires Enabled(s, step) && Inv(s)
    ensures FlaggedInv(Next(s, step))
  {
    hide KeyFor, Prefix, IsBatch;
  }

  lemma InitInv(s: Sys)
    requires Init(s)
    ensures Inv(s)
  {
  }

  lemma InvStep(s: Sys, step: Step)
    requires Enabled(s, step) && Inv(s)
    ensures Inv(Next(s, step))
  {
    hide Enabled, Next, BatchesInv, LocksInv, AckedInv, FlaggedInv;
    BatchesStep(s, step);
    LocksStep(s, step);
    AckedStep(s, step);
    FlaggedStep(s, step);
  }

  lemma {:induction false} InvAlong(trace: seq<Sys>, steps: seq<Step>, i: nat)
    requires IsRun(trace, steps) && Init(trace[0]) && i < |trace|
    ensures Inv(trace[i])
  {
    hide Enabled, Next, Inv, Init;
    if i == 0 {
      InitInv(trace[0]);
    } else {
      InvAlong(trace, steps, i - 1);
      RunStep(trace, steps, i - 1);
      InvStep(trace[i - 1], steps[i - 1]);
    }
  }

  lemma RunStep(trace: seq<Sys>, steps: seq<Step>, i: nat)
    requires IsRun(trace, steps) && i < |steps|
    ensures Enabled(trace[i], steps[i]) && trace[i + 1] == Next(trace[i], steps[i])
  {
    hide Enabled, Next;
  }
}
