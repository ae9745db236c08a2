/** Progress of the edge agent: what shutdown leaves behind, and what one uninsertable row holds up. */
module EdgeShutdown {
  import opened Text
  import opened EdgeData
  import opened EdgeFlush
  import opened EdgeProtocol

  // ----- Shutdown -----

  ghost predicate ThreadInv(s: Sys) {
    && (s.stop <==> !s.main.Serving?)
    && (s.thread in {FinalSync, Done} ==> s.stop)
    && (THREAD in s.syncers ==> s.thread in {Syncing, FinalSync})
  }

  lemma ThreadStep(s: Sys, step: Step)
    requires Enabled(s, step) && ThreadInv(s)
    ensures ThreadInv(Next(s, step))
  {
    hide IsBatch, Upsert;
  }

  lemma {:induction false} ThreadAlong(trace: seq<Sys>, steps: seq<Step>, i: nat)
    requires IsRun(trace, steps) && Init(trace[0]) && i < |trace|
    ensures ThreadInv(trace[i])
  {
    if i > 0 {
      hide Enabled, Next, Init, ThreadInv;
      ThreadAlong(trace, steps, i - 1);
      RunStep(trace, steps, i - 1);
      ThreadStep(trace[i - 1], steps[i - 1]);
    }
  }

  /** At b the thread saw stop; after b it starts no other do_sync and main inserts nothing. */
  ghost predicate FinalStart(trace: seq<Sys>, steps: seq<Step>, b: nat, j: nat)
    requires |trace| == |steps| + 1 && j < |trace|
  {
    && b < j && steps[b].SeeStop? && trace[b].stop
    && forall k | b < k < j :: !steps[k].Wake? && !steps[k].SeeStop? && !steps[k].Arrive?
  }

  /** A thread that has returned made its last do_sync after it had observed stop, and nothing was inserted since. */
  lemma {:induction false} LastSyncSeesStop(trace: seq<Sys>, steps: seq<Step>, j: nat)
    requires IsRun(trace, steps) && Init(trace[0]) && j < |trace|
    requires trace[j].thread in {FinalSync, Done}
    ensures exists b :: FinalStart(trace, steps, b, j)
  {
    hide Init, Enabled, Next, FinalStart;
    FirstIsWaiting(trace);
    var i := j - 1;
    RunStep(trace, steps, i);
    ThreadAlong(trace, steps, i);
    FinalStep(trace[i], steps[i]);
    if steps[i].SeeStop? {
      assert FinalStart(trace, steps, i, j) by { FinalHere(trace, steps, i); }
    } else {
      LastSyncSeesStop(trace, steps, i);
      var b: nat :| FinalStart(trace, steps, b, i);
      FinalLater(trace, steps, b, i);
    }
  }

  /** What a step into or within the final do_sync can be. */
  lemma FinalStep(s: Sys, step: Step)
    requires Enabled(s, step) && ThreadInv(s) && Next(s, step).thread in {FinalSync, Done}
    ensures if step.SeeStop? then s.stop
            else s.thread in {FinalSync, Done} && !step.Wake? && !step.Arrive?
  {
    hide IsBatch, Upsert, Commit, Flag;
  }

  lemma FinalHere(trace: seq<Sys>, steps: seq<Step>, i: nat)
    requires |trace| == |steps| + 1 && i < |steps| && steps[i].SeeStop? && trace[i].stop
    ensures FinalStart(trace, steps, i, i + 1)
  {
  }

  lemma FinalLater(trace: seq<Sys>, steps: seq<Step>, b: nat, i: nat)
    requires |trace| == |steps| + 1 && i < |steps| && FinalStart(trace, steps, b, i)
    requires !steps[i].Wake? && !steps[i].SeeStop? && !steps[i].Arrive?
    ensures FinalStart(trace, steps, b, i + 1)
  {
  }

  lemma FirstIsWaiting(trace: seq<Sys>)
    requires |trace| > 0 && Init(trace[0])
    ensures trace[0].thread.Waiting?
  {
  }

  /** The step succeeds in every way it can. */
  ghost predicate Smooth(s: Sys, step: Step)
    requires Enabled(s, step)
  {
    match step
    case Connected(_, begin) => begin
    case UpsertNext(sid, ok) => UpsertOf(s, s.syncers[sid], ok).ok
    case EndTxn(_, commit) => commit
    case Mark(sid, ids) => ids == SetOf(s.syncers[sid].acked)
    case Return(sid) =>
      if sid !in s.syncers then Unflushed(s.rows) == {}
      else s.syncers[sid].Marking? && Unflushed(s.rows) !! SetOf(s.syncers[sid].acked)
    case Crash => false
    case _ => true
  }

  /** The rows that the thread's syncer will have flagged when it returns. */
  function Claimed(y: Syncer): set<Id> {
    if y.Marking? then SetOf(y.acked) else SetOf(Ids(y.batch))
  }

  /** After stop, with u unflushed rows then: once the final batch is read, at most max(0, u - 1000) stay out of it. */
  ghost predicate BoundInv(s: Sys, u: nat) {
    && !s.main.Serving? && |Unflushed(s.rows)| <= u
    && (s.thread.Done? ==> |Unflushed(s.rows)| <= Less(u, BUFFER_FLUSH_LIMIT))
    && (s.thread.FinalSync? && THREAD in s.syncers ==>
          var y := s.syncers[THREAD];
          && |Unflushed(s.rows) - Claimed(y)| <= Less(u, BUFFER_FLUSH_LIMIT)
          && (y.Upserting? ==> y.next <= |y.batch| && y.acked == Ids(y.batch)[..y.next]))
  }

  lemma Shrinks(rows: Queue, ids: set<Id>, claimed: set<Id>)
    ensures |Unflushed(Flag(rows, ids))| <= |Unflushed(rows)|
    ensures |Unflushed(Flag(rows, ids)) - claimed| <= |Unflushed(rows) - claimed|
  {
    FlagUnflushed(rows, ids);
    SubsetSize(Unflushed(Flag(rows, ids)), Unflushed(rows));
    SubsetSize(Unflushed(Flag(rows, ids)) - claimed, Unflushed(rows) - claimed);
  }

  lemma BoundMark(s: Sys, step: Step, u: nat)
    requires step.Mark? && Enabled(s, step) && ThreadInv(s) && BoundInv(s, u)
    ensures BoundInv(Next(s, step), u)
  {
    hide KeyFor, Flag, Unflushed, Claimed;
    Shrinks(s.rows, step.ids, if THREAD in s.syncers then Claimed(s.syncers[THREAD]) else {});
  }

  lemma BoundRead(s: Sys, step: Step, u: nat)
    requires step.Read? && Enabled(s, step) && ThreadInv(s) && BoundInv(s, u)
    ensures BoundInv(Next(s, step), u)
  {
    hide KeyFor, Unflushed;
    BatchSize(s.rows, step.batch, BUFFER_FLUSH_LIMIT);
    SubsetSize(SetOf(Ids(step.batch)), Unflushed(s.rows));
  }

  lemma BoundReturn(s: Sys, step: Step, u: nat)
    requires step.Return? && Enabled(s, step) && Smooth(s, step) && ThreadInv(s) && BoundInv(s, u)
    ensures BoundInv(Next(s, step), u)
  {
    hide KeyFor, Unflushed;
    if step.sid in s.syncers {
      assert Unflushed(s.rows) - SetOf(s.syncers[step.sid].acked) == Unflushed(s.rows);
    }
  }

  lemma BoundEnd(s: Sys, step: Step, u: nat)
    requires step.EndTxn? && Enabled(s, step) && ThreadInv(s) && BoundInv(s, u)
    ensures BoundInv(Next(s, step), u)
  {
    hide KeyFor, Commit, Unflushed, Upsert, SetOf, Ids, IsBatch;
    var y := s.syncers[step.sid];
    assert Ids(y.batch)[..|y.batch|] == Ids(y.batch);
  }

  lemma IdsStep(batch: seq<Event>, n: nat)
    requires n < |batch|
    ensures Ids(batch)[..n] + [batch[n].id] == Ids(batch)[..n + 1]
  {
  }

  lemma BoundUpsert(s: Sys, step: Step, u: nat)
    requires step.UpsertNext? && Enabled(s, step) && Smooth(s, step) && ThreadInv(s) && BoundInv(s, u)
    ensures BoundInv(Next(s, step), u)
  {
    hide KeyOf, Commit, Unflushed, Upsert, SetOf, Ids, IsBatch, Locked;
    var y := s.syncers[step.sid];
    IdsStep(y.batch, y.next);
  }

  lemma BoundStep(s: Sys, step: Step, u: nat)
    requires Enabled(s, step) && Smooth(s, step) && ThreadInv(s) && BoundInv(s, u)
    ensures BoundInv(Next(s, step), u)
  {
    hide KeyFor, Commit, Flag, Upsert, Unflushed, IsBatch;
    if step.Mark? {
      BoundMark(s, step, u);
    } else if step.Read? {
      BoundRead(s, step, u);
    } else if step.Return? {
      BoundReturn(s, step, u);
    } else if step.EndTxn? {
      BoundEnd(s, step, u);
    } else if step.UpsertNext? {
      BoundUpsert(s, step, u);
    }
  }

  lemma {:induction false} BoundAlong(trace: seq<Sys>, steps: seq<Step>, a: nat, j: nat)
    requires IsRun(trace, steps) && Init(trace[0]) && a < j < |trace|
    requires steps[a].Stop?
    requires forall k | a < k < j :: Smooth(trace[k], steps[k])
    ensures BoundInv(trace[j], |Unflushed(trace[a].rows)|)
    decreases j
  {
    hide Init, Smooth, Next, Enabled, ThreadInv, BoundInv;
    ThreadAlong(trace, steps, j - 1);
    RunStep(trace, steps, j - 1);
    if j == a + 1 {
      StopBound(trace[a]);
    } else {
      BoundAlong(trace, steps, a, j - 1);
      BoundStep(trace[j - 1], steps[j - 1], |Unflushed(trace[a].rows)|);
    }
  }

  lemma StopBound(s: Sys)
    requires Enabled(s, Stop) && ThreadInv(s)
    ensures BoundInv(Next(s, Stop), |Unflushed(s.rows)|)
  {
  }

  /**
   * Shutdown drain: if every operation after sync_stop was called succeeds and u rows were unflushed then, at most
   * max(0, u - 1000) are left when the sync thread has returned.
   */
  lemma ShutdownDrain(trace: seq<Sys>, steps: seq<Step>, a: nat, j: nat)
    requires IsRun(trace, steps) && Init(trace[0]) && a < j < |trace|
    requires steps[a].Stop? && trace[j].thread.Done?
    requires forall k | a < k < j :: Smooth(trace[k], steps[k])
    ensures var u := |Unflushed(trace[a].rows)|;
            |Unflushed(trace[j].rows)| <= if u <= 1000 then 0 else u - 1000
  {
    hide Init, Smooth, Next, Enabled;
    BoundAlong(trace, steps, a, j);
  }

  // ----- The head of the line -----

  /** p is unflushed and strictly older than every other unflushed row. */
  ghost predicate Oldest(rows: Queue, p: Id) {
    p in Unflushed(rows) && forall id | id in Unflushed(rows) && id != p :: rows[p].ts < rows[id].ts
  }

  /** BEGIN succeeds, the upsert of p does not, and what arrives is younger than p. */
  ghost predicate HeldUp(s: Sys, step: Step, p: Id)
    requires Enabled(s, step) && p in s.rows
  {
    match step
    case Connected(_, begin) => begin
    case UpsertNext(sid, ok) =>
      s.syncers[sid].batch[s.syncers[sid].next].id == p ==> !UpsertOf(s, s.syncers[sid], ok).ok
    case Arrive(_, row) => s.rows[p].ts < row.ts
    case _ => true
  }

  /** The batch in hand starts with p, and its transaction does not get past it. */
  predicate Stuck(y: Syncer, p: Id) {
    match y
    case Batched(batch) => batch != [] && batch[0].id == p
    case Upserting(batch, next, acked, txn) =>
      && batch != [] && batch[0].id == p && acked == []
      && txn == if next == 0 then Open(map[]) else Aborted
    case Marking(acked) => acked == []
  }

  /** Every batch in hand starts with p, and no transaction gets past it. */
  ghost predicate StuckInv(s: Sys, p: Id) {
    && Oldest(s.rows, p)
    && forall sid | sid in s.syncers :: Stuck(s.syncers[sid], p)
  }

  lemma OldestLeads(rows: Queue, batch: seq<Event>, limit: nat, p: Id)
    requires IsBatch(rows, batch, limit) && Oldest(rows, p) && batch != []
    ensures batch[0].id == p
  {
    hide KeyFor, Prefix;
    if p in SetOf(Ids(batch)) {
      var i :| 0 <= i < |batch| && Ids(batch)[i] == p;
      assert batch[0].ts <= batch[i].ts;
    }
  }

  // One flush among others: whatever the rest of the agent does.

  /** The step belongs to the flush sid has begun. */
  predicate OwnStep(step: Step, sid: nat) {
    match step
    case Connected(o, _) => o == sid
    case UpsertNext(o, _) => o == sid
    case EndTxn(o, _) => o == sid
    case Mark(o, _) => o == sid
    case _ => false
  }

  /** With the step the flush of sid is over. */
  predicate Leaves(step: Step, sid: nat) {
    match step
    case Return(o) => o == sid
    case Join => true
    case Crash => true
    case _ => false
  }

  /** If the step is sid's BEGIN it succeeds, and if it is sid's upsert of p it fails. */
  ghost predicate BatchHeldUp(s: Sys, step: Step, sid: nat, p: Id)
    requires Enabled(s, step)
  {
    match step
    case Connected(o, begin) => o == sid ==> begin
    case UpsertNext(o, ok) =>
      o == sid && s.syncers[o].batch[s.syncers[o].next].id == p ==> !UpsertOf(s, s.syncers[o], ok).ok
    case _ => true
  }

  lemma BatchStep(s: Sys, step: Step, sid: nat, p: Id)
    requires Enabled(s, step) && sid in s.syncers && Stuck(s.syncers[sid], p)
    requires !Leaves(step, sid) && BatchHeldUp(s, step, sid, p)
    ensures var t := Next(s, step);
            && sid in t.syncers && Stuck(t.syncers[sid], p)
            && (OwnStep(step, sid) ==> t.pg == s.pg && t.rows == s.rows)
  {
    hide KeyFor, Prefix, IsBatch;
  }

  /**
   * Head of the line: a flush that sid begins by reading a batch while p is strictly the oldest unflushed row, and whose
   * BEGIN succeeds and whose upsert of p fails, adds nothing to PostgreSQL and flags no row in any of its steps. Other
   * flushes may overlap it, mark p, or fail; rows older than p may arrive.
   */
  lemma {:induction false} HeadOfLineBatch(trace: seq<Sys>, steps: seq<Step>, r: nat, j: nat, sid: nat, p: Id)
    requires IsRun(trace, steps) && r < j < |trace|
    requires steps[r].Read? && steps[r].sid == sid && Oldest(trace[r].rows, p)
    requires forall k | r < k < j :: !Leaves(steps[k], sid) && BatchHeldUp(trace[k], steps[k], sid, p)
    ensures sid in trace[j].syncers && Stuck(trace[j].syncers[sid], p) && Acked(trace[j].syncers[sid]) == []
    ensures forall k | r < k < j && OwnStep(steps[k], sid) ::
              trace[k + 1].pg == trace[k].pg && trace[k + 1].rows == trace[k].rows
    decreases j
  {
    hide Enabled, Next, BatchHeldUp, Oldest, Stuck, Acked;
    RunStep(trace, steps, j - 1);
    if j == r + 1 {
      ReadIsStuck(trace[r], steps[r], p);
    } else {
      HeadOfLineBatch(trace, steps, r, j - 1, sid, p);
      BatchStep(trace[j - 1], steps[j - 1], sid, p);
    }
    StuckAcksNothing(trace[j].syncers[sid], p);
  }

  lemma ReadIsStuck(s: Sys, step: Step, p: Id)
    requires step.Read? && Enabled(s, step) && Oldest(s.rows, p)
    ensures var t := Next(s, step);
            step.sid in t.syncers && Stuck(t.syncers[step.sid], p)
  {
    hide IsBatch, Oldest;
    OldestLeads(s.rows, step.batch, BUFFER_FLUSH_LIMIT, p);
  }

  lemma StuckAcksNothing(y: Syncer, p: Id)
    requires Stuck(y, p)
    ensures Acked(y) == []
  {
  }

  // The whole queue.

  lemma StuckStep(s: Sys, step: Step, p: Id)
    requires StuckInv(s, p) && Enabled(s, step) && HeldUp(s, step, p)
    ensures StuckInv(Next(s, step), p) && Next(s, step).pg == s.pg
    ensures Unflushed(s.rows) <= Unflushed(Next(s, step).rows)
  {
    hide KeyFor, Prefix;
    if step.Read? {
      OldestLeads(s.rows, step.batch, BUFFER_FLUSH_LIMIT, p);
    }
  }

  lemma IdleIsStuck(s: Sys, p: Id)
    requires s.syncers == map[] && Oldest(s.rows, p)
    ensures StuckInv(s, p)
  {
  }

  /**
   * So while the oldest unflushed row cannot be inserted and stays the oldest, the queue stands still: from a state
   * with no flush under way, no run adds anything to PostgreSQL or flags any row, however many flushes it makes.
   */
  lemma {:induction false} HeadOfLine(trace: seq<Sys>, steps: seq<Step>, i: nat, j: nat, p: Id)
    requires IsRun(trace, steps) && i <= j < |trace|
    requires trace[i].syncers == map[] && Oldest(trace[i].rows, p)
    requires forall k | i <= k < j :: p in trace[k].rows && HeldUp(trace[k], steps[k], p)
    ensures StuckInv(trace[j], p) && trace[j].pg == trace[i].pg
    ensures Unflushed(trace[i].rows) <= Unflushed(trace[j].rows)
    decreases j
  {
    hide Enabled, Next, HeldUp, StuckInv, Oldest, Unflushed;
    if i == j {
      IdleIsStuck(trace[i], p);
    } else {
      HeadOfLine(trace, steps, i, j - 1, p);
      RunStep(trace, steps, j - 1);
      StuckStep(trace[j - 1], steps[j - 1], p);
    }
  }
}
