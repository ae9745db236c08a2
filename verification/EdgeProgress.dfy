/** What the edge agent can do: runs in which nothing fails do finish, drain the queue, shut down, and recover. */
module EdgeProgress {
  import opened Text
  import opened EdgeData
  import opened EdgeStore
  import opened EdgeSync
  import opened EdgeFlush
  import opened EdgeProtocol
  import opened EdgeRuns
  import opened EdgeShutdown
  import opened EdgeRefinement

  // ----- Batches -----

  lemma {:induction false} OldestOf(rows: Queue, ids: set<Id>) returns (x: Id)
    requires ids != {} && ids <= rows.Keys
    ensures x in ids && forall id | id in ids :: rows[x].ts <= rows[id].ts
    decreases |ids|
  {
    if forall id: Id :: id !in ids {
      assert false;
    }
    x :| x in ids;
    var rest := ids - {x};
    if rest != {} {
      var y := OldestOf(rows, rest);
      if rows[y].ts < rows[x].ts {
        x := y;
      }
    }
  }

  /** The SELECT always has an answer. */
  lemma {:induction false} BatchExists(rows: Queue, limit: nat) returns (batch: seq<Event>)
    ensures IsBatch(rows, batch, limit)
  {
    hide EventOf;
    if limit == 0 {
      batch := [];
    } else {
      batch := BatchExists(rows, limit - 1);
      var rest := Unflushed(rows) - SetOf(Ids(batch));
      if rest != {} {
        var x := OldestOf(rows, rest);
        OneMore(rows, batch, limit, x);
        batch := batch + [EventOf(x, rows[x])];
      } else {
        forall id | id in Unflushed(rows)
          ensures id in SetOf(Ids(batch))
        {
          assert id !in rest;
        }
      }
    }
  }

  lemma OneMore(rows: Queue, batch: seq<Event>, limit: nat, x: Id)
    requires limit > 0 && IsBatch(rows, batch, limit - 1) && x in Unflushed(rows) - SetOf(Ids(batch))
    requires forall id | id in Unflushed(rows) - SetOf(Ids(batch)) :: rows[x].ts <= rows[id].ts
    ensures IsBatch(rows, batch + [EventOf(x, rows[x])], limit)
  {
    hide KeyFor, Prefix;
    var longer := batch + [EventOf(x, rows[x])];
    assert Ids(longer) == Ids(batch) + [x];
    assert SetOf(Ids(longer)) == SetOf(Ids(batch)) + {x};
    assert forall i | 0 <= i < |batch| :: batch[i].id in SetOf(Ids(batch)) && longer[i] == batch[i] by {
      assert forall i | 0 <= i < |batch| :: Ids(batch)[i] == batch[i].id;
    }
  }

  /** A signal handler can begin a flush at any time, whatever others are under way. */
  lemma HandlerMayBegin(s: Sys, sid: nat)
    requires s.main != Exited && sid != THREAD && sid !in s.syncers && Unflushed(s.rows) != {}
    ensures exists batch :: Enabled(s, Read(sid, batch))
  {
    hide IsBatch;
    var batch := BatchExists(s.rows, BUFFER_FLUSH_LIMIT);
    NotEmpty(s.rows, batch);
    assert Enabled(s, Read(sid, batch));
  }

  lemma NotEmpty(rows: Queue, batch: seq<Event>)
    requires IsBatch(rows, batch, BUFFER_FLUSH_LIMIT) && Unflushed(rows) != {}
    ensures batch != []
  {
    BatchSize(rows, batch, BUFFER_FLUSH_LIMIT);
  }

  /** A flush under way can always go on, whatever the others hold. */
  lemma NeverStuck(s: Sys, sid: nat)
    requires sid in s.syncers && BatchesInv(s)
    ensures exists step :: (OwnStep(step, sid) || step == Return(sid)) && Enabled(s, step)
  {
    hide KeyFor, IsBatch;
    var step := match s.syncers[sid]
      case Batched(_) => Connected(sid, true)
      case Upserting(batch, next, _, _) => if next < |batch| then UpsertNext(sid, false) else EndTxn(sid, true)
      case Marking(_) => Return(sid);
    assert Enabled(s, step);
  }

  /**
   * An upsert whose payload is there and whose key no other open transaction has inserted can succeed, whatever else is
   * under way, unless its own transaction is aborted.
   */
  lemma MayInsert(s: Sys, sid: nat)
    requires sid in s.syncers && s.syncers[sid].Upserting? && s.syncers[sid].next < |s.syncers[sid].batch|
    requires var ev := s.syncers[sid].batch[s.syncers[sid].next];
             ev.payload.Some? && !s.syncers[sid].txn.Aborted?
             && forall o | o in s.syncers && o != sid && s.syncers[o].Upserting? && s.syncers[o].txn.Open? ::
                  KeyOf(ev) !in s.syncers[o].txn.writes
    ensures Enabled(s, UpsertNext(sid, true)) && UpsertOf(s, s.syncers[sid], true).ok
  {
    hide KeyOf, StoredAs;
  }

  /** A run can start with any table. */
  lemma MayStart(pg: Table, node: string)
    ensures exists s :: Init(s) && s.pg == pg && s.node == node && Enabled(s, Wake) && Enabled(s, Stop)
  {
    assert Init(Sys(map[], pg, map[], Serving, Waiting, false, {}, node));
  }

  // ----- A flush without failures, step by step -----

  /** A run in which everything succeeds and nothing arrives. */
  ghost predicate SmoothRun(trace: seq<Sys>, steps: seq<Step>) {
    && IsRun(trace, steps)
    && forall k | 0 <= k < |steps| :: !steps[k].Arrive? && Enabled(trace[k], steps[k]) && Smooth(trace[k], steps[k])
  }

  lemma SmoothUpsert(s: Sys, sid: nat, batch: seq<Event>, n: nat)
    requires n < |batch| && forall ev | ev in batch :: ev.payload.Some?
    ensures var m := Midway(s, sid, batch, ALL_WELL, n);
            UpsertOf(m, m.syncers[sid], true).ok
  {
    hide KeyFor, StoredAs;
    AllGood(batch, ALL_WELL);
    UpsertsCollect(s.pg, batch, s.node, ALL_WELL.upserts, n);
  }

  lemma AckedAll(s: Sys, batch: seq<Event>)
    requires forall ev | ev in batch :: ev.payload.Some?
    ensures UpsertAll(s.pg, Begin(true), batch, s.node, [], |batch|).acked == Ids(batch)
    ensures Flush(s.pg, s.rows, batch, s.node, ALL_WELL).acked == Ids(batch)
    ensures Marked(Ids(batch), true, [], true) == SetOf(Ids(batch))
  {
    hide KeyFor, StoredAs, Ids;
    AllGood(batch, ALL_WELL);
    UpsertsCollect(s.pg, batch, s.node, ALL_WELL.upserts, |batch|);
    AllUpdated(Ids(batch), []);
    assert Ids(batch)[..|batch|] == Ids(batch);
  }

  lemma SmoothEnd(s: Sys, sid: nat, batch: seq<Event>, ended: Sys, marked: Sys)
    requires forall ev | ev in batch :: ev.payload.Some?
    requires var m := Midway(s, sid, batch, ALL_WELL, |batch|);
             Enabled(m, EndTxn(sid, true)) && ended == Next(m, EndTxn(sid, true))
    requires var mark := Mark(sid, SetOf(Ids(batch)));
             Enabled(ended, mark) && marked == Next(ended, mark)
    requires Enabled(marked, Return(sid))
    ensures Smooth(ended, Mark(sid, SetOf(Ids(batch)))) && Smooth(marked, Return(sid))
  {
    hide KeyFor, Upsert, Commit, UpsertAll, Ids;
    AckedAll(s, batch);
    FlagUnflushed(ended.rows, SetOf(Ids(batch)));
  }

  lemma SmoothScript(s: Sys, sid: nat, batch: seq<Event>) returns (trace: seq<Sys>, steps: seq<Step>)
    requires s.syncers == map[] && MayRun(s, sid)
    requires batch != [] && IsBatch(s.rows, batch, BUFFER_FLUSH_LIMIT)
    requires forall ev | ev in batch :: ev.payload.Some?
    ensures |trace| == |steps| + 1 && SmoothRun(trace, steps)
    ensures trace[0] == s && trace[|steps|] == After(s, sid, batch, ALL_WELL)
  {
    hide KeyFor, IsBatch, Flush, Midway, After, Enabled, Next, IsRun, Marked, UpsertAll, Ids;
    var f, n := ALL_WELL, |batch|;
    var acked := Ids(batch);
    AckedAll(s, batch);
    EndRun(s, sid, batch, f);
    var ended := Next(Midway(s, sid, batch, f, n), EndTxn(sid, true));
    var marked := Next(ended, Mark(sid, SetOf(acked)));
    trace := States(s, sid, batch, f, ended, marked);
    steps := Script(sid, batch, f, acked);
    StatesRun(s, sid, batch, f, acked, ended, marked);
    SmoothEnd(s, sid, batch, ended, marked);
    forall k | 0 <= k < |steps|
      ensures !steps[k].Arrive? && Enabled(trace[k], steps[k]) && Smooth(trace[k], steps[k])
    {
      RunStep(trace, steps, k);
      if 2 <= k < n + 2 {
        SmoothUpsert(s, sid, batch, k - 2);
        assert trace[k] == Midway(s, sid, batch, f, k - 2);
        SmoothMidway(s, sid, batch, k - 2);
      }
    }
  }

  lemma SmoothMidway(s: Sys, sid: nat, batch: seq<Event>, n: nat)
    requires n < |batch|
    requires var m := Midway(s, sid, batch, ALL_WELL, n); UpsertOf(m, m.syncers[sid], true).ok
    requires Enabled(Midway(s, sid, batch, ALL_WELL, n), UpsertNext(sid, true))
    ensures Smooth(Midway(s, sid, batch, ALL_WELL, n), UpsertNext(sid, true))
  {
  }

  lemma SmoothPrepend(s: Sys, step: Step, trace: seq<Sys>, steps: seq<Step>)
    requires SmoothRun(trace, steps) && !step.Arrive?
    requires Enabled(s, step) && Smooth(s, step) && Next(s, step) == trace[0]
    ensures SmoothRun([s] + trace, [step] + steps)
  {
    hide Enabled, Next, Smooth;
    Prepend(s, step, trace, steps);
    forall k | 0 <= k < |steps| + 1
      ensures var u, t := ([s] + trace)[k], ([step] + steps)[k]; !t.Arrive? && Enabled(u, t) && Smooth(u, t)
    {
      if k > 0 {
        assert ([s] + trace)[k] == trace[k - 1] && ([step] + steps)[k] == steps[k - 1];
      }
    }
  }

  lemma SmoothAppend(a: seq<Sys>, x: seq<Step>, b: seq<Sys>, y: seq<Step>)
    requires SmoothRun(a, x) && SmoothRun(b, y) && a[|x|] == b[0]
    ensures |a + b[1..]| == |x + y| + 1 && SmoothRun(a + b[1..], x + y) && (a + b[1..])[|x| + |y|] == b[|y|]
  {
    hide Enabled, Next, Smooth;
    var c, z := a + b[1..], x + y;
    forall k | 0 <= k < |z|
      ensures !z[k].Arrive? && Enabled(c[k], z[k]) && Smooth(c[k], z[k]) && c[k + 1] == Next(c[k], z[k])
    {
      if k < |x| {
        RunStep(a, x, k);
        assert c[k] == a[k] && z[k] == x[k] && c[k + 1] == a[k + 1];
      } else {
        RunStep(b, y, k - |x|);
        assert c[k] == b[k - |x|] && z[k] == y[k - |x|] && c[k + 1] == b[k - |x| + 1];
      }
    }
  }

  // ----- One do_sync of the thread -----

  /** What a do_sync without failures makes of an idle agent. */
  ghost predicate Synced(s: Sys, t: Sys) {
    && t.main == s.main && t.stop == s.stop && t.syncers == map[] && t.node == s.node && t.lost == s.lost
    && |Unflushed(t.rows)| == (if |Unflushed(s.rows)| <= 1000 then 0 else |Unflushed(s.rows)| - 1000)
    && Unflushed(t.rows) <= Unflushed(s.rows)
    && t.rows.Keys == s.rows.Keys
    && (forall id | id in s.rows :: t.rows[id] == s.rows[id].(flushed := id !in Unflushed(t.rows)))
    && (forall id | id in Unflushed(s.rows) - Unflushed(t.rows) :: RowKey(s.rows[id]) in t.pg)
    && s.pg.Keys <= t.pg.Keys
  }

  /** The thread has just started a do_sync: the rest of it. */
  lemma ThreadFlushes(s: Sys) returns (trace: seq<Sys>, steps: seq<Step>)
    requires s.syncers == map[] && s.main != Exited && s.thread in {Syncing, FinalSync} && NonEmptyPayloads(s.rows)
    ensures |trace| == |steps| + 1 && SmoothRun(trace, steps) && trace[0] == s && Synced(s, trace[|steps|])
    ensures trace[|steps|].thread == if s.thread.FinalSync? then Done else Waiting
  {
    hide KeyFor, IsBatch, EventOf;
    if Unflushed(s.rows) == {} {
      trace, steps := [s, Next(s, Return(THREAD))], [Return(THREAD)];
      EmptyReturn(s);
    } else {
      hide SmoothRun, Flush, UpsertAll, CleanSync;
      var batch := BatchExists(s.rows, BUFFER_FLUSH_LIMIT);
      NotEmpty(s.rows, batch);
      BatchOrder(s.rows, batch, BUFFER_FLUSH_LIMIT);
      trace, steps := SmoothScript(s, THREAD, batch);
      FlushSyncs(s, batch);
    }
  }

  lemma EmptyReturn(s: Sys)
    requires s.syncers == map[] && s.main != Exited && s.thread in {Syncing, FinalSync} && Unflushed(s.rows) == {}
    ensures SmoothRun([s, Next(s, Return(THREAD))], [Return(THREAD)]) && Synced(s, Next(s, Return(THREAD)))
  {
    hide KeyFor, IsBatch;
    assert Next(s, Return(THREAD)).syncers == map[];
    assert |Unflushed(s.rows)| == 0;
  }

  lemma FlushSyncs(s: Sys, batch: seq<Event>)
    requires s.syncers == map[] && NonEmptyPayloads(s.rows) && IsBatch(s.rows, batch, BUFFER_FLUSH_LIMIT)
    requires forall ev | ev in batch :: ev.payload.Some?
    ensures Synced(s, After(s, THREAD, batch, ALL_WELL))
  {
    hide KeyFor, IsBatch, Flush, EventOf;
    var t := After(s, THREAD, batch, ALL_WELL);
    assert AllSucceed(ALL_WELL, |batch|);
    assert CleanSync(Edge(s.pg, s.rows), Edge(t.pg, t.rows), s.node);
    CleanSyncDrains(Edge(s.pg, s.rows), Edge(t.pg, t.rows), s.node);
    NothingMoreLost(s, batch);
  }

  lemma NothingMoreLost(s: Sys, batch: seq<Event>)
    requires forall ev | ev in batch :: ev.payload.Some?
    ensures After(s, THREAD, batch, ALL_WELL).lost == s.lost
  {
    hide KeyFor, IsMissing, Keys, Records;
    AllGood(batch, ALL_WELL);
    UpsertsCollect(s.pg, batch, s.node, ALL_WELL.upserts, |batch|);
  }

  /** A periodic do_sync: the thread wakes up, flushes, and waits again. */
  lemma PeriodicSync(s: Sys) returns (trace: seq<Sys>, steps: seq<Step>)
    requires s.syncers == map[] && s.main != Exited && s.thread.Waiting? && NonEmptyPayloads(s.rows)
    ensures |trace| == |steps| + 1 && SmoothRun(trace, steps) && trace[0] == s
    ensures trace[|steps|].thread == Waiting && Synced(s, trace[|steps|])
  {
    hide SmoothRun, KeyFor, IsBatch;
    var awake := Next(s, Wake);
    assert awake == s.(thread := Syncing);
    trace, steps := ThreadFlushes(awake);
    SmoothPrepend(s, Wake, trace, steps);
    assert ([s] + trace)[|steps| + 1] == trace[|steps|];
    trace, steps := [s] + trace, [Wake] + steps;
  }

  // ----- Shutdown -----

  /**
   * Shutdown completes: from every state in which main has called sync_stop and no flush is under way there is a run
   * without failures and arrivals in which the thread returns, and then exactly max(0, u - 1000) of u unflushed rows
   * are left. After it pthread_join returns and main exits.
   */
  lemma ShutdownCompletes(s: Sys) returns (trace: seq<Sys>, steps: seq<Step>)
    requires s.main.Stopping? && s.stop && s.thread.Waiting? && s.syncers == map[] && NonEmptyPayloads(s.rows)
    ensures |trace| == |steps| + 1 && SmoothRun(trace, steps) && trace[0] == s
    ensures var t := trace[|steps|];
            && t.thread == Done && Synced(s, t)
            && |Unflushed(t.rows)| == (if |Unflushed(s.rows)| <= 1000 then 0 else |Unflushed(s.rows)| - 1000)
            && Enabled(t, Join) && Next(t, Join).main == Exited
  {
    hide SmoothRun, KeyFor, IsBatch;
    var last := Next(s, SeeStop);
    assert last == s.(thread := FinalSync);
    trace, steps := ThreadFlushes(last);
    SmoothPrepend(s, SeeStop, trace, steps);
    assert ([s] + trace)[|steps| + 1] == trace[|steps|];
    trace, steps := [s] + trace, [SeeStop] + steps;
  }

  /**
   * The bound of ShutdownDrain is met: every run that ends with main serving and no flush under way can be followed by
   * sync_stop and such a shutdown.
   */
  lemma ShutdownBoundMet(trace: seq<Sys>, steps: seq<Step>) returns (whole: seq<Sys>, plan: seq<Step>)
    requires IsRun(trace, steps)
    requires var s := trace[|steps|];
             s.main.Serving? && s.thread.Waiting? && s.syncers == map[] && NonEmptyPayloads(s.rows)
    ensures IsRun(whole, plan) && trace <= whole && steps <= plan && |steps| < |plan| && plan[|steps|] == Stop
    ensures forall k | |steps| < k < |plan| ::
              !plan[k].Arrive? && Enabled(whole[k], plan[k]) && Smooth(whole[k], plan[k])
    ensures var u := |Unflushed(trace[|steps|].rows)|;
            whole[|plan|].thread == Done && |Unflushed(whole[|plan|].rows)| == if u <= 1000 then 0 else u - 1000
  {
    hide KeyFor, IsBatch, Smooth, Upsert, Commit, Flag;
    var s := trace[|steps|];
    var stopped := Next(s, Stop);
    assert stopped == s.(main := Stopping, stop := true);
    var b, y := ShutdownCompletes(stopped);
    hide Enabled, Next;
    whole, plan := trace + b, steps + [Stop] + y;
    forall k | 0 <= k < |plan|
      ensures Enabled(whole[k], plan[k]) && whole[k + 1] == Next(whole[k], plan[k])
      ensures |steps| < k ==> !plan[k].Arrive? && Smooth(whole[k], plan[k])
    {
      if k < |steps| {
        RunStep(trace, steps, k);
        assert whole[k] == trace[k] && plan[k] == steps[k] && whole[k + 1] == trace[k + 1];
      } else if k > |steps| {
        var m := k - |steps| - 1;
        RunStep(b, y, m);
        assert whole[k] == b[m] && plan[k] == y[m] && whole[k + 1] == b[m + 1];
      } else {
        StopEnabled(s);
      }
    }
  }

  lemma StopEnabled(s: Sys)
    requires s.main.Serving?
    ensures Enabled(s, Stop) && Next(s, Stop) == s.(main := Stopping, stop := true)
  {
  }

  // ----- Recovery -----

  /** From an idle serving state, enough periodic syncs without failures deliver and flag everything. */
  lemma {:induction false} QueueDrains(s: Sys) returns (trace: seq<Sys>, steps: seq<Step>)
    requires s.syncers == map[] && s.main != Exited && s.thread.Waiting? && NonEmptyPayloads(s.rows)
    ensures |trace| == |steps| + 1 && SmoothRun(trace, steps) && trace[0] == s
    ensures Unflushed(trace[|steps|].rows) == {} && trace[|steps|].main == s.main
    ensures forall id | id in Unflushed(s.rows) :: RowKey(s.rows[id]) in trace[|steps|].pg
    ensures s.pg.Keys <= trace[|steps|].pg.Keys
    decreases |Unflushed(s.rows)|
  {
    hide SmoothRun, KeyFor, Prefix, IsBatch;
    if Unflushed(s.rows) == {} {
      trace, steps := [s], [];
      NoSteps(s);
    } else {
      var a, x := PeriodicSync(s);
      var t := a[|x|];
      var b, y := QueueDrains(t);
      SmoothAppend(a, x, b, y);
      forall id | id in Unflushed(s.rows)
        ensures RowKey(s.rows[id]) in b[|y|].pg
      {
        assert RowKey(t.rows[id]) == RowKey(s.rows[id]);
      }
      trace, steps := a + b[1..], x + y;
    }
  }

  lemma NoSteps(s: Sys)
    ensures SmoothRun([s], [])
  {
  }

  /**
   * Recovery: whatever is under way, a crash leaves queue and table as they are, and after the restart a run without
   * failures delivers and flags every row that was unflushed.
   */
  lemma CrashRecovery(s: Sys) returns (trace: seq<Sys>, steps: seq<Step>)
    requires NonEmptyPayloads(s.rows)
    ensures Enabled(s, Crash)
    ensures var r := Next(s, Crash);
            && r.main == Serving && r.thread == Waiting && !r.stop && r.syncers == map[]
            && r.rows == s.rows && r.pg == s.pg && r.lost == s.lost
            && |trace| == |steps| + 1 && SmoothRun(trace, steps) && trace[0] == r
    ensures Unflushed(trace[|steps|].rows) == {} && trace[|steps|].main == Serving
    ensures forall id | id in Unflushed(s.rows) :: RowKey(s.rows[id]) in trace[|steps|].pg
  {
    hide SmoothRun, KeyFor, Prefix, IsBatch;
    trace, steps := QueueDrains(Next(s, Crash));
  }
}
