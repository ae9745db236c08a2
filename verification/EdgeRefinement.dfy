/** The loop of pg_flush is one of the interleavings of the step system. */
module EdgeRefinement {
  import opened Text
  import opened EdgeData
  import opened EdgeStore
  import opened EdgeSync
  import opened EdgeFlush
  import opened EdgeProtocol
  import opened EdgeRuns

  /** The state when pg_flush, run by sid alone from s, has made n upserts. */
  function Midway(s: Sys, sid: nat, batch: seq<Event>, f: Fates, n: nat): Sys
    requires n <= |batch|
  {
    var p := UpsertAll(s.pg, Begin(f.begin), batch, s.node, f.upserts, n);
    s.(pg := p.table, syncers := map[sid := Upserting(batch, n, p.acked, p.txn)])
  }

  /** Where the sync thread is when a do_sync by sid has returned. */
  function Returned(s: Sys, sid: nat): ThreadPc {
    if sid != THREAD then s.thread else if s.thread.FinalSync? then Done else Waiting
  }

  /** The state when do_sync has returned. */
  function After(s: Sys, sid: nat, batch: seq<Event>, f: Fates): Sys {
    var p := UpsertAll(s.pg, Begin(f.begin), batch, s.node, f.upserts, |batch|);
    var r := Flush(s.pg, s.rows, batch, s.node, f);
    var committed := p.txn.AutoCommit? || (p.txn.Open? && f.commit);
    s.(pg := r.table, rows := r.rows, thread := Returned(s, sid),
       lost := if committed then s.lost else s.lost + SetOf(r.acked))
  }

  /** A signal handler may run do_sync at any time, the sync thread once it has woken up. */
  predicate MayRun(s: Sys, sid: nat) {
    s.main != Exited && (sid == THREAD ==> s.thread in {Syncing, FinalSync})
  }

  function Script(sid: nat, batch: seq<Event>, f: Fates, acked: seq<Id>): seq<Step> {
    [Read(sid, batch), Connected(sid, f.begin)]
    + seq(|batch|, i requires 0 <= i < |batch| => UpsertNext(sid, Succeeds(f.upserts, i)))
    + [EndTxn(sid, f.commit), Mark(sid, Marked(acked, f.markBegin, f.updates, f.markCommit)), Return(sid)]
  }

  lemma UpsertRun(s: Sys, sid: nat, batch: seq<Event>, f: Fates, n: nat)
    requires n < |batch|
    ensures var m := Midway(s, sid, batch, f, n);
            var step := UpsertNext(sid, Succeeds(f.upserts, n));
            Enabled(m, step) && Next(m, step) == Midway(s, sid, batch, f, n + 1)
  {
    hide KeyFor, Upsert;
    var m := Midway(s, sid, batch, f, n);
    assert forall o | o in m.syncers :: o == sid;
    assert m.syncers[sid := Midway(s, sid, batch, f, n + 1).syncers[sid]]
        == Midway(s, sid, batch, f, n + 1).syncers;
  }

  lemma EndRun(s: Sys, sid: nat, batch: seq<Event>, f: Fates)
    requires s.syncers == map[] && MayRun(s, sid)
    ensures var m := Midway(s, sid, batch, f, |batch|);
            var acked := Flush(s.pg, s.rows, batch, s.node, f).acked;
            var mark := Mark(sid, Marked(acked, f.markBegin, f.updates, f.markCommit));
            && Enabled(m, EndTxn(sid, f.commit))
            && Enabled(Next(m, EndTxn(sid, f.commit)), mark)
            && Enabled(Next(Next(m, EndTxn(sid, f.commit)), mark), Return(sid))
            && Next(Next(Next(m, EndTxn(sid, f.commit)), mark), Return(sid)) == After(s, sid, batch, f)
  {
    hide KeyFor;
    assert Next(Next(Next(Midway(s, sid, batch, f, |batch|), EndTxn(sid, f.commit)),
                     Mark(sid, Marked(Flush(s.pg, s.rows, batch, s.node, f).acked, f.markBegin, f.updates, f.markCommit))),
                Return(sid)).syncers == map[];
  }

  /** The states that Script passes through, once its end has been shown to be enabled. */
  function States(s: Sys, sid: nat, batch: seq<Event>, f: Fates, ended: Sys, marked: Sys): seq<Sys> {
    [s, s.(syncers := map[sid := Batched(batch)])]
    + seq(|batch| + 1, i requires 0 <= i <= |batch| => Midway(s, sid, batch, f, i))
    + [ended, marked, After(s, sid, batch, f)]
  }

  /** Every outcome of the sequential flush is the outcome of a run of the step system. */
  lemma FlushIsARun(s: Sys, sid: nat, batch: seq<Event>, f: Fates)
    requires s.syncers == map[] && MayRun(s, sid)
    requires batch != [] && IsBatch(s.rows, batch, BUFFER_FLUSH_LIMIT)
    ensures exists trace: seq<Sys> ::
              && |trace| > 0 && IsRun(trace, Script(sid, batch, f, Flush(s.pg, s.rows, batch, s.node, f).acked))
              && trace[0] == s && trace[|trace| - 1] == After(s, sid, batch, f)
  {
    hide KeyFor, IsBatch, Flush, Midway, After, Enabled, Next, IsRun;
    var acked := Flush(s.pg, s.rows, batch, s.node, f).acked;
    var m := Midway(s, sid, batch, f, |batch|);
    EndRun(s, sid, batch, f);
    var ended := Next(m, EndTxn(sid, f.commit));
    var marked := Next(ended, Mark(sid, Marked(acked, f.markBegin, f.updates, f.markCommit)));
    var trace := States(s, sid, batch, f, ended, marked);
    StatesRun(s, sid, batch, f, acked, ended, marked);
    assert |trace| > 0 && trace[0] == s && trace[|trace| - 1] == After(s, sid, batch, f);
  }

  lemma StatesRun(s: Sys, sid: nat, batch: seq<Event>, f: Fates, acked: seq<Id>, ended: Sys, marked: Sys)
    requires s.syncers == map[] && MayRun(s, sid)
    requires batch != [] && IsBatch(s.rows, batch, BUFFER_FLUSH_LIMIT)
    requires var m := Midway(s, sid, batch, f, |batch|);
             Enabled(m, EndTxn(sid, f.commit)) && ended == Next(m, EndTxn(sid, f.commit))
    requires var mark := Mark(sid, Marked(acked, f.markBegin, f.updates, f.markCommit));
             Enabled(ended, mark) && marked == Next(ended, mark)
    requires Enabled(marked, Return(sid)) && After(s, sid, batch, f) == Next(marked, Return(sid))
    ensures IsRun(States(s, sid, batch, f, ended, marked), Script(sid, batch, f, acked))
  {
    hide KeyFor, IsBatch, Midway, After, Enabled, Next, Marked;
    var steps := Script(sid, batch, f, acked);
    var trace := States(s, sid, batch, f, ended, marked);
    var n := |batch|;
    StartRun(s, sid, batch, f);
    forall i | 0 <= i < |steps|
      ensures Enabled(trace[i], steps[i]) && trace[i + 1] == Next(trace[i], steps[i])
    {
      if 2 <= i < n + 2 {
        UpsertRun(s, sid, batch, f, i - 2);
        assert trace[i] == Midway(s, sid, batch, f, i - 2) && trace[i + 1] == Midway(s, sid, batch, f, i - 1);
      } else if i == n + 2 {
        assert trace[i] == Midway(s, sid, batch, f, n);
      }
    }
  }

  lemma StartRun(s: Sys, sid: nat, batch: seq<Event>, f: Fates)
    requires s.syncers == map[] && MayRun(s, sid)
    requires batch != [] && IsBatch(s.rows, batch, BUFFER_FLUSH_LIMIT)
    ensures var s1 := s.(syncers := map[sid := Batched(batch)]);
            && Enabled(s, Read(sid, batch)) && Next(s, Read(sid, batch)) == s1
            && Enabled(s1, Connected(sid, f.begin))
            && Next(s1, Connected(sid, f.begin)) == Midway(s, sid, batch, f, 0)
  {
    hide IsBatch;
    var s1 := s.(syncers := map[sid := Batched(batch)]);
    assert Next(s1, Connected(sid, f.begin)).syncers == Midway(s, sid, batch, f, 0).syncers;
  }

  /** So is a do_sync that cannot connect or prepare: it reads its batch and returns, and both stores are as before. */
  lemma FailedConnectIsARun(s: Sys, sid: nat, batch: seq<Event>)
    requires s.syncers == map[] && MayRun(s, sid)
    requires batch != [] && IsBatch(s.rows, batch, BUFFER_FLUSH_LIMIT)
    ensures exists middle :: IsRun([s, middle, s.(thread := Returned(s, sid))], [Read(sid, batch), Return(sid)])
  {
    hide IsBatch;
    var middle := s.(syncers := map[sid := Batched(batch)]);
    var last := s.(thread := Returned(s, sid));
    assert Next(s, Read(sid, batch)) == middle;
    assert Next(middle, Return(sid)).syncers == last.syncers;
    assert IsRun([s, middle, last], [Read(sid, batch), Return(sid)]);
  }

  lemma Prepend(s: Sys, step: Step, trace: seq<Sys>, steps: seq<Step>)
    requires IsRun(trace, steps) && Enabled(s, step) && Next(s, step) == trace[0]
    ensures IsRun([s] + trace, [step] + steps)
  {
    hide Enabled, Next;
    forall i | 0 <= i < |steps| + 1
      ensures Enabled(([s] + trace)[i], ([step] + steps)[i])
           && ([s] + trace)[i + 1] == Next(([s] + trace)[i], ([step] + steps)[i])
    {
      if i > 0 {
        assert ([s] + trace)[i] == trace[i - 1] && ([s] + trace)[i + 1] == trace[i] && ([step] + steps)[i] == steps[i - 1];
        RunStep(trace, steps, i - 1);
      }
    }
  }

  // ----- When a row is lost -----

  /**
   * After a flush of a batch from an idle state, a row of the batch is gone for good exactly when the flush rolled back
   * after acknowledging it, its key was new, and its mark took effect.
   */
  lemma GoneIff(s: Sys, sid: nat, batch: seq<Event>, f: Fates, i: nat)
    requires s.syncers == map[] && IsBatch(s.rows, batch, BUFFER_FLUSH_LIMIT) && i < |batch|
    ensures GoneFor(After(s, sid, batch, f), batch[i].id) <==> FlaggedAway(s.pg, batch, f, i)
  {
    hide KeyFor, Prefix, Flush, UpsertAll, FlaggedAway;
    FlaggedAwayIff(s.pg, s.rows, batch, BUFFER_FLUSH_LIMIT, s.node, f, i);
    KeyKept(s, sid, batch, f, i);
  }

  lemma KeyKept(s: Sys, sid: nat, batch: seq<Event>, f: Fates, i: nat)
    requires IsBatch(s.rows, batch, BUFFER_FLUSH_LIMIT) && i < |batch|
    ensures var t := After(s, sid, batch, f);
            batch[i].id in t.rows && RowKey(t.rows[batch[i].id]) == KeyOf(batch[i])
  {
    hide KeyFor, Prefix, UpsertAll, Marked;
    assert batch[i] == EventOf(batch[i].id, s.rows[batch[i].id]);
  }

  ghost predicate LosesRow(trace: seq<Sys>, steps: seq<Step>, id: Id) {
    |trace| > 0 && IsRun(trace, steps) && Init(trace[0]) && GoneFor(trace[|trace| - 1], id)
  }

  /** Two events arrive and one flush runs, in which the second upsert fails and every other operation succeeds. */
  const LOSS_STEPS := [Arrive(1, GOOD_ROW), Arrive(2, BAD_ROW), Read(1, MIXED_BATCH), Connected(1, true),
                       UpsertNext(1, true), UpsertNext(1, false), EndTxn(1, true), Mark(1, {1}), Return(1)]

  /**
   * Without the hypothesis that acknowledging transactions commit, "flagged means delivered" is false: there is a run
   * of these steps, and it ends with the first row gone for good.
   */
  lemma LossHappens()
    ensures exists trace :: LosesRow(trace, LOSS_STEPS, 1)
  {
    hide KeyFor, IsBatch, Flush, After, IsRun, GoneFor, Script, Init;
    FlaggedButNotDelivered("node");
    TwoArrivals(GOOD_ROW, BAD_ROW, MIXED_BATCH, ONE_BAD_UPSERT, [1]);
    var steps := [Arrive(1, GOOD_ROW), Arrive(2, BAD_ROW)] + Script(1, MIXED_BATCH, ONE_BAD_UPSERT, [1]);
    var trace: seq<Sys> :| RunsTo(trace, steps, After(Started(MIXED_ROWS), 1, MIXED_BATCH, ONE_BAD_UPSERT));
    LossScript();
    LastIsGone(Started(MIXED_ROWS));
    assert LosesRow(trace, LOSS_STEPS, 1);
  }

  /** A row ends flagged and with its key delivered, but with a payload that is not its own. */
  ghost predicate LosesPayload(trace: seq<Sys>, steps: seq<Step>, id: Id) {
    && |trace| > 0 && IsRun(trace, steps) && Init(trace[0])
    && var s := trace[|trace| - 1];
       id in s.rows && s.rows[id].flushed && Delivered(s, id) && s.pg[RowKey(s.rows[id])].payload != s.rows[id].payload
  }

  /** Two messages on one topic in one second arrive, every operation succeeds, and the second payload is lost. */
  lemma PayloadLossHappens()
    ensures exists trace ::
              LosesPayload(trace, [Arrive(1, FIRST_TWIN), Arrive(2, SECOND_TWIN)]
                                  + Script(1, TWIN_BATCH, ALL_WELL, [1, 2]), 2)
  {
    hide KeyFor, IsBatch, Flush, After, IsRun, Script, Init;
    SecondPayloadLost("node");
    TwoArrivals(FIRST_TWIN, SECOND_TWIN, TWIN_BATCH, ALL_WELL, [1, 2]);
    var steps := [Arrive(1, FIRST_TWIN), Arrive(2, SECOND_TWIN)] + Script(1, TWIN_BATCH, ALL_WELL, [1, 2]);
    var last := After(Started(TWIN_ROWS), 1, TWIN_BATCH, ALL_WELL);
    var trace: seq<Sys> :| RunsTo(trace, steps, last);
    TwinsEnd(Started(TWIN_ROWS));
    assert LosesPayload(trace, steps, 2);
  }

  lemma TwinsEnd(two: Sys)
    requires two.rows == TWIN_ROWS && two.pg == map[]
    ensures var t := After(two, 1, TWIN_BATCH, ALL_WELL);
            && 2 in t.rows && t.rows[2].flushed && t.rows[2].payload == "2"
            && Delivered(t, 2) && t.pg[RowKey(t.rows[2])].payload == "1"
  {
    hide KeyFor, Prefix, Flush, IsBatch;
    SecondPayloadLost(two.node);
    assert 2 in TWIN_ROWS && Flag(TWIN_ROWS, {1, 2})[2] == SECOND_TWIN.(flushed := true);
  }

  /** An agent that has just started with these rows in its queue and an empty table. */
  function Started(rows: Queue): Sys {
    Sys(rows, map[], map[], Serving, Waiting, false, {}, "node")
  }

  ghost predicate RunsTo(trace: seq<Sys>, steps: seq<Step>, last: Sys) {
    |trace| > 0 && IsRun(trace, steps) && Init(trace[0]) && trace[|trace| - 1] == last
  }

  /** From the empty queue: two rows arrive, and a handler flushes them. */
  lemma TwoArrivals(a: Row, b: Row, batch: seq<Event>, f: Fates, acked: seq<Id>)
    requires !a.flushed && !b.flushed && batch != [] && IsBatch(map[1 := a, 2 := b], batch, BUFFER_FLUSH_LIMIT)
    requires acked == Flush(map[], map[1 := a, 2 := b], batch, "node", f).acked
    ensures exists trace ::
              RunsTo(trace, [Arrive(1, a), Arrive(2, b)] + Script(1, batch, f, acked),
                     After(Started(map[1 := a, 2 := b]), 1, batch, f))
  {
    hide KeyFor, IsBatch, Flush, After, Enabled, Next, IsRun, Script;
    var empty, one, two := Started(map[]), Started(map[1 := a]), Started(map[1 := a, 2 := b]);
    FlushIsARun(two, 1, batch, f);
    var steps := Script(1, batch, f, acked);
    var trace: seq<Sys> :| |trace| > 0 && IsRun(trace, steps) && trace[0] == two
                           && trace[|trace| - 1] == After(two, 1, batch, f);
    Arrivals(a, b);
    Prepend(one, Arrive(2, b), trace, steps);
    Prepend(empty, Arrive(1, a), [one] + trace, [Arrive(2, b)] + steps);
    var whole := [empty] + ([one] + trace);
    assert whole[|whole| - 1] == trace[|trace| - 1];
    assert [Arrive(1, a)] + ([Arrive(2, b)] + steps) == [Arrive(1, a), Arrive(2, b)] + steps;
    assert RunsTo(whole, [Arrive(1, a), Arrive(2, b)] + steps, After(two, 1, batch, f));
  }

  lemma LossScript()
    ensures [Arrive(1, GOOD_ROW), Arrive(2, BAD_ROW)] + Script(1, MIXED_BATCH, ONE_BAD_UPSERT, [1]) == LOSS_STEPS
  {
    hide EventOf;
    AllUpdated([1], ONE_BAD_UPSERT.updates);
    assert SetOf([1]) == {1};
    var upserts := seq(2, i requires 0 <= i < 2 => UpsertNext(1, Succeeds(ONE_BAD_UPSERT.upserts, i)));
    assert upserts == [UpsertNext(1, true), UpsertNext(1, false)];
    assert Script(1, MIXED_BATCH, ONE_BAD_UPSERT, [1])
        == [Read(1, MIXED_BATCH), Connected(1, true)] + upserts + [EndTxn(1, true), Mark(1, {1}), Return(1)];
  }

  lemma Arrivals(a: Row, b: Row)
    requires !a.flushed && !b.flushed
    ensures Enabled(Started(map[]), Arrive(1, a)) && Next(Started(map[]), Arrive(1, a)) == Started(map[1 := a])
    ensures Enabled(Started(map[1 := a]), Arrive(2, b))
         && Next(Started(map[1 := a]), Arrive(2, b)) == Started(map[1 := a, 2 := b])
  {
    assert map[1 := a][2 := b] == map[1 := a, 2 := b];
  }

  lemma LastIsGone(two: Sys)
    requires two.rows == MIXED_ROWS && two.pg == map[] && two.syncers == map[]
    ensures GoneFor(After(two, 1, MIXED_BATCH, ONE_BAD_UPSERT), 1)
  {
    hide KeyFor, Prefix, Flush, IsBatch, After, GoneFor;
    FlaggedButNotDelivered(two.node);
    var f := ONE_BAD_UPSERT;
    assert Good(MIXED_BATCH, f.upserts, 0) && !Good(MIXED_BATCH, f.upserts, 1);
    assert GoodPrefix(MIXED_BATCH, f.upserts, 1) == 1;
    assert FlaggedAway(two.pg, MIXED_BATCH, f, 0);
    GoneIff(two, 1, MIXED_BATCH, f, 0);
  }
}
