/** What one flush, and a series of them, does to the two stores. */
module EdgeFlush {
  import opened Text
  import opened EdgeData
  import opened EdgeStore
  import opened EdgeSync

  /** The upsert of events[i] would succeed on its own. */
  predicate Good(events: seq<Event>, upserts: seq<bool>, i: nat)
    requires i < |events|
  {
    Succeeds(upserts, i) && events[i].payload.Some?
  }

  /** How many events come before the first failing upsert. */
  function GoodPrefix(events: seq<Event>, upserts: seq<bool>, i: nat := 0): (j: nat)
    requires i <= |events|
    ensures i <= j <= |events|
    ensures forall k: nat | i <= k < j :: Good(events, upserts, k)
    ensures j < |events| ==> !Good(events, upserts, j)
    decreases |events| - i
  {
    if i < |events| && Good(events, upserts, i) then GoodPrefix(events, upserts, i + 1) else i
  }

  function Keys(events: seq<Event>): (keys: seq<Key>)
    ensures |keys| == |events|
  {
    seq(|events|, i requires 0 <= i < |events| => KeyOf(events[i]))
  }

  function Records(events: seq<Event>, node: string): (records: seq<Stored>)
    ensures |records| == |events|
  {
    seq(|events|, i requires 0 <= i < |events| => StoredAs(events[i], node))
  }

  /**
   * writes holds exactly those of the keys that table lacks, each with the record that goes with its first
   * occurrence.
   */
  ghost predicate IsMissing(writes: Table, table: Table, keys: seq<Key>, records: seq<Stored>)
    requires |keys| == |records|
  {
    && (forall k :: k in writes <==> k in keys && k !in table)
    && (forall i | 0 <= i < |keys| && keys[i] in writes && keys[i] !in keys[..i] :: writes[keys[i]] == records[i])
  }

  /** One more successful insert. */
  lemma MissingStep(writes: Table, table: Table, keys: seq<Key>, records: seq<Stored>, key: Key, record: Stored)
    requires |keys| == |records| && IsMissing(writes, table, keys, records)
    ensures var s := Insert(table, Open(writes), key, record, true);
            s.ok && s.table == table && s.txn.Open?
            && IsMissing(s.txn.writes, table, keys + [key], records + [record])
  {
    var after := Insert(table, Open(writes), key, record, true).txn.writes;
    var longer := keys + [key];
    forall i | 0 <= i < |longer| && longer[i] in after && longer[i] !in longer[..i]
      ensures after[longer[i]] == (records + [record])[i]
    {
      if i < |keys| {
        assert longer[..i] == keys[..i];
      } else {
        assert longer[..i] == keys;
      }
    }
  }

  lemma Snoc(events: seq<Event>, node: string, n: nat)
    requires n < |events|
    ensures Ids(events)[..n + 1] == Ids(events)[..n] + [events[n].id]
    ensures Keys(events)[..n + 1] == Keys(events)[..n] + [KeyOf(events[n])]
    ensures Records(events, node)[..n + 1] == Records(events, node)[..n] + [StoredAs(events[n], node)]
  {
    hide KeyFor;
  }

  /** Inside a transaction, successful upserts collect the missing keys and acknowledge every event. */
  lemma {:induction false} UpsertsCollect(table: Table, events: seq<Event>, node: string, upserts: seq<bool>, n: nat)
    requires n <= GoodPrefix(events, upserts)
    ensures var p := UpsertAll(table, Open(map[]), events, node, upserts, n);
            p.table == table && p.acked == Ids(events)[..n]
            && p.txn.Open? && IsMissing(p.txn.writes, table, Keys(events)[..n], Records(events, node)[..n])
  {
    hide KeyFor, Keys, Records, StoredAs, Ids, Insert;
    if n > 0 {
      hide IsMissing;
      var m := n - 1;
      UpsertsCollect(table, events, node, upserts, m);
      assert Good(events, upserts, m);
      Snoc(events, node, m);
      var p := UpsertAll(table, Open(map[]), events, node, upserts, m);
      MissingStep(p.txn.writes, table, Keys(events)[..m], Records(events, node)[..m],
                  KeyOf(events[m]), StoredAs(events[m], node));
    }
  }

  /** The first failure aborts the transaction: nothing later is acknowledged and nothing stays collected. */
  lemma {:induction false} UpsertsAbort(table: Table, events: seq<Event>, node: string, upserts: seq<bool>, n: nat)
    requires GoodPrefix(events, upserts) < n <= |events|
    ensures UpsertAll(table, Open(map[]), events, node, upserts, n)
         == Progress(table, Aborted, Ids(events)[..GoodPrefix(events, upserts)])
  {
    hide Upsert, Keys, Records, IsMissing, Ids;
    var j := GoodPrefix(events, upserts);
    var p := UpsertAll(table, Open(map[]), events, node, upserts, n - 1);
    if n == j + 1 {
      UpsertsCollect(table, events, node, upserts, j);
    } else {
      UpsertsAbort(table, events, node, upserts, n - 1);
    }
    UpsertFails(p.table, p.txn, events[n - 1], node, Succeeds(upserts, n - 1));
  }

  lemma UpsertFails(table: Table, txn: Txn, ev: Event, node: string, ok: bool)
    requires txn.Aborted? || (txn.Open? && !(ok && ev.payload.Some?))
    ensures Upsert(table, txn, ev, node, ok) == Statement(table, Aborted, false)
  {
    hide KeyOf;
  }

  /**
   * The exact effect of a flush whose BEGIN succeeded. The ids of the events before the first failing upsert are
   * passed to marking. Nothing is stored if an upsert or COMMIT fails; otherwise exactly the missing keys are.
   */
  lemma {:induction false} ExactEffect(table: Table, rows: Queue, events: seq<Event>, node: string, f: Fates)
    requires f.begin
    ensures var j := GoodPrefix(events, f.upserts);
            var r := Flush(table, rows, events, node, f);
            && r.acked == Ids(events)[..j]
            && (j < |events| || !f.commit ==> r.table == table)
            && (j == |events| && f.commit ==>
                  exists writes ::
                    IsMissing(writes, table, Keys(events), Records(events, node)) && r.table == table + writes)
  {
    var j := GoodPrefix(events, f.upserts);
    if j < |events| {
      UpsertsAbort(table, events, node, f.upserts, |events|);
    } else {
      UpsertsCollect(table, events, node, f.upserts, j);
      var p := UpsertAll(table, Begin(f.begin), events, node, f.upserts, |events|);
      assert Keys(events)[..j] == Keys(events) && Records(events, node)[..j] == Records(events, node);
      assert IsMissing(p.txn.writes, table, Keys(events), Records(events, node));
    }
  }

  /** With BEGIN failed, each statement commits alone: acknowledged events are exactly the delivered good ones. */
  lemma {:induction false} WithoutTransaction(table: Table, events: seq<Event>, node: string, upserts: seq<bool>, n: nat)
    requires n <= |events|
    ensures var p := UpsertAll(table, AutoCommit, events, node, upserts, n);
            && p.txn == AutoCommit && table.Keys <= p.table.Keys
            && (forall k | k in table :: p.table[k] == table[k])
            && (forall i: nat | i < n ::
                  Good(events, upserts, i) ==> events[i].id in p.acked && KeyOf(events[i]) in p.table)
            && (forall k | k in p.table && k !in table ::
                  exists i: nat :: i < n && Good(events, upserts, i) && KeyOf(events[i]) == k
                    && p.table[k] == StoredAs(events[i], node))
            && (forall id | id in p.acked :: exists i: nat :: i < n && events[i].id == id && Good(events, upserts, i))
  {
    hide KeyFor;
    if n > 0 {
      WithoutTransaction(table, events, node, upserts, n - 1);
      assert Good(events, upserts, n - 1) || !Good(events, upserts, n - 1);
    }
  }

  /** Every event whose id is passed to marking is in the table. */
  ghost predicate AckedDelivered(events: seq<Event>, r: Flushed) {
    forall i: nat | i < |events| && events[i].id in r.acked :: KeyOf(events[i]) in r.table
  }

  /**
   * "Marked as flushed means delivered" holds of one flush exactly when it ran without a transaction, or no upsert
   * and not COMMIT failed, or everything before the first failure was in the table already.
   */
  lemma {:induction false} DeliveredIff(table: Table, rows: Queue, events: seq<Event>, node: string, f: Fates)
    requires forall i, j | 0 <= i < j < |events| :: events[i].id != events[j].id
    ensures AckedDelivered(events, Flush(table, rows, events, node, f))
       <==> || !f.begin
            || (GoodPrefix(events, f.upserts) == |events| && f.commit)
            || (forall i | 0 <= i < GoodPrefix(events, f.upserts) :: Keys(events)[i] in table)
  {
    var j := GoodPrefix(events, f.upserts);
    var r := Flush(table, rows, events, node, f);
    if !f.begin {
      WithoutTransaction(table, events, node, f.upserts, |events|);
      forall i: nat | i < |events| && events[i].id in r.acked
        ensures KeyOf(events[i]) in r.table
      {
        var k: nat :| k < |events| && events[k].id == events[i].id && Good(events, f.upserts, k);
        assert k == i;
      }
    } else {
      ExactEffect(table, rows, events, node, f);
      forall i: nat | i < |events|
        ensures events[i].id in r.acked <==> i < j
      {
        if i < j {
          assert r.acked[i] == events[i].id;
        }
      }
      forall i: nat | i < j
        ensures KeyOf(events[i]) == Keys(events)[i]
      {
      }
    }
  }

  /**
   * The i-th of the n UPDATEs of a marking takes effect: it succeeds, and if the marking has a transaction, that one
   * commits or has been rolled back before.
   */
  predicate MarkTakes(f: Fates, n: nat, i: nat) {
    var k := FirstRollback(f.updates, n);
    UpdateAt(f.updates, i).Applied? && (!f.markBegin || (if k < n then k < i else f.markCommit))
  }

  /**
   * The flush rolls back although it has acknowledged events[i], a new key, and the mark takes effect. All of this is
   * decided by the branches taken.
   */
  predicate FlaggedAway(table: Table, events: seq<Event>, f: Fates, i: nat)
    requires i < |events|
  {
    var j := GoodPrefix(events, f.upserts);
    && f.begin && i < j && (j < |events| || !f.commit)
    && KeyOf(events[i]) !in table && MarkTakes(f, j, i)
  }

  lemma MarkedAmong(ids: seq<Id>, f: Fates, i: nat)
    requires i < |ids| && forall a, b | 0 <= a < b < |ids| :: ids[a] != ids[b]
    ensures ids[i] in Marked(ids, f.markBegin, f.updates, f.markCommit) <==> MarkTakes(f, |ids|, i)
  {
  }

  /** Which of the events read are flagged: those acknowledged whose mark takes effect. */
  lemma FlaggedWhich(table: Table, rows: Queue, events: seq<Event>, limit: nat, node: string, f: Fates, i: nat)
    requires f.begin && IsBatch(rows, events, limit) && i < |events|
    ensures var r := Flush(table, rows, events, node, f);
            events[i].id in r.rows
            && (r.rows[events[i].id].flushed <==>
                  i < GoodPrefix(events, f.upserts) && MarkTakes(f, GoodPrefix(events, f.upserts), i))
  {
    hide KeyFor, EventOf, Marked, UpsertAll, IsMissing, Keys, Records, GoodPrefix;
    var j := GoodPrefix(events, f.upserts);
    ExactEffect(table, rows, events, node, f);
    var acked := Ids(events)[..j];
    assert events[i].id in Unflushed(rows);
    if i < j {
      assert acked[i] == events[i].id;
      MarkedAmong(acked, f, i);
    } else {
      assert events[i].id !in acked;
    }
  }

  /** Whether the table has an event after a flush with a transaction. */
  lemma StoredWhich(table: Table, rows: Queue, events: seq<Event>, node: string, f: Fates, i: nat)
    requires f.begin && i < |events|
    ensures KeyOf(events[i]) in Flush(table, rows, events, node, f).table
       <==> KeyOf(events[i]) in table || (GoodPrefix(events, f.upserts) == |events| && f.commit)
  {
    hide KeyOf, UpsertAll, IsMissing, Keys, Records, GoodPrefix, Flush;
    ExactEffect(table, rows, events, node, f);
    if GoodPrefix(events, f.upserts) == |events| && f.commit {
      var writes :| IsMissing(writes, table, Keys(events), Records(events, node))
        && Flush(table, rows, events, node, f).table == table + writes;
      EventsStored(writes, table, events, node);
    }
  }

  /** A flush leaves a row that it read flagged and undelivered exactly then. */
  lemma FlaggedAwayIff(table: Table, rows: Queue, events: seq<Event>, limit: nat, node: string, f: Fates, i: nat)
    requires IsBatch(rows, events, limit) && i < |events|
    ensures var r := Flush(table, rows, events, node, f);
            events[i].id in r.rows
            && (r.rows[events[i].id].flushed && KeyOf(events[i]) !in r.table <==> FlaggedAway(table, events, f, i))
  {
    hide KeyOf, EventOf, UpsertAll, GoodPrefix, Marked, MarkTakes;
    assert events[i].id in Unflushed(rows);
    if f.begin {
      FlaggedWhich(table, rows, events, limit, node, f, i);
      StoredWhich(table, rows, events, node, f, i);
    } else if events[i].id in Flush(table, rows, events, node, f).acked {
      WithoutTransaction(table, events, node, f.upserts, |events|);
      var k: nat :| k < |events| && events[k].id == events[i].id && Good(events, f.upserts, k);
      assert k == i;
    }
  }

  /** Every row that the flush read and flagged is in the table. */
  ghost predicate FlaggedDelivered(events: seq<Event>, r: Flushed) {
    forall i: nat | i < |events| && events[i].id in r.rows && r.rows[events[i].id].flushed ::
      KeyOf(events[i]) in r.table
  }

  /**
   * "Flagged means delivered" holds of one flush exactly when it ran without a transaction, or no upsert and not COMMIT
   * failed, or everything before the first failure was in the table already or its mark did not take effect.
   */
  lemma {:induction false} FlaggedDeliveredIff(table: Table, rows: Queue, events: seq<Event>, limit: nat, node: string,
                                               f: Fates)
    requires IsBatch(rows, events, limit)
    ensures FlaggedDelivered(events, Flush(table, rows, events, node, f))
       <==> || !f.begin
            || (GoodPrefix(events, f.upserts) == |events| && f.commit)
            || (forall i: nat | i < GoodPrefix(events, f.upserts) ::
                  KeyOf(events[i]) in table || !MarkTakes(f, GoodPrefix(events, f.upserts), i))
  {
    hide KeyOf, IsBatch, Flush, GoodPrefix, MarkTakes;
    forall i: nat | i < |events|
      ensures var r := Flush(table, rows, events, node, f);
              events[i].id in r.rows
              && (r.rows[events[i].id].flushed && KeyOf(events[i]) !in r.table <==> FlaggedAway(table, events, f, i))
    {
      FlaggedAwayIff(table, rows, events, limit, node, f, i);
    }
    var j := GoodPrefix(events, f.upserts);
    if i: nat :| i < j && KeyOf(events[i]) !in table && MarkTakes(f, j, i) {
      assert FlaggedAway(table, events, f, i) <==> f.begin && (j < |events| || !f.commit);
    }
  }

  lemma FirstOccurrence(keys: seq<Key>, key: Key) returns (i: nat)
    requires key in keys
    ensures i < |keys| && keys[i] == key && key !in keys[..i]
  {
    i := 0;
    while keys[i] != key
      invariant i < |keys| && key !in keys[..i]
      decreases |keys| - i
    {
      assert keys[..i + 1] == keys[..i] + [keys[i]];
      i := i + 1;
    }
  }

  lemma AddedEvent(table: Table, rows: Queue, events: seq<Event>, node: string, f: Fates, key: Key) returns (i: nat)
    requires var r := Flush(table, rows, events, node, f); key in r.table && key !in table
    ensures i < |events| && KeyOf(events[i]) == key && events[i].payload.Some?
         && Flush(table, rows, events, node, f).table[key] == StoredAs(events[i], node)
  {
    hide KeyFor, UpsertAll, StoredAs, IsBatch, GoodPrefix;
    if f.begin {
      ExactEffect(table, rows, events, node, f);
      var writes :| IsMissing(writes, table, Keys(events), Records(events, node))
        && Flush(table, rows, events, node, f).table == table + writes;
      i := FirstOccurrence(Keys(events), key);
      assert Good(events, f.upserts, i);
    } else {
      WithoutTransaction(table, events, node, f.upserts, |events|);
      i :| i < |events| && Good(events, f.upserts, i) && KeyOf(events[i]) == key
        && Flush(table, rows, events, node, f).table[key] == StoredAs(events[i], node);
    }
  }

  /** Everything a flush adds is the record of a row it read: that row's key and payload, and the name of the node. */
  lemma AddedRecord(table: Table, rows: Queue, events: seq<Event>, limit: nat, node: string, f: Fates, key: Key)
    returns (id: Id)
    requires IsBatch(rows, events, limit)
    requires var r := Flush(table, rows, events, node, f); key in r.table && key !in table
    ensures id in Unflushed(rows) && IsKeyOf(key, rows[id]) && rows[id].payload != ""
    ensures var v := Flush(table, rows, events, node, f).table[key];
            v.payload == rows[id].payload && v.edgeNode == node
  {
    hide KeyFor, Prefix, Flush, Names, IsKeyOf;
    var i := AddedEvent(table, rows, events, node, f, key);
    id := events[i].id;
    assert events[i] == EventOf(id, rows[id]);
    RowKeyIff(rows[id], key);
  }

  /**
   * Of several events with one new key, a successful flush stores the first and acknowledges them all: the payloads of
   * the others are lost.
   */
  lemma {:induction false} FirstPayloadWins(table: Table, rows: Queue, events: seq<Event>, node: string, f: Fates,
                                            i: nat, k: nat)
    requires f.begin && f.commit && GoodPrefix(events, f.upserts) == |events| && i <= k < |events|
    requires KeyOf(events[k]) == KeyOf(events[i]) && KeyOf(events[i]) !in table
    requires forall h | 0 <= h < i :: KeyOf(events[h]) != KeyOf(events[i])
    ensures var r := Flush(table, rows, events, node, f);
            && events[k].id in r.acked && KeyOf(events[k]) in r.table
            && r.table[KeyOf(events[k])] == StoredAs(events[i], node)
  {
    hide KeyOf, StoredAs, UpsertAll, GoodPrefix, Flush;
    ExactEffect(table, rows, events, node, f);
    assert Ids(events)[..|events|][k] == events[k].id;
    var keys := Keys(events);
    assert keys[i] == KeyOf(events[i]) && keys[i] in keys;
    assert keys[i] !in keys[..i];
  }

  // A well-formed row, a malformed one, the batch they make, and a flush in which only the second upsert fails.
  const GOOD_ROW := Row("game/a/events", "{}", 10, false)
  const BAD_ROW := Row("game/b/events", "?", 11, false)
  const MIXED_ROWS: Queue := map[1 := GOOD_ROW, 2 := BAD_ROW]
  const MIXED_BATCH := [EventOf(1, GOOD_ROW), EventOf(2, BAD_ROW)]
  const ONE_BAD_UPSERT := Fates(true, true, true, [true, false], true, true, [], true)

  /** A malformed second row makes the first one flagged although it was rolled back. */
  lemma FlaggedButNotDelivered(node: string)
    ensures IsBatch(MIXED_ROWS, MIXED_BATCH, BUFFER_FLUSH_LIMIT)
    ensures var r := Flush(map[], MIXED_ROWS, MIXED_BATCH, node, ONE_BAD_UPSERT);
            r.acked == [1] && r.rows == Flag(MIXED_ROWS, {1}) && r.table == map[]
  {
    hide KeyFor, Prefix;
    assert Unflushed(MIXED_ROWS) == {1, 2};
    assert Ids(MIXED_BATCH) == [1, 2];
    var f := ONE_BAD_UPSERT;
    assert Good(MIXED_BATCH, f.upserts, 0) && !Good(MIXED_BATCH, f.upserts, 1);
    assert GoodPrefix(MIXED_BATCH, f.upserts, 1) == 1;
    ExactEffect(map[], MIXED_ROWS, MIXED_BATCH, node, f);
    AllUpdated([1], f.updates);
    assert SetOf([1]) == {1};
  }

  const ALL_WELL := Fates(true, true, true, [], true, true, [], true)

  // Two messages on one topic in one second, and the batch they make.
  const FIRST_TWIN := Row("game/a/events", "1", 10, false)
  const SECOND_TWIN := Row("game/a/events", "2", 10, false)
  const TWIN_ROWS: Queue := map[1 := FIRST_TWIN, 2 := SECOND_TWIN]
  const TWIN_BATCH := [EventOf(1, FIRST_TWIN), EventOf(2, SECOND_TWIN)]

  lemma TwinsAre()
    ensures IsBatch(TWIN_ROWS, TWIN_BATCH, BUFFER_FLUSH_LIMIT) && Ids(TWIN_BATCH) == [1, 2]
    ensures KeyOf(TWIN_BATCH[0]) == KeyOf(TWIN_BATCH[1]) == RowKey(SECOND_TWIN)
    ensures TWIN_BATCH[0].payload == Some("1") && TWIN_BATCH[1].payload == Some("2")
  {
    hide KeyFor, Prefix;
    assert Unflushed(TWIN_ROWS) == {1, 2};
    assert Ids(TWIN_BATCH) == [1, 2];
  }

  /** With every operation successful both are flagged and the second payload is nowhere. */
  lemma SecondPayloadLost(node: string)
    ensures IsBatch(TWIN_ROWS, TWIN_BATCH, BUFFER_FLUSH_LIMIT)
    ensures var r := Flush(map[], TWIN_ROWS, TWIN_BATCH, node, ALL_WELL);
            && r.acked == [1, 2] && r.rows == Flag(TWIN_ROWS, {1, 2})
            && RowKey(SECOND_TWIN) in r.table && r.table[RowKey(SECOND_TWIN)] == Stored("1", node)
  {
    TwinsAre();
    hide KeyFor, Prefix, EventOf, IsBatch, UpsertAll, IsMissing, Keys, Records, GoodPrefix;
    AllGood(TWIN_BATCH, ALL_WELL);
    ExactEffect(map[], TWIN_ROWS, TWIN_BATCH, node, ALL_WELL);
    FirstPayloadWins(map[], TWIN_ROWS, TWIN_BATCH, node, ALL_WELL, 0, 1);
    assert Ids(TWIN_BATCH)[..|TWIN_BATCH|] == [1, 2];
    AllUpdated([1, 2], ALL_WELL.updates);
    assert SetOf([1, 2]) == {1, 2};
  }

  // ----- Draining the queue -----

  ghost predicate AllSucceed(f: Fates, n: nat) {
    && f.begin && f.commit && f.markBegin && f.markCommit
    && forall i: nat | i < n :: Succeeds(f.upserts, i) && UpdateAt(f.updates, i).Applied?
  }

  datatype Edge = Edge(table: Table, rows: Queue)

  /** A do_sync in which every operation succeeds and nothing else runs. */
  ghost predicate CleanSync(a: Edge, b: Edge, node: string) {
    exists batch: seq<Event>, f: Fates ::
      && IsBatch(a.rows, batch, BUFFER_FLUSH_LIMIT) && AllSucceed(f, |batch|)
      && b == Edge(Flush(a.table, a.rows, batch, node, f).table, Flush(a.table, a.rows, batch, node, f).rows)
  }

  ghost predicate NonEmptyPayloads(rows: Queue) {
    forall id | id in rows :: rows[id].payload != ""
  }

  function Less(n: nat, k: nat): nat {
    if n < k then 0 else n - k
  }

  /** When everything succeeds, exactly the batch is flagged and every event of it is delivered. */
  lemma CleanFlush(table: Table, rows: Queue, batch: seq<Event>, node: string, f: Fates)
    requires AllSucceed(f, |batch|) && forall i | 0 <= i < |batch| :: batch[i].payload.Some?
    ensures var r := Flush(table, rows, batch, node, f);
            && r.rows == Flag(rows, SetOf(Ids(batch))) && table.Keys <= r.table.Keys
            && (forall i | 0 <= i < |batch| :: KeyOf(batch[i]) in r.table)
  {
    hide KeyOf, GoodPrefix, UpsertAll, Keys, Records, IsMissing, Flag, SetOf;
    AllGood(batch, f);
    ExactEffect(table, rows, batch, node, f);
    AllUpdated(Ids(batch), f.updates);
    assert Ids(batch)[..|batch|] == Ids(batch);
    var writes :| IsMissing(writes, table, Keys(batch), Records(batch, node))
      && Flush(table, rows, batch, node, f).table == table + writes;
    EventsStored(writes, table, batch, node);
  }

  lemma AllGood(batch: seq<Event>, f: Fates)
    requires AllSucceed(f, |batch|) && forall i | 0 <= i < |batch| :: batch[i].payload.Some?
    ensures GoodPrefix(batch, f.upserts) == |batch|
  {
    forall i: nat | i < |batch|
      ensures Good(batch, f.upserts, i)
    {
    }
  }

  lemma EventsStored(writes: Table, table: Table, batch: seq<Event>, node: string)
    requires IsMissing(writes, table, Keys(batch), Records(batch, node))
    ensures forall i | 0 <= i < |batch| :: KeyOf(batch[i]) in table + writes
  {
    hide KeyOf, IsMissing, Records;
    AllStored(writes, table, Keys(batch), Records(batch, node));
    forall i | 0 <= i < |batch|
      ensures KeyOf(batch[i]) in table + writes
    {
      assert KeyOf(batch[i]) == Keys(batch)[i];
    }
  }

  lemma AllStored(writes: Table, table: Table, keys: seq<Key>, records: seq<Stored>)
    requires |keys| == |records| && IsMissing(writes, table, keys, records)
    ensures forall i | 0 <= i < |keys| :: keys[i] in table + writes
  {
  }

  lemma AllUpdated(ids: seq<Id>, updates: seq<Update>)
    requires forall i: nat | i < |ids| :: UpdateAt(updates, i).Applied?
    ensures Marked(ids, true, updates, true) == SetOf(ids)
  {
    forall i | 0 <= i < |ids|
      ensures ids[i] in Updated(ids, updates, 0, |ids|)
    {
      assert UpdateAt(updates, i).Applied?;
    }
  }

  /** A clean sync flags the min(n, 1000) oldest unflushed rows, no others, and delivers each of them. */
  lemma CleanSyncDrains(a: Edge, b: Edge, node: string)
    requires CleanSync(a, b, node) && NonEmptyPayloads(a.rows)
    ensures Unflushed(b.rows) <= Unflushed(a.rows) && NonEmptyPayloads(b.rows)
    ensures var n := |Unflushed(a.rows)|; |Unflushed(b.rows)| == if n <= 1000 then 0 else n - 1000
    ensures forall id | id in a.rows :: id in b.rows && b.rows[id] == a.rows[id].(flushed := id !in Unflushed(b.rows))
    ensures forall x, y | x in Unflushed(a.rows) - Unflushed(b.rows) && y in Unflushed(b.rows) ::
              a.rows[x].ts <= a.rows[y].ts
    ensures forall id | id in Unflushed(a.rows) - Unflushed(b.rows) :: RowKey(a.rows[id]) in b.table
    ensures a.table.Keys <= b.table.Keys && a.rows.Keys == b.rows.Keys
  {
    hide KeyFor, Flush, EventOf, Unflushed, Flag, IsBatch;
    var batch: seq<Event>, f: Fates :| IsBatch(a.rows, batch, BUFFER_FLUSH_LIMIT) && AllSucceed(f, |batch|)
      && b == Edge(Flush(a.table, a.rows, batch, node, f).table, Flush(a.table, a.rows, batch, node, f).rows);
    BatchOrder(a.rows, batch, BUFFER_FLUSH_LIMIT);
    CleanFlush(a.table, a.rows, batch, node, f);
    BatchSize(a.rows, batch, BUFFER_FLUSH_LIMIT);
    FlagSubset(a.rows, SetOf(Ids(batch)));
  }

  /** Flagging some of the unflushed rows takes exactly those away and changes nothing else. */
  lemma FlagSubset(rows: Queue, ids: set<Id>)
    requires ids <= Unflushed(rows)
    ensures var r := Flag(rows, ids);
            && Unflushed(r) == Unflushed(rows) - ids && Unflushed(rows) - Unflushed(r) == ids
            && |Unflushed(r)| == |Unflushed(rows)| - |ids|
            && (forall id | id in rows :: id in r && r[id] == rows[id].(flushed := id !in Unflushed(r)))
            && r.Keys == rows.Keys
  {
    FlagUnflushed(rows, ids);
    SubsetSize(ids, Unflushed(rows));
    assert Unflushed(rows) - (Unflushed(rows) - ids) == ids;
  }

  /** A batch speaks of each of its rows, and nothing left out is older. */
  lemma BatchOrder(rows: Queue, batch: seq<Event>, limit: nat)
    requires IsBatch(rows, batch, limit)
    ensures forall x, y | x in SetOf(Ids(batch)) && y in Unflushed(rows) - SetOf(Ids(batch)) ::
              x in rows && rows[x].ts <= rows[y].ts
    ensures forall id | id in SetOf(Ids(batch)) ::
              id in rows && exists i :: 0 <= i < |batch| && batch[i].id == id && KeyOf(batch[i]) == RowKey(rows[id])
    ensures NonEmptyPayloads(rows) ==> forall i | 0 <= i < |batch| :: batch[i].payload.Some?
  {
    hide KeyFor;
    forall id | id in SetOf(Ids(batch))
      ensures exists i :: 0 <= i < |batch| && batch[i].id == id && KeyOf(batch[i]) == RowKey(rows[id])
    {
      var i :| 0 <= i < |batch| && Ids(batch)[i] == id;
    }
  }

  lemma LessTwice(n: nat, k: nat)
    ensures Less(Less(n, BUFFER_FLUSH_LIMIT * k), BUFFER_FLUSH_LIMIT) == Less(n, BUFFER_FLUSH_LIMIT * (k + 1))
  {
  }

  lemma ZeroLeft(n: nat, k: nat)
    ensures Less(n, BUFFER_FLUSH_LIMIT * 0) == n
    ensures (n + BUFFER_FLUSH_LIMIT - 1) / BUFFER_FLUSH_LIMIT <= k ==> Less(n, BUFFER_FLUSH_LIMIT * k) == 0
  {
  }

  /** After k clean syncs max(0, n - 1000 k) rows are left, so ceil(n / 1000) of them deliver and flag everything. */
  lemma {:induction false} DrainSchedule(edges: seq<Edge>, node: string, k: nat)
    requires 0 < |edges| && NonEmptyPayloads(edges[0].rows)
    requires forall i | 0 <= i < |edges| - 1 :: CleanSync(edges[i], edges[i + 1], node)
    requires k < |edges|
    ensures var n := |Unflushed(edges[0].rows)|;
            && |Unflushed(edges[k].rows)| == (if n <= 1000 * k then 0 else n - 1000 * k)
            && ((n + 999) / 1000 <= k ==> Unflushed(edges[k].rows) == {})
    ensures Unflushed(edges[k].rows) <= Unflushed(edges[0].rows) && NonEmptyPayloads(edges[k].rows)
    ensures forall id | id in edges[0].rows ::
              id in edges[k].rows && edges[k].rows[id].(flushed := false) == edges[0].rows[id].(flushed := false)
    ensures forall id | id in Unflushed(edges[0].rows) - Unflushed(edges[k].rows) ::
              RowKey(edges[0].rows[id]) in edges[k].table
  {
    hide KeyFor, CleanSync, Less, Prefix;
    ZeroLeft(|Unflushed(edges[0].rows)|, k);
    if k > 0 {
      DrainSchedule(edges, node, k - 1);
      var a, b := edges[k - 1], edges[k];
      assert CleanSync(edges[k - 1], edges[k - 1 + 1], node);
      CleanSyncDrains(a, b, node);
      LessTwice(|Unflushed(edges[0].rows)|, k - 1);
      forall id | id in Unflushed(edges[0].rows) - Unflushed(b.rows)
        ensures RowKey(edges[0].rows[id]) in b.table
      {
        assert RowKey(edges[0].rows[id]) == RowKey(a.rows[id]);
      }
    }
  }
}
