/** edge/src/buffer.c: the persistent queue of events. */
module EdgeStore {
  import opened Text
  import opened EdgeData

  /** The outcome of the i-th call of a kind; calls past the end of the script succeed. */
  predicate Succeeds(script: seq<bool>, i: nat) {
    i < |script| ==> script[i]
  }

  /** An UPDATE succeeds, fails alone, or fails in a way that makes SQLite roll an open transaction back by itself. */
  datatype Update = Applied | Failed | RolledBack

  function UpdateAt(updates: seq<Update>, i: nat): Update {
    if i < |updates| then updates[i] else Applied
  }

  /** The ids whose UPDATE succeeded, of those at from up to n. */
  function Updated(ids: seq<Id>, updates: seq<Update>, from: nat, n: nat): set<Id>
    requires n <= |ids|
  {
    set i | from <= i < n && UpdateAt(updates, i).Applied? :: ids[i]
  }

  /** The first of n UPDATEs that rolls back, or n. */
  function FirstRollback(updates: seq<Update>, n: nat): (k: nat)
    ensures k <= n && (k < n ==> UpdateAt(updates, k).RolledBack?)
    ensures forall i: nat | i < k :: !UpdateAt(updates, i).RolledBack?
  {
    if n == 0 then 0
    else
      var k := FirstRollback(updates, n - 1);
      if k == n - 1 && !UpdateAt(updates, n - 1).RolledBack? then n else k
  }

  /**
   * The ids that one call of buffer_events_mark_flushed flags. Outside a transaction each UPDATE stands alone; a
   * rollback takes the UPDATEs before it back and leaves the later ones outside.
   */
  function Marked(ids: seq<Id>, begin: bool, updates: seq<Update>, commit: bool): (r: set<Id>)
    ensures r <= SetOf(ids)
  {
    var k := FirstRollback(updates, |ids|);
    if !begin then Updated(ids, updates, 0, |ids|)
    else if k < |ids| then Updated(ids, updates, k + 1, |ids|)
    else if commit then Updated(ids, updates, 0, |ids|) else {}
  }

  /** One more UPDATE that stands. */
  lemma FlagNext(rows: Queue, ids: seq<Id>, updates: seq<Update>, from: nat, i: nat)
    requires from <= i < |ids|
    ensures var before := Flag(rows, Updated(ids, updates, from, i));
            && Flag(rows, Updated(ids, updates, from, i + 1))
            == if UpdateAt(updates, i).Applied? && ids[i] in before
               then before[ids[i] := before[ids[i]].(flushed := true)] else before
  {
  }

  lemma FlagNobody(rows: Queue, ids: seq<Id>, updates: seq<Update>, i: nat)
    requires i <= |ids|
    ensures Flag(rows, Updated(ids, updates, i, i)) == rows == Flag(rows, {})
  {
  }

  /** What SELECT answers, as row ids. */
  ghost predicate IsSelect(rows: Queue, cursor: seq<Id>, limit: nat) {
    && (forall id | id in cursor :: id in rows)
    && IsBatch(rows, Events(rows, cursor), limit)
  }

  function Events(rows: Queue, cursor: seq<Id>): (events: seq<Event>)
    requires forall id | id in cursor :: id in rows
    ensures |events| == |cursor|
  {
    seq(|cursor|, i requires 0 <= i < |cursor| => EventOf(cursor[i], rows[cursor[i]]))
  }

  /** The database file, which every SQLite handle of the process shares. */
  class EventStore {
    var rows: Queue
    var lastId: Id  // sqlite_sequence: AUTOINCREMENT never reuses an id

    ghost predicate Valid()
      reads this
    {
      forall id | id in rows :: id <= lastId
    }

    constructor ()
      ensures Valid() && rows == map[]
    {
      rows, lastId := map[], 0;
    }

    /** buffer_event_insert, at the time now; a NULL payload is refused. */
    method EventInsert(topic: CString, payload: Option<string>, now: int, ok: bool) returns (rc: int)
      requires Valid()
      modifies this
      ensures Valid()
      ensures rc == if payload.Some? && ok then 0 else -1
      ensures rc != 0 ==> rows == old(rows)
      ensures rc == 0 ==> lastId !in old(rows) && rows == old(rows)[lastId := Row(topic, payload.value, now, false)]
    {
      if payload.None? {
        return -1;
      }
      if !ok {
        return -1;
      }
      lastId := lastId + 1;
      rows := rows[lastId := Row(topic, payload.value, now, false)];
      return 0;
    }

    /**
     * buffer_events_read_unflushed: copies what SELECT answers into the caller's array; steps says which
     * sqlite3_step calls succeed.
     */
    method ReadUnflushed(events: array<Event>, maxEvents: int, cursor: seq<Id>, steps: seq<bool>) returns (count: int)
      requires maxEvents <= events.Length
      requires 0 < maxEvents ==> IsSelect(rows, cursor, maxEvents)
      modifies events
      ensures maxEvents <= 0 || (exists i: nat | i <= |cursor| :: !Succeeds(steps, i)) <==> count == -1
      ensures count != -1 ==> count == |cursor| <= maxEvents && events[..count] == Events(rows, cursor)
    {
      if maxEvents <= 0 {
        return -1;
      }
      count := 0;
      var failed := false;
      while count < |cursor|
        invariant 0 <= count <= |cursor| && !failed
        invariant forall i: nat | i < count :: Succeeds(steps, i)
        invariant events[..count] == Events(rows, cursor)[..count]
      {
        if !Succeeds(steps, count) {
          failed := true;
          break;
        }
        events[count] := EventOf(cursor[count], rows[cursor[count]]);
        count := count + 1;
      }
      if failed || !Succeeds(steps, count) {
        return -1;
      }
    }

    /** buffer_events_mark_flushed: one transaction of UPDATEs whose results are ignored. */
    method MarkFlushed(ids: array<Id>, count: int, begin: bool, updates: seq<Update>, commit: bool) returns (rc: int)
      requires count <= ids.Length
      modifies this`rows
      ensures count <= 0 ==> rc == -1 && rows == old(rows)
      ensures 0 < count ==> rc == if begin && FirstRollback(updates, count) == count && commit then 0 else -1
      ensures 0 < count ==> rows == Flag(old(rows), Marked(ids[..count], begin, updates, commit))
    {
      if count <= 0 {
        return -1;
      }
      hide Flag, Updated;
      var work, inTxn := rows, begin;  // what this connection sees, and whether its transaction is open
      ghost var from := 0;
      FlagNobody(rows, ids[..count], updates, 0);
      var i := 0;
      while i < count
        invariant 0 <= from <= i <= count
        invariant inTxn <==> begin && FirstRollback(updates, i) == i
        invariant from == if begin && !inTxn then FirstRollback(updates, i) + 1 else 0
        invariant work == Flag(old(rows), Updated(ids[..count], updates, from, i))
        invariant rows == if inTxn then old(rows) else work
      {
        FlagNext(old(rows), ids[..count], updates, from, i);
        FlagNobody(old(rows), ids[..count], updates, i + 1);
        match UpdateAt(updates, i) {
          case Applied =>
            if ids[i] in work {
              work := work[ids[i] := work[ids[i]].(flushed := true)];
            }
          case Failed =>
          case RolledBack =>
            if inTxn {
              work, inTxn, from := rows, false, i + 1;
            }
        }
        if !inTxn {
          rows := work;
        }
        i := i + 1;
      }
      if !inTxn {
        return -1;  // COMMIT without a transaction fails
      }
      if !commit {
        return -1;
      }
      rows := work;
      return 0;
    }
  }
}
