/** edge/src/sync.c: one flush of the queue into PostgreSQL, and what it does and does not deliver. */
module EdgeSync {
  import opened Text
  import opened EdgeData
  import opened EdgeStore

  /** The outcomes of the foreign calls of one pg_flush. */
  datatype Fates = Fates(connect: bool, prepare: bool, begin: bool, upserts: seq<bool>, commit: bool,
                         markBegin: bool, updates: seq<Update>, markCommit: bool)

  // ----- Specification -----

  datatype Progress = Progress(table: Table, txn: Txn, acked: seq<Id>)

  /** The loop of pg_flush after its first n events. */
  function UpsertAll(table: Table, txn: Txn, events: seq<Event>, node: string, upserts: seq<bool>, n: nat): Progress
    requires n <= |events|
  {
    if n == 0 then Progress(table, txn, [])
    else
      var p := UpsertAll(table, txn, events, node, upserts, n - 1);
      var s := Upsert(p.table, p.txn, events[n - 1], node, Succeeds(upserts, n - 1));
      Progress(s.table, s.txn, if s.ok then p.acked + [events[n - 1].id] else p.acked)
  }

  datatype Flushed = Flushed(acked: seq<Id>, table: Table, rows: Queue)

  /** pg_flush once connected and prepared: the ids passed to marking, and both stores afterwards. */
  function Flush(table: Table, rows: Queue, events: seq<Event>, node: string, f: Fates): Flushed {
    var p := UpsertAll(table, Begin(f.begin), events, node, f.upserts, |events|);
    Flushed(p.acked, Commit(p.table, p.txn, f.commit),
            Flag(rows, Marked(p.acked, f.markBegin, f.updates, f.markCommit)))
  }

  // ----- The code -----

  /** extract_device_id */
  method ExtractDeviceId(topic: CString, out: array<char>)
    requires out.Length > 0
    modifies out
    ensures CStr(out[..]) == DeviceIdIn(topic, out.Length)
  {
    var segment := "unknown";
    var p := IndexOf(topic, '/');
    if p.Some? {
      segment := topic[p.value + 1..];
      var end := IndexOf(segment, '/');
      if end.Some? {
        segment := segment[..end.value];
      }
    }
    hide IndexOf;
    var len := if |segment| >= out.Length then out.Length - 1 else |segment|;
    forall i | 0 <= i < len {
      out[i] := segment[i];
    }
    out[len] := '\0';
    assert out[..len] == Prefix(segment, out.Length - 1);
    assert out[..len] <= out[..];
    CStrIs(out[..], out[..len]);
  }

  /** The committed table game_events, and the session of one connection to it. */
  class PgServer {
    var table: Table

    constructor (initial: Table)
      ensures table == initial
    {
      table := initial;
    }
  }

  class PgConn {
    const server: PgServer
    var txn: Txn

    constructor (server: PgServer)
      ensures this.server == server && txn == AutoCommit
    {
      this.server := server;
      txn := AutoCommit;
    }

    method ExecBegin(ok: bool)
      modifies this
      ensures txn == Begin(ok)
    {
      txn := Begin(ok);
    }

    /** PQexecPrepared with the parameters of UPSERT_SQL; a NULL payload violates NOT NULL. */
    method ExecUpsert(deviceId: string, topic: string, payload: Option<string>, ts: int, node: string, ok: bool)
      returns (commandOk: bool)
      modifies this, server
      ensures Statement(server.table, txn, commandOk)
           == Insert(old(server.table), old(txn), Key(deviceId, topic, ts), RecordOf(payload, node), ok && payload.Some?)
    {
      var s := Insert(server.table, txn, Key(deviceId, topic, ts), RecordOf(payload, node), ok && payload.Some?);
      server.table, txn, commandOk := s.table, s.txn, s.ok;
    }

    method ExecCommit(ok: bool)
      modifies this, server
      ensures server.table == Commit(old(server.table), old(txn), ok)
    {
      server.table, txn := Commit(server.table, txn, ok), AutoCommit;
    }
  }

  /** The session sees a record under the device that the topic names, the topic and ts. */
  ghost predicate HasRecord(table: Table, txn: Txn, ev: Event) {
    exists id ::
      Names(ev.topic, id)
      && (Key(id, ev.topic, ev.ts) in table || (txn.Open? && Key(id, ev.topic, ev.ts) in txn.writes))
  }

  /** The body of the loop of pg_flush up to the result of the statement. */
  method UpsertEvent(conn: PgConn, ev: Event, node: string, ok: bool) returns (commandOk: bool)
    modifies conn, conn.server
    ensures Statement(conn.server.table, conn.txn, commandOk)
         == Upsert(old(conn.server.table), old(conn.txn), ev, node, ok)
    ensures commandOk ==> HasRecord(conn.server.table, conn.txn, ev)
  {
    hide DeviceIdIn, Names;
    NamesIff(ev.topic, DeviceIdIn(ev.topic, DEVICE_ID_SIZE));
    var deviceId := new char[DEVICE_ID_SIZE];
    ExtractDeviceId(ev.topic, deviceId);
    commandOk := conn.ExecUpsert(CStr(deviceId[..]), ev.topic, ev.payload, ev.ts, node, ok);
  }

  /** pg_flush: the results of BEGIN, COMMIT and marking are ignored. */
  method PgFlush(server: PgServer, store: EventStore, events: array<Event>, count: nat, node: string, f: Fates)
    returns (flushed: int)
    requires count <= events.Length
    modifies server, store`rows
    ensures !f.connect || !f.prepare ==>
              flushed == -1 && server.table == old(server.table) && store.rows == old(store.rows)
    ensures f.connect && f.prepare ==>
              var r := Flush(old(server.table), old(store.rows), events[..count], node, f);
              flushed == |r.acked| && server.table == r.table && store.rows == r.rows
  {
    hide KeyFor, Upsert, Flag, Marked, HasRecord;
    if !f.connect {
      return -1;
    }
    if !f.prepare {
      return -1;
    }
    var conn := new PgConn(server);
    conn.ExecBegin(f.begin);
    var flushedIds := new Id[count];
    flushed := 0;
    ghost var batch := events[..count];
    var i := 0;
    while i < count
      invariant 0 <= flushed <= i <= count
      invariant fresh(conn) && conn.server == server
      invariant store.rows == old(store.rows) && events[..count] == batch
      invariant Progress(server.table, conn.txn, flushedIds[..flushed])
             == UpsertAll(old(server.table), Begin(f.begin), batch, node, f.upserts, i)
    {
      var ok := UpsertEvent(conn, events[i], node, Succeeds(f.upserts, i));
      if ok {
        flushedIds[flushed] := events[i].id;
        flushed := flushed + 1;
      }
      i := i + 1;
    }
    conn.ExecCommit(f.commit);
    if flushed > 0 {
      var _ := store.MarkFlushed(flushedIds, flushed, f.markBegin, f.updates, f.markCommit);
    } else {
      FlagNone(store.rows, f);
    }
  }

  lemma FlagNone(rows: Queue, f: Fates)
    ensures Flag(rows, Marked([], f.markBegin, f.updates, f.markCommit)) == rows
  {
  }

  /** do_sync: cursor is the order in which SQLite answers the SELECT. */
  method DoSync(server: PgServer, store: EventStore, node: string,
                open: bool, cursor: seq<Id>, steps: seq<bool>, f: Fates)
    requires IsSelect(store.rows, cursor, BUFFER_FLUSH_LIMIT)
    modifies server, store`rows
    ensures var readOk := open && forall i: nat | i <= |cursor| :: Succeeds(steps, i);
            if readOk && f.connect && f.prepare then
              var r := Flush(old(server.table), old(store.rows), Events(old(store.rows), cursor), node, f);
              server.table == r.table && store.rows == r.rows
            else
              server.table == old(server.table) && store.rows == old(store.rows)
  {
    hide KeyFor;
    if !open {
      return;
    }
    var events := new Event[BUFFER_FLUSH_LIMIT](_ => Event(0, "", None, 0));
    var count := store.ReadUnflushed(events, BUFFER_FLUSH_LIMIT, cursor, steps);
    if count > 0 {
      var _ := PgFlush(server, store, events, count, node, f);
    } else {
      FlagNone(store.rows, f);
    }
  }
}
