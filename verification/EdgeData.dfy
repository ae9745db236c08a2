/** The rows, keys and transactions shared by the SQLite queue and the PostgreSQL table. */
module EdgeData {
  import opened Text

  type Id = int

  const BUFFER_MAX_TOPIC := 256
  const BUFFER_FLUSH_LIMIT := 1000
  const DEVICE_ID_SIZE := 64

  /** A row of the SQLite table `events`. */
  datatype Row = Row(topic: CString, payload: string, ts: int, flushed: bool)

  /** A buffer_event_t: what the reader copies out of a row. A zero-length payload is read back as NULL. */
  datatype Event = Event(id: Id, topic: CString, payload: Option<string>, ts: int)

  /** The primary key of the PostgreSQL table `game_events`. */
  datatype Key = Key(deviceId: string, topic: string, ts: int)

  /** The other columns of `game_events`. */
  datatype Stored = Stored(payload: string, edgeNode: string)

  type Queue = map<Id, Row>
  type Table = map<Key, Stored>

  function EventOf(id: Id, row: Row): Event {
    Event(id, Prefix(row.topic, BUFFER_MAX_TOPIC - 1),
          if row.payload == "" then None else Some(row.payload), row.ts)
  }

  /** The second slash-separated segment of a topic, if it has a slash. */
  function Segment(topic: string): Option<string> {
    match IndexOf(topic, '/')
    case None => None
    case Some(p) =>
      var rest := topic[p + 1..];
      match IndexOf(rest, '/') case None => Some(rest) case Some(e) => Some(rest[..e])
  }

  /** What extract_device_id leaves in a buffer of the given size. */
  function DeviceIdIn(topic: string, size: nat): string
    requires size > 0
  {
    Prefix(match Segment(topic) case None => "unknown" case Some(segment) => segment, size - 1)
  }

  function KeyFor(topic: string, ts: int): Key {
    Key(DeviceIdIn(topic, DEVICE_ID_SIZE), topic, ts)
  }

  function KeyOf(ev: Event): Key {
    KeyFor(ev.topic, ev.ts)
  }

  function RowKey(row: Row): Key {
    KeyFor(Prefix(row.topic, BUFFER_MAX_TOPIC - 1), row.ts)
  }

  function Unflushed(rows: Queue): set<Id> {
    set id | id in rows && !rows[id].flushed
  }

  function Ids(events: seq<Event>): (ids: seq<Id>)
    ensures |ids| == |events| && forall i | 0 <= i < |ids| :: ids[i] == events[i].id
  {
    seq(|events|, i requires 0 <= i < |events| => events[i].id)
  }

  function SetOf(ids: seq<Id>): set<Id> {
    set id | id in ids
  }

  /** The rows with the given ids flagged as flushed. */
  function Flag(rows: Queue, ids: set<Id>): (r: Queue)
    ensures r.Keys == rows.Keys
  {
    map id | id in rows :: if id in ids then rows[id].(flushed := true) else rows[id]
  }

  /**
   * What SELECT ... WHERE flushed = 0 ORDER BY ts ASC LIMIT ? may answer, as events: rows with equal ts come in
   * any order.
   */
  ghost predicate IsBatch(rows: Queue, batch: seq<Event>, limit: nat) {
    && (forall i | 0 <= i < |batch| ::
          batch[i].id in Unflushed(rows) && batch[i] == EventOf(batch[i].id, rows[batch[i].id]))
    && (forall i, j | 0 <= i < j < |batch| :: batch[i].id != batch[j].id && batch[i].ts <= batch[j].ts)
    && |batch| <= limit
    && (|batch| < limit ==> Unflushed(rows) <= SetOf(Ids(batch)))
    && (forall id, i | id in Unflushed(rows) && id !in SetOf(Ids(batch)) && 0 <= i < |batch| ::
          batch[i].ts <= rows[id].ts)
  }

  // ----- PostgreSQL statements -----

  /** One session: outside a transaction, inside one, or inside one that a failed statement has aborted. */
  datatype Txn = AutoCommit | Open(writes: Table) | Aborted

  datatype Statement = Statement(table: Table, txn: Txn, ok: bool)

  function Begin(ok: bool): Txn {
    if ok then Open(map[]) else AutoCommit
  }

  /**
   * INSERT ... ON CONFLICT (device_id, topic, ts) DO NOTHING. A failure aborts an open transaction, and an aborted
   * one fails every later statement.
   */
  function Insert(table: Table, txn: Txn, key: Key, row: Stored, ok: bool): Statement {
    if txn.Aborted? || !ok then
      Statement(table, if txn.AutoCommit? then AutoCommit else Aborted, false)
    else
      match txn
      case AutoCommit => Statement(if key in table then table else table[key := row], AutoCommit, true)
      case Open(writes) =>
        Statement(table, Open(if key in table || key in writes then writes else writes[key := row]), true)
  }

  function RecordOf(payload: Option<string>, node: string): Stored {
    Stored(match payload case None => "" case Some(p) => p, node)
  }

  function StoredAs(ev: Event, node: string): Stored {
    RecordOf(ev.payload, node)
  }

  /** The upsert of one event. The payload column is NOT NULL. */
  function Upsert(table: Table, txn: Txn, ev: Event, node: string, ok: bool): Statement {
    Insert(table, txn, KeyOf(ev), StoredAs(ev, node), ok && ev.payload.Some?)
  }

  /** COMMIT of an aborted transaction, or one that fails, rolls back; outside a transaction it does nothing. */
  function Commit(table: Table, txn: Txn, ok: bool): Table {
    if txn.Open? && ok then table + txn.writes else table
  }

  // ----- Facts about keys -----

  /** The device id is the text between the first slash and the next one or the end, cut to fit. */
  lemma DeviceIdMeaning(topic: string, before: string, segment: string, after: string, size: nat)
    requires topic == before + "/" + segment + after && '/' !in before && '/' !in segment
    requires after == "" || after[0] == '/'
    requires size > 0
    ensures DeviceIdIn(topic, size) == Prefix(segment, size - 1)
  {
    assert topic[..|before|] == before && topic[|before|] == '/';
    IndexOfIs(topic, '/', |before|);
    var rest := topic[|before| + 1..];
    assert rest == segment + after;
    if after == "" {
      assert rest == segment;
    } else {
      assert rest[..|segment|] == segment;
      IndexOfIs(rest, '/', |segment|);
    }
  }

  /** Every topic with a slash splits that way, so a device id never holds a slash; without one it is "unknown". */
  lemma DeviceIdForm(topic: string, size: nat)
    requires size > 7
    ensures '/' !in topic ==> DeviceIdIn(topic, size) == "unknown"
    ensures '/' !in DeviceIdIn(topic, size) && |DeviceIdIn(topic, size)| < size
  {
    match Segment(topic)
    case None =>
    case Some(segment) => assert '/' !in segment;
  }

  /** segment is what stands between the first slash of a topic and the next one or the end. */
  predicate Splits(topic: string, before: string, segment: string, after: string) {
    && topic == before + "/" + segment + after && '/' !in before && '/' !in segment
    && (after == "" || after[0] == '/')
  }

  /** id names the device of a topic: its segment, cut to 63 bytes, or "unknown" if the topic has no slash. */
  ghost predicate Names(topic: string, id: string) {
    || ('/' !in topic && id == "unknown")
    || exists before, segment, after ::
         Splits(topic, before, segment, after) && id == if |segment| <= 63 then segment else segment[..63]
  }

  /** The key of a row, spelled out. */
  ghost predicate IsKeyOf(key: Key, row: Row) {
    && key.topic == (if |row.topic| <= 255 then row.topic else row.topic[..255])
    && key.ts == row.ts && Names(key.topic, key.deviceId)
  }

  lemma NamesIff(topic: string, id: string)
    ensures Names(topic, id) <==> id == DeviceIdIn(topic, DEVICE_ID_SIZE)
  {
    hide DeviceIdIn, Splits;
    forall before, segment, after | Splits(topic, before, segment, after)
      ensures DeviceIdIn(topic, 64) == (if |segment| <= 63 then segment else segment[..63]) && '/' in topic
    {
      SplitMeaning(topic, before, segment, after);
    }
    if '/' in topic {
      var before, segment, after := TopicSplits(topic);
    } else {
      NoSlash(topic);
    }
  }

  lemma NoSlash(topic: string)
    requires '/' !in topic
    ensures DeviceIdIn(topic, 64) == "unknown"
  {
  }

  lemma SplitMeaning(topic: string, before: string, segment: string, after: string)
    requires Splits(topic, before, segment, after)
    ensures DeviceIdIn(topic, 64) == (if |segment| <= 63 then segment else segment[..63]) && '/' in topic
  {
    hide DeviceIdIn;
    DeviceIdMeaning(topic, before, segment, after, 64);
    assert topic[|before|] == '/';
  }

  lemma TopicSplits(topic: string) returns (before: string, segment: string, after: string)
    requires '/' in topic
    ensures Splits(topic, before, segment, after)
  {
    hide IndexOf;
    var p := IndexOf(topic, '/').value;
    var rest := topic[p + 1..];
    before := topic[..p];
    assert topic == before + "/" + rest;
    match IndexOf(rest, '/') {
      case None =>
        segment, after := rest, "";
        assert rest + "" == rest;
      case Some(e) =>
        segment, after := rest[..e], rest[e..];
        assert segment + after == rest;
        assert before + "/" + rest == before + "/" + segment + after;
    }
  }

  /** A row has exactly one key, and it is that one: two bytes short of the sizes of the buffers on the way. */
  lemma RowKeyIff(row: Row, key: Key)
    ensures IsKeyOf(key, row) <==> key == RowKey(row)
  {
    hide DeviceIdIn, Names;
    NamesIff(Prefix(row.topic, BUFFER_MAX_TOPIC - 1), key.deviceId);
  }

  /** Two rows fight for one PostgreSQL key exactly when their topics agree on the first 255 bytes and their ts agree. */
  lemma SharedKey(r: Row, s: Row)
    ensures RowKey(r) == RowKey(s) <==>
            Prefix(r.topic, BUFFER_MAX_TOPIC - 1) == Prefix(s.topic, BUFFER_MAX_TOPIC - 1) && r.ts == s.ts
  {
  }

  // ----- Facts about batches -----

  lemma {:induction false} SetOfDistinct(ids: seq<Id>)
    requires forall i, j | 0 <= i < j < |ids| :: ids[i] != ids[j]
    ensures |SetOf(ids)| == |ids|
  {
    if ids == [] {
      assert SetOf(ids) == {};
    } else {
      var n := |ids| - 1;
      SetOfDistinct(ids[..n]);
      assert SetOf(ids) == SetOf(ids[..n]) + {ids[n]};
    }
  }

  /** A batch holds as many unflushed rows as there are, up to the limit. */
  lemma BatchSize(rows: Queue, batch: seq<Event>, limit: nat)
    requires IsBatch(rows, batch, limit)
    ensures |batch| == if |Unflushed(rows)| < limit then |Unflushed(rows)| else limit
    ensures SetOf(Ids(batch)) <= Unflushed(rows) && |SetOf(Ids(batch))| == |batch|
  {
    hide KeyFor, EventOf;
    SetOfDistinct(Ids(batch));
    SubsetSize(SetOf(Ids(batch)), Unflushed(rows));
    if |batch| < limit {
      assert SetOf(Ids(batch)) == Unflushed(rows);
    }
  }

  lemma SubsetSize<T>(a: set<T>, b: set<T>)
    requires a <= b
    ensures |a| <= |b| && |b - a| == |b| - |a|
  {
    assert b == a + (b - a);
  }

  /** Flagging removes exactly the flagged ids from the unflushed ones. */
  lemma FlagUnflushed(rows: Queue, ids: set<Id>)
    ensures Unflushed(Flag(rows, ids)) == Unflushed(rows) - ids
  {
  }
}
