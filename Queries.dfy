/** The read side of `main.py`: the newest-first measurement query behind
    `GET /api/measurements` and the websocket history snapshot, as pure
    functions of the tables. Timestamps are the integers `created_at` is
    modelled by. */
module Queries {
  import opened Wrappers
  import opened Models
  import opened Messages
  import opened Database

  /** Newest first: `ORDER BY created_at DESC`. */
  predicate NewestFirst(ms: seq<Measurement>) {
    forall i, j :: 0 <= i < j < |ms| ==> ms[i].createdAt >= ms[j].createdAt
  }

  /** Oldest first, the order a snapshot is sent in. */
  predicate OldestFirst(es: seq<Event>) {
    forall i, j :: 0 <= i < j < |es| ==> es[i].timestamp <= es[j].timestamp
  }

  /** What `ORDER BY created_at DESC LIMIT n` may return: `n` rows (or all of
      them), newest first, drawn from `ms`, and no row left behind is newer
      than a row returned. Rows with equal `created_at` may come in any
      order, which is why this is a relation and not a function. */
  predicate IsLatest(r: seq<Measurement>, ms: seq<Measurement>, n: nat) {
    && |r| == (if n < |ms| then n else |ms|)
    && NewestFirst(r)
    && multiset(r) <= multiset(ms)
    && forall m, x :: m in multiset(ms) - multiset(r) && x in r ==> m.createdAt <= x.createdAt
  }

  /** Putting a row in front of newest-first rows none of which is newer. */
  lemma PrependNewestFirst(x: Measurement, s: seq<Measurement>)
    requires NewestFirst(s)
    requires forall i :: 0 <= i < |s| ==> s[i].createdAt <= x.createdAt
    ensures NewestFirst([x] + s)
  {
    var r := [x] + s;
    forall i, j | 0 <= i < j < |r|
      ensures r[i].createdAt >= r[j].createdAt
    {
      assert r[j] == s[j - 1];
      if i > 0 {
        assert r[i] == s[i - 1];
      }
    }
  }

  /** Places `m` into a newest-first sequence. */
  function InsertNewestFirst(m: Measurement, s: seq<Measurement>): (r: seq<Measurement>)
    requires NewestFirst(s)
    ensures |r| == |s| + 1
    ensures NewestFirst(r)
    ensures multiset(r) == multiset(s) + multiset{m}
  {
    if s == [] || m.createdAt >= s[0].createdAt then
      PrependNewestFirst(m, s);
      [m] + s
    else
      var rest := InsertNewestFirst(m, s[1..]);
      assert s == [s[0]] + s[1..];
      forall i | 0 <= i < |rest|
        ensures rest[i].createdAt <= s[0].createdAt
      {
        assert rest[i] in multiset(rest);
        if rest[i] != m {
          assert rest[i] in multiset(s[1..]);
          var j :| 0 <= j < |s[1..]| && s[1..][j] == rest[i];
          assert s[j + 1] == rest[i];
        }
      }
      PrependNewestFirst(s[0], rest);
      [s[0]] + rest
  }

  /** One ordering the database may choose for `ORDER BY created_at DESC`. */
  function SortNewestFirst(ms: seq<Measurement>): (r: seq<Measurement>)
    ensures |r| == |ms|
    ensures NewestFirst(r)
    ensures multiset(r) == multiset(ms)
  {
    if ms == [] then []
    else
      assert ms == [ms[0]] + ms[1..];
      InsertNewestFirst(ms[0], SortNewestFirst(ms[1..]))
  }

  /** The first `n` rows of that ordering. */
  function Latest(ms: seq<Measurement>, n: nat): seq<Measurement> {
    SortNewestFirst(ms)[..if n < |ms| then n else |ms|]
  }

  /** Cutting newest-first rows in two: nothing behind the cut is newer than
      anything before it. */
  lemma NewestFirstCut(s: seq<Measurement>, k: nat, a: Measurement, b: Measurement)
    requires NewestFirst(s) && k <= |s|
    requires a in s[k..] && b in s[..k]
    ensures a.createdAt <= b.createdAt
  {
    var j :| 0 <= j < |s[k..]| && s[k..][j] == a;
    var i :| 0 <= i < k && s[..k][i] == b;
    assert s[k + j] == a && s[i] == b;
  }

  /** A prefix of newest-first rows is newest first. */
  lemma NewestFirstPrefix(s: seq<Measurement>, k: nat)
    requires NewestFirst(s) && k <= |s|
    ensures NewestFirst(s[..k])
  {
    var r := s[..k];
    forall i, j | 0 <= i < j < |r|
      ensures r[i].createdAt >= r[j].createdAt
    {
      assert r[i] == s[i] && r[j] == s[j];
    }
  }

  /** The rows a prefix leaves behind are the rest of the sequence. */
  lemma LeftBehind(s: seq<Measurement>, k: nat)
    requires k <= |s|
    ensures multiset(s) - multiset(s[..k]) == multiset(s[k..])
    ensures multiset(s[..k]) <= multiset(s)
  {
    assert s == s[..k] + s[k..];
  }

  /** `Latest` is a valid answer to the `LIMIT n` query. */
  lemma LatestIsLatest(ms: seq<Measurement>, n: nat)
    ensures IsLatest(Latest(ms, n), ms, n)
  {
    var sorted := SortNewestFirst(ms);
    var k := if n < |ms| then n else |ms|;
    var r := sorted[..k];
    NewestFirstPrefix(sorted, k);
    LeftBehind(sorted, k);
    forall m, x | m in multiset(ms) - multiset(r) && x in r
      ensures m.createdAt <= x.createdAt
    {
      NewestFirstCut(sorted, k, m, x);
    }
  }

  // ---------------------------------------------------------------------
  // Shaping rows
  // ---------------------------------------------------------------------

  const UnknownSensorName: string := "Unknown"

  /** `m.sensor.name if m.sensor else "Unknown"`: the owning sensor's name,
      looked up by `sensor_id`. */
  function SensorName(t: Tables, m: Measurement): (name: string)
    ensures SensorById(t.sensors, m.sensorId).Some? ==> name == SensorById(t.sensors, m.sensorId).value.name
    ensures m.sensorId !in SensorIds(t.sensors) ==> name == UnknownSensorName
  {
    match SensorById(t.sensors, m.sensorId)
    case Some(s) => s.name
    case None => UnknownSensorName
  }

  /** While the foreign key holds the fallback is never taken: every stored
      measurement is shown with the name of the sensor it belongs to. */
  lemma StoredMeasurementNamed(t: Tables, m: Measurement)
    requires Consistent(t) && m in t.measurements
    ensures exists s :: s in t.sensors && s.id == m.sensorId && SensorName(t, m) == s.name
  {
    var s := SensorById(t.sensors, m.sensorId).value;
    assert s in t.sensors && s.id == m.sensorId;
  }

  /** One element of the `GET /api/measurements` list. */
  datatype Row = Row(id: nat, sensorId: nat, sensorName: string, pressure: real, timestamp: int)

  function RowOf(t: Tables, m: Measurement): (r: Row)
    ensures r.id == m.id && r.sensorId == m.sensorId && r.pressure == m.pressure && r.timestamp == m.createdAt
    ensures r.sensorName == SensorName(t, m)
  {
    Row(m.id, m.sensorId, SensorName(t, m), m.pressure, m.createdAt)
  }

  function Rows(t: Tables, ms: seq<Measurement>): (r: seq<Row>)
    ensures |r| == |ms|
    ensures forall i :: 0 <= i < |ms| ==> r[i] == RowOf(t, ms[i])
  {
    if ms == [] then [] else [RowOf(t, ms[0])] + Rows(t, ms[1..])
  }

  /** The default of the `limit` query parameter. */
  const DefaultLimit: int := 100

  /** The largest `bigint`: PostgreSQL reads a `LIMIT` as one. */
  const MaxBigint: int := 0x7fff_ffff_ffff_ffff

  /** A `LIMIT` PostgreSQL runs: not negative, and small enough to be read
      as a `bigint`. */
  predicate LimitAccepted(limit: int) {
    0 <= limit <= MaxBigint
  }

  /** A JSON response body: the list of rows, the error object built from
      the database's message, or a two-element array. */
  datatype Body = RowList(rows: seq<Row>) | ErrorObject(error: string) | Pair(first: Body, second: int)

  datatype Response = Response(status: nat, body: Body)

  const StatusOk: nat := 200
  const StatusServerError: nat := 500

  /** The query the handler runs: PostgreSQL refuses a negative `LIMIT` and
      one beyond the `bigint` range, and the driver raises; `errorText` is
      the driver's message, not modelled. */
  function LatestRows(t: Tables, limit: int, errorText: string): (r: Result<seq<Row>, string>)
    ensures r.Err? <==> !LimitAccepted(limit)
    ensures r.Err? ==> r.error == errorText
    ensures r.Ok? ==> |r.value| == if limit < |t.measurements| then limit else |t.measurements|
  {
    if !LimitAccepted(limit) then Err(errorText) else Ok(Rows(t, Latest(t.measurements, limit)))
  }

  /** `get_latest_measurements` as written: the handler returns the tuple
      `({"error": ...}, 500)`, which FastAPI encodes as a two-element JSON
      array sent with the default status 200. Every answer is a success. */
  function GetLatestMeasurementsAsWritten(t: Tables, limit: int, errorText: string): (r: Response)
    ensures r.status == StatusOk
    ensures r.body.RowList? <==> LimitAccepted(limit)
  {
    match LatestRows(t, limit, errorText)
    case Ok(rows) => Response(StatusOk, RowList(rows))
    case Err(e) => Response(StatusOk, Pair(ErrorObject(e), StatusServerError))
  }

  /** `get_latest_measurements` as evidently intended: the error object with
      status 500. */
  function GetLatestMeasurements(t: Tables, limit: int, errorText: string): (r: Response)
    ensures r.status == StatusServerError <==> !LimitAccepted(limit)
    ensures r.status == StatusServerError ==> r.body == ErrorObject(errorText)
    ensures r.status != StatusServerError ==> r.status == StatusOk && r.body.RowList?
  {
    match LatestRows(t, limit, errorText)
    case Ok(rows) => Response(StatusOk, RowList(rows))
    case Err(e) => Response(StatusServerError, ErrorObject(e))
  }

  /** As written, a failed query is reported as a success whose body is not
      the list of rows a client expects; the two versions agree otherwise. */
  lemma AsWrittenErrorIsSuccess(t: Tables, limit: int, errorText: string)
    ensures !LimitAccepted(limit) ==>
              GetLatestMeasurementsAsWritten(t, limit, errorText).status != GetLatestMeasurements(t, limit, errorText).status
    ensures LimitAccepted(limit) ==> GetLatestMeasurementsAsWritten(t, limit, errorText) == GetLatestMeasurements(t, limit, errorText)
  {
  }

  /** A successful answer: at most `limit` rows, newest first, each one
      shaping a stored measurement, and no stored measurement left out is
      newer than one shown. A limit outside the accepted range is answered
      by `GetLatestMeasurements` with the error instead. */
  lemma LatestMeasurementsAnswer(t: Tables, limit: int, errorText: string)
    requires LimitAccepted(limit)
    ensures var response := GetLatestMeasurements(t, limit, errorText);
      var body := response.body;
      && response.status == StatusOk
      && body.RowList?
      && |body.rows| <= limit
      && (limit <= |t.measurements| ==> |body.rows| == limit)
      && (forall i, j :: 0 <= i < j < |body.rows| ==> body.rows[i].timestamp >= body.rows[j].timestamp)
      && (forall i :: 0 <= i < |body.rows| ==> RowFrom(t, body.rows[i], t.measurements))
      && (forall m, i :: m in multiset(t.measurements) - multiset(Latest(t.measurements, limit)) && 0 <= i < |body.rows|
            ==> m.createdAt <= body.rows[i].timestamp)
  {
    var chosen := Latest(t.measurements, limit);
    LatestIsLatest(t.measurements, limit);
    var rows := Rows(t, chosen);
    assert GetLatestMeasurements(t, limit, errorText) == Response(StatusOk, RowList(rows));
    RowsNewestFirst(t, chosen);
    RowsDrawn(t, chosen, t.measurements);
    forall m, i | m in multiset(t.measurements) - multiset(chosen) && 0 <= i < |rows|
      ensures m.createdAt <= rows[i].timestamp
    {
      assert chosen[i] in chosen;
    }
  }

  /** A request without `limit` succeeds and lists the 100 newest
      measurements, or all of them when there are fewer. */
  lemma DefaultLimitAnswer(t: Tables, errorText: string)
    ensures var response := GetLatestMeasurements(t, DefaultLimit, errorText);
      && response.status == StatusOk
      && |response.body.rows| == if |t.measurements| < 100 then |t.measurements| else 100
  {
    assert LimitAccepted(DefaultLimit);
  }

  lemma RowsNewestFirst(t: Tables, ms: seq<Measurement>)
    requires NewestFirst(ms)
    ensures forall i, j :: 0 <= i < j < |Rows(t, ms)| ==> Rows(t, ms)[i].timestamp >= Rows(t, ms)[j].timestamp
  {
  }

  /** `row` shapes one of the measurements `ms`. */
  predicate RowFrom(t: Tables, row: Row, ms: seq<Measurement>) {
    exists m :: m in ms && row == RowOf(t, m)
  }

  lemma RowsDrawn(t: Tables, r: seq<Measurement>, ms: seq<Measurement>)
    requires multiset(r) <= multiset(ms)
    ensures forall i :: 0 <= i < |r| ==> RowFrom(t, Rows(t, r)[i], ms)
  {
    forall i | 0 <= i < |r|
      ensures RowFrom(t, Rows(t, r)[i], ms)
    {
      assert r[i] in multiset(r);
      assert r[i] in multiset(ms);
      assert r[i] in ms;
    }
  }

  // ---------------------------------------------------------------------
  // The websocket history snapshot
  // ---------------------------------------------------------------------

  /** How many past measurements a newly connected client is sent. */
  const SnapshotSize: nat := 50

  function HistoricalEvent(t: Tables, m: Measurement): (e: Event)
    ensures e.kind == HistoricalKind && e.macAddress.None?
    ensures e.sensorId == m.sensorId && e.pressure == m.pressure && e.timestamp == m.createdAt
    ensures e.sensorName == SensorName(t, m)
  {
    Event(HistoricalKind, m.sensorId, None, SensorName(t, m), m.pressure, m.createdAt)
  }

  /** `reversed(recent_measurements)`, each turned into an event: walks the
      newest-first answer from its end. */
  function OldestFirstEvents(t: Tables, ms: seq<Measurement>): (r: seq<Event>)
    ensures |r| == |ms|
    ensures forall i :: 0 <= i < |ms| ==> r[i] == HistoricalEvent(t, ms[|ms| - 1 - i])
  {
    if ms == [] then [] else [HistoricalEvent(t, ms[|ms| - 1])] + OldestFirstEvents(t, ms[..|ms| - 1])
  }

  /** The events a client is sent on connecting, in sending order. */
  function Snapshot(t: Tables): (r: seq<Event>)
    ensures |r| <= SnapshotSize && |r| <= |t.measurements|
    ensures forall i :: 0 <= i < |r| ==> r[i].kind == HistoricalKind && r[i].macAddress.None?
  {
    OldestFirstEvents(t, Latest(t.measurements, SnapshotSize))
  }

  /** The snapshot is the (at most) 50 newest measurements, oldest first,
      each tagged `historical` and carrying no MAC. */
  lemma SnapshotShape(t: Tables)
    ensures var snap := Snapshot(t);
      && |snap| == (if |t.measurements| < SnapshotSize then |t.measurements| else SnapshotSize)
      && OldestFirst(snap)
      && (forall i :: 0 <= i < |snap| ==> snap[i].kind == HistoricalKind && snap[i].macAddress.None?)
      && (forall i :: 0 <= i < |snap| ==> EventFrom(t, snap[i], t.measurements))
      && (forall m, i :: m in multiset(t.measurements) - multiset(Latest(t.measurements, SnapshotSize)) && 0 <= i < |snap|
            ==> m.createdAt <= snap[i].timestamp)
  {
    var chosen := Latest(t.measurements, SnapshotSize);
    LatestIsLatest(t.measurements, SnapshotSize);
    var snap := Snapshot(t);
    var k := |chosen|;
    EventsOldestFirst(t, chosen);
    EventsDrawn(t, chosen, t.measurements);
    forall m, i | m in multiset(t.measurements) - multiset(chosen) && 0 <= i < |snap|
      ensures m.createdAt <= snap[i].timestamp
    {
      assert chosen[k - 1 - i] in chosen;
    }
  }

  lemma EventsOldestFirst(t: Tables, ms: seq<Measurement>)
    requires NewestFirst(ms)
    ensures OldestFirst(OldestFirstEvents(t, ms))
  {
    var es := OldestFirstEvents(t, ms);
    var k := |ms|;
    forall i, j | 0 <= i < j < |es|
      ensures es[i].timestamp <= es[j].timestamp
    {
      assert es[i].timestamp == ms[k - 1 - i].createdAt;
      assert es[j].timestamp == ms[k - 1 - j].createdAt;
    }
  }

  /** `e` is the historical event of one of the measurements `ms`. */
  predicate EventFrom(t: Tables, e: Event, ms: seq<Measurement>) {
    exists m :: m in ms && e == HistoricalEvent(t, m)
  }

  lemma EventsDrawn(t: Tables, r: seq<Measurement>, ms: seq<Measurement>)
    requires multiset(r) <= multiset(ms)
    ensures forall i :: 0 <= i < |r| ==> EventFrom(t, OldestFirstEvents(t, r)[i], ms)
  {
    var k := |r|;
    forall i | 0 <= i < k
      ensures EventFrom(t, OldestFirstEvents(t, r)[i], ms)
    {
      assert r[k - 1 - i] in multiset(r);
      assert r[k - 1 - i] in multiset(ms);
      assert r[k - 1 - i] in ms;
    }
  }
}
