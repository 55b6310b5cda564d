/** The relational store behind the backend, held in memory: the `sensors`
    and `measurements` tables, the next value of each table's id sequence,
    and the constraints PostgreSQL enforces on them (primary keys, the unique
    `mac_address`, the VARCHAR lengths and the foreign key). */
module Database {
  import opened Wrappers
  import opened Models

  /** Why a query or a commit is refused. Each surfaces as an exception in
      the caller. `NulInString` is the driver's own refusal of a string that
      holds NUL; the others are PostgreSQL's. */
  datatype StorageError = UniqueViolation | StringTooLong | ForeignKeyViolation | NulInString

  /** Both tables, rows in insertion order, and the next id of each sequence. */
  datatype Tables = Tables(
    sensors: seq<Sensor>,
    measurements: seq<Measurement>,
    nextSensorId: nat,
    nextMeasurementId: nat)

  /** Freshly created tables: empty, both sequences starting at 1. */
  function EmptyTables(): Tables {
    Tables([], [], 1, 1)
  }

  /** The primary keys present in the `sensors` table. */
  function SensorIds(rows: seq<Sensor>): set<nat> {
    set s | s in rows :: s.id
  }

  /** `select(Sensor).where(Sensor.mac_address == mac)` followed by
      `.first()`: the position of the first row carrying the MAC. */
  function FindByMac(rows: seq<Sensor>, mac: string): (r: Option<nat>)
    ensures r.Some? ==> r.value < |rows| && rows[r.value].macAddress == mac
    ensures r.Some? ==> forall j :: 0 <= j < r.value ==> rows[j].macAddress != mac
    ensures r.None? <==> forall j :: 0 <= j < |rows| ==> rows[j].macAddress != mac
  {
    if |rows| == 0 then None
    else if rows[0].macAddress == mac then Some(0)
    else match FindByMac(rows[1..], mac)
      case None => None
      case Some(i) => Some(i + 1)
  }

  /** `session.exec(select(Sensor).where(Sensor.mac_address == mac)).first()`
      as the driver runs it: a MAC holding NUL is refused before it is sent;
      otherwise the first row whose MAC equals it, trailing spaces
      included. */
  function SelectByMac(rows: seq<Sensor>, mac: string): (r: Result<Option<nat>, StorageError>)
    ensures r.Err? <==> !FreeOfNul(mac)
    ensures r.Err? ==> r.error == NulInString
    ensures r.Ok? ==> r.value == FindByMac(rows, mac)
  {
    if !FreeOfNul(mac) then Err(NulInString) else Ok(FindByMac(rows, mac))
  }

  /** The ORM's `measurement.sensor`: the row whose primary key is `id`,
      if there is one. */
  function SensorById(rows: seq<Sensor>, id: nat): (r: Option<Sensor>)
    ensures r.Some? ==> r.value in rows && r.value.id == id
    ensures r.None? <==> id !in SensorIds(rows)
  {
    if |rows| == 0 then None
    else if rows[0].id == id then Some(rows[0])
    else
      assert SensorIds(rows) == {rows[0].id} + SensorIds(rows[1..]) by {
        assert forall s :: s in rows <==> s == rows[0] || s in rows[1..];
      }
      SensorById(rows[1..], id)
  }

  /** The ORM's `sensor.measurements`: every measurement that refers to the
      sensor with primary key `id`, in table order. */
  function MeasurementsOf(ms: seq<Measurement>, id: nat): (r: seq<Measurement>)
    ensures forall m :: m in r <==> m in ms && m.sensorId == id
    ensures |r| <= |ms|
  {
    if |ms| == 0 then []
    else
      assert forall m :: m in ms <==> m == ms[0] || m in ms[1..];
      (if ms[0].sensorId == id then [ms[0]] else []) + MeasurementsOf(ms[1..], id)
  }

  /** What the constraints of both tables guarantee about their contents. */
  predicate Consistent(t: Tables) {
    // both sequences start at 1
    && 1 <= t.nextSensorId && 1 <= t.nextMeasurementId
    // primary keys of sensors: positive, issued by the sequence, increasing
    && (forall i :: 0 <= i < |t.sensors| ==> 1 <= t.sensors[i].id < t.nextSensorId)
    && (forall i, j :: 0 <= i < j < |t.sensors| ==> t.sensors[i].id < t.sensors[j].id)
    // mac_address is unique; both strings fit their columns
    && (forall i, j :: 0 <= i < j < |t.sensors| ==> t.sensors[i].macAddress != t.sensors[j].macAddress)
    && (forall i :: 0 <= i < |t.sensors| ==> FitsColumns(t.sensors[i]))
    // primary keys of measurements
    && (forall k :: 0 <= k < |t.measurements| ==> 1 <= t.measurements[k].id < t.nextMeasurementId)
    && (forall k, l :: 0 <= k < l < |t.measurements| ==> t.measurements[k].id < t.measurements[l].id)
    // the foreign key sensor_id -> sensors.id
    && (forall k :: 0 <= k < |t.measurements| ==> t.measurements[k].sensorId in SensorIds(t.sensors))
  }

  /** A sensor row as PostgreSQL keeps it: MAC and name cut to their
      columns' lengths. */
  function AsStored(s: Sensor): (r: Sensor)
    ensures FitsColumns(r)
    ensures FitsColumns(s) ==> r == s
    ensures r.id == s.id && r.latitude == s.latitude && r.longitude == s.longitude && r.batteryLevel == s.batteryLevel
  {
    s.(macAddress := Truncate(s.macAddress, MaxMacLength), name := Truncate(s.name, MaxNameLength))
  }

  /** `session.add(Sensor(...))` and `commit()`. The driver refuses a string
      holding NUL. PostgreSQL refuses a string longer than its column unless
      the excess is spaces, which it drops; it then draws the next id of the
      sequence and refuses a second row with a MAC already present. */
  function InsertSensor(t: Tables, mac: string, name: string, latitude: real, longitude: real, battery: real)
    : (r: Result<Tables, StorageError>)
    ensures r == Err(NulInString) <==> !FreeOfNul(mac) || !FreeOfNul(name)
    ensures r == Err(StringTooLong) <==>
              FreeOfNul(mac) && FreeOfNul(name) && !(FitsVarchar(mac, MaxMacLength) && FitsVarchar(name, MaxNameLength))
    ensures r == Err(UniqueViolation) <==>
              && FreeOfNul(mac) && FreeOfNul(name) && FitsVarchar(mac, MaxMacLength) && FitsVarchar(name, MaxNameLength)
              && FindByMac(t.sensors, Truncate(mac, MaxMacLength)).Some?
    ensures r.Err? ==> r.error != ForeignKeyViolation
    ensures r.Ok? ==>
              && r.value.sensors == t.sensors + [AsStored(Sensor(t.nextSensorId, mac, name, latitude, longitude, battery))]
              && r.value.nextSensorId == t.nextSensorId + 1
              && r.value.measurements == t.measurements
              && r.value.nextMeasurementId == t.nextMeasurementId
  {
    if !FreeOfNul(mac) || !FreeOfNul(name) then Err(NulInString)
    else if !FitsVarchar(mac, MaxMacLength) || !FitsVarchar(name, MaxNameLength) then Err(StringTooLong)
    else
      var s := AsStored(Sensor(t.nextSensorId, mac, name, latitude, longitude, battery));
      if FindByMac(t.sensors, s.macAddress).Some? then Err(UniqueViolation)
      else Ok(t.(sensors := t.sensors + [s], nextSensorId := t.nextSensorId + 1))
  }

  /** What a refused insert leaves behind. A row refused by a constraint
      checked after its id was drawn (the unique MAC, the foreign key) has
      used up that value of its table's sequence; a string refused by the
      driver or by its column is refused before any id is drawn. */
  function AfterRefusal(t: Tables, e: StorageError): (r: Tables)
    ensures r.sensors == t.sensors && r.measurements == t.measurements
    ensures r.nextSensorId == t.nextSensorId + (if e == UniqueViolation then 1 else 0)
    ensures r.nextMeasurementId == t.nextMeasurementId + (if e == ForeignKeyViolation then 1 else 0)
    ensures Consistent(t) ==> Consistent(r)
  {
    match e
    case UniqueViolation => t.(nextSensorId := t.nextSensorId + 1)
    case ForeignKeyViolation => t.(nextMeasurementId := t.nextMeasurementId + 1)
    case _ => t
  }

  /** Committing a sensor row changed in place. The handlers never change a
      row's `id`, `mac_address` or `name`, so no constraint can refuse it. */
  function UpdateSensor(t: Tables, i: nat, s: Sensor): (r: Tables)
    requires i < |t.sensors|
    ensures |r.sensors| == |t.sensors| && r.sensors[i] == s
    ensures forall j :: 0 <= j < |t.sensors| && j != i ==> r.sensors[j] == t.sensors[j]
    ensures r.measurements == t.measurements
    ensures r.nextSensorId == t.nextSensorId && r.nextMeasurementId == t.nextMeasurementId
  {
    t.(sensors := t.sensors[i := s])
  }

  /** `session.add(Measurement(...))` and `commit()`: appends one row with
      the next id; the foreign key refuses an unknown sensor. */
  function InsertMeasurement(t: Tables, sensorId: nat, pressure: real, createdAt: int)
    : (r: Result<Tables, StorageError>)
    ensures r.Err? <==> sensorId !in SensorIds(t.sensors)
    ensures r.Err? ==> r.error == ForeignKeyViolation
    ensures r.Ok? ==>
              && r.value.measurements == t.measurements + [Measurement(t.nextMeasurementId, sensorId, pressure, createdAt)]
              && r.value.nextMeasurementId == t.nextMeasurementId + 1
              && r.value.sensors == t.sensors
              && r.value.nextSensorId == t.nextSensorId
  {
    if sensorId !in SensorIds(t.sensors) then Err(ForeignKeyViolation)
    else
      var m := Measurement(t.nextMeasurementId, sensorId, pressure, createdAt);
      Ok(t.(measurements := t.measurements + [m], nextMeasurementId := t.nextMeasurementId + 1))
  }

  /** The MACs present in the `sensors` table. */
  function MacsOf(rows: seq<Sensor>): set<string> {
    set s | s in rows :: s.macAddress
  }

  /** A MAC lookup succeeds exactly for the MACs present in the table. */
  lemma FindByMacFindsPresent(rows: seq<Sensor>, mac: string)
    ensures FindByMac(rows, mac).Some? <==> mac in MacsOf(rows)
  {
    if mac in MacsOf(rows) {
      var s :| s in rows && s.macAddress == mac;
      var j :| 0 <= j < |rows| && rows[j] == s;
      assert rows[j].macAddress == mac;
    }
  }

  lemma MacsOfAppend(rows: seq<Sensor>, s: Sensor)
    ensures MacsOf(rows + [s]) == MacsOf(rows) + {s.macAddress}
  {
    assert forall x :: x in rows + [s] <==> x in rows || x == s;
  }

  lemma MacsOfUpdate(rows: seq<Sensor>, i: nat, s: Sensor)
    requires i < |rows| && s.macAddress == rows[i].macAddress
    ensures MacsOf(rows[i := s]) == MacsOf(rows)
  {
    var rows' := rows[i := s];
    forall mac | mac in MacsOf(rows) ensures mac in MacsOf(rows') {
      var x :| x in rows && x.macAddress == mac;
      var j :| 0 <= j < |rows| && rows[j] == x;
      assert rows'[j].macAddress == mac;
      assert rows'[j] in rows';
    }
    forall mac | mac in MacsOf(rows') ensures mac in MacsOf(rows) {
      var x :| x in rows' && x.macAddress == mac;
      var j :| 0 <= j < |rows'| && rows'[j] == x;
      assert rows[j].macAddress == mac;
      assert rows[j] in rows;
    }
  }

  lemma SensorIdsAppend(rows: seq<Sensor>, s: Sensor)
    ensures SensorIds(rows + [s]) == SensorIds(rows) + {s.id}
  {
    assert forall x :: x in rows + [s] <==> x in rows || x == s;
  }

  lemma SensorIdsUpdate(rows: seq<Sensor>, i: nat, s: Sensor)
    requires i < |rows| && s.id == rows[i].id
    ensures SensorIds(rows[i := s]) == SensorIds(rows)
  {
    var rows' := rows[i := s];
    forall id | id in SensorIds(rows) ensures id in SensorIds(rows') {
      var x :| x in rows && x.id == id;
      var j :| 0 <= j < |rows| && rows[j] == x;
      assert rows'[j].id == id;
      assert rows'[j] in rows';
    }
    forall id | id in SensorIds(rows') ensures id in SensorIds(rows) {
      var x :| x in rows' && x.id == id;
      var j :| 0 <= j < |rows'| && rows'[j] == x;
      assert rows[j].id == id;
      assert rows[j] in rows;
    }
  }

  /** A successful sensor insert keeps the tables consistent: the new id is
      above every existing one and the MAC is new. */
  lemma InsertSensorPreservesConsistency(t: Tables, mac: string, name: string, latitude: real, longitude: real, battery: real)
    requires Consistent(t)
    requires InsertSensor(t, mac, name, latitude, longitude, battery).Ok?
    ensures Consistent(InsertSensor(t, mac, name, latitude, longitude, battery).value)
  {
    var s := AsStored(Sensor(t.nextSensorId, mac, name, latitude, longitude, battery));
    var t' := InsertSensor(t, mac, name, latitude, longitude, battery).value;
    assert t'.sensors == t.sensors + [s];
    SensorIdsAppend(t.sensors, s);
    forall i | 0 <= i < |t'.sensors|
      ensures 1 <= t'.sensors[i].id < t'.nextSensorId && FitsColumns(t'.sensors[i])
    {
      if i < |t.sensors| {
        assert t'.sensors[i] == t.sensors[i];
      }
    }
    forall i, j | 0 <= i < j < |t'.sensors|
      ensures t'.sensors[i].id < t'.sensors[j].id
      ensures t'.sensors[i].macAddress != t'.sensors[j].macAddress
    {
      if j == |t.sensors| {
        assert t'.sensors[i] == t.sensors[i];
      }
    }
    forall k | 0 <= k < |t'.measurements|
      ensures t'.measurements[k].sensorId in SensorIds(t'.sensors)
    {
      assert t'.measurements[k] == t.measurements[k];
    }
  }

  /** Changing a row's non-key columns keeps the tables consistent. */
  lemma UpdateSensorPreservesConsistency(t: Tables, i: nat, s: Sensor)
    requires Consistent(t) && i < |t.sensors|
    requires s.id == t.sensors[i].id && s.macAddress == t.sensors[i].macAddress && s.name == t.sensors[i].name
    ensures Consistent(UpdateSensor(t, i, s))
  {
    SensorIdsUpdate(t.sensors, i, s);
  }

  /** A successful measurement insert keeps the tables consistent. */
  lemma InsertMeasurementPreservesConsistency(t: Tables, sensorId: nat, pressure: real, createdAt: int)
    requires Consistent(t)
    requires InsertMeasurement(t, sensorId, pressure, createdAt).Ok?
    ensures Consistent(InsertMeasurement(t, sensorId, pressure, createdAt).value)
  {
    var m := Measurement(t.nextMeasurementId, sensorId, pressure, createdAt);
    var t' := InsertMeasurement(t, sensorId, pressure, createdAt).value;
    assert t'.measurements == t.measurements + [m];
    forall k | 0 <= k < |t'.measurements|
      ensures 1 <= t'.measurements[k].id < t'.nextMeasurementId
      ensures t'.measurements[k].sensorId in SensorIds(t'.sensors)
    {
      if k < |t.measurements| {
        assert t'.measurements[k] == t.measurements[k];
      }
    }
  }

  /** `sensor.measurements` after one more measurement row: it grows by that
      row exactly when the row refers to the sensor. */
  lemma {:induction false} MeasurementsOfAppend(ms: seq<Measurement>, m: Measurement, id: nat)
    ensures MeasurementsOf(ms + [m], id) == MeasurementsOf(ms, id) + (if m.sensorId == id then [m] else [])
  {
    if |ms| == 0 {
      assert ms + [m] == [m];
    } else {
      assert (ms + [m])[1..] == ms[1..] + [m];
      MeasurementsOfAppend(ms[1..], m, id);
    }
  }

  /** The in-memory database: both tables as fields that commits reassign. */
  class Database {
    var sensors: seq<Sensor>
    var measurements: seq<Measurement>
    var nextSensorId: nat
    var nextMeasurementId: nat

    function Contents(): Tables
      reads this
    {
      Tables(sensors, measurements, nextSensorId, nextMeasurementId)
    }

    predicate Valid()
      reads this
    {
      Consistent(Contents())
    }

    /** `create_db_and_tables()`: both tables empty. */
    constructor ()
      ensures Valid() && Contents() == EmptyTables()
    {
      sensors, measurements := [], [];
      nextSensorId, nextMeasurementId := 1, 1;
    }

    /** Add and commit a new sensor row; a refused commit adds no row, and
        a unique violation has used up an id. */
    method AddSensor(mac: string, name: string, latitude: real, longitude: real, battery: real)
      returns (r: Result<Sensor, StorageError>)
      requires Valid()
      modifies this
      ensures Valid()
      ensures match InsertSensor(old(Contents()), mac, name, latitude, longitude, battery)
        case Ok(t) => Contents() == t && r == Ok(t.sensors[|t.sensors| - 1])
        case Err(e) => Contents() == AfterRefusal(old(Contents()), e) && r == Err(e)
    {
      if !FreeOfNul(mac) || !FreeOfNul(name) {
        return Err(NulInString);
      }
      if !FitsVarchar(mac, MaxMacLength) || !FitsVarchar(name, MaxNameLength) {
        return Err(StringTooLong);
      }
      var s := AsStored(Sensor(nextSensorId, mac, name, latitude, longitude, battery));
      nextSensorId := nextSensorId + 1;
      if FindByMac(sensors, s.macAddress).Some? {
        return Err(UniqueViolation);
      }
      InsertSensorPreservesConsistency(old(Contents()), mac, name, latitude, longitude, battery);
      sensors := sensors + [s];
      r := Ok(s);
    }

    /** Commit a sensor row whose non-key columns were assigned in place. */
    method SaveSensor(i: nat, s: Sensor)
      requires Valid() && i < |sensors|
      requires s.id == sensors[i].id && s.macAddress == sensors[i].macAddress && s.name == sensors[i].name
      modifies this
      ensures Valid()
      ensures Contents() == UpdateSensor(old(Contents()), i, s)
    {
      UpdateSensorPreservesConsistency(Contents(), i, s);
      sensors := sensors[i := s];
    }

    /** Add and commit a measurement row; a refused commit adds no row and
        has used up an id. */
    method AddMeasurement(sensorId: nat, pressure: real, createdAt: int)
      returns (r: Result<Measurement, StorageError>)
      requires Valid()
      modifies this
      ensures Valid()
      ensures match InsertMeasurement(old(Contents()), sensorId, pressure, createdAt)
        case Ok(t) => Contents() == t && r == Ok(t.measurements[|t.measurements| - 1])
        case Err(e) => Contents() == AfterRefusal(old(Contents()), e) && r == Err(e)
    {
      if sensorId !in SensorIds(sensors) {
        nextMeasurementId := nextMeasurementId + 1;
        return Err(ForeignKeyViolation);
      }
      InsertMeasurementPreservesConsistency(Contents(), sensorId, pressure, createdAt);
      var m := Measurement(nextMeasurementId, sensorId, pressure, createdAt);
      measurements := measurements + [m];
      nextMeasurementId := nextMeasurementId + 1;
      r := Ok(m);
    }
  }
}
