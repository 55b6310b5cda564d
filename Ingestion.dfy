/** The MQTT ingestion path: `MQTTHandler._on_message` routes a decoded
    message by topic; `_handle_sensor_status` upserts a sensor by MAC;
    `_handle_measurement_data` resolves or creates the sensor, stores one
    measurement and hands a live event to the broadcast callback.

    Each handler is given twice: as a function of the tables before the
    message (the specification the lemmas below are about), and as a method
    of the class `MqttHandler` that changes the database in place and is
    proved to agree with that function. */
module Ingestion {
  import opened Wrappers
  import opened Models
  import opened Messages
  import opened Database

  /** `value if value is not None else default`. */
  function Supplied(v: Option<real>, default: real): real {
    if v.Some? then v.value else default
  }

  /** The in-place assignments of a status update to a known sensor: each of
      battery, latitude and longitude is overwritten exactly when the payload
      carries it (a supplied 0.0 overwrites too); nothing else changes. */
  function MergeStatus(s: Sensor, f: Fields): (r: Sensor)
    ensures r.id == s.id && r.macAddress == s.macAddress && r.name == s.name
    ensures r.batteryLevel == (if f.battery.Some? then f.battery.value else s.batteryLevel)
    ensures r.latitude == (if f.latitude.Some? then f.latitude.value else s.latitude)
    ensures r.longitude == (if f.longitude.Some? then f.longitude.value else s.longitude)
  {
    s.(batteryLevel := Supplied(f.battery, s.batteryLevel),
       latitude := Supplied(f.latitude, s.latitude),
       longitude := Supplied(f.longitude, s.longitude))
  }

  /** The row a status message for an unseen MAC creates, before the store
      assigns its id: supplied values, else the documented defaults. */
  function NewSensorFromStatus(id: nat, mac: string, f: Fields): Sensor {
    Sensor(id, mac, DefaultName(mac),
           Supplied(f.latitude, DefaultLatitude),
           Supplied(f.longitude, DefaultLongitude),
           Supplied(f.battery, DefaultBattery))
  }

  /** `_handle_sensor_status` as a function of the tables. A refused query
      or commit is logged; the tables stay as they were, except for an id
      a refused row has used up. Measurements are never touched, and at
      most one sensor row is added. */
  function StatusEffect(t: Tables, f: Fields): (r: Tables)
    ensures r.measurements == t.measurements && r.nextMeasurementId == t.nextMeasurementId
    ensures RequiredMac(f).None? ==> r == t
    ensures |t.sensors| <= |r.sensors| <= |t.sensors| + 1
    ensures t.nextSensorId <= r.nextSensorId <= t.nextSensorId + 1
  {
    match RequiredMac(f)
    case None => t
    case Some(mac) =>
      match SelectByMac(t.sensors, mac)
      case Err(_) => t
      case Ok(Some(i)) => UpdateSensor(t, i, MergeStatus(t.sensors[i], f))
      case Ok(None) =>
        var s := NewSensorFromStatus(t.nextSensorId, mac, f);
        match InsertSensor(t, mac, s.name, s.latitude, s.longitude, s.batteryLevel)
        case Ok(t') => t'
        case Err(e) => AfterRefusal(t, e)
  }

  /** The sensor-resolution step of `_handle_measurement_data`: the row with
      the MAC, or a new row with the fixed defaults committed first (and
      read back by `session.refresh`, so with the MAC as stored). It fails
      when the driver refuses the MAC, when the column refuses it, and when
      the MAC as stored collides with a row the lookup missed. */
  function ResolveOrCreate(t: Tables, mac: string): (r: Result<(Tables, Sensor), StorageError>)
    ensures r.Ok? ==> r.value.1 in r.value.0.sensors
    ensures r.Ok? && FindByMac(t.sensors, mac).Some? ==>
              r.value == (t, t.sensors[FindByMac(t.sensors, mac).value])
    ensures r.Ok? && FindByMac(t.sensors, mac).None? ==>
              && r.value.1 == AsStored(Sensor(t.nextSensorId, mac, DefaultName(mac), DefaultLatitude, DefaultLongitude, DefaultBattery))
              && r.value.1.macAddress == Truncate(mac, MaxMacLength)
              && InsertSensor(t, mac, DefaultName(mac), DefaultLatitude, DefaultLongitude, DefaultBattery) == Ok(r.value.0)
    ensures r.Err? <==>
              || !FreeOfNul(mac)
              || (FindByMac(t.sensors, mac).None? &&
                  (!FitsVarchar(mac, MaxMacLength) || FindByMac(t.sensors, Truncate(mac, MaxMacLength)).Some?))
    ensures r.Err? ==> r.error != ForeignKeyViolation
  {
    DefaultNameAccepted(mac);
    match SelectByMac(t.sensors, mac)
    case Err(e) => Err(e)
    case Ok(Some(i)) => Ok((t, t.sensors[i]))
    case Ok(None) =>
      match InsertSensor(t, mac, DefaultName(mac), DefaultLatitude, DefaultLongitude, DefaultBattery)
      case Ok(t') => Ok((t', t'.sensors[|t'.sensors| - 1]))
      case Err(e) => Err(e)
  }

  /** What a measurement message leaves behind: the tables after a refusal
      (unchanged but for an id a refused row used up), or the tables after
      both commits together with the resolved sensor and the new row. */
  datatype Ingested = Rejected(tables: Tables) | Stored(tables: Tables, sensor: Sensor, measurement: Measurement)

  /** `_handle_measurement_data` as a function of the tables and the clock
      reading `now` (`datetime.now(timezone.utc)`); the payload's own
      `timestamp` is read and never used. A stored message appends exactly
      one measurement, of the resolved sensor, with the payload's pressure
      and stamped `now`; a rejected one adds no row to either table. */
  function MeasurementEffect(t: Tables, f: Fields, now: int): (r: Ingested)
    ensures r.Stored? ==>
              && r.tables.measurements == t.measurements + [r.measurement]
              && r.measurement.sensorId == r.sensor.id && r.sensor in r.tables.sensors
              && f.pressure == Some(r.measurement.pressure) && r.measurement.createdAt == now
    ensures r.Rejected? ==> r.tables.sensors == t.sensors && r.tables.measurements == t.measurements
    ensures RequiredMac(f).None? || f.pressure.None? ==> r == Rejected(t)
  {
    match RequiredMac(f)
    case None => Rejected(t)
    case Some(mac) =>
      if f.pressure.None? then Rejected(t)
      else match ResolveOrCreate(t, mac)
        case Err(e) => Rejected(AfterRefusal(t, e))
        case Ok((t1, s)) =>
          var t2 := InsertMeasurement(t1, s.id, f.pressure.value, now).value;
          Stored(t2, s, t2.measurements[|t2.measurements| - 1])
  }

  /** Once the sensor is resolved, the measurement's commit cannot be
      refused (the sensor's row exists) and decides the outcome. */
  lemma MeasurementAfterResolution(t: Tables, f: Fields, now: int, t1: Tables, s: Sensor)
    requires RequiredMac(f).Some? && f.pressure.Some?
    requires ResolveOrCreate(t, f.mac.value) == Ok((t1, s))
    ensures InsertMeasurement(t1, s.id, f.pressure.value, now).Ok?
    ensures var t2 := InsertMeasurement(t1, s.id, f.pressure.value, now).value;
            MeasurementEffect(t, f, now) == Stored(t2, s, t2.measurements[|t2.measurements| - 1])
  {
  }

  /** The dictionary handed to the broadcast callback after the commit. */
  function LiveEvent(s: Sensor, m: Measurement): (e: Event)
    ensures e.kind == "measurement"
    ensures e.sensorId == s.id && e.macAddress == Some(s.macAddress) && e.sensorName == s.name
    ensures e.pressure == m.pressure && e.timestamp == m.createdAt
  {
    Event(MeasurementKind, s.id, Some(s.macAddress), s.name, m.pressure, m.createdAt)
  }

  /** The observable state of the ingestion path: the tables, and the events
      handed to the broadcast callback so far, in order. */
  datatype Pipeline = Pipeline(tables: Tables, outbox: seq<Event>)

  /** `_on_message`: decode, then route by topic. Status messages never emit
      an event; a stored measurement emits one when a callback is set. The
      event is handed over to the event loop by a thread-safe hand-off that
      appends it to `outbox` (the corrected hand-off of the findings; see
      `OnMessageAsWritten` for the code's own). Events already handed over
      stay, and each message adds at most one. */
  function OnMessageEffect(p: Pipeline, msg: Message, now: int, callbackSet: bool): (r: Pipeline)
    ensures p.outbox <= r.outbox && |r.outbox| <= |p.outbox| + 1
    ensures !callbackSet || msg.topic != MeasurementTopic ==> r.outbox == p.outbox
    ensures msg.payload.Undecodable? ==> r == p
  {
    if msg.payload.Undecodable? then p
    else if msg.topic == StatusTopic then p.(tables := StatusEffect(p.tables, msg.payload.fields))
    else if msg.topic == MeasurementTopic then
      match MeasurementEffect(p.tables, msg.payload.fields, now)
      case Rejected(t) => p.(tables := t)
      case Stored(t, s, m) => Pipeline(t, if callbackSet then p.outbox + [LiveEvent(s, m)] else p.outbox)
    else p
  }

  /** A message delivered by the network loop, with the clock reading taken
      while it is handled. */
  datatype Arrival = Arrival(message: Message, now: int)

  /** The network loop calling `_on_message` once per arrival, in order. */
  function Run(p: Pipeline, arrivals: seq<Arrival>, callbackSet: bool): Pipeline
    decreases |arrivals|
  {
    if |arrivals| == 0 then p
    else
      var last := arrivals[|arrivals| - 1];
      OnMessageEffect(Run(p, arrivals[..|arrivals| - 1], callbackSet), last.message, last.now, callbackSet)
  }

  // ---------------------------------------------------------------------
  // The hand-off to the event loop, as written
  // ---------------------------------------------------------------------

  datatype HandoffError = NoRunningEventLoop

  /** `asyncio.create_task(coro)`: schedules onto the event loop running in
      the calling thread, and raises `RuntimeError` when there is none. */
  function CreateTask(loopRunningInThread: bool, scheduled: seq<Event>, e: Event)
    : (r: Result<seq<Event>, HandoffError>)
    ensures r.Ok? <==> loopRunningInThread
    ensures r.Ok? ==> r.value == scheduled + [e]
  {
    if loopRunningInThread then Ok(scheduled + [e]) else Err(NoRunningEventLoop)
  }

  /** `_on_message` as written, where it runs: on the MQTT client's network
      thread, which runs no event loop. `create_task` raises after both
      commits and the handler's `except` logs it, so the tables change as in
      `OnMessageEffect` while no event is ever handed over. */
  function OnMessageAsWritten(p: Pipeline, msg: Message, now: int, callbackSet: bool): (r: Pipeline)
    ensures r.tables == OnMessageEffect(p, msg, now, callbackSet).tables
    ensures r.outbox == p.outbox
  {
    if msg.payload.Object? && msg.topic == MeasurementTopic then
      match MeasurementEffect(p.tables, msg.payload.fields, now)
      case Rejected(t) => p.(tables := t)
      case Stored(t, s, m) =>
        if !callbackSet then Pipeline(t, p.outbox)
        else match CreateTask(false, p.outbox, LiveEvent(s, m))
          case Ok(scheduled) => Pipeline(t, scheduled)
          case Err(_) => Pipeline(t, p.outbox)
    else OnMessageEffect(p, msg, now, callbackSet)
  }

  // ---------------------------------------------------------------------
  // The handler object: the same behaviour, performed in place.
  // ---------------------------------------------------------------------

  /** `MQTTHandler`: a database, an optional broadcast callback (whose calls
      are recorded in `outbox`) and the `is_running` flag. */
  class MqttHandler {
    const db: Database
    const hasCallback: bool
    var outbox: seq<Event>
    var isRunning: bool

    function State(): Pipeline
      reads this, db
    {
      Pipeline(db.Contents(), outbox)
    }

    constructor (db: Database, hasCallback: bool)
      ensures this.db == db && this.hasCallback == hasCallback
      ensures outbox == [] && !isRunning
    {
      this.db := db;
      this.hasCallback := hasCallback;
      outbox := [];
      isRunning := false;
    }

    /** `_on_message`. */
    method OnMessage(msg: Message, now: int)
      requires db.Valid()
      modifies this, db
      ensures db.Valid() && isRunning == old(isRunning)
      ensures State() == OnMessageEffect(old(State()), msg, now, hasCallback)
    {
      if msg.payload.Undecodable? {
        return;  // JSONDecodeError, logged
      }
      var data := msg.payload.fields;
      if msg.topic == StatusTopic {
        HandleSensorStatus(data);
      } else if msg.topic == MeasurementTopic {
        HandleMeasurementData(data, now);
      }
      // any other topic is logged and dropped
    }

    /** `_handle_sensor_status`: fetch the row by MAC and assign the supplied
        fields in place, or add a new row. */
    method HandleSensorStatus(data: Fields)
      requires db.Valid()
      modifies db
      ensures db.Valid()
      ensures db.Contents() == StatusEffect(old(db.Contents()), data)
    {
      var mac := data.mac;
      if mac.None? || mac.value == "" {
        return;  // missing MAC, logged
      }
      var found := SelectByMac(db.sensors, mac.value);
      if found.Err? {
        return;  // the driver refuses the query, logged
      }
      if found.value.Some? {
        var i := found.value.value;
        var sensor := db.sensors[i];
        if data.battery.Some? {
          sensor := sensor.(batteryLevel := data.battery.value);
        }
        if data.latitude.Some? {
          sensor := sensor.(latitude := data.latitude.value);
        }
        if data.longitude.Some? {
          sensor := sensor.(longitude := data.longitude.value);
        }
        db.SaveSensor(i, sensor);
      } else {
        var battery := if data.battery.Some? then data.battery.value else DefaultBattery;
        var latitude := if data.latitude.Some? then data.latitude.value else DefaultLatitude;
        var longitude := if data.longitude.Some? then data.longitude.value else DefaultLongitude;
        var r := db.AddSensor(mac.value, DefaultName(mac.value), latitude, longitude, battery);
        // a refused commit is logged; the session rolls back
      }
    }

    /** The find-or-create step of `_handle_measurement_data`: look the MAC
        up, and add and commit a row with the fixed defaults when it is not
        there. */
    method ResolveSensor(mac: string) returns (r: Result<Sensor, StorageError>)
      requires db.Valid()
      modifies db
      ensures db.Valid()
      ensures r.Ok? <==> ResolveOrCreate(old(db.Contents()), mac).Ok?
      ensures r.Ok? ==> ResolveOrCreate(old(db.Contents()), mac).value == (db.Contents(), r.value)
      ensures r.Err? ==> db.Contents() == AfterRefusal(old(db.Contents()), ResolveOrCreate(old(db.Contents()), mac).error)
    {
      var found := SelectByMac(db.sensors, mac);
      if found.Err? {
        return Err(found.error);  // the driver refuses the query
      }
      if found.value.Some? {
        return Ok(db.sensors[found.value.value]);
      }
      DefaultNameAccepted(mac);
      r := db.AddSensor(mac, DefaultName(mac), DefaultLatitude, DefaultLongitude, DefaultBattery);
    }

    /** The tail of `_handle_measurement_data` once the sensor is known:
        add and commit the measurement row, then hand its event to the
        callback. */
    method StoreMeasurement(sensor: Sensor, pressure: real, now: int)
      requires db.Valid() && InsertMeasurement(db.Contents(), sensor.id, pressure, now).Ok?
      modifies this, db
      ensures db.Valid() && isRunning == old(isRunning)
      ensures var t2 := InsertMeasurement(old(db.Contents()), sensor.id, pressure, now).value;
              && db.Contents() == t2
              && outbox == if hasCallback then old(outbox) + [LiveEvent(sensor, t2.measurements[|t2.measurements| - 1])] else old(outbox)
    {
      var stored := db.AddMeasurement(sensor.id, pressure, now);
      var measurement := stored.value;
      if hasCallback {
        outbox := outbox + [LiveEvent(sensor, measurement)];
      }
    }

    /** `_handle_measurement_data`: resolve or create the sensor, add one
        measurement stamped `now`, then hand the event to the callback. */
    method HandleMeasurementData(data: Fields, now: int)
      requires db.Valid()
      modifies this, db
      ensures db.Valid() && isRunning == old(isRunning)
      ensures var r := MeasurementEffect(old(db.Contents()), data, now);
              && db.Contents() == r.tables
              && outbox == if hasCallback && r.Stored? then old(outbox) + [LiveEvent(r.sensor, r.measurement)] else old(outbox)
    {
      var mac := data.mac;
      var pressure := data.pressure;
      if mac.None? || mac.value == "" || pressure.None? {
        return;  // missing MAC or pressure, logged
      }
      ghost var t0 := db.Contents();
      var resolved := ResolveSensor(mac.value);
      if resolved.Err? {
        return;  // refused query or commit, logged
      }
      MeasurementAfterResolution(t0, data, now, db.Contents(), resolved.value);
      StoreMeasurement(resolved.value, pressure.value, now);
    }

    /** `start`: a second start only warns; a failed broker connection raises
        and leaves the handler stopped. */
    method Start(connectSucceeds: bool) returns (raised: bool)
      modifies this
      ensures raised <==> !old(isRunning) && !connectSucceeds
      ensures isRunning <==> old(isRunning) || connectSucceeds
      ensures outbox == old(outbox)
    {
      if isRunning {
        return false;  // already running, logged
      }
      if !connectSucceeds {
        return true;
      }
      isRunning := true;
      raised := false;
    }

    /** `stop`: clears the flag; stopping a stopped handler does nothing. */
    method Stop()
      modifies this
      ensures !isRunning && outbox == old(outbox)
    {
      if !isRunning {
        return;
      }
      isRunning := false;
    }
  }
}
