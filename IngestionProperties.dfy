/** What the ingestion path promises, proved about the handler functions of
    module Ingestion: routing, rejection, the field-wise upsert, exactly one
    measurement per accepted message, the live event, and the consistency of
    the tables over any sequence of messages. */
module IngestionProperties {
  import opened Wrappers
  import opened Models
  import opened Messages
  import opened Database
  import opened Ingestion

  /** The row a MAC resolves to, or the row that would be created for it. */
  function RowOrDefault(t: Tables, mac: string): Sensor {
    match FindByMac(t.sensors, mac)
    case Some(i) => t.sensors[i]
    case None => Sensor(t.nextSensorId, mac, DefaultName(mac), DefaultLatitude, DefaultLongitude, DefaultBattery)
  }

  /** A consistent table holds no MAC longer than its column. */
  lemma LongMacAbsent(t: Tables, mac: string)
    requires Consistent(t) && |mac| > MaxMacLength
    ensures FindByMac(t.sensors, mac).None?
  {
  }

  // ---------------------------------------------------------------------
  // Routing
  // ---------------------------------------------------------------------

  /** `_on_message` sends `sensors/status` to the status handler and
      `measurement/data` to the measurement handler; an undecodable payload
      or any other topic changes neither the tables nor the outbox. */
  lemma Routing(p: Pipeline, msg: Message, now: int, callbackSet: bool)
    ensures msg.payload.Undecodable? ==> OnMessageEffect(p, msg, now, callbackSet) == p
    ensures msg.topic != StatusTopic && msg.topic != MeasurementTopic ==>
              OnMessageEffect(p, msg, now, callbackSet) == p
    ensures msg.payload.Object? && msg.topic == StatusTopic ==>
              OnMessageEffect(p, msg, now, callbackSet) == Pipeline(StatusEffect(p.tables, msg.payload.fields), p.outbox)
    ensures msg.payload.Object? && msg.topic == MeasurementTopic ==>
              OnMessageEffect(p, msg, now, callbackSet).tables == MeasurementEffect(p.tables, msg.payload.fields, now).tables
  {
  }

  // ---------------------------------------------------------------------
  // Status messages
  // ---------------------------------------------------------------------

  /** The outcomes of a status message for a consistent store: a MAC the
      driver or its column refuses changes nothing; a MAC found merges the
      supplied fields into its row and nothing else; a padded MAC whose
      stored form is already present (the lookup compares trailing spaces
      and misses that row) is refused by the unique constraint and only
      uses up an id; any other MAC appends one row with the supplied values
      or the defaults, MAC and name cut to their columns. */
  lemma StatusOutcome(t: Tables, f: Fields)
    requires Consistent(t)
    ensures RequiredMac(f).Some? && !AcceptedMac(f.mac.value) ==> StatusEffect(t, f) == t
    ensures RequiredMac(f).Some? && FreeOfNul(f.mac.value) && FindByMac(t.sensors, f.mac.value).Some? ==>
              var i := FindByMac(t.sensors, f.mac.value).value;
              StatusEffect(t, f) == UpdateSensor(t, i, MergeStatus(t.sensors[i], f))
    ensures RequiredMac(f).Some? && Padded(f.mac.value) && FindByMac(t.sensors, Truncate(f.mac.value, MaxMacLength)).Some? ==>
              StatusEffect(t, f) == t.(nextSensorId := t.nextSensorId + 1)
    ensures RequiredMac(f).Some? && AcceptedMac(f.mac.value) && FindByMac(t.sensors, Truncate(f.mac.value, MaxMacLength)).None? ==>
              var mac := f.mac.value;
              && StatusEffect(t, f).sensors == t.sensors + [AsStored(NewSensorFromStatus(t.nextSensorId, mac, f))]
              && StatusEffect(t, f).nextSensorId == t.nextSensorId + 1
  {
    if RequiredMac(f).Some? {
      var mac := f.mac.value;
      DefaultNameAccepted(mac);
      if |mac| > MaxMacLength {
        LongMacAbsent(t, mac);
      }
    }
  }

  /** A new sensor created by a status message: named after its MAC, with
      battery 1.0 and position (0.0, 0.0) wherever the payload is silent. */
  lemma NewSensorDefaults(id: nat, mac: string, f: Fields)
    ensures NewSensorFromStatus(id, mac, f).name == "Sensor " + mac
    ensures f.battery.None? ==> NewSensorFromStatus(id, mac, f).batteryLevel == 1.0
    ensures f.latitude.None? ==> NewSensorFromStatus(id, mac, f).latitude == 0.0
    ensures f.longitude.None? ==> NewSensorFromStatus(id, mac, f).longitude == 0.0
    ensures f.battery.Some? ==> NewSensorFromStatus(id, mac, f).batteryLevel == f.battery.value
    ensures f.latitude.Some? ==> NewSensorFromStatus(id, mac, f).latitude == f.latitude.value
    ensures f.longitude.Some? ==> NewSensorFromStatus(id, mac, f).longitude == f.longitude.value
  {
  }

  /** Applying the same status message twice leaves the rows as applying
      it once. For a padded MAC the second application is refused by the
      unique constraint and uses up one more id; otherwise nothing at all
      changes the second time. */
  lemma StatusIdempotent(t: Tables, f: Fields)
    requires Consistent(t)
    ensures var once := StatusEffect(t, f);
            var twice := StatusEffect(once, f);
            && twice.sensors == once.sensors
            && twice.measurements == once.measurements
            && twice.nextMeasurementId == once.nextMeasurementId
            && twice.nextSensorId == once.nextSensorId + (if RequiredMac(f).Some? && Padded(f.mac.value) then 1 else 0)
  {
    if RequiredMac(f).Some? && AcceptedMac(f.mac.value) {
      if |f.mac.value| > MaxMacLength {
        PaddedStatusTwice(t, f);
      } else {
        PlainStatusTwice(t, f);
      }
    } else if RequiredMac(f).Some? {
      StatusOutcome(t, f);
    }
  }

  /** The second application of a status message with a padded MAC finds
      the truncated MAC taken and only uses up an id. */
  lemma PaddedStatusTwice(t: Tables, f: Fields)
    requires Consistent(t) && RequiredMac(f).Some? && Padded(f.mac.value)
    ensures StatusEffect(StatusEffect(t, f), f) == StatusEffect(t, f).(nextSensorId := StatusEffect(t, f).nextSensorId + 1)
  {
    var once := StatusEffect(t, f);
    var mac := f.mac.value;
    var key := Truncate(mac, MaxMacLength);
    StatusOutcome(t, f);
    StatusPreservesConsistency(t, f);
    LongMacAbsent(once, mac);
    if FindByMac(t.sensors, key).None? {
      var i := |t.sensors|;
      assert once.sensors[i].macAddress == key;
    }
    assert FindByMac(once.sensors, key).Some?;
    StatusOutcome(once, f);
  }

  /** The second application of a status message whose MAC fits its column
      finds the row the first one left and merges the same fields again. */
  lemma PlainStatusTwice(t: Tables, f: Fields)
    requires Consistent(t) && RequiredMac(f).Some? && AcceptedMac(f.mac.value) && |f.mac.value| <= MaxMacLength
    ensures StatusEffect(StatusEffect(t, f), f) == StatusEffect(t, f)
  {
    var once := StatusEffect(t, f);
    var mac := f.mac.value;
    StatusOutcome(t, f);
    StatusPreservesConsistency(t, f);
    match FindByMac(t.sensors, mac)
    case Some(i) =>
      var s := MergeStatus(t.sensors[i], f);
      assert FindByMac(once.sensors, mac) == Some(i);
      StatusOutcome(once, f);
      assert MergeStatus(s, f) == s;
      assert once.sensors[i := s] == once.sensors;
    case None =>
      var i := |t.sensors|;
      var s := NewSensorFromStatus(t.nextSensorId, mac, f);
      DefaultNameFits(mac);
      assert once.sensors[i] == s;
      assert FindByMac(once.sensors, mac) == Some(i);
      StatusOutcome(once, f);
      assert MergeStatus(s, f) == s;
      assert once.sensors[i := s] == once.sensors;
  }

  /** The payload `timestamp` of a status message is ignored. */
  lemma StatusIgnoresTimestamp(t: Tables, f: Fields, ts: Option<string>)
    ensures StatusEffect(t, f.(timestamp := ts)) == StatusEffect(t, f)
  {
    assert RequiredMac(f.(timestamp := ts)) == RequiredMac(f);
  }

  lemma StatusPreservesConsistency(t: Tables, f: Fields)
    requires Consistent(t)
    ensures Consistent(StatusEffect(t, f))
  {
    if RequiredMac(f).Some? {
      var mac := f.mac.value;
      match SelectByMac(t.sensors, mac)
      case Err(_) =>
      case Ok(Some(i)) =>
        UpdateSensorPreservesConsistency(t, i, MergeStatus(t.sensors[i], f));
      case Ok(None) =>
        var s := NewSensorFromStatus(t.nextSensorId, mac, f);
        if InsertSensor(t, mac, s.name, s.latitude, s.longitude, s.batteryLevel).Ok? {
          InsertSensorPreservesConsistency(t, mac, s.name, s.latitude, s.longitude, s.batteryLevel);
        }
    }
  }

  // ---------------------------------------------------------------------
  // Measurement messages
  // ---------------------------------------------------------------------

  /** A measurement payload that the consistent store `t` accepts: a
      non-empty MAC that the driver and its column accept, a pressure that
      is not `None` (0.0 counts), and either the MAC is found or its stored
      form is not taken (a padded MAC whose stored form is present misses
      the lookup and is then refused by the unique constraint). */
  predicate AcceptedMeasurement(t: Tables, f: Fields) {
    && RequiredMac(f).Some? && f.pressure.Some? && AcceptedMac(f.mac.value)
    && (FindByMac(t.sensors, f.mac.value).Some? || FindByMac(t.sensors, Truncate(f.mac.value, MaxMacLength)).None?)
  }

  /** A measurement message is stored exactly when it is accepted; then the
      appended measurement has the next id, and existing sensors are left as
      they were: the MAC's row when known, else one new row with the fixed
      defaults, MAC and name cut to their columns. A rejected message adds
      no row; it uses up one sensor id exactly when the MAC was accepted but
      its stored form was taken. */
  lemma MeasurementOutcome(t: Tables, f: Fields, now: int)
    requires Consistent(t)
    ensures MeasurementEffect(t, f, now).Stored? <==> AcceptedMeasurement(t, f)
    ensures MeasurementEffect(t, f, now).Stored? ==>
              var r := MeasurementEffect(t, f, now);
              var mac := f.mac.value;
              && r.measurement == Measurement(t.nextMeasurementId, r.sensor.id, f.pressure.value, now)
              && r.tables.nextMeasurementId == t.nextMeasurementId + 1
              && r.sensor.macAddress == Truncate(mac, MaxMacLength)
              && (FindByMac(t.sensors, mac).Some? ==>
                    r.tables.sensors == t.sensors && r.sensor == t.sensors[FindByMac(t.sensors, mac).value]
                    && r.tables.nextSensorId == t.nextSensorId)
              && (FindByMac(t.sensors, mac).None? ==>
                    r.tables.sensors == t.sensors + [r.sensor] && r.tables.nextSensorId == t.nextSensorId + 1
                    && r.sensor == AsStored(Sensor(t.nextSensorId, mac, "Sensor " + mac, 0.0, 0.0, 1.0)))
    ensures MeasurementEffect(t, f, now).Rejected? ==>
              MeasurementEffect(t, f, now).tables ==
                if RequiredMac(f).Some? && f.pressure.Some? && AcceptedMac(f.mac.value)
                then t.(nextSensorId := t.nextSensorId + 1)
                else t
  {
    if RequiredMac(f).Some? {
      var mac := f.mac.value;
      DefaultNameAccepted(mac);
      if |mac| > MaxMacLength {
        LongMacAbsent(t, mac);
      }
    }
  }

  /** The payload `timestamp` of a measurement is ignored: `created_at` is
      always the ingestion time. */
  lemma MeasurementIgnoresTimestamp(t: Tables, f: Fields, now: int, ts: Option<string>)
    ensures MeasurementEffect(t, f.(timestamp := ts), now) == MeasurementEffect(t, f, now)
  {
    assert RequiredMac(f.(timestamp := ts)) == RequiredMac(f);
  }

  lemma MeasurementPreservesConsistency(t: Tables, f: Fields, now: int)
    requires Consistent(t)
    ensures Consistent(MeasurementEffect(t, f, now).tables)
  {
    if MeasurementEffect(t, f, now).Stored? {
      var mac := f.mac.value;
      var t1 := t;
      if FindByMac(t.sensors, mac).None? {
        InsertSensorPreservesConsistency(t, mac, DefaultName(mac), DefaultLatitude, DefaultLongitude, DefaultBattery);
        t1 := InsertSensor(t, mac, DefaultName(mac), DefaultLatitude, DefaultLongitude, DefaultBattery).value;
      }
      var s := ResolveOrCreate(t, mac).value.1;
      InsertMeasurementPreservesConsistency(t1, s.id, f.pressure.value, now);
    }
  }

  /** `sensor.measurements` after a stored measurement: the owning sensor's
      list grows by the new row, every other sensor's list is unchanged. */
  lemma MeasurementJoinsItsSensor(t: Tables, f: Fields, now: int, id: nat)
    requires Consistent(t) && MeasurementEffect(t, f, now).Stored?
    ensures var r := MeasurementEffect(t, f, now);
            MeasurementsOf(r.tables.measurements, id) ==
              MeasurementsOf(t.measurements, id) + (if id == r.sensor.id then [r.measurement] else [])
  {
    var r := MeasurementEffect(t, f, now);
    MeasurementsOfAppend(t.measurements, r.measurement, id);
  }

  // ---------------------------------------------------------------------
  // The live event
  // ---------------------------------------------------------------------

  /** The outbox grows by one event exactly when a callback is set and the
      message is a stored measurement; that event is tagged "measurement",
      names the sensor as stored under the MAC (cut to its column), and
      carries the payload's pressure and the measurement's `created_at`.
      Status messages, rejected messages and unknown topics never emit. */
  lemma LiveEventEmitted(p: Pipeline, msg: Message, now: int, callbackSet: bool)
    requires Consistent(p.tables)
    ensures var r := OnMessageEffect(p, msg, now, callbackSet);
            var emits := callbackSet && msg.payload.Object? && msg.topic == MeasurementTopic
                         && AcceptedMeasurement(p.tables, msg.payload.fields);
            && (!emits ==> r.outbox == p.outbox)
            && (emits ==>
                  var f := msg.payload.fields;
                  var key := Truncate(f.mac.value, MaxMacLength);
                  && |r.outbox| == |p.outbox| + 1
                  && FindByMac(r.tables.sensors, key).Some?
                  && var s := r.tables.sensors[FindByMac(r.tables.sensors, key).value];
                     var e := r.outbox[|p.outbox|];
                     && e.kind == "measurement"
                     && e.sensorId == s.id && e.macAddress == Some(key) && e.sensorName == s.name
                     && e.pressure == f.pressure.value
                     && e.timestamp == now
                     && e.timestamp == r.tables.measurements[|r.tables.measurements| - 1].createdAt)
  {
    var r := OnMessageEffect(p, msg, now, callbackSet);
    if msg.payload.Object? && msg.topic == MeasurementTopic {
      var f := msg.payload.fields;
      MeasurementOutcome(p.tables, f, now);
      if AcceptedMeasurement(p.tables, f) {
        var st := MeasurementEffect(p.tables, f, now);
        StoredSensorFound(p.tables, f, now);
        assert r.tables == st.tables;
        if callbackSet {
          assert r.outbox == p.outbox + [LiveEvent(st.sensor, st.measurement)];
        }
      }
    }
  }

  /** After a stored measurement, looking up its MAC as stored finds the
      very sensor the measurement was attached to. */
  lemma StoredSensorFound(t: Tables, f: Fields, now: int)
    requires Consistent(t) && MeasurementEffect(t, f, now).Stored?
    ensures var r := MeasurementEffect(t, f, now);
            var key := Truncate(f.mac.value, MaxMacLength);
            && FindByMac(r.tables.sensors, key).Some?
            && r.tables.sensors[FindByMac(r.tables.sensors, key).value] == r.sensor
  {
    var r := MeasurementEffect(t, f, now);
    var key := Truncate(f.mac.value, MaxMacLength);
    MeasurementOutcome(t, f, now);
    MeasurementPreservesConsistency(t, f, now);
    var j :| 0 <= j < |r.tables.sensors| && r.tables.sensors[j] == r.sensor;
  }

  // ---------------------------------------------------------------------
  // MACs the driver refuses or the column cuts
  // ---------------------------------------------------------------------

  /** A MAC holding NUL makes the driver refuse the lookup: the message,
      whatever its topic, changes neither the tables nor the outbox. */
  lemma NulMacIgnored(p: Pipeline, msg: Message, now: int, callbackSet: bool)
    requires msg.payload.Object? && RequiredMac(msg.payload.fields).Some?
    requires !FreeOfNul(msg.payload.fields.mac.value)
    ensures OnMessageEffect(p, msg, now, callbackSet) == p
  {
    var f := msg.payload.fields;
    if msg.topic == MeasurementTopic && f.pressure.Some? {
      assert ResolveOrCreate(p.tables, f.mac.value) == Err(NulInString);
    }
  }

  /** The padded MAC of the two examples below. */
  lemma PaddedExample()
    ensures Padded("AA:BB:CC:00:11:22 ")
    ensures Truncate("AA:BB:CC:00:11:22 ", MaxMacLength) == "AA:BB:CC:00:11:22"
    ensures RequiredMac(Fields(Some("AA:BB:CC:00:11:22 "), None, None, None, None, None)) == Some("AA:BB:CC:00:11:22 ")
  {
    var mac := "AA:BB:CC:00:11:22 ";
    assert forall i :: 0 <= i < |mac| ==> mac[i] != '\0';
    assert mac[..17] == "AA:BB:CC:00:11:22";
  }

  /** With no sensors yet, a status message with a MAC that the column
      accepts creates the first row, cut to its columns. */
  lemma FreshStatusStored(f: Fields)
    requires RequiredMac(f).Some? && AcceptedMac(f.mac.value)
    ensures StatusEffect(EmptyTables(), f).sensors == [AsStored(NewSensorFromStatus(1, f.mac.value, f))]
  {
    DefaultNameAccepted(f.mac.value);
  }

  /** A status message whose MAC ends in a space past the 17th character:
      the MAC is stored without it, the name, which fits its column, with it. */
  lemma PaddedStatusStored()
    ensures var f := Fields(Some("AA:BB:CC:00:11:22 "), None, None, None, None, None);
            StatusEffect(EmptyTables(), f).sensors ==
              [Sensor(1, "AA:BB:CC:00:11:22", "Sensor AA:BB:CC:00:11:22 ", 0.0, 0.0, 1.0)]
  {
    var mac := "AA:BB:CC:00:11:22 ";
    var f := Fields(Some(mac), None, None, None, None, None);
    PaddedExample();
    FreshStatusStored(f);
    var s := NewSensorFromStatus(1, mac, f);
    assert s.name == "Sensor AA:BB:CC:00:11:22 ";
    assert AsStored(s) == Sensor(1, "AA:BB:CC:00:11:22", "Sensor AA:BB:CC:00:11:22 ", 0.0, 0.0, 1.0);
  }

  /** Measurements under a padded MAC: the first one creates the sensor (MAC
      cut to its column) and is stored; the next one misses that row in the
      lookup, is refused by the unique constraint on creating it again, and
      is lost, using up a sensor id. */
  lemma PaddedMeasurementsLost()
    ensures var f := Fields(Some("AA:BB:CC:00:11:22 "), None, None, None, Some(1013.25), None);
            var first := MeasurementEffect(EmptyTables(), f, 0);
            && first.Stored?
            && first.sensor.macAddress == "AA:BB:CC:00:11:22"
            && var second := MeasurementEffect(first.tables, f, 1);
               && second.Rejected?
               && second.tables.measurements == first.tables.measurements
               && second.tables.sensors == first.tables.sensors
               && second.tables.nextSensorId == first.tables.nextSensorId + 1
  {
    var mac := "AA:BB:CC:00:11:22 ";
    var key := "AA:BB:CC:00:11:22";
    var f := Fields(Some(mac), None, None, None, Some(1013.25), None);
    PaddedExample();
    var t0 := EmptyTables();
    MeasurementOutcome(t0, f, 0);
    assert AcceptedMeasurement(t0, f);
    var first := MeasurementEffect(t0, f, 0);
    MeasurementPreservesConsistency(t0, f, 0);
    var t1 := first.tables;
    assert t1.sensors == [first.sensor];
    assert FindByMac(t1.sensors, key) == Some(0);
    LongMacAbsent(t1, mac);
    assert !AcceptedMeasurement(t1, f);
    MeasurementOutcome(t1, f, 1);
  }

  // ---------------------------------------------------------------------
  // Sequences of messages, processed one at a time
  // ---------------------------------------------------------------------

  /** A message that makes its MAC known to a consistent store, in the
      form the column keeps it. Whether a measurement message goes on to be
      stored depends on the store (see `AcceptedMeasurement`); its MAC is
      known afterwards either way. */
  predicate RegistersMac(msg: Message) {
    && msg.payload.Object?
    && RequiredMac(msg.payload.fields).Some?
    && AcceptedMac(msg.payload.fields.mac.value)
    && (msg.topic == StatusTopic || (msg.topic == MeasurementTopic && msg.payload.fields.pressure.Some?))
  }

  /** A message that stores a measurement in the consistent store `t`. */
  predicate StoresMeasurement(t: Tables, msg: Message) {
    msg.payload.Object? && msg.topic == MeasurementTopic && AcceptedMeasurement(t, msg.payload.fields)
  }

  /** The MACs, as stored, a sequence of arrivals makes known. */
  function RegisteredMacs(arrivals: seq<Arrival>): set<string>
    decreases |arrivals|
  {
    if |arrivals| == 0 then {}
    else
      var msg := arrivals[|arrivals| - 1].message;
      RegisteredMacs(arrivals[..|arrivals| - 1]) +
        (if RegistersMac(msg) then {Truncate(msg.payload.fields.mac.value, MaxMacLength)} else {})
  }

  /** How many arrivals store a measurement, each judged against the tables
      it arrives at; duplicates count each time. */
  function CountStored(p: Pipeline, arrivals: seq<Arrival>, callbackSet: bool): nat
    decreases |arrivals|
  {
    if |arrivals| == 0 then 0
    else
      var n := |arrivals| - 1;
      CountStored(p, arrivals[..n], callbackSet) +
        (if StoresMeasurement(Run(p, arrivals[..n], callbackSet).tables, arrivals[n].message) then 1 else 0)
  }

  /** Rows are never deleted, and a row's id, MAC and name never change. */
  predicate IdentityKept(before: seq<Sensor>, after: seq<Sensor>) {
    && |before| <= |after|
    && forall i :: 0 <= i < |before| ==>
         && after[i].id == before[i].id
         && after[i].macAddress == before[i].macAddress
         && after[i].name == before[i].name
  }

  lemma IdentityKeptTrans(a: seq<Sensor>, b: seq<Sensor>, c: seq<Sensor>)
    requires IdentityKept(a, b) && IdentityKept(b, c)
    ensures IdentityKept(a, c)
  {
  }

  lemma StatusAccounting(t: Tables, f: Fields)
    requires Consistent(t)
    ensures var t' := StatusEffect(t, f);
            && Consistent(t')
            && MacsOf(t'.sensors) == MacsOf(t.sensors) +
                 (if RequiredMac(f).Some? && AcceptedMac(f.mac.value) then {Truncate(f.mac.value, MaxMacLength)} else {})
            && IdentityKept(t.sensors, t'.sensors)
  {
    StatusOutcome(t, f);
    StatusPreservesConsistency(t, f);
    if RequiredMac(f).Some? && AcceptedMac(f.mac.value) {
      var mac := f.mac.value;
      var key := Truncate(mac, MaxMacLength);
      FindByMacFindsPresent(t.sensors, mac);
      FindByMacFindsPresent(t.sensors, key);
      match FindByMac(t.sensors, mac)
      case Some(i) =>
        MacsOfUpdate(t.sensors, i, MergeStatus(t.sensors[i], f));
      case None =>
        if FindByMac(t.sensors, key).None? {
          MacsOfAppend(t.sensors, AsStored(NewSensorFromStatus(t.nextSensorId, mac, f)));
        }
    }
  }

  lemma MeasurementAccounting(t: Tables, f: Fields, now: int)
    requires Consistent(t)
    ensures var t' := MeasurementEffect(t, f, now).tables;
            && Consistent(t')
            && MacsOf(t'.sensors) == MacsOf(t.sensors) +
                 (if RequiredMac(f).Some? && f.pressure.Some? && AcceptedMac(f.mac.value)
                  then {Truncate(f.mac.value, MaxMacLength)} else {})
            && |t'.measurements| == |t.measurements| + (if AcceptedMeasurement(t, f) then 1 else 0)
            && t.measurements <= t'.measurements
            && IdentityKept(t.sensors, t'.sensors)
  {
    MeasurementOutcome(t, f, now);
    MeasurementPreservesConsistency(t, f, now);
    if RequiredMac(f).Some? && f.pressure.Some? && AcceptedMac(f.mac.value) {
      var r := MeasurementEffect(t, f, now);
      var mac := f.mac.value;
      FindByMacFindsPresent(t.sensors, mac);
      FindByMacFindsPresent(t.sensors, Truncate(mac, MaxMacLength));
      if r.Stored? && FindByMac(t.sensors, mac).None? {
        MacsOfAppend(t.sensors, r.sensor);
      }
    }
  }

  /** One message: the bookkeeping the run lemmas add up. */
  lemma OnMessageAccounting(p: Pipeline, msg: Message, now: int, callbackSet: bool)
    requires Consistent(p.tables)
    ensures var r := OnMessageEffect(p, msg, now, callbackSet);
            && Consistent(r.tables)
            && MacsOf(r.tables.sensors) == MacsOf(p.tables.sensors) +
                 (if RegistersMac(msg) then {Truncate(msg.payload.fields.mac.value, MaxMacLength)} else {})
            && |r.tables.measurements| == |p.tables.measurements| + (if StoresMeasurement(p.tables, msg) then 1 else 0)
            && p.tables.measurements <= r.tables.measurements
            && |r.outbox| == |p.outbox| + (if callbackSet && StoresMeasurement(p.tables, msg) then 1 else 0)
            && IdentityKept(p.tables.sensors, r.tables.sensors)
  {
    var r := OnMessageEffect(p, msg, now, callbackSet);
    if msg.payload.Undecodable? || (msg.topic != StatusTopic && msg.topic != MeasurementTopic) {
      assert r == p;
    } else if msg.topic == StatusTopic {
      var f := msg.payload.fields;
      assert r == Pipeline(StatusEffect(p.tables, f), p.outbox);
      StatusAccounting(p.tables, f);
    } else {
      var f := msg.payload.fields;
      MeasurementAccounting(p.tables, f, now);
      MeasurementOutcome(p.tables, f, now);
      match MeasurementEffect(p.tables, f, now)
      case Rejected(t) =>
        assert r == p.(tables := t);
      case Stored(t, sensor, m) =>
        assert r.tables == t;
        assert r.outbox == if callbackSet then p.outbox + [LiveEvent(sensor, m)] else p.outbox;
    }
  }

  /** The bookkeeping of going from `before` to `after`: the tables stay
      consistent (in particular every MAC on at most one row, every
      measurement pointing at an existing sensor); the MACs `macs` become
      known and no other; `stored` measurements are appended and nothing
      stored is deleted; the outbox gains one event per stored measurement
      when a callback is set; no sensor row is deleted or renamed. */
  predicate Accounted(before: Pipeline, after: Pipeline, macs: set<string>, stored: nat, callbackSet: bool) {
    && Consistent(after.tables)
    && MacsOf(after.tables.sensors) == MacsOf(before.tables.sensors) + macs
    && |after.tables.measurements| == |before.tables.measurements| + stored
    && before.tables.measurements <= after.tables.measurements
    && |after.outbox| == |before.outbox| + (if callbackSet then stored else 0)
    && before.outbox <= after.outbox
    && IdentityKept(before.tables.sensors, after.tables.sensors)
  }

  lemma AccountedTrans(a: Pipeline, b: Pipeline, c: Pipeline, m1: set<string>, m2: set<string>, n1: nat, n2: nat, callbackSet: bool)
    requires Accounted(a, b, m1, n1, callbackSet) && Accounted(b, c, m2, n2, callbackSet)
    ensures Accounted(a, c, m1 + m2, n1 + n2, callbackSet)
  {
    IdentityKeptTrans(a.tables.sensors, b.tables.sensors, c.tables.sensors);
  }

  /** Processing any sequence of messages one at a time: the tables stay
      consistent; the sensors are exactly those there before plus one per
      MAC, as stored, first seen in a message whose MAC is accepted; each
      measurement message the store accepts when it arrives adds exactly
      one row, with no deduplication; nothing stored is deleted; and each
      stored measurement adds one event when a callback is set. */
  lemma {:induction false} RunAccounting(p: Pipeline, arrivals: seq<Arrival>, callbackSet: bool)
    requires Consistent(p.tables)
    ensures Accounted(p, Run(p, arrivals, callbackSet), RegisteredMacs(arrivals), CountStored(p, arrivals, callbackSet), callbackSet)
    decreases |arrivals|
  {
    if |arrivals| == 0 {
      assert Run(p, arrivals, callbackSet) == p;
    } else {
      var n := |arrivals| - 1;
      var q := Run(p, arrivals[..n], callbackSet);
      var a := arrivals[n];
      var r := OnMessageEffect(q, a.message, a.now, callbackSet);
      var macs := if RegistersMac(a.message) then {Truncate(a.message.payload.fields.mac.value, MaxMacLength)} else {};
      var stored := if StoresMeasurement(q.tables, a.message) then 1 else 0;
      RunAccounting(p, arrivals[..n], callbackSet);
      OnMessageAccounting(q, a.message, a.now, callbackSet);
      assert Accounted(q, r, macs, stored, callbackSet);
      AccountedTrans(p, q, r, RegisteredMacs(arrivals[..n]), macs, CountStored(p, arrivals[..n], callbackSet), stored, callbackSet);
      assert Run(p, arrivals, callbackSet) == r;
    }
  }

  lemma RunPreservesConsistency(p: Pipeline, arrivals: seq<Arrival>, callbackSet: bool)
    requires Consistent(p.tables)
    ensures Consistent(Run(p, arrivals, callbackSet).tables)
  {
    RunAccounting(p, arrivals, callbackSet);
  }

  /** From empty tables, the sensors are exactly the MACs, as stored, seen
      in messages whose MAC is accepted, one row each. */
  lemma RunFromEmpty(arrivals: seq<Arrival>, callbackSet: bool)
    ensures var p := Pipeline(EmptyTables(), []);
            var r := Run(p, arrivals, callbackSet);
            && MacsOf(r.tables.sensors) == RegisteredMacs(arrivals)
            && |r.tables.sensors| == |RegisteredMacs(arrivals)|
            && |r.tables.measurements| == CountStored(p, arrivals, callbackSet)
  {
    var p := Pipeline(EmptyTables(), []);
    RunAccounting(p, arrivals, callbackSet);
    var rows := Run(p, arrivals, callbackSet).tables.sensors;
    DistinctMacsCount(rows);
  }

  /** Rows with pairwise distinct MACs: one row per MAC. */
  lemma {:induction false} DistinctMacsCount(rows: seq<Sensor>)
    requires forall i, j :: 0 <= i < j < |rows| ==> rows[i].macAddress != rows[j].macAddress
    ensures |MacsOf(rows)| == |rows|
    decreases |rows|
  {
    if |rows| > 0 {
      var n := |rows| - 1;
      DistinctMacsCount(rows[..n]);
      assert rows == rows[..n] + [rows[n]];
      MacsOfAppend(rows[..n], rows[n]);
      FindByMacFindsPresent(rows[..n], rows[n].macAddress);
    }
  }

  // ---------------------------------------------------------------------
  // Convergence of status updates for one MAC
  // ---------------------------------------------------------------------

  /** The three sensor columns a status message may overwrite. */
  datatype Column = Battery | Latitude | Longitude

  function Get(f: Fields, c: Column): Option<real> {
    match c
    case Battery => f.battery
    case Latitude => f.latitude
    case Longitude => f.longitude
  }

  function ColumnOf(s: Sensor, c: Column): real {
    match c
    case Battery => s.batteryLevel
    case Latitude => s.latitude
    case Longitude => s.longitude
  }

  /** The most recently supplied value of a column over a sequence of
      payloads, or `prior` when none of them supplies it. */
  function LastSupplied(fs: seq<Fields>, c: Column, prior: real): real
    decreases |fs|
  {
    if |fs| == 0 then prior
    else Supplied(Get(fs[|fs| - 1], c), LastSupplied(fs[..|fs| - 1], c, prior))
  }

  /** Status messages carrying the payloads `fs`, in order. */
  function StatusArrivals(fs: seq<Fields>): (r: seq<Arrival>)
    ensures |r| == |fs|
    decreases |fs|
  {
    if |fs| == 0 then []
    else StatusArrivals(fs[..|fs| - 1]) + [Arrival(Message(StatusTopic, Object(fs[|fs| - 1])), 0)]
  }

  /** Where a run of status payloads `fs` for `mac` leaves the tables `t`:
      one row for the MAC, keeping the id and name it had (or was created
      with) and holding, per column, the value supplied last, else the
      value it had (or the default); every other row and every measurement
      as before. */
  predicate Converged(t: Tables, t': Tables, fs: seq<Fields>, mac: string) {
    var prior := RowOrDefault(t, mac);
    && FindByMac(t'.sensors, mac).Some?
    && (var s := t'.sensors[FindByMac(t'.sensors, mac).value];
        && s.id == prior.id && s.macAddress == mac && s.name == prior.name
        && (forall c :: ColumnOf(s, c) == LastSupplied(fs, c, ColumnOf(prior, c))))
    && |t'.sensors| == |t.sensors| + (if FindByMac(t.sensors, mac).Some? then 0 else 1)
    && t'.measurements == t.measurements
    && (forall j :: 0 <= j < |t.sensors| && t.sensors[j].macAddress != mac ==> t'.sensors[j] == t.sensors[j])
  }

  lemma MergeColumn(s: Sensor, f: Fields, c: Column)
    ensures ColumnOf(MergeStatus(s, f), c) == Supplied(Get(f, c), ColumnOf(s, c))
  {
  }

  lemma ConvergenceBase(t: Tables, f: Fields, mac: string)
    requires Consistent(t) && RequiredMac(f) == Some(mac) && PlainMac(mac)
    ensures Converged(t, StatusEffect(t, f), [f], mac)
  {
    var t' := StatusEffect(t, f);
    StatusOutcome(t, f);
    DefaultNameFits(mac);
    assert [f][..0] == [];
    match FindByMac(t.sensors, mac)
    case Some(i) =>
      assert FindByMac(t'.sensors, mac) == Some(i);
      forall c ensures ColumnOf(t'.sensors[i], c) == LastSupplied([f], c, ColumnOf(t.sensors[i], c)) {
        MergeColumn(t.sensors[i], f, c);
      }
    case None =>
      var i := |t.sensors|;
      assert t'.sensors[i] == NewSensorFromStatus(t.nextSensorId, mac, f);
      assert FindByMac(t'.sensors, mac) == Some(i);
  }

  lemma ConvergenceStep(t0: Tables, t: Tables, fs: seq<Fields>, f: Fields, mac: string)
    requires Consistent(t) && Converged(t0, t, fs, mac) && RequiredMac(f) == Some(mac) && PlainMac(mac)
    ensures Converged(t0, StatusEffect(t, f), fs + [f], mac)
  {
    var t' := StatusEffect(t, f);
    var i := FindByMac(t.sensors, mac).value;
    var prior := RowOrDefault(t0, mac);
    StatusOutcome(t, f);
    assert (fs + [f])[..|fs|] == fs;
    assert t' == UpdateSensor(t, i, MergeStatus(t.sensors[i], f));
    assert FindByMac(t'.sensors, mac) == Some(i);
    forall c ensures ColumnOf(t'.sensors[i], c) == LastSupplied(fs + [f], c, ColumnOf(prior, c)) {
      MergeColumn(t.sensors[i], f, c);
    }
  }

  /** The tables after status payloads `fs`, applied in order. */
  function StatusRun(t: Tables, fs: seq<Fields>): Tables
    decreases |fs|
  {
    if |fs| == 0 then t else StatusEffect(StatusRun(t, fs[..|fs| - 1]), fs[|fs| - 1])
  }

  /** Status messages only ever change the tables, and they do so one
      payload after the other. */
  lemma {:induction false} StatusArrivalsRun(p: Pipeline, fs: seq<Fields>, callbackSet: bool)
    ensures Run(p, StatusArrivals(fs), callbackSet) == Pipeline(StatusRun(p.tables, fs), p.outbox)
    decreases |fs|
  {
    if |fs| > 0 {
      var n := |fs| - 1;
      var msg := Message(StatusTopic, Object(fs[n]));
      var arr := StatusArrivals(fs);
      assert arr[..n] == StatusArrivals(fs[..n]);
      StatusArrivalsRun(p, fs[..n], callbackSet);
      Routing(Run(p, arr[..n], callbackSet), msg, 0, callbackSet);
    }
  }

  lemma {:induction false} StatusRunConsistent(t: Tables, fs: seq<Fields>)
    requires Consistent(t)
    ensures Consistent(StatusRun(t, fs))
    decreases |fs|
  {
    if |fs| > 0 {
      var n := |fs| - 1;
      StatusRunConsistent(t, fs[..n]);
      StatusPreservesConsistency(StatusRun(t, fs[..n]), fs[n]);
    }
  }

  lemma {:induction false} StatusRunConverges(t: Tables, fs: seq<Fields>, mac: string)
    requires Consistent(t) && |fs| > 0 && PlainMac(mac)
    requires forall k :: 0 <= k < |fs| ==> RequiredMac(fs[k]) == Some(mac)
    ensures Converged(t, StatusRun(t, fs), fs, mac)
    decreases |fs|
  {
    var n := |fs| - 1;
    var prefix := fs[..n];
    if n == 0 {
      assert fs == [fs[0]];
      ConvergenceBase(t, fs[0], mac);
    } else {
      var q := StatusRun(t, prefix);
      assert forall k :: 0 <= k < |prefix| ==> prefix[k] == fs[k];
      StatusRunConverges(t, prefix, mac);
      StatusRunConsistent(t, prefix);
      ConvergenceStep(t, q, prefix, fs[n], mac);
      assert prefix + [fs[n]] == fs;
    }
  }

  /** Any non-empty sequence of status messages for one MAC converges to a
      single row holding, per column, the most recently supplied value, and
      touches nothing else; no event is emitted. */
  lemma StatusConvergence(p: Pipeline, fs: seq<Fields>, mac: string, callbackSet: bool)
    requires Consistent(p.tables) && |fs| > 0 && PlainMac(mac)
    requires forall k :: 0 <= k < |fs| ==> RequiredMac(fs[k]) == Some(mac)
    ensures Converged(p.tables, Run(p, StatusArrivals(fs), callbackSet).tables, fs, mac)
    ensures Run(p, StatusArrivals(fs), callbackSet).outbox == p.outbox
  {
    StatusArrivalsRun(p, fs, callbackSet);
    StatusRunConverges(p.tables, fs, mac);
  }

  // ---------------------------------------------------------------------
  // A burst of measurements for one MAC
  // ---------------------------------------------------------------------

  /** A storable measurement message for `mac`. */
  predicate MeasurementFor(msg: Message, mac: string) {
    && msg.payload.Object? && msg.topic == MeasurementTopic
    && RequiredMac(msg.payload.fields) == Some(mac) && msg.payload.fields.pressure.Some?
  }

  /** The pressure a measurement message carries (0.0 when it carries none). */
  function PressureOf(msg: Message): real {
    if msg.payload.Object? && msg.payload.fields.pressure.Some? then msg.payload.fields.pressure.value else 0.0
  }

  /** Where a burst of measurement messages for `mac` leaves the tables `t`:
      the one sensor for the MAC (the existing row, or a single row created
      with the defaults by the first message) is otherwise untouched, and
      each message appended its own measurement, in order, pointing at that
      sensor and carrying its pressure and ingestion time. */
  predicate Burst(t: Tables, t': Tables, arrivals: seq<Arrival>, mac: string) {
    var s := RowOrDefault(t, mac);
    && FindByMac(t'.sensors, mac).Some?
    && t'.sensors[FindByMac(t'.sensors, mac).value] == s
    && t'.sensors == (if FindByMac(t.sensors, mac).Some? then t.sensors else t.sensors + [s])
    && |t'.measurements| == |t.measurements| + |arrivals|
    && t.measurements <= t'.measurements
    && forall k :: 0 <= k < |arrivals| ==>
         && t'.measurements[|t.measurements| + k].sensorId == s.id
         && t'.measurements[|t.measurements| + k].pressure == PressureOf(arrivals[k].message)
         && t'.measurements[|t.measurements| + k].createdAt == arrivals[k].now
  }

  lemma BurstBase(t: Tables, a: Arrival, mac: string)
    requires Consistent(t) && PlainMac(mac) && MeasurementFor(a.message, mac)
    ensures MeasurementEffect(t, a.message.payload.fields, a.now).Stored?
    ensures Burst(t, MeasurementEffect(t, a.message.payload.fields, a.now).tables, [a], mac)
  {
    var f := a.message.payload.fields;
    MeasurementOutcome(t, f, a.now);
    StoredSensorFound(t, f, a.now);
    DefaultNameFits(mac);
  }

  lemma BurstStep(t0: Tables, t: Tables, arrivals: seq<Arrival>, a: Arrival, mac: string)
    requires Consistent(t) && PlainMac(mac) && MeasurementFor(a.message, mac)
    requires Burst(t0, t, arrivals, mac)
    ensures MeasurementEffect(t, a.message.payload.fields, a.now).Stored?
    ensures Burst(t0, MeasurementEffect(t, a.message.payload.fields, a.now).tables, arrivals + [a], mac)
  {
    var f := a.message.payload.fields;
    MeasurementOutcome(t, f, a.now);
    var r := MeasurementEffect(t, f, a.now);
    var t' := r.tables;
    var arrivals' := arrivals + [a];
    var s := RowOrDefault(t0, mac);
    assert r.sensor == s by {
      assert FindByMac(t.sensors, mac).Some?;
    }
    assert t'.measurements == t.measurements + [r.measurement];
    forall k | 0 <= k < |arrivals'|
      ensures t'.measurements[|t0.measurements| + k].sensorId == RowOrDefault(t0, mac).id
      ensures t'.measurements[|t0.measurements| + k].pressure == PressureOf(arrivals'[k].message)
      ensures t'.measurements[|t0.measurements| + k].createdAt == arrivals'[k].now
    {
      if k < |arrivals| {
        assert arrivals'[k] == arrivals[k];
        assert t'.measurements[|t0.measurements| + k] == t.measurements[|t0.measurements| + k];
      } else {
        assert arrivals'[k] == a;
        assert |t0.measurements| + k == |t.measurements|;
        assert t'.measurements[|t0.measurements| + k] == r.measurement;
        assert r.measurement == Measurement(t.nextMeasurementId, s.id, PressureOf(a.message), a.now);
      }
    }
  }

  /** The tables after measurement messages, applied in order. */
  function MeasurementRun(t: Tables, arrivals: seq<Arrival>): Tables
    decreases |arrivals|
  {
    if |arrivals| == 0 then t
    else
      var q := MeasurementRun(t, arrivals[..|arrivals| - 1]);
      var a := arrivals[|arrivals| - 1];
      if !a.message.payload.Object? then q
      else MeasurementEffect(q, a.message.payload.fields, a.now).tables
  }

  /** On measurement messages, `Run` changes the tables as `MeasurementRun`. */
  lemma {:induction false} MeasurementArrivalsRun(p: Pipeline, arrivals: seq<Arrival>, callbackSet: bool)
    requires forall k :: 0 <= k < |arrivals| ==> arrivals[k].message.topic == MeasurementTopic
    ensures Run(p, arrivals, callbackSet).tables == MeasurementRun(p.tables, arrivals)
    decreases |arrivals|
  {
    if |arrivals| > 0 {
      var n := |arrivals| - 1;
      var prefix := arrivals[..n];
      assert forall k :: 0 <= k < |prefix| ==> prefix[k] == arrivals[k];
      MeasurementArrivalsRun(p, prefix, callbackSet);
      Routing(Run(p, prefix, callbackSet), arrivals[n].message, arrivals[n].now, callbackSet);
    }
  }

  /** The first measurement message of a burst. */
  lemma MeasurementRunOne(t: Tables, a: Arrival, mac: string)
    requires Consistent(t) && PlainMac(mac) && MeasurementFor(a.message, mac)
    ensures Consistent(MeasurementRun(t, [a]))
    ensures Burst(t, MeasurementRun(t, [a]), [a], mac)
  {
    var f := a.message.payload.fields;
    assert [a][..0] == [];
    BurstBase(t, a, mac);
    MeasurementPreservesConsistency(t, f, a.now);
    assert MeasurementRun(t, [a]) == MeasurementEffect(t, f, a.now).tables;
  }

  /** One more measurement message for `mac` extends a burst. */
  lemma MeasurementRunSnoc(t: Tables, prefix: seq<Arrival>, a: Arrival, mac: string)
    requires Consistent(MeasurementRun(t, prefix)) && PlainMac(mac) && MeasurementFor(a.message, mac)
    requires Burst(t, MeasurementRun(t, prefix), prefix, mac)
    ensures Consistent(MeasurementRun(t, prefix + [a]))
    ensures Burst(t, MeasurementRun(t, prefix + [a]), prefix + [a], mac)
  {
    var q := MeasurementRun(t, prefix);
    var f := a.message.payload.fields;
    assert (prefix + [a])[..|prefix|] == prefix;
    BurstStep(t, q, prefix, a, mac);
    MeasurementPreservesConsistency(q, f, a.now);
    assert MeasurementRun(t, prefix + [a]) == MeasurementEffect(q, f, a.now).tables;
  }

  lemma {:induction false} MeasurementRunBurst(t: Tables, arrivals: seq<Arrival>, mac: string)
    requires Consistent(t) && PlainMac(mac) && |arrivals| > 0
    requires forall k :: 0 <= k < |arrivals| ==> MeasurementFor(arrivals[k].message, mac)
    ensures Consistent(MeasurementRun(t, arrivals))
    ensures Burst(t, MeasurementRun(t, arrivals), arrivals, mac)
    decreases |arrivals|
  {
    var n := |arrivals| - 1;
    var prefix := arrivals[..n];
    var a := arrivals[n];
    assert prefix + [a] == arrivals;
    if n == 0 {
      assert arrivals == [a];
      MeasurementRunOne(t, a, mac);
    } else {
      assert forall k :: 0 <= k < |prefix| ==> prefix[k] == arrivals[k];
      MeasurementRunBurst(t, prefix, mac);
      MeasurementRunSnoc(t, prefix, a, mac);
    }
  }

  /** N measurement messages for one MAC, processed one at a time from
      consistent tables, leave exactly one sensor for that MAC and exactly N
      new measurements, all pointing at it (the sequential form of the
      first-contact scenario: no second sensor row, no lost sample). */
  lemma MeasurementBurst(p: Pipeline, arrivals: seq<Arrival>, mac: string, callbackSet: bool)
    requires Consistent(p.tables) && PlainMac(mac) && |arrivals| > 0
    requires forall k :: 0 <= k < |arrivals| ==> MeasurementFor(arrivals[k].message, mac)
    ensures Consistent(Run(p, arrivals, callbackSet).tables)
    ensures Burst(p.tables, Run(p, arrivals, callbackSet).tables, arrivals, mac)
  {
    MeasurementArrivalsRun(p, arrivals, callbackSet);
    MeasurementRunBurst(p.tables, arrivals, mac);
  }

  // ---------------------------------------------------------------------
  // The declared battery range
  // ---------------------------------------------------------------------

  /** Every stored battery level lies in [0.0, 1.0]. */
  predicate BatteriesInRange(t: Tables) {
    forall i :: 0 <= i < |t.sensors| ==> BatteryInRange(t.sensors[i].batteryLevel)
  }

  /** The declared bound is not enforced: a status message with battery 2.0
      for a new MAC stores a sensor with battery 2.0. */
  lemma BatteryBoundNotEnforced()
    ensures var f := Fields(Some("AA:BB:CC:00:11:22"), Some(2.0), None, None, None, None);
            var t := StatusEffect(EmptyTables(), f);
            |t.sensors| == 1 && t.sensors[0].batteryLevel == 2.0 && !BatteryInRange(t.sensors[0].batteryLevel)
  {
    var mac := "AA:BB:CC:00:11:22";
    var f := Fields(Some(mac), Some(2.0), None, None, None, None);
    assert forall i :: 0 <= i < |mac| ==> mac[i] != '\0';
    FreshStatusStored(f);
  }

  /** The bound holds as long as every supplied battery lies within it:
      status messages copy the payload value or default to 1.0. */
  lemma StatusKeepsBatteriesInRange(t: Tables, f: Fields)
    requires Consistent(t) && BatteriesInRange(t)
    requires f.battery.None? || BatteryInRange(f.battery.value)
    ensures BatteriesInRange(StatusEffect(t, f))
  {
    StatusOutcome(t, f);
    if RequiredMac(f).Some? && FreeOfNul(f.mac.value) {
      var mac := f.mac.value;
      match FindByMac(t.sensors, mac)
      case Some(i) =>
        MergeColumn(t.sensors[i], f, Battery);
      case None =>
    }
  }

  /** Measurement messages never change a stored battery; a sensor they
      create gets 1.0. */
  lemma MeasurementKeepsBatteriesInRange(t: Tables, f: Fields, now: int)
    requires Consistent(t) && BatteriesInRange(t)
    ensures BatteriesInRange(MeasurementEffect(t, f, now).tables)
  {
    MeasurementOutcome(t, f, now);
  }

  // ---------------------------------------------------------------------
  // The hand-off as written loses every live event
  // ---------------------------------------------------------------------

  /** A measurement that is stored and, with the corrected hand-off, sent to
      the callback is stored as written too, but its event is lost. */
  lemma AsWrittenLosesEvent(p: Pipeline, msg: Message, now: int)
    requires msg.topic == MeasurementTopic && msg.payload.Object?
    requires MeasurementEffect(p.tables, msg.payload.fields, now).Stored?
    ensures |OnMessageEffect(p, msg, now, true).outbox| == |p.outbox| + 1
    ensures OnMessageAsWritten(p, msg, now, true).outbox == p.outbox
    ensures |OnMessageAsWritten(p, msg, now, true).tables.measurements| == |p.tables.measurements| + 1
  {
  }

  /** With no sensors yet, a measurement with a MAC that the column accepts
      and a pressure is stored. */
  lemma FreshMeasurementStored(f: Fields, now: int)
    requires RequiredMac(f).Some? && f.pressure.Some? && AcceptedMac(f.mac.value)
    ensures MeasurementEffect(EmptyTables(), f, now).Stored?
  {
  }

  /** The first measurement of a fresh system: with the corrected hand-off
      the callback receives one event, as written it receives none. */
  lemma AsWrittenCounterexample()
    ensures var p := Pipeline(EmptyTables(), []);
            var msg := Message(MeasurementTopic, Object(Fields(Some("AA:BB:CC:00:11:22"), None, None, None, Some(1013.25), None)));
            && |OnMessageEffect(p, msg, 0, true).outbox| == 1
            && |OnMessageAsWritten(p, msg, 0, true).outbox| == 0
            && |OnMessageAsWritten(p, msg, 0, true).tables.measurements| == 1
  {
    var mac := "AA:BB:CC:00:11:22";
    var f := Fields(Some(mac), None, None, None, Some(1013.25), None);
    assert forall i :: 0 <= i < |mac| ==> mac[i] != '\0';
    FreshMeasurementStored(f, 0);
    AsWrittenLosesEvent(Pipeline(EmptyTables(), []), Message(MeasurementTopic, Object(f)), 0);
  }
}
