/** The two persisted record types of the backend, a sensor identity and a
    pressure sample, with the constraints their columns declare. */
module Models {

  /** `mac_address` is a VARCHAR(17) column. */
  const MaxMacLength: nat := 17

  /** `name` is a VARCHAR(100) column. */
  const MaxNameLength: nat := 100

  /** Values given to a sensor first seen without them. */
  const DefaultBattery: real := 1.0
  const DefaultLatitude: real := 0.0
  const DefaultLongitude: real := 0.0

  /** A persisted sensor. `id` is the primary key, assigned by the store on
      insert; `macAddress` is the natural key. */
  datatype Sensor = Sensor(
    id: nat,
    macAddress: string,
    name: string,
    latitude: real,
    longitude: real,
    batteryLevel: real)

  /** A persisted pressure sample. `sensorId` refers to the owning sensor's
      `id`; `createdAt` is the ingestion time as a UTC instant (an integer
      count of clock ticks). */
  datatype Measurement = Measurement(
    id: nat,
    sensorId: nat,
    pressure: real,
    createdAt: int)

  /** Whether the database driver can send `s` at all: psycopg2 refuses a
      string holding a NUL character before anything reaches the server. */
  predicate FreeOfNul(s: string) {
    forall i :: 0 <= i < |s| ==> s[i] != '\0'
  }

  /** Whether a VARCHAR(`width`) column accepts `s`: it fits, or every
      character past the `width`-th is a space. */
  predicate FitsVarchar(s: string, width: nat) {
    forall i :: width <= i < |s| ==> s[i] == ' '
  }

  /** What a VARCHAR(`width`) column keeps of an accepted `s`: its first
      `width` characters (the excess spaces are dropped). */
  function Truncate(s: string, width: nat): (r: string)
    ensures |r| <= width && r <= s
    ensures |s| <= width ==> r == s
    ensures |s| > width ==> |r| == width
  {
    if |s| <= width then s else s[..width]
  }

  /** A MAC the driver sends and its column accepts. */
  predicate AcceptedMac(mac: string) {
    FreeOfNul(mac) && FitsVarchar(mac, MaxMacLength)
  }

  /** An accepted MAC the column does not keep as sent: it ends in spaces
      beyond the 17th character, which are dropped. */
  predicate Padded(mac: string) {
    AcceptedMac(mac) && |mac| > MaxMacLength
  }

  /** A MAC that is stored, and looked up, exactly as sent. */
  predicate PlainMac(mac: string) {
    FreeOfNul(mac) && |mac| <= MaxMacLength
  }

  /** Every MAC is refused, kept as sent, or kept with its padding dropped. */
  lemma MacClasses(mac: string)
    ensures !AcceptedMac(mac) || PlainMac(mac) || Padded(mac)
    ensures PlainMac(mac) ==> AcceptedMac(mac) && !Padded(mac) && Truncate(mac, MaxMacLength) == mac
    ensures Padded(mac) ==> Truncate(mac, MaxMacLength) != mac
  {
  }

  /** The column lengths the database enforces on a sensor row. */
  predicate FitsColumns(s: Sensor) {
    |s.macAddress| <= MaxMacLength && |s.name| <= MaxNameLength
  }

  /** The declared range of `battery_level`. Only declared: the database has
      no check constraint for it and nothing on the ingestion path tests it. */
  predicate BatteryInRange(b: real) {
    0.0 <= b <= 1.0
  }

  /** Both ends of the range are admissible battery levels. */
  lemma BatteryRangeEndpoints()
    ensures BatteryInRange(0.0) && BatteryInRange(1.0) && BatteryInRange(DefaultBattery)
    ensures !BatteryInRange(-0.1) && !BatteryInRange(1.1)
  {
  }

  /** The display name of a sensor created from telemetry. */
  function DefaultName(mac: string): (name: string)
    ensures |name| == |mac| + 7
    ensures name[..7] == "Sensor " && name[7..] == mac
  {
    "Sensor " + mac
  }

  /** A MAC that fits its column gives a default name that fits its own:
      at most 24 characters out of 100. */
  lemma DefaultNameFits(mac: string)
    requires |mac| <= MaxMacLength
    ensures |DefaultName(mac)| <= 24 <= MaxNameLength
  {
  }

  /** The default name of an accepted MAC is accepted by its own column:
      any character past the 100th lies in the MAC's trailing spaces. The
      driver refuses the name exactly when it refuses the MAC. */
  lemma DefaultNameAccepted(mac: string)
    ensures AcceptedMac(mac) ==> FitsVarchar(DefaultName(mac), MaxNameLength)
    ensures FreeOfNul(DefaultName(mac)) <==> FreeOfNul(mac)
  {
    var name := DefaultName(mac);
    forall i | 0 <= i < |mac|
      ensures name[i + 7] == mac[i]
    {
      assert name[7..][i] == mac[i];
    }
    if !FreeOfNul(mac) {
      var i :| 0 <= i < |mac| && mac[i] == '\0';
      assert name[i + 7] == '\0';
    }
    if FreeOfNul(mac) {
      forall i | 0 <= i < |name| ensures name[i] != '\0' {
        if i < 7 {
          assert name[i] == name[..7][i];
        } else {
          assert name[i] == mac[i - 7];
        }
      }
    }
    if AcceptedMac(mac) {
      forall i | MaxNameLength <= i < |name| ensures name[i] == ' ' {
        assert name[i] == mac[i - 7];
      }
    }
  }

  /** Distinct MACs get distinct default names. */
  lemma DefaultNameInjective(a: string, b: string)
    requires DefaultName(a) == DefaultName(b)
    ensures a == b
  {
    assert a == DefaultName(a)[7..];
  }
}
