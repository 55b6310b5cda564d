/** The wire formats around the core: an MQTT message as the handler sees it
    after decoding, and the event dictionaries pushed to websocket clients. */
module Messages {
  import opened Wrappers

  /** The MQTT topics the handler subscribes to. */
  const StatusTopic: string := "sensors/status"
  const MeasurementTopic: string := "measurement/data"

  /** The `type` tags of the two kinds of pushed event. */
  const MeasurementKind: string := "measurement"
  const HistoricalKind: string := "historical"

  /** The keys the handlers read from a decoded JSON object with `data.get`;
      `None` stands for a missing key or a JSON `null`. */
  datatype Fields = Fields(
    mac: Option<string>,
    battery: Option<real>,
    latitude: Option<real>,
    longitude: Option<real>,
    pressure: Option<real>,
    timestamp: Option<string>)

  /** The payload after UTF-8 and JSON decoding. `Undecodable` covers every
      payload the decoding or `data.get` raises on: bytes that are not UTF-8,
      text that is not JSON, JSON that is not an object. */
  datatype Payload = Undecodable | Object(fields: Fields)

  datatype Message = Message(topic: string, payload: Payload)

  /** The MAC of a payload when it passes the `not mac` test: present and
      not the empty string. */
  function RequiredMac(f: Fields): (r: Option<string>)
    ensures r.Some? <==> f.mac.Some? && f.mac.value != ""
    ensures r.Some? ==> r == f.mac
  {
    if f.mac.Some? && f.mac.value != "" then f.mac else None
  }

  /** A dictionary pushed to a websocket client. `kind` is its `type` key;
      `macAddress` is present on live events only; `timestamp` is the
      measurement's `created_at` (its ISO-8601 rendering is not modelled). */
  datatype Event = Event(
    kind: string,
    sensorId: nat,
    macAddress: Option<string>,
    sensorName: string,
    pressure: real,
    timestamp: int)
}
