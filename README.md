# Sensor ingestion backend: a Dafny model

The backend takes telemetry from pressure sensors over MQTT, stores it in a
relational database and pushes it live to websocket clients.

- `sensors/status` messages upsert a sensor row, keyed by its MAC address.
  Only the fields the payload supplies are merged into an existing row.
  A MAC seen for the first time gets a new row with defaults and the name
  `"Sensor " + mac`.
- `measurement/data` messages do three things in order. They resolve the
  sensor, creating it with defaults on first contact. They append one
  measurement stamped with the ingestion time. Then they hand a
  `"measurement"` event to the broadcast callback. The code hands it over
  with `asyncio.create_task` on the MQTT network thread, which loses it
  (see "## Findings"). The model's handler uses the corrected, thread-safe
  hand-off, and `Ingestion.OnMessageAsWritten` keeps the code as written.
- A connection manager keeps the list of connected websocket clients. It
  appends on connect, removes the first occurrence on disconnect, and
  broadcasts to every entry, skipping failed sends.
- `GET /api/measurements` returns the newest measurements, newest first.
- A newly connected websocket client is first sent the 50 newest
  measurements, oldest first, tagged `"historical"`.

The files, one module each:

- `Wrappers.dfy` holds `Option` and `Result`.
- `Models.dfy` holds the `Sensor` and `Measurement` records, their column
  limits and the default name.
- `Messages.dfy` holds the decoded MQTT message and the pushed event
  dictionary.
- `Database.dfy` holds the two tables and the id sequences, plus the
  constraints PostgreSQL enforces on them: primary keys, the unique MAC,
  the VARCHAR lengths and the foreign key. `Consistent` states them. It
  also holds how PostgreSQL and the psycopg2 driver treat strings and
  sequences:
  - the driver refuses a string holding NUL before sending anything;
  - a VARCHAR column refuses a longer string unless the excess is all
    spaces, which it drops;
  - comparison counts trailing spaces;
  - a row refused by the unique or the foreign key constraint has already
    drawn its id, so the sequence moves on.
  A class `Database` performs the commits in place.
- `Ingestion.dfy` gives each handler twice. First as a function of the
  tables, which is the specification. Then as a method of the class
  `MqttHandler` that changes the database in place, proved equal to that
  function.
- `IngestionProperties.dfy` proves what the ingestion path promises, over
  one message and over any sequence of messages.
- `Fanout.dfy` holds the websocket clients and the `ConnectionManager`
  class.
- `Queries.dfy` holds the newest-first query, the row shaping, the HTTP
  response and the history snapshot.
- `Stream.dfy` holds the `/ws` endpoint up to its receive loop.

Timestamps are integers. Pressures and coordinates are reals the model
never computes with.

## Model

| member | source | states |
|---|---|---|
| Models.Truncate | src/fastapi_backend/models.py:13-14 | what a VARCHAR column keeps: at most its width, a prefix of the string, and the string itself when it fits |
| Models.MacClasses | src/fastapi_backend/models.py:13 | every MAC is refused, stored as sent (at most 17 characters), or stored with its trailing spaces past the 17th dropped, and then it differs from what was sent |
| Models.BatteryRangeEndpoints | src/fastapi_backend/models.py:17 | 0.0, 1.0 and the default 1.0 are admissible battery levels; values just outside [0, 1] are not |
| Models.DefaultName | src/fastapi_backend/mqtt_handler.py:113-115 | the default name is `"Sensor "` followed by exactly the MAC |
| Models.DefaultNameFits | src/fastapi_backend/models.py:13-14 | a MAC of at most 17 characters gives a default name of at most 24, within the 100 of `name` |
| Models.DefaultNameAccepted | src/fastapi_backend/mqtt_handler.py:113-115 | the `name` column accepts the default name of every MAC its own column accepts, and the driver refuses that name exactly when it refuses the MAC |
| Models.DefaultNameInjective | src/fastapi_backend/mqtt_handler.py:115 | distinct MACs get distinct default names |
| Messages.RequiredMac | src/fastapi_backend/mqtt_handler.py:135-141 | `if not mac`: a MAC is taken exactly when the payload has one and it is not empty, and it is then the payload's own |
| Database.FindByMac | src/fastapi_backend/mqtt_handler.py:99-100 | `.first()` of the MAC query: the position of the first row with that MAC, and None exactly when no row has it |
| Database.SelectByMac | src/fastapi_backend/mqtt_handler.py:99-100 | the driver refuses the query exactly when the MAC holds NUL; otherwise the answer is the first row whose MAC equals it, trailing spaces included |
| Database.SensorById | src/fastapi_backend/models.py:35 | the `sensor` relationship: a row of the table with that id, and None exactly when no row has that id |
| Database.MeasurementsOf | src/fastapi_backend/models.py:20 | `sensor.measurements` holds exactly the measurements whose `sensor_id` is the sensor's id |
| Database.AsStored | src/fastapi_backend/models.py:13-14 | a row as stored fits both columns, equals the row sent when that fits already, and keeps id, position and battery |
| Database.InsertSensor | src/fastapi_backend/models.py:12-14 | refused for a NUL in MAC or name, exactly then; else for a string exceeding its column by more than spaces, exactly then; else for a MAC that, as stored, is already present, exactly then. Never a foreign-key error. Otherwise the row as stored, with the next id, is appended and the measurements are untouched |
| Database.AfterRefusal | src/fastapi_backend/models.py:12-30 | a refused row adds nothing. A unique or foreign-key refusal uses up one value of that table's sequence; a string refusal uses up none. Consistency is kept |
| Database.UpdateSensor | src/fastapi_backend/mqtt_handler.py:104-109 | committing an in-place change replaces that one row and nothing else |
| Database.InsertMeasurement | src/fastapi_backend/models.py:29-32 | an unknown `sensor_id` is refused by the foreign key; otherwise exactly one row is appended with the next id, and the sensors are untouched |
| Database.InsertSensorPreservesConsistency | src/fastapi_backend/models.py:12-14 | inserting a sensor keeps ids increasing, MACs unique, strings within their columns and the foreign key intact |
| Database.UpdateSensorPreservesConsistency | src/fastapi_backend/mqtt_handler.py:104-109 | changing a row's non-key columns keeps the tables consistent |
| Database.InsertMeasurementPreservesConsistency | src/fastapi_backend/models.py:29-30 | inserting a measurement keeps the tables consistent |
| Database.MeasurementsOfAppend | src/fastapi_backend/models.py:20 | a new measurement joins the list of its own sensor only |
| Database.Database.constructor | src/postgres-database/database.py:18-23 | freshly created tables are empty and consistent |
| Database.Database.AddSensor | src/fastapi_backend/mqtt_handler.py:120-123 | add and commit a sensor: the new state is `InsertSensor` of the old; a refused commit leaves `AfterRefusal` of the old |
| Database.Database.SaveSensor | src/fastapi_backend/mqtt_handler.py:104-123 | commit of a row changed in place: the new state is `UpdateSensor` of the old |
| Database.Database.AddMeasurement | src/fastapi_backend/mqtt_handler.py:165-171 | add and commit a measurement: the new state is `InsertMeasurement` of the old; a refused commit leaves `AfterRefusal` of the old |
| Ingestion.MergeStatus | src/fastapi_backend/mqtt_handler.py:104-109 | each of battery, latitude and longitude is overwritten exactly when supplied (0.0 included); id, MAC and name stay |
| Ingestion.StatusEffect | src/fastapi_backend/mqtt_handler.py:84-127 | a status message never touches measurements or their sequence. Without a MAC it changes nothing. It adds at most one sensor row and uses up at most one sensor id |
| Ingestion.ResolveOrCreate | src/fastapi_backend/mqtt_handler.py:147-161 | the row with the MAC when there is one, tables unchanged. Else the new row with the defaults, as `InsertSensor` stores and `refresh` reads it back, so with the MAC cut to its column. It fails exactly for a NUL in the MAC, or for an unseen MAC that its column refuses or that collides, as stored, with a row the lookup missed |
| Ingestion.MeasurementEffect | src/fastapi_backend/mqtt_handler.py:134-171 | a stored message appends exactly one measurement: of the resolved sensor, which is in the new tables, with the payload's pressure and stamped `now`. A rejected one adds no row to either table. A missing MAC or pressure changes nothing, and a refused resolution leaves `AfterRefusal` |
| Ingestion.MeasurementAfterResolution | src/fastapi_backend/mqtt_handler.py:164-171 | once the sensor is resolved, the measurement's commit cannot be refused, and the message is stored with that sensor and the new row |
| Ingestion.LiveEvent | src/fastapi_backend/mqtt_handler.py:176-183 | the event is tagged `measurement` and carries the stored sensor's id, MAC and name, the pressure and `created_at` |
| Ingestion.OnMessageEffect | src/fastapi_backend/mqtt_handler.py:57-184 | with the corrected hand-off: earlier events stay and a message adds at most one. Nothing is added without a callback or outside `measurement/data`. An undecodable payload changes nothing, and a rejected measurement changes only the tables |
| Ingestion.CreateTask | src/fastapi_backend/mqtt_handler.py:184 | `create_task` schedules the event only when the calling thread runs an event loop, and raises otherwise |
| Ingestion.OnMessageAsWritten | src/fastapi_backend/mqtt_handler.py:57-187 | as written, on the network thread: the tables end as with the corrected hand-off, and the outbox never changes |
| Ingestion.MqttHandler.constructor | src/fastapi_backend/mqtt_handler.py:28-37 | a new handler is stopped and has emitted nothing |
| Ingestion.MqttHandler.OnMessage | src/fastapi_backend/mqtt_handler.py:57-77 | handling a message changes the database and the outbox exactly as `OnMessageEffect`, the corrected hand-off (`OnMessageAsWritten` is the code as written), and keeps the tables consistent |
| Ingestion.MqttHandler.HandleSensorStatus | src/fastapi_backend/mqtt_handler.py:79-127 | the in-place upsert leaves the tables equal to `StatusEffect` of the old ones, still consistent |
| Ingestion.MqttHandler.ResolveSensor | src/fastapi_backend/mqtt_handler.py:145-162 | the in-place lookup or creation leaves the tables and returns the sensor as `ResolveOrCreate`; on a refusal it leaves `AfterRefusal` and returns the error |
| Ingestion.MqttHandler.StoreMeasurement | src/fastapi_backend/mqtt_handler.py:164-184 | the measurement commit leaves `InsertMeasurement` of the old tables, and the event of the new row is appended when a callback is set |
| Ingestion.MqttHandler.HandleMeasurementData | src/fastapi_backend/mqtt_handler.py:129-187 | the tables become those of `MeasurementEffect`. A stored message appends its live event when a callback is set, through the corrected hand-off; as written the event is lost (`OnMessageAsWritten`) |
| Ingestion.MqttHandler.Start | src/fastapi_backend/mqtt_handler.py:189-207 | a second start is a no-op; a failed connection raises and leaves the handler stopped; otherwise it is running |
| Ingestion.MqttHandler.Stop | src/fastapi_backend/mqtt_handler.py:209-222 | afterwards the handler is stopped, whether or not it was running |
| IngestionProperties.LongMacAbsent | src/fastapi_backend/models.py:13 | consistent tables hold no MAC longer than 17 characters |
| IngestionProperties.Routing | src/fastapi_backend/mqtt_handler.py:59-77 | `sensors/status` goes to the status handler and `measurement/data` to the measurement handler; an undecodable payload or any other topic changes neither tables nor outbox |
| IngestionProperties.StatusOutcome | src/fastapi_backend/mqtt_handler.py:84-127 | a MAC the driver or the column refuses changes nothing. A MAC already present merges into its own row only. A padded MAC whose stored form is present uses up one id and nothing else. Otherwise one row, as stored, is appended with the next id |
| IngestionProperties.NewSensorDefaults | src/fastapi_backend/mqtt_handler.py:111-120 | a new sensor is named `"Sensor " + mac` and has each supplied value, else battery 1.0 and position (0.0, 0.0) |
| IngestionProperties.StatusIdempotent | src/fastapi_backend/mqtt_handler.py:102-123 | applying a status message twice leaves both tables as applying it once. Only a padded MAC differs: the second application is refused by the unique constraint and uses up one more sensor id |
| IngestionProperties.StatusIgnoresTimestamp | src/fastapi_backend/mqtt_handler.py:89 | the status payload's `timestamp` has no effect |
| IngestionProperties.StatusPreservesConsistency | src/fastapi_backend/mqtt_handler.py:97-123 | a status message keeps the tables consistent |
| IngestionProperties.MeasurementOutcome | src/fastapi_backend/mqtt_handler.py:134-171 | a measurement is stored iff it has a non-empty MAC and a pressure (0.0 accepted), its column accepts the MAC, and the MAC is present or its stored form is free. Then one measurement with the next id, the resolved sensor's id, the pressure and `now` is appended. A present MAC's row is the sensor and the rows stay; else one row with the defaults, cut to the columns, is appended. A rejected message leaves the tables, using up one sensor id exactly when the MAC was acceptable |
| IngestionProperties.MeasurementIgnoresTimestamp | src/fastapi_backend/mqtt_handler.py:137-168 | the payload's `timestamp` has no effect; `created_at` is the ingestion time |
| IngestionProperties.MeasurementPreservesConsistency | src/fastapi_backend/mqtt_handler.py:145-171 | a measurement message, stored or not, keeps the tables consistent |
| IngestionProperties.MeasurementJoinsItsSensor | src/fastapi_backend/models.py:20 | after a stored measurement, its sensor's `measurements` grows by exactly that row and every other sensor's list is unchanged |
| IngestionProperties.LiveEventEmitted | src/fastapi_backend/mqtt_handler.py:174-184 | the outbox grows by one event exactly when a callback is set and a measurement is stored. That event names the sensor stored under the MAC as stored, carries that MAC, the pressure and `created_at`. Status, rejected and unknown-topic messages never emit |
| IngestionProperties.StoredSensorFound | src/fastapi_backend/mqtt_handler.py:147-161 | after a stored measurement, looking its MAC up as stored finds the very sensor the measurement points to |
| IngestionProperties.NulMacIgnored | src/fastapi_backend/mqtt_handler.py:97-100 | a MAC holding NUL is refused by the driver at the lookup: the message changes neither tables nor outbox |
| IngestionProperties.FreshStatusStored | src/fastapi_backend/mqtt_handler.py:111-123 | on empty tables, a status message with an accepted MAC creates exactly the first row, as stored |
| IngestionProperties.PaddedStatusStored | src/fastapi_backend/mqtt_handler.py:113-123 | the MAC `"AA:BB:CC:00:11:22 "` is stored without its trailing space, while the name keeps it |
| IngestionProperties.PaddedMeasurementsLost | src/fastapi_backend/mqtt_handler.py:147-171 | for that padded MAC the first measurement is stored under the cut MAC. The second misses that row, its sensor insert is refused, and it is lost, using up one sensor id |
| IngestionProperties.StatusAccounting | src/fastapi_backend/mqtt_handler.py:97-123 | a status message adds its MAC, as stored, to the known MACs exactly when its column accepts it; it deletes no row and changes no id, MAC or name |
| IngestionProperties.MeasurementAccounting | src/fastapi_backend/mqtt_handler.py:145-171 | a measurement message adds its MAC as stored exactly when the message has a pressure and an acceptable MAC, and one measurement exactly when accepted; it never deletes and never renames |
| IngestionProperties.OnMessageAccounting | src/fastapi_backend/mqtt_handler.py:57-77 | one message: consistency, known MACs, measurement count and outbox length each change exactly as its kind says |
| IngestionProperties.AccountedTrans | src/fastapi_backend/mqtt_handler.py:57-77 | the bookkeeping of two consecutive stretches of messages adds up: MACs unite, stored counts add, and identities stay kept |
| IngestionProperties.RunAccounting | src/fastapi_backend/mqtt_handler.py:57-77 | any sequence of messages handled one at a time keeps the tables consistent, so each MAC has at most one row. The MACs become those before plus those, as stored, first seen with an acceptable MAC. Each measurement accepted when it arrives adds one row, with no deduplication, nothing stored is lost, and the outbox gains one event per stored measurement when a callback is set |
| IngestionProperties.RunPreservesConsistency | src/fastapi_backend/mqtt_handler.py:99-100 | looking the MAC up before every insert keeps MACs unique and the foreign key intact over any sequence of messages |
| IngestionProperties.RunFromEmpty | src/fastapi_backend/mqtt_handler.py:147-160 | from empty tables there is exactly one sensor row per MAC, as stored, seen with an acceptable MAC, and one measurement per message accepted when it arrives |
| IngestionProperties.DistinctMacsCount | src/fastapi_backend/models.py:13 | rows with unique MACs number as many as their MACs |
| IngestionProperties.StatusArrivalsRun | src/fastapi_backend/mqtt_handler.py:67-68 | status messages change only the tables, one payload after another, and never the outbox |
| IngestionProperties.StatusRunConsistent | src/fastapi_backend/mqtt_handler.py:97-123 | any run of status payloads keeps the tables consistent |
| IngestionProperties.StatusRunConverges | src/fastapi_backend/mqtt_handler.py:102-120 | status payloads for one MAC of at most 17 characters leave one row. It keeps the id and name it had or was created with, and holds per column the value supplied last, else the previous value or the default. Everything else is untouched |
| IngestionProperties.StatusConvergence | src/fastapi_backend/mqtt_handler.py:67-68 | the same convergence for status messages handled by `_on_message`, with nothing emitted |
| IngestionProperties.MeasurementArrivalsRun | src/fastapi_backend/mqtt_handler.py:69-70 | on measurement messages, handling them one by one changes the tables as the measurement handler applied in order |
| IngestionProperties.MeasurementRunBurst | src/fastapi_backend/mqtt_handler.py:147-171 | N measurements for one MAC of at most 17 characters leave one sensor for it (created once, with defaults, if new). They add N measurements in order, each pointing at that sensor with its own pressure and ingestion time |
| IngestionProperties.MeasurementBurst | src/fastapi_backend/mqtt_handler.py:147-171 | the same for measurement messages handled by `_on_message` |
| IngestionProperties.BatteryBoundNotEnforced | src/fastapi_backend/mqtt_handler.py:116 | a status message with battery 2.0 for a new MAC stores 2.0, outside the declared [0, 1] |
| IngestionProperties.StatusKeepsBatteriesInRange | src/fastapi_backend/mqtt_handler.py:104-116 | if every stored battery and the supplied one lie in [0, 1], they still do afterwards |
| IngestionProperties.MeasurementKeepsBatteriesInRange | src/fastapi_backend/mqtt_handler.py:150-158 | measurement messages keep every battery in [0, 1]; a sensor they create gets 1.0 |
| IngestionProperties.AsWrittenLosesEvent | src/fastapi_backend/mqtt_handler.py:174-187 | a measurement that is stored, and that the corrected hand-off broadcasts, is stored as written too, but no event reaches the callback |
| IngestionProperties.FreshMeasurementStored | src/fastapi_backend/mqtt_handler.py:145-171 | on empty tables, a measurement with a pressure and an accepted MAC is stored |
| IngestionProperties.AsWrittenCounterexample | src/fastapi_backend/mqtt_handler.py:174-187 | the first measurement of a fresh system is stored. The intended hand-off delivers one event; as written, none is delivered |
| Fanout.RemoveFirst | src/fastapi_backend/main.py:39-40 | `list.remove`: a present element shortens the list by one; an absent one leaves it as it was |
| Fanout.RemoveFirstAt | src/fastapi_backend/main.py:39-40 | removal deletes the first occurrence; the entries before and after keep their order |
| Fanout.RemoveFirstMultiset | src/fastapi_backend/main.py:39-40 | removal takes out exactly one copy of the client and adds nothing |
| Fanout.RemoveLastConnected | src/fastapi_backend/main.py:35-40 | disconnecting a client that connected once restores the list it joined |
| Fanout.CountOnce | src/fastapi_backend/main.py:42-45 | a client listed once is counted once, so it gets each broadcast once |
| Fanout.ConnectionManager.constructor | src/fastapi_backend/main.py:32-33 | the manager starts with no connections |
| Fanout.ConnectionManager.Connect | src/fastapi_backend/main.py:35-37 | the client is appended at the end; earlier entries are unchanged |
| Fanout.ConnectionManager.Disconnect | src/fastapi_backend/main.py:39-40 | the list becomes `RemoveFirst` of the old one; an absent client raises (`removed` false) and nothing changes |
| Fanout.ConnectionManager.SendStep | src/fastapi_backend/main.py:44-47 | one try of `send_json`: it fails exactly for a client that has gone away, and afterwards every client holds one copy of the event per entry tried so far whose sends succeed |
| Fanout.ConnectionManager.Broadcast | src/fastapi_backend/main.py:42-47 | every entry is tried. The list is unchanged, so failed clients stay in it. Each client whose sends succeed gets the event once per listing; the others get nothing. The failures are counted and do not stop the loop |
| Queries.InsertNewestFirst | src/fastapi_backend/main.py:112 | inserting into newest-first rows keeps them newest first and adds exactly that row |
| Queries.SortNewestFirst | src/fastapi_backend/main.py:112 | an `ORDER BY created_at DESC` ordering: newest first and a permutation of the table |
| Queries.LatestIsLatest | src/fastapi_backend/main.py:112-113 | the answer has min(limit, rows) rows, newest first, drawn from the table, and no row left out is newer than a row returned |
| Queries.SensorName | src/fastapi_backend/main.py:118 | the owning sensor's name when a sensor has that id, else `"Unknown"` |
| Queries.StoredMeasurementNamed | src/fastapi_backend/models.py:30 | while the foreign key holds, every stored measurement is named after a sensor that owns it |
| Queries.RowOf | src/fastapi_backend/main.py:115-121 | each row carries the measurement's id, sensor id, pressure and `created_at`, and the sensor's name |
| Queries.Rows | src/fastapi_backend/main.py:114-123 | one row per measurement, in the query's order |
| Queries.LatestRows | src/fastapi_backend/main.py:110-113 | the query fails, with the driver's message, exactly for a limit PostgreSQL refuses: a negative one or one beyond the `bigint` range. Otherwise it returns min(limit, rows) rows |
| Queries.GetLatestMeasurementsAsWritten | src/fastapi_backend/main.py:107-126 | as written every answer has status 200, and the body is the row list exactly when the limit is accepted |
| Queries.GetLatestMeasurements | src/fastapi_backend/main.py:107-126 | status 500 with the error object exactly when the query fails, else status 200 with the row list |
| Queries.AsWrittenErrorIsSuccess | src/fastapi_backend/main.py:124-126 | as written, a failed query answers with a status other than the intended 500; otherwise it agrees with the intended response |
| Queries.LatestMeasurementsAnswer | src/fastapi_backend/main.py:107-123 | for an accepted limit: status 200, at most `limit` rows (exactly `limit` when there are enough), timestamps non-increasing, each row shaping a stored measurement, and nothing left out newer than a row shown |
| Queries.DefaultLimitAnswer | src/fastapi_backend/main.py:108 | without `limit` the request succeeds and lists the 100 newest measurements, or all when there are fewer |
| Queries.HistoricalEvent | src/fastapi_backend/main.py:145-151 | a snapshot event is tagged `historical`, has no MAC, and carries the measurement's sensor id, pressure and `created_at`, and the sensor name |
| Queries.OldestFirstEvents | src/fastapi_backend/main.py:144-151 | `reversed`: event i comes from the i-th measurement counted from the end |
| Queries.Snapshot | src/fastapi_backend/main.py:140-151 | at most 50 events and no more than there are measurements, each tagged `historical` and without a MAC |
| Queries.SnapshotShape | src/fastapi_backend/main.py:140-151 | the snapshot is min(50, rows) events in non-decreasing time order. Each is tagged `historical`, has no MAC and comes from a stored measurement; no measurement left out is newer than one sent |
| Stream.OpenSession | src/fastapi_backend/main.py:135-165 | the client is appended to the list and sent the whole snapshot in order when its sends succeed. Otherwise the first send fails and the client is removed again. `listening` says whether the endpoint goes on waiting |

## Left out

- MQTT client plumbing is not modelled: connecting, subscribing, the network thread, the disconnect callback and the thread join. `Start` and `Stop` keep only the `is_running` flag. A failed broker connection is a parameter of `Start`.
- UTF-8 and JSON decoding are not modelled. A payload arrives as a record of optional fields, or as `Undecodable`, which covers every payload whose decoding raises and has no effect. A payload that is valid JSON but not an object is also `Undecodable`, because `data.get` raises and the handler logs it. A MAC that is not a JSON string is not modelled.
- Floating point is not modelled: pressure, latitude, longitude and battery are reals that are only copied. A JSON number of any kind counts as supplied.
- Time is not modelled as a clock: the time a message is handled is a parameter `now`, an integer. The ISO-8601 rendering of `created_at` is not modelled; events and rows carry the integer.
- Database sessions, the engine and rollbacks are not modelled: the tables are values. A refused commit leaves them as they were, except for a sequence value the refused row drew (`AfterRefusal`).
- Database.InsertSensor: ids are unbounded. The `id` columns are 32-bit `SERIAL`s, so the 2147483648th insert into a table is refused when the sequence runs out; that refusal is not modelled.
- Database.InsertMeasurement: ids are unbounded, as for sensors; a measurement insert refused because its sequence ran out is not modelled.
- Failures of the database itself (lost connection, disk, timeouts) between or during the two commits of the measurement handler are not modelled. Every refusal the model knows is one of the four of `StorageError`.
- Concurrency is not modelled. Messages are handled one at a time, so two first contacts for one MAC racing each other are not covered. Neither is a broadcast interleaving with connects, disconnects or snapshot sends.
- The websocket handshake (`accept`), the endpoint's receive loop and the `WebSocketDisconnect` path are left out. That path is `ConnectionManager.Disconnect`. Whether a client's sends succeed is fixed for its life (`WebSocket.open`).
- The error text of a failed query is a parameter, not a driver message.
- The root, health and documentation endpoints, the lifespan wiring and logging are not modelled. So is the sensor simulator, which is a load generator.
- IngestionProperties.StatusKeepsBatteriesInRange: the declared [0, 1] battery bound holds only if every supplied battery is in range. Nothing in the code enforces it: a table model built with SQLModel skips field validation and the database has no check constraint. `BatteryBoundNotEnforced` exhibits a stored 2.0.
- IngestionProperties.StatusIdempotent: for a MAC with trailing spaces past the 17th character, applying a status message twice is not the same as once. The second application is refused by the unique constraint and uses up a sensor id; the lemma states that difference.
- IngestionProperties.StatusRunConverges: proved only for MACs stored as sent (at most 17 characters, no NUL). A padded MAC does not converge: each message after the first is refused (see `PaddedMeasurementsLost` for measurements).
- IngestionProperties.StatusConvergence: for MACs stored as sent only, as for `StatusRunConverges`.
- IngestionProperties.MeasurementRunBurst: for MACs stored as sent only; under a padded MAC every measurement after the first is lost (`PaddedMeasurementsLost`).
- IngestionProperties.MeasurementBurst: for MACs stored as sent only, as for `MeasurementRunBurst`.
- The sensor table is a sequence in insertion order, not a map keyed by MAC. That keeps MAC uniqueness a proved invariant rather than a given, and lets `.first()` be the first match.
- Queries.SortNewestFirst: rows with equal `created_at` may come back in any order. The model picks one ordering, and `Queries.IsLatest` states what every valid answer satisfies.
- Where the documentation and the code disagree, the code is followed. `created_at` is always the ingestion time and the payload's `timestamp` is ignored. The observers are a list that may hold a client twice, not a set.
- The MAC and name length limits are those PostgreSQL enforces on the VARCHAR(17) and VARCHAR(100) columns, as psycopg2 sends the values: as literals that the column reads like a cast. A longer string is refused unless its excess is all spaces, which are dropped. A MAC or name holding NUL is refused by the driver before it is sent. Comparisons with the column count trailing spaces.

## Findings

| source | as written | input that shows it | evidently intended | confidence | as-written member | corrected member |
|---|---|---|---|---|---|---|
| src/fastapi_backend/mqtt_handler.py:184 | `asyncio.create_task` runs on the MQTT network thread, which runs no event loop, so it raises `RuntimeError`. The `except` at line 186 logs it after both commits, and no live event reaches a websocket client | the first `measurement/data` message `{"mac": "AA:BB:CC:00:11:22", "pressure": 1013.25}` with the broadcast callback set: the measurement is stored and the outbox stays empty | hand the event to the application's event loop from the network thread (a thread-safe hand-off), so each stored measurement is broadcast once | high; not executed | Ingestion.OnMessageAsWritten, IngestionProperties.AsWrittenLosesEvent, IngestionProperties.AsWrittenCounterexample | Ingestion.OnMessageEffect, IngestionProperties.LiveEventEmitted |
| src/fastapi_backend/main.py:126 | on a failed query the handler returns the tuple `({"error": ...}, 500)`. FastAPI encodes it as a two-element JSON array sent with status 200 | `GET /api/measurements?limit=-1` (PostgreSQL refuses a negative LIMIT): status 200 and body `[{"error": ...}, 500]` | status 500 with the error object as the body | high; not executed | Queries.GetLatestMeasurementsAsWritten, Queries.AsWrittenErrorIsSuccess | Queries.GetLatestMeasurements |
