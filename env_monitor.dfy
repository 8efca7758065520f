/**
 The reading store and the ingest rule of the environment monitor: a map from
 zone id to the latest reading, an extreme-alert counter, the POST handler that
 validates, classifies and commits a reading, and the two read-only views over
 the map (the list of all readings and the health report).
 */
module EnvMonitor {
  import opened SensorReadings

  /** The two replies of the POST endpoint: 200 with a text body, or 400 with the
      JSON object built by the validation exception handler. */
  datatype Response = Ok(text: string) | BadRequest(body: map<string, string>)

  /** The health report; `Down` is the storage-failure report, which the handler
      can only produce when the map is null. */
  datatype Health = Up(activeZones: nat, status: string) | Down(reason: string)

  const SyncedText := "Data synchronized"
  const InvalidDataText := "Invalid sensor data provided"

  /** Every stored reading sits under its own zone id. */
  predicate KeyedByZone(readings: map<string, SensorReading>) {
    forall z :: z in readings ==> readings[z].zoneId == Some(z)
  }

  /** Every stored reading passed validation and sits under its own zone id. */
  predicate StoreInvariant(readings: map<string, SensorReading>) {
    KeyedByZone(readings) && forall r :: r in readings.Values ==> ValidReading(r)
  }

  /** Each stored reading carries its own key, so no two zones hold the same
      reading and the map has as many distinct values as it has keys. */
  lemma {:induction false} DistinctValuesCount(readings: map<string, SensorReading>)
    requires KeyedByZone(readings)
    ensures |readings.Values| == |readings|
    decreases |readings|
  {
    if |readings| > 0 {
      var z :| z in readings;
      var rest := readings - {z};
      assert rest.Keys == readings.Keys - {z};
      DistinctValuesCount(rest);
      assert readings.Values == rest.Values + {readings[z]};
      assert readings[z] !in rest.Values;
    }
  }

  /** The application's whole state: the reading map and the alert counter. */
  datatype Snapshot = Snapshot(readings: map<string, SensorReading>, extremeAlerts: nat)

  /** The validation exception handler's reply: a 400 whose body holds exactly the
      fixed error message and the status text "400". */
  function HandleValidation(): (resp: Response)
    ensures resp.BadRequest? && resp.body.Keys == {"error", "status"}
    ensures resp.body["error"] == "Invalid sensor data provided" && resp.body["status"] == "400"
  {
    BadRequest(map["error" := InvalidDataText, "status" := "400"])
  }

  /** One POST of a reading. Validation runs first; a rejected reading yields the
      handler's error reply and changes nothing. An accepted one bumps the counter
      when extreme, is stored under its zone id (last write wins) and is acknowledged. */
  function Ingest(s: Snapshot, reading: SensorReading): (out: (Snapshot, Response))
    ensures out.1.Ok? <==> ValidReading(reading)
    ensures out.1.Ok? ==> out.1 == Ok(SyncedText)
    ensures !ValidReading(reading) ==> out.0 == s && out.1 == HandleValidation()
    ensures out.0.extremeAlerts == s.extremeAlerts + 1 <==> ValidReading(reading) && IsExtreme(reading)
    ensures out.0.extremeAlerts == s.extremeAlerts <==> !(ValidReading(reading) && IsExtreme(reading))
  {
    if !ValidReading(reading) then
      (s, HandleValidation())
    else
      var alerts := if IsExtreme(reading) then s.extremeAlerts + 1 else s.extremeAlerts;
      (Snapshot(s.readings[ZoneOf(reading) := reading], alerts), Ok(SyncedText))
  }

  /** An accepted reading is what its zone now holds; every other zone keeps its
      entry, and the map grows by one exactly when the zone was new. */
  lemma IngestCommits(s: Snapshot, reading: SensorReading)
    requires ValidReading(reading)
    ensures var (next, z) := (Ingest(s, reading).0, ZoneOf(reading));
      && z in next.readings && next.readings[z] == reading
      && next.readings.Keys == s.readings.Keys + {z}
      && (forall y :: y in s.readings && y != z ==> next.readings[y] == s.readings[y])
      && |next.readings| == if z in s.readings then |s.readings| else |s.readings| + 1
  {
  }

  /** Ingest never lets an invalid or misfiled reading into the map. */
  lemma IngestKeepsInvariant(s: Snapshot, reading: SensorReading)
    requires StoreInvariant(s.readings)
    ensures StoreInvariant(Ingest(s, reading).0.readings)
  {
  }

  /** The controller with its reading map and the extreme-alert counter. */
  class EnvMonitorApplication {
    var readings: map<string, SensorReading>
    var extremeAlerts: nat

    ghost predicate Valid()
      reads this
    {
      StoreInvariant(readings)
    }

    /** A fresh application: an empty map and a counter at zero. */
    constructor ()
      ensures Valid() && readings == map[] && extremeAlerts == 0
    {
      readings := map[];
      extremeAlerts := 0;
    }

    /** POST /readings: the validation that `@Valid` runs before the handler,
        then the handler body (classify, count, commit, acknowledge). */
    method UpdateReading(reading: SensorReading) returns (resp: Response)
      requires Valid()
      modifies this
      ensures Valid()
      ensures Snapshot(readings, extremeAlerts) == Ingest(Snapshot(old(readings), old(extremeAlerts)), reading).0
      ensures resp == Ingest(Snapshot(old(readings), old(extremeAlerts)), reading).1
      ensures extremeAlerts >= old(extremeAlerts)
    {
      ghost var before := Snapshot(readings, extremeAlerts);
      if !ValidReading(reading) {
        resp := HandleValidation();
        return;
      }
      if reading.temperature > ExtremeHigh || reading.temperature < ExtremeLow {
        extremeAlerts := extremeAlerts + 1;
      }
      readings := readings[ZoneOf(reading) := reading];
      resp := Ok(SyncedText);
      assert readings == before.readings[ZoneOf(reading) := reading];
      IngestKeepsInvariant(before, reading);
    }

    /** GET /readings: the stored readings, one per zone. */
    function GetAll(): (vs: set<SensorReading>)
      reads this
      ensures forall z :: z in readings ==> readings[z] in vs
      ensures forall v :: v in vs ==> exists z :: z in readings && readings[z] == v
      ensures StoreInvariant(readings) ==> forall v :: v in vs ==> ValidReading(v)
    {
      readings.Values
    }

    /** The health indicator: up, reporting the number of zones in the map. */
    function Health(): (h: Health)
      reads this
      ensures h.Up? && h.activeZones == |readings|
    {
      Up(|readings|, "System is healthy")
    }

    /** The two views agree: the list has one reading per zone the health report counts. */
    lemma ViewsAgree()
      requires Valid()
      ensures |GetAll()| == Health().activeZones == |readings|
    {
      DistinctValuesCount(readings);
    }
  }
}
