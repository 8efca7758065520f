/**
 What a sequence of POSTs does to the application's state: the counter ends at
 exactly the number of accepted extreme readings, the map holds exactly the zones
 of accepted readings, and each zone holds the last reading accepted for it.
 */
module EnvMonitorProperties {
  import opened SensorReadings
  import opened EnvMonitor

  /** The state after posting `batch` in order, starting from `s`. */
  function Replay(s: Snapshot, batch: seq<SensorReading>): Snapshot
    decreases |batch|
  {
    if batch == [] then s else Replay(Ingest(s, batch[0]).0, batch[1..])
  }

  /** How many readings of `batch` pass validation and are extreme. */
  function ExtremeCount(batch: seq<SensorReading>): nat
    decreases |batch|
  {
    if batch == [] then 0
    else (if ValidReading(batch[0]) && IsExtreme(batch[0]) then 1 else 0) + ExtremeCount(batch[1..])
  }

  /** The zones of the readings of `batch` that pass validation. */
  function AcceptedZones(batch: seq<SensorReading>): set<string>
    decreases |batch|
  {
    if batch == [] then {}
    else (if ValidReading(batch[0]) then {ZoneOf(batch[0])} else {}) + AcceptedZones(batch[1..])
  }

  /** The last reading of `batch` that passes validation and names zone `z`. */
  function LastAccepted(batch: seq<SensorReading>, z: string): Option<SensorReading>
    decreases |batch|
  {
    if batch == [] then None
    else
      var r := batch[|batch| - 1];
      if ValidReading(r) && ZoneOf(r) == z then Some(r) else LastAccepted(batch[..|batch| - 1], z)
  }

  function Lookup(readings: map<string, SensorReading>, z: string): Option<SensorReading> {
    if z in readings then Some(readings[z]) else None
  }

  /** For K accepted extreme readings among the posted ones, the counter rises by exactly K. */
  lemma {:induction false} ReplayAlerts(s: Snapshot, batch: seq<SensorReading>)
    ensures Replay(s, batch).extremeAlerts == s.extremeAlerts + ExtremeCount(batch)
    decreases |batch|
  {
    if batch != [] {
      ReplayAlerts(Ingest(s, batch[0]).0, batch[1..]);
    }
  }

  /** The counter never goes down, whatever is posted. */
  lemma AlertsMonotone(s: Snapshot, batch: seq<SensorReading>)
    ensures Replay(s, batch).extremeAlerts >= s.extremeAlerts
  {
    ReplayAlerts(s, batch);
  }

  /** The map's zones are the ones it had plus those of the accepted readings;
      rejected readings add nothing. */
  lemma {:induction false} ReplayZones(s: Snapshot, batch: seq<SensorReading>)
    ensures Replay(s, batch).readings.Keys == s.readings.Keys + AcceptedZones(batch)
    decreases |batch|
  {
    if batch != [] {
      var next := Ingest(s, batch[0]).0;
      ReplayZones(next, batch[1..]);
      if ValidReading(batch[0]) {
        assert next.readings == s.readings[ZoneOf(batch[0]) := batch[0]];
        assert AcceptedZones(batch) == {ZoneOf(batch[0])} + AcceptedZones(batch[1..]);
      } else {
        assert next == s;
      }
    }
  }

  /** No sequence of posts lets an invalid or misfiled reading into the map. */
  lemma {:induction false} ReplayKeepsInvariant(s: Snapshot, batch: seq<SensorReading>)
    requires StoreInvariant(s.readings)
    ensures StoreInvariant(Replay(s, batch).readings)
    decreases |batch|
  {
    if batch != [] {
      IngestKeepsInvariant(s, batch[0]);
      ReplayKeepsInvariant(Ingest(s, batch[0]).0, batch[1..]);
    }
  }

  /** Posting one more reading after a batch is one more ingest step. */
  lemma {:induction false} ReplaySnoc(s: Snapshot, batch: seq<SensorReading>, r: SensorReading)
    ensures Replay(s, batch + [r]) == Ingest(Replay(s, batch), r).0
    decreases |batch|
  {
    if batch == [] {
      assert [r][1..] == [];
    } else {
      assert (batch + [r])[1..] == batch[1..] + [r];
      ReplaySnoc(Ingest(s, batch[0]).0, batch[1..], r);
    }
  }

  /** Last write wins: each zone holds the last accepted reading posted for it,
      or what it held before when no accepted reading names it. */
  lemma {:induction false} ReplayLatest(s: Snapshot, batch: seq<SensorReading>, z: string)
    ensures Lookup(Replay(s, batch).readings, z) ==
      match LastAccepted(batch, z)
      case Some(r) => Some(r)
      case None => Lookup(s.readings, z)
    decreases |batch|
  {
    if batch != [] {
      var init, r := batch[..|batch| - 1], batch[|batch| - 1];
      assert batch == init + [r];
      ReplaySnoc(s, init, r);
      ReplayLatest(s, init, z);
      var before := Replay(s, init);
      if ValidReading(r) {
        assert Replay(s, batch).readings == before.readings[ZoneOf(r) := r];
        if ZoneOf(r) == z {
          assert LastAccepted(batch, z) == Some(r);
        } else {
          assert LastAccepted(batch, z) == LastAccepted(init, z);
        }
      } else {
        assert Replay(s, batch) == before;
        assert LastAccepted(batch, z) == LastAccepted(init, z);
      }
    }
  }

  /** A second accepted reading for a zone wipes out every trace of the first in
      the map; the map grows only when the zone was new. */
  lemma Overwrite(s: Snapshot, first: SensorReading, second: SensorReading)
    requires ValidReading(first) && ValidReading(second) && ZoneOf(first) == ZoneOf(second)
    ensures Ingest(Ingest(s, first).0, second).0.readings == Ingest(s, second).0.readings
    ensures var z := ZoneOf(second);
      |Ingest(Ingest(s, first).0, second).0.readings| == if z in s.readings then |s.readings| else |s.readings| + 1
  {
    var z := ZoneOf(second);
    assert Ingest(s, first).0.readings == s.readings[z := first];
    assert s.readings[z := first][z := second] == s.readings[z := second];
    IngestCommits(s, second);
  }
}
