/**
 The three request scenarios of the application's test suite. Each starts from a
 freshly constructed application, whereas the Java suite shares one application
 context between its tests.
 */
module EnvMonitorScenarios {
  import opened SensorReadings
  import opened EnvMonitor

  /** A normal reading for Zone-Alpha is acknowledged, and afterwards the list of
      readings is not empty and the health report counts one zone. */
  method CreateAndGetReading() returns (resp: Response, all: set<SensorReading>, health: Health)
    ensures resp == Ok("Data synchronized")
    ensures all == {SensorReading(Some("Zone-Alpha"), 25.0, 40.0)}
    ensures health == Up(1, "System is healthy")
  {
    var app := new EnvMonitorApplication();
    var reading := SensorReading(Some("Zone-Alpha"), 25.0, 40.0);
    assert !IsTrimmable(reading.zoneId.value[0]);
    NotBlankIff(reading.zoneId.value);
    assert ValidReading(reading);
    resp := app.UpdateReading(reading);
    assert app.readings == map[][ZoneOf(reading) := reading];
    assert app.readings.Values == {reading};
    all := app.GetAll();
    health := app.Health();
  }

  /** A 55-degree reading for Sahara-01 passes validation, is acknowledged and
      raises the extreme-alert counter from zero to one. */
  method ExtremeTemperatureLogic() returns (resp: Response, alerts: nat)
    ensures resp == Ok("Data synchronized")
    ensures alerts == 1
  {
    var app := new EnvMonitorApplication();
    var reading := SensorReading(Some("Sahara-01"), 55.0, 10.0);
    assert !IsTrimmable(reading.zoneId.value[0]);
    NotBlankIff(reading.zoneId.value);
    resp := app.UpdateReading(reading);
    alerts := app.extremeAlerts;
  }

  /** A 100-degree reading for Error-Zone is rejected with the fixed error body,
      and nothing is stored or counted. */
  method ValidationFailure() returns (resp: Response, all: set<SensorReading>, alerts: nat)
    ensures resp.BadRequest? && "error" in resp.body
    ensures resp.body["error"] == "Invalid sensor data provided"
    ensures all == {} && alerts == 0
  {
    var app := new EnvMonitorApplication();
    var reading := SensorReading(Some("Error-Zone"), 100.0, 40.0);
    resp := app.UpdateReading(reading);
    all := app.GetAll();
    alerts := app.extremeAlerts;
  }
}
