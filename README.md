# Environment monitor: reading store and ingest rule

This project models the core of a small environment-monitoring web service. The
service keeps the latest sensor reading for each zone in memory and counts
extreme-temperature alerts. A reading has a zone id, a temperature and a humidity.

`POST /readings` works in three steps:

1. It validates the reading's declared field constraints. The zone id must not be
   blank. The temperature carries `@Min(-50) @Max(60)` and the humidity
   `@Min(0) @Max(100)`. Both are `double`s, and Hibernate Validator (the validator
   Spring Boot uses) checks these annotations on a `double` by cutting the value
   toward zero to a whole number (`longValue()`) and comparing that number with the
   bound. The accepted ranges are therefore the open intervals (-51, 61) and
   (-1, 101): 60.5 and -50.5 pass as temperatures, -0.5 and 100.5 as humidities.
2. It counts the reading as an alert when the temperature is above 40 or below -10.
3. It stores the reading under its zone id, replacing any earlier one, and replies
   "Data synchronized".

A rejected reading gets a 400 reply with a fixed JSON body and changes nothing.
`GET /readings` lists the stored readings. The health indicator reports "up" and
the number of zones.

Modules:

- `SensorReadings` (`sensor_reading.dfy`): the record, Java's `String.trim`, the
  `@NotBlank`/`@Min`/`@Max` constraints and the extreme-temperature rule.
- `EnvMonitor` (`env_monitor.dfy`): the two replies, the pure transition `Ingest` on
  the state (map, counter), and the class `EnvMonitorApplication`. The class holds
  the `readings` map and the `extremeAlerts` counter as fields. Its `UpdateReading`
  method changes them in place and is proved equal to `Ingest`.
- `EnvMonitorProperties` (`env_monitor_properties.dfy`): what a sequence of posts
  does, defined as `Replay`, a fold of `Ingest`. It covers the counter, the set of
  zones and the last-write-wins rule, plus the overwrite of a single zone.
- `EnvMonitorScenarios` (`env_monitor_scenarios.dfy`): the three scenarios of the
  test suite, each starting from a freshly constructed application. The Java suite
  shares one application context between its tests, so there a list fetched after
  the Zone-Alpha post may also hold readings posted by other tests; the model's
  "exactly that reading" holds because each scenario starts empty.

Points worth knowing about the code:

- The alert thresholds are hard-coded as > 40 and < -10; they are not configurable.
  The alert test compares the full `double`, without the cut toward zero.
- Blank means made only of characters up to U+0020, so a zone id of nothing but
  whitespace is rejected, not only an empty one.
- The success reply is the bare text "Data synchronized", with no timestamp.
- The application has no per-zone lookup, no delete and no `status` field, so the
  model has none either.

## Model

| member | source | states |
|---|---|---|
| SensorReadings.TrimStartSpec | src/main/java/com/devops/project/envmonitor/EnvMonitorApplication.java:97-98 | the result of stripping the front is a suffix of the input; every character dropped is at most U+0020; the result is empty or starts with a character above U+0020 |
| SensorReadings.TrimEndSpec | src/main/java/com/devops/project/envmonitor/EnvMonitorApplication.java:97-98 | the result of stripping the back is a prefix of the input; every character dropped is at most U+0020; the result is empty or ends with a character above U+0020 |
| SensorReadings.NotBlankIff | src/main/java/com/devops/project/envmonitor/EnvMonitorApplication.java:97-98 | a present zone id passes `@NotBlank` exactly when it holds at least one character above U+0020 |
| SensorReadings.TruncateTowardZero | src/main/java/com/devops/project/envmonitor/EnvMonitorApplication.java:100-104 | the whole number the validator compares lies within one unit of the value, on the side of zero, and has the value's sign |
| SensorReadings.AtLeastIff | src/main/java/com/devops/project/envmonitor/EnvMonitorApplication.java:100-104 | `@Min(b)` on a `double` accepts exactly the values above b - 1 when b <= 0, and exactly those >= b when b > 0 |
| SensorReadings.AtMostIff | src/main/java/com/devops/project/envmonitor/EnvMonitorApplication.java:100-104 | `@Max(b)` on a `double` accepts exactly the values below b + 1 when b >= 0, and exactly those <= b when b < 0 |
| SensorReadings.FractionalEdges | src/main/java/com/devops/project/envmonitor/EnvMonitorApplication.java:100-104 | 60.5, -50.5, -0.5 and 100.5 pass their bounds; 61, -51, -1 and 101 fail them |
| SensorReadings.ValidReadingIff | src/main/java/com/devops/project/envmonitor/EnvMonitorApplication.java:97-104 | a reading is accepted exactly when its zone id is present and not blank, -51 < temperature < 61 and -1 < humidity < 101, with both directions of the equivalence |
| SensorReadings.Violations | src/main/java/com/devops/project/envmonitor/EnvMonitorApplication.java:97-104 | the set of broken constraints is empty exactly when the reading is valid; the zone-id constraint is in it exactly when the id is blank, and each bound's constraint exactly when the value is a whole unit or more past that bound |
| EnvMonitor.HandleValidation | src/main/java/com/devops/project/envmonitor/EnvMonitorApplication.java:61-64 | the rejection is a 400 whose body has exactly the keys "error" and "status", holding "Invalid sensor data provided" and "400" |
| EnvMonitor.Ingest | src/main/java/com/devops/project/envmonitor/EnvMonitorApplication.java:42-53 | the reply is the success text "Data synchronized" exactly when the reading is valid; an invalid reading gets the fixed error body and leaves map and counter unchanged; the counter rises by exactly 1 when the reading is valid and extreme, and stays the same otherwise |
| EnvMonitor.IngestCommits | src/main/java/com/devops/project/envmonitor/EnvMonitorApplication.java:51 | after an accepted reading, its zone holds exactly that reading; every other zone keeps its entry; the key set gains only that zone; the size grows by one exactly when the zone was new |
| EnvMonitor.IngestKeepsInvariant | src/main/java/com/devops/project/envmonitor/EnvMonitorApplication.java:43-51 | if every stored reading passed validation and is filed under its own zone id, that still holds after any post |
| EnvMonitor.DistinctValuesCount | src/main/java/com/devops/project/envmonitor/EnvMonitorApplication.java:55-59 | when every reading is filed under its own zone id, the map has as many distinct values as it has keys |
| EnvMonitor.EnvMonitorApplication.constructor | src/main/java/com/devops/project/envmonitor/EnvMonitorApplication.java:28-36 | a new application starts with an empty map, a counter at zero and the store invariant |
| EnvMonitor.EnvMonitorApplication.UpdateReading | src/main/java/com/devops/project/envmonitor/EnvMonitorApplication.java:42-53 | validation precedes the handler body; the new map, the new counter and the reply are those of `Ingest` on the old state; the counter never decreases; the store invariant is kept |
| EnvMonitor.EnvMonitorApplication.GetAll | src/main/java/com/devops/project/envmonitor/EnvMonitorApplication.java:55-59 | every stored reading is listed and everything listed is stored under some zone; when the invariant holds, everything listed passed validation |
| EnvMonitor.EnvMonitorApplication.Health | src/main/java/com/devops/project/envmonitor/EnvMonitorApplication.java:78-87 | the report is always "up" and its active-zone count is the number of map entries |
| EnvMonitor.EnvMonitorApplication.ViewsAgree | src/main/java/com/devops/project/envmonitor/EnvMonitorApplication.java:56-86 | the readings list, the health report's zone count and the map size are the same number |
| EnvMonitorProperties.ReplayAlerts | src/main/java/com/devops/project/envmonitor/EnvMonitorApplication.java:46-49 | after any sequence of posts, the counter has risen by exactly the number of valid extreme readings among them |
| EnvMonitorProperties.AlertsMonotone | src/main/java/com/devops/project/envmonitor/EnvMonitorApplication.java:46-49 | no sequence of posts lowers the counter |
| EnvMonitorProperties.ReplayZones | src/main/java/com/devops/project/envmonitor/EnvMonitorApplication.java:51 | after a sequence of posts, the map's zones are the earlier zones plus those of the accepted readings; rejected readings add none |
| EnvMonitorProperties.ReplayKeepsInvariant | src/main/java/com/devops/project/envmonitor/EnvMonitorApplication.java:43-51 | no sequence of posts lets an invalid or misfiled reading into the map |
| EnvMonitorProperties.ReplaySnoc | src/main/java/com/devops/project/envmonitor/EnvMonitorApplication.java:51 | posting one more reading after a sequence is one more ingest step on the resulting state |
| EnvMonitorProperties.ReplayLatest | src/main/java/com/devops/project/envmonitor/EnvMonitorApplication.java:51 | last write wins: each zone holds the last accepted reading posted for it, or its earlier entry (or nothing) when no accepted reading names it |
| EnvMonitorProperties.Overwrite | src/main/java/com/devops/project/envmonitor/EnvMonitorApplication.java:51 | a second accepted reading for a zone leaves the same map as if the first had never been posted; the size grows only when the zone was new |
| EnvMonitorScenarios.CreateAndGetReading | src/test/java/com/devops/project/envmonitor/EnvMonitorApplicationTests.java:28-40 | posting the Zone-Alpha reading replies "Data synchronized"; afterwards the list holds exactly that reading and the health report is up with one zone |
| EnvMonitorScenarios.ExtremeTemperatureLogic | src/test/java/com/devops/project/envmonitor/EnvMonitorApplicationTests.java:43-48 | the 55-degree Sahara-01 reading is accepted and raises the counter from 0 to 1 |
| EnvMonitorScenarios.ValidationFailure | src/test/java/com/devops/project/envmonitor/EnvMonitorApplicationTests.java:51-58 | the 100-degree Error-Zone reading is rejected with error "Invalid sensor data provided"; nothing is stored and nothing is counted |

## Left out

- Concurrency: the `ConcurrentHashMap` and the thread-safe Micrometer counter are not modelled. Calls are modelled one at a time.
- Metric registration and export: the counter is a plain `nat` field. Its name, its description and Prometheus scraping are not modelled.
- Logging: the SLF4J calls are not modelled. They do not change state.
- Framework plumbing is not modelled: Spring Boot start-up, routing, JSON (de)serialisation and `ResponseEntity`. Replies are plain datatypes: `Ok(text)` for 200 and `BadRequest(body)` for 400.
- Malformed JSON is not modelled. The framework rejects it before validation, and the application has no handler for that exception.
- The per-field message "Zone ID required" is not modelled. The exception handler throws the violations away and always returns the same body.
- Floating point is modelled as `real`. NaN, the infinities and the rounding of JSON numbers to `double` are not modelled. `longValue()` clamps values beyond the `long` range; the model cuts them without clamping, which gives the same verdict for these bounds.
- The health indicator's storage-failure branch is not reachable. In Java it needs a null `readings` field, and the field is final and initialised. The `Down` report exists in the datatype, but `Health` never returns it.
- EnvMonitor.EnvMonitorApplication.GetAll: returns a set rather than Java's value collection, so the model fixes no iteration order. No duplicates are lost: every reading carries its own zone id, and `ViewsAgree` proves the set has one element per map entry.

