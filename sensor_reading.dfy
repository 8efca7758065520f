/**
 The sensor reading record and the field constraints that the web layer checks
 before the ingest handler runs: a non-blank zone id, `@Min(-50) @Max(60)` on the
 temperature and `@Min(0) @Max(100)` on the humidity. Both numbers are `double`s,
 and Hibernate Validator checks `@Min`/`@Max` on a `double` by cutting the value
 toward zero (`longValue()`) and comparing that whole number with the bound, so the
 accepted ranges are the open intervals (-51, 61) and (-1, 101).
 */
module SensorReadings {

  datatype Option<T> = None | Some(value: T)

  /** One reading as it arrives in a request body. A missing zone id is `None`
      (a Java `null`); the two numeric fields are primitives and always present. */
  datatype SensorReading = SensorReading(zoneId: Option<string>, temperature: real, humidity: real)

  /** The declared bounds of the record's fields; annotation values are whole numbers. */
  const MinTemperature: int := -50
  const MaxTemperature: int := 60
  const MinHumidity: int := 0
  const MaxHumidity: int := 100

  /** Java's `Double.longValue()` on a finite value: the fractional part is dropped,
      rounding toward zero. */
  function TruncateTowardZero(x: real): (n: int)
    ensures x >= 0.0 ==> 0 <= n && n as real <= x < n as real + 1.0
    ensures x < 0.0 ==> n <= 0 && n as real - 1.0 < x <= n as real
  {
    if x >= 0.0 then x.Floor else -((-x).Floor)
  }

  /** `@Min(bound)` on a `double`, as Hibernate Validator checks it: the value cut
      toward zero is at least the bound. */
  predicate AtLeast(x: real, bound: int) {
    TruncateTowardZero(x) >= bound
  }

  /** `@Max(bound)` on a `double`, as Hibernate Validator checks it: the value cut
      toward zero is at most the bound. */
  predicate AtMost(x: real, bound: int) {
    TruncateTowardZero(x) <= bound
  }

  /** `@Min(b)` on real numbers: for b <= 0 every value above b - 1 passes, since
      the cut moves negative values up; for b > 0 it is the plain x >= b. */
  lemma AtLeastIff(x: real, b: int)
    ensures AtLeast(x, b) <==> if b <= 0 then x > (b - 1) as real else x >= b as real
  {
  }

  /** `@Max(b)` on real numbers: for b >= 0 every value below b + 1 passes, since
      the cut moves positive values down; for b < 0 it is the plain x <= b. */
  lemma AtMostIff(x: real, b: int)
    ensures AtMost(x, b) <==> if b >= 0 then x < (b + 1) as real else x <= b as real
  {
  }

  /** The characters Java's `String.trim` removes: every code unit up to U+0020. */
  predicate IsTrimmable(c: char) {
    c <= ' '
  }

  /** `s` without its leading trimmable characters. */
  function TrimStart(s: string): string
    decreases |s|
  {
    if |s| > 0 && IsTrimmable(s[0]) then TrimStart(s[1..]) else s
  }

  /** `s` without its trailing trimmable characters. */
  function TrimEnd(s: string): string
    decreases |s|
  {
    if |s| > 0 && IsTrimmable(s[|s| - 1]) then TrimEnd(s[..|s| - 1]) else s
  }

  /** Java's `String.trim`: both ends stripped. */
  function Trim(s: string): string {
    TrimEnd(TrimStart(s))
  }

  /** Stripping the front keeps a suffix of `s`, removes only trimmable characters
      and stops at the first character that is not trimmable. */
  lemma {:induction false} TrimStartSpec(s: string)
    ensures var r := TrimStart(s);
      && |r| <= |s| && r == s[|s| - |r|..]
      && (r == [] || !IsTrimmable(r[0]))
      && (forall i :: 0 <= i < |s| - |r| ==> IsTrimmable(s[i]))
    decreases |s|
  {
    if |s| > 0 && IsTrimmable(s[0]) {
      TrimStartSpec(s[1..]);
    }
  }

  /** Stripping the back keeps a prefix of `s`, removes only trimmable characters
      and stops at the last character that is not trimmable. */
  lemma {:induction false} TrimEndSpec(s: string)
    ensures var r := TrimEnd(s);
      && |r| <= |s| && r == s[..|r|]
      && (r == [] || !IsTrimmable(r[|r| - 1]))
      && (forall i :: |r| <= i < |s| ==> IsTrimmable(s[i]))
    decreases |s|
  {
    if |s| > 0 && IsTrimmable(s[|s| - 1]) {
      TrimEndSpec(s[..|s| - 1]);
    }
  }

  /** The `@NotBlank` constraint: present, and non-empty once trimmed. */
  predicate NotBlank(z: Option<string>) {
    z.Some? && |Trim(z.value)| > 0
  }

  /** A string is blank exactly when every one of its characters is trimmable. */
  lemma NotBlankIff(s: string)
    ensures NotBlank(Some(s)) <==> exists i :: 0 <= i < |s| && !IsTrimmable(s[i])
  {
    var t := TrimStart(s);
    TrimStartSpec(s);
    TrimEndSpec(t);
    if i :| 0 <= i < |s| && !IsTrimmable(s[i]) {
      assert |s| - |t| <= i;
      assert t[i - (|s| - |t|)] == s[i];
    }
  }

  /** A reading passes validation when its zone id is not blank and both numbers
      pass their `@Min` and `@Max` checks. */
  predicate ValidReading(r: SensorReading) {
    && NotBlank(r.zoneId)
    && AtLeast(r.temperature, MinTemperature) && AtMost(r.temperature, MaxTemperature)
    && AtLeast(r.humidity, MinHumidity) && AtMost(r.humidity, MaxHumidity)
  }

  /** Validation written out field by field, both directions: the numbers must lie
      in the open intervals (-51, 61) and (-1, 101). */
  lemma ValidReadingIff(r: SensorReading)
    ensures ValidReading(r) <==>
      r.zoneId.Some? && (exists i :: 0 <= i < |r.zoneId.value| && !IsTrimmable(r.zoneId.value[i]))
      && -51.0 < r.temperature < 61.0
      && -1.0 < r.humidity < 101.0
  {
    if r.zoneId.Some? {
      NotBlankIff(r.zoneId.value);
    }
    AtLeastIff(r.temperature, MinTemperature);
    AtMostIff(r.temperature, MaxTemperature);
    AtLeastIff(r.humidity, MinHumidity);
    AtMostIff(r.humidity, MaxHumidity);
  }

  /** The fractional edges: just past a declared bound a value still passes, a
      whole unit past it fails. */
  lemma FractionalEdges()
    ensures AtMost(60.5, MaxTemperature) && !AtMost(61.0, MaxTemperature)
    ensures AtLeast(-50.5, MinTemperature) && !AtLeast(-51.0, MinTemperature)
    ensures AtLeast(-0.5, MinHumidity) && !AtLeast(-1.0, MinHumidity)
    ensures AtMost(100.5, MaxHumidity) && !AtMost(101.0, MaxHumidity)
  {
    AtMostIff(60.5, MaxTemperature);
    AtMostIff(61.0, MaxTemperature);
    AtLeastIff(-50.5, MinTemperature);
    AtLeastIff(-51.0, MinTemperature);
    AtLeastIff(-0.5, MinHumidity);
    AtLeastIff(-1.0, MinHumidity);
    AtMostIff(100.5, MaxHumidity);
    AtMostIff(101.0, MaxHumidity);
  }

  /** The individual field constraints a reading can break. */
  datatype Constraint = ZoneIdNotBlank | TemperatureMin | TemperatureMax | HumidityMin | HumidityMax

  /** Whether the reading breaks constraint `c`. */
  predicate Breaks(r: SensorReading, c: Constraint) {
    match c
    case ZoneIdNotBlank => !NotBlank(r.zoneId)
    case TemperatureMin => !AtLeast(r.temperature, MinTemperature)
    case TemperatureMax => !AtMost(r.temperature, MaxTemperature)
    case HumidityMin => !AtLeast(r.humidity, MinHumidity)
    case HumidityMax => !AtMost(r.humidity, MaxHumidity)
  }

  /** Every constraint the reading breaks, as bean validation collects them: the
      reading is valid exactly when the set is empty, and each constraint is in the
      set exactly when its field breaks it. */
  function Violations(r: SensorReading): (v: set<Constraint>)
    ensures v == {} <==> ValidReading(r)
    ensures ZoneIdNotBlank in v <==> !NotBlank(r.zoneId)
    ensures TemperatureMin in v <==> r.temperature <= (MinTemperature - 1) as real
    ensures TemperatureMax in v <==> r.temperature >= (MaxTemperature + 1) as real
    ensures HumidityMin in v <==> r.humidity <= (MinHumidity - 1) as real
    ensures HumidityMax in v <==> r.humidity >= (MaxHumidity + 1) as real
  {
    AtLeastIff(r.temperature, MinTemperature);
    AtMostIff(r.temperature, MaxTemperature);
    AtLeastIff(r.humidity, MinHumidity);
    AtMostIff(r.humidity, MaxHumidity);
    var all := {ZoneIdNotBlank, TemperatureMin, TemperatureMax, HumidityMin, HumidityMax};
    var v := set c | c in all && Breaks(r, c);
    assert forall c: Constraint :: c in v <==> Breaks(r, c);
    assert ValidReading(r) <==>
      !Breaks(r, ZoneIdNotBlank) && !Breaks(r, TemperatureMin) && !Breaks(r, TemperatureMax)
      && !Breaks(r, HumidityMin) && !Breaks(r, HumidityMax);
    v
  }

  /** Readings are kept by the handler only when validation passed; a valid reading
      therefore always has a zone id to be stored under. */
  function ZoneOf(r: SensorReading): string
    requires ValidReading(r)
  {
    r.zoneId.value
  }

  /** The alert rule: hotter than 40 degrees or colder than -10 degrees, both
      bounds exclusive and compared on the full `double`, not cut toward zero; a
      valid reading can thus only be extreme in (-51, -10) or (40, 61). */
  const ExtremeHigh: real := 40.0
  const ExtremeLow: real := -10.0

  predicate IsExtreme(r: SensorReading) {
    r.temperature > ExtremeHigh || r.temperature < ExtremeLow
  }
}
