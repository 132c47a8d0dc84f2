/** What a reader of a line gets, written out name by name and number by number:
  * src/output/influxdb.rs.
  */
module FieldTable {
  import opened Common
  import opened InfluxDb
  import opened LineProtocol
  import opened MacAddresses
  import opened Measurements
  import opened Text

  /** The value under a name, the first one if there are more. */
  function Lookup(pairs: seq<Pair>, name: string): Option<string> {
    if pairs == [] then None
    else if pairs[0].0 == name then Some(pairs[0].1)
    else Lookup(pairs[1..], name)
  }

  // The names of the fields, in the order they are written, and what stands under them.

  const CLIMATE: seq<string> := ["temperature", "humidity", "pressure", "battery_potential"]
  const COUNTERS: seq<string> := ["tx_power", "movement_counter", "measurement_sequence_number"]
  const PARTICLES: seq<string> := ["pm1_0", "pm2_5", "pm4_0", "pm10_0"]
  const AIR: seq<string> := ["co2", "voc_index", "nox_index", "luminosity"]
  const AXES: seq<string> := ["acceleration_x", "acceleration_y", "acceleration_z"]

  const FIELD_NAMES: seq<string> := CLIMATE + COUNTERS + PARTICLES + AIR + AXES

  /** The display of what was measured. */
  function Displayed(show: Display, value: Option<real>): Option<string> {
    if value == None then None else Some(show(value.value))
  }

  function DisplayedInt(show: Display, value: Option<int>): Option<string> {
    if value == None then None else Some(show(value.value as real))
  }

  function ClimateValues(show: Display, m: Measurement): (vs: seq<Option<string>>)
    ensures |vs| == 4
  {
    [Displayed(show, m.temperature), Displayed(show, m.humidity),
     if m.pressure == None then None else Some(show(m.pressure.value / 1000.0)), Displayed(show, m.battery)]
  }

  function CounterValues(show: Display, m: Measurement): (vs: seq<Option<string>>)
    ensures |vs| == 3
  {
    [DisplayedInt(show, m.txPower), DisplayedInt(show, m.movementCounter), DisplayedInt(show, m.measurementSequence)]
  }

  function ParticleValues(show: Display, m: Measurement): (vs: seq<Option<string>>)
    ensures |vs| == 4
  {
    [Displayed(show, m.pm1), Displayed(show, m.pm25), Displayed(show, m.pm4), Displayed(show, m.pm10)]
  }

  function AirValues(show: Display, m: Measurement): (vs: seq<Option<string>>)
    ensures |vs| == 4
  {
    [Displayed(show, m.co2), Displayed(show, m.vocIndex), Displayed(show, m.noxIndex), Displayed(show, m.luminosity)]
  }

  function AxisValues(show: Display, m: Measurement): (vs: seq<Option<string>>)
    ensures |vs| == 3
  {
    if m.acceleration == None then [None, None, None]
    else
      var (x, y, z) := m.acceleration.value;
      [Some(show(x)), Some(show(y)), Some(show(z))]
  }

  function Values(show: Display, m: Measurement): (vs: seq<Option<string>>)
    ensures |vs| == 18
  {
    ClimateValues(show, m) + CounterValues(show, m) + ParticleValues(show, m) + AirValues(show, m) + AxisValues(show, m)
  }

  /** The present values with their names. */
  function Present(names: seq<string>, values: seq<Option<string>>): seq<Pair>
    requires |names| == |values|
  {
    if names == [] then [] else Field(names[0], values[0]) + Present(names[1..], values[1..])
  }

  // ---------------------------------------------------------------------
  // The fields follow the table
  // ---------------------------------------------------------------------

  lemma {:induction false} PresentAppends(names: seq<string>, values: seq<Option<string>>,
                                          moreNames: seq<string>, moreValues: seq<Option<string>>)
    requires |names| == |values| && |moreNames| == |moreValues|
    ensures Present(names + moreNames, values + moreValues) == Present(names, values) + Present(moreNames, moreValues)
  {
    if names == [] {
      assert names + moreNames == moreNames && values + moreValues == moreValues;
    } else {
      var n, v := names + moreNames, values + moreValues;
      PresentAppends(names[1..], values[1..], moreNames, moreValues);
      assert n[1..] == names[1..] + moreNames && v[1..] == values[1..] + moreValues;
      Regroup(Field(names[0], values[0]), Present(names[1..], values[1..]), Present(moreNames, moreValues));
    }
  }

  lemma PresentThree(n: seq<string>, v: seq<Option<string>>)
    requires |n| == |v| == 3
    ensures Present(n, v) == Field(n[0], v[0]) + Field(n[1], v[1]) + Field(n[2], v[2])
  {
    assert n[1..][1..] == n[2..] && v[1..][1..] == v[2..] && n[2..][1..] == [] && v[2..][1..] == [];
    assert Present(n[2..], v[2..]) == Field(n[2], v[2]);
    assert Present(n[1..], v[1..]) == Field(n[1], v[1]) + Present(n[2..], v[2..]);
  }

  lemma PresentFour(n: seq<string>, v: seq<Option<string>>)
    requires |n| == |v| == 4
    ensures Present(n, v) == Field(n[0], v[0]) + Field(n[1], v[1]) + Field(n[2], v[2]) + Field(n[3], v[3])
  {
    PresentThree(n[1..], v[1..]);
  }

  lemma ClimateIsPresent(before: seq<Pair>, show: Display, m: Measurement)
    ensures WithClimate(before, show, m) == before + Present(CLIMATE, ClimateValues(show, m))
  {
    var n, v := CLIMATE, ClimateValues(show, m);
    PresentFour(n, v);
    assert v[0] == Shown(show, m.temperature) && v[1] == Shown(show, m.humidity);
    assert v[2] == ShownKilopascals(show, m.pressure) && v[3] == Shown(show, m.battery);
  }

  lemma CountersArePresent(before: seq<Pair>, show: Display, m: Measurement)
    ensures WithCounters(before, show, m) == before + Present(COUNTERS, CounterValues(show, m))
  {
    var n, v := COUNTERS, CounterValues(show, m);
    PresentThree(n, v);
  }

  lemma ParticlesArePresent(before: seq<Pair>, show: Display, m: Measurement)
    ensures WithParticles(before, show, m) == before + Present(PARTICLES, ParticleValues(show, m))
  {
    var n, v := PARTICLES, ParticleValues(show, m);
    PresentFour(n, v);
    assert v[0] == Shown(show, m.pm1) && v[1] == Shown(show, m.pm25);
    assert v[2] == Shown(show, m.pm4) && v[3] == Shown(show, m.pm10);
  }

  lemma AirIsPresent(before: seq<Pair>, show: Display, m: Measurement)
    ensures WithAir(before, show, m) == before + Present(AIR, AirValues(show, m))
  {
    var n, v := AIR, AirValues(show, m);
    PresentFour(n, v);
    assert v[0] == Shown(show, m.co2) && v[1] == Shown(show, m.vocIndex);
    assert v[2] == Shown(show, m.noxIndex) && v[3] == Shown(show, m.luminosity);
  }

  lemma AccelerationIsPresent(show: Display, m: Measurement)
    ensures Acceleration(show, m.acceleration) == Present(AXES, AxisValues(show, m))
  {
    var n, v := AXES, AxisValues(show, m);
    PresentThree(n, v);
  }

  /** The concatenation of five groups. */
  lemma PresentGroups(n1: seq<string>, v1: seq<Option<string>>, n2: seq<string>, v2: seq<Option<string>>,
                      n3: seq<string>, v3: seq<Option<string>>, n4: seq<string>, v4: seq<Option<string>>,
                      n5: seq<string>, v5: seq<Option<string>>)
    requires |n1| == |v1| && |n2| == |v2| && |n3| == |v3| && |n4| == |v4| && |n5| == |v5|
    ensures Present(n1 + n2 + n3 + n4 + n5, v1 + v2 + v3 + v4 + v5)
         == Present(n1, v1) + Present(n2, v2) + Present(n3, v3) + Present(n4, v4) + Present(n5, v5)
  {
    PresentAppends(n1, v1, n2, v2);
    PresentAppends(n1 + n2, v1 + v2, n3, v3);
    PresentAppends(n1 + n2 + n3, v1 + v2 + v3, n4, v4);
    PresentAppends(n1 + n2 + n3 + n4, v1 + v2 + v3 + v4, n5, v5);
  }

  /** The fields are the present values under the names of the table, in its order. */
  lemma FieldsFollowTable(show: Display, m: Measurement)
    ensures Fields(show, m) == Present(FIELD_NAMES, Values(show, m))
  {
    var climate := WithClimate([], show, m);
    var counters := WithCounters(climate, show, m);
    ClimateIsPresent([], show, m);
    assert climate == Present(CLIMATE, ClimateValues(show, m));
    CountersArePresent(climate, show, m);
    ParticlesArePresent(counters, show, m);
    AirIsPresent(WithParticles(counters, show, m), show, m);
    AccelerationIsPresent(show, m);
    PresentGroups(CLIMATE, ClimateValues(show, m), COUNTERS, CounterValues(show, m),
                  PARTICLES, ParticleValues(show, m), AIR, AirValues(show, m), AXES, AxisValues(show, m));
  }

  // ---------------------------------------------------------------------
  // Looking up a name
  // ---------------------------------------------------------------------

  lemma NamesAreDistinct(names: seq<string>)
    requires names == FIELD_NAMES
    ensures |names| == 18 && forall i, j | 0 <= i < j < |names| :: names[i] != names[j]
  {
  }

  lemma {:induction false} LookupMissing(names: seq<string>, values: seq<Option<string>>, name: string)
    requires |names| == |values| && forall i | 0 <= i < |names| :: names[i] != name
    ensures Lookup(Present(names, values), name) == None
  {
    if names != [] {
      LookupMissing(names[1..], values[1..], name);
      LookupAfter(names, values, name);
    }
  }

  /** The first row counts only under its own name, and only if it is present. */
  lemma LookupAfter(names: seq<string>, values: seq<Option<string>>, name: string)
    requires |names| == |values| > 0
    ensures Lookup(Present(names, values), name) ==
      if names[0] == name && values[0].Some? then values[0] else Lookup(Present(names[1..], values[1..]), name)
  {
    if values[0].Some? {
      assert Present(names, values)[1..] == Present(names[1..], values[1..]);
    } else {
      assert Present(names, values) == Present(names[1..], values[1..]);
    }
  }

  /** Under distinct names each lookup gives the value of its row. */
  lemma {:induction false} LookupPresent(names: seq<string>, values: seq<Option<string>>, k: nat)
    requires |names| == |values| && k < |names|
    requires forall i, j | 0 <= i < j < |names| :: names[i] != names[j]
    ensures Lookup(Present(names, values), names[k]) == values[k]
  {
    LookupAfter(names, values, names[k]);
    if k == 0 {
      LookupMissing(names[1..], values[1..], names[0]);
    } else {
      LookupPresent(names[1..], values[1..], k - 1);
    }
  }

  /** In each group of the table. */
  lemma LookupIn(show: Display, m: Measurement, names: seq<string>, start: nat, group: seq<string>,
                 values: seq<Option<string>>, k: nat)
    requires names == FIELD_NAMES && |group| == |values| && k < |group| && start + |group| <= |names| == 18
    requires names[start..start + |group|] == group && Values(show, m)[start..start + |group|] == values
    ensures Lookup(Fields(show, m), group[k]) == values[k]
  {
    NamesAreDistinct(names);
    FieldsFollowTable(show, m);
    LookupPresent(names, Values(show, m), start + k);
    assert group[k] == names[start..start + |group|][k] == names[start + k];
    assert values[k] == Values(show, m)[start..start + |group|][k];
  }

  // Under each name stands the display of what was measured, or nothing.

  ghost predicate ClimateTells(show: Display, fields: seq<Pair>, m: Measurement) {
    && Lookup(fields, "temperature") == Displayed(show, m.temperature)
    && Lookup(fields, "humidity") == Displayed(show, m.humidity)
    && Lookup(fields, "pressure") == (if m.pressure == None then None else Some(show(m.pressure.value / 1000.0)))
    && Lookup(fields, "battery_potential") == Displayed(show, m.battery)
  }

  lemma ClimateExactly(show: Display, m: Measurement)
    ensures ClimateTells(show, Fields(show, m), m)
  {
    var names, group, values := FIELD_NAMES, CLIMATE, ClimateValues(show, m);
    assert names[0..4] == group && Values(show, m)[0..4] == values;
    LookupIn(show, m, names, 0, group, values, 0);
    LookupIn(show, m, names, 0, group, values, 1);
    LookupIn(show, m, names, 0, group, values, 2);
    LookupIn(show, m, names, 0, group, values, 3);
  }

  ghost predicate CountersTell(show: Display, fields: seq<Pair>, m: Measurement) {
    && Lookup(fields, "tx_power") == DisplayedInt(show, m.txPower)
    && Lookup(fields, "movement_counter") == DisplayedInt(show, m.movementCounter)
    && Lookup(fields, "measurement_sequence_number") == DisplayedInt(show, m.measurementSequence)
  }

  lemma CountersExactly(show: Display, m: Measurement)
    ensures CountersTell(show, Fields(show, m), m)
  {
    var names, group, values := FIELD_NAMES, COUNTERS, CounterValues(show, m);
    assert names[4..7] == group && Values(show, m)[4..7] == values;
    LookupIn(show, m, names, 4, group, values, 0);
    LookupIn(show, m, names, 4, group, values, 1);
    LookupIn(show, m, names, 4, group, values, 2);
  }

  ghost predicate ParticlesTell(show: Display, fields: seq<Pair>, m: Measurement) {
    && Lookup(fields, "pm1_0") == Displayed(show, m.pm1)
    && Lookup(fields, "pm2_5") == Displayed(show, m.pm25)
    && Lookup(fields, "pm4_0") == Displayed(show, m.pm4)
    && Lookup(fields, "pm10_0") == Displayed(show, m.pm10)
  }

  lemma ParticlesExactly(show: Display, m: Measurement)
    ensures ParticlesTell(show, Fields(show, m), m)
  {
    var names, group, values := FIELD_NAMES, PARTICLES, ParticleValues(show, m);
    assert names[7..11] == group && Values(show, m)[7..11] == values;
    LookupIn(show, m, names, 7, group, values, 0);
    LookupIn(show, m, names, 7, group, values, 1);
    LookupIn(show, m, names, 7, group, values, 2);
    LookupIn(show, m, names, 7, group, values, 3);
  }

  ghost predicate AirTells(show: Display, fields: seq<Pair>, m: Measurement) {
    && Lookup(fields, "co2") == Displayed(show, m.co2)
    && Lookup(fields, "voc_index") == Displayed(show, m.vocIndex)
    && Lookup(fields, "nox_index") == Displayed(show, m.noxIndex)
    && Lookup(fields, "luminosity") == Displayed(show, m.luminosity)
  }

  lemma AirExactly(show: Display, m: Measurement)
    ensures AirTells(show, Fields(show, m), m)
  {
    var names, group, values := FIELD_NAMES, AIR, AirValues(show, m);
    assert names[11..15] == group && Values(show, m)[11..15] == values;
    LookupIn(show, m, names, 11, group, values, 0);
    LookupIn(show, m, names, 11, group, values, 1);
    LookupIn(show, m, names, 11, group, values, 2);
    LookupIn(show, m, names, 11, group, values, 3);
  }

  ghost predicate AccelerationTells(show: Display, fields: seq<Pair>, m: Measurement) {
    match m.acceleration
    case None =>
      Lookup(fields, "acceleration_x") == None && Lookup(fields, "acceleration_y") == None &&
      Lookup(fields, "acceleration_z") == None
    case Some((x, y, z)) =>
      Lookup(fields, "acceleration_x") == Some(show(x)) && Lookup(fields, "acceleration_y") == Some(show(y)) &&
      Lookup(fields, "acceleration_z") == Some(show(z))
  }

  lemma AccelerationExactly(show: Display, m: Measurement)
    ensures AccelerationTells(show, Fields(show, m), m)
  {
    var names, group, values := FIELD_NAMES, AXES, AxisValues(show, m);
    assert names[15..18] == group && Values(show, m)[15..18] == values;
    LookupIn(show, m, names, 15, group, values, 0);
    LookupIn(show, m, names, 15, group, values, 1);
    LookupIn(show, m, names, 15, group, values, 2);
  }

  // ---------------------------------------------------------------------
  // Whole lines
  // ---------------------------------------------------------------------

  /** Something was measured that has a field. */
  predicate HasField(m: Measurement) {
    m.temperature.Some? || m.humidity.Some? || m.pressure.Some? || m.battery.Some? || m.txPower.Some? ||
    m.movementCounter.Some? || m.measurementSequence.Some? || m.pm1.Some? || m.pm25.Some? || m.pm4.Some? ||
    m.pm10.Some? || m.co2.Some? || m.vocIndex.Some? || m.noxIndex.Some? || m.luminosity.Some? || m.acceleration.Some?
  }

  lemma FieldsWhenMeasured(show: Display, m: Measurement)
    ensures Fields(show, m) != [] <==> HasField(m)
  {
  }

  /** What a reader should find in the fields. */
  ghost predicate FieldsTell(show: Display, fields: seq<Pair>, m: Measurement) {
    ClimateTells(show, fields, m) && CountersTell(show, fields, m) && ParticlesTell(show, fields, m) &&
    AirTells(show, fields, m) && AccelerationTells(show, fields, m)
  }

  /** What a reader should find in a line. */
  ghost predicate Tells(show: Display, line: Line, measurement: string, m: Measurement, name: string) {
    && line.measurement == measurement && line.tags == [("mac", Print(m.mac)), ("name", name)]
    && FieldsTell(show, line.fields, m) && line.timestamp == if m.timestamp < 0 then 0 else m.timestamp
  }

  lemma FieldsExactly(show: Display, m: Measurement)
    ensures FieldsTell(show, Fields(show, m), m)
  {
    ClimateExactly(show, m);
    CountersExactly(show, m);
    ParticlesExactly(show, m);
    AirExactly(show, m);
    AccelerationExactly(show, m);
  }

  /** What was meant is what a reader should find. */
  lemma MeaningTells(show: Display, measurement: string, m: Measurement, name: string)
    ensures Tells(show, Meaning(show, measurement, m, name), measurement, m, name)
  {
    FieldsExactly(show, m);
  }

  /** A line can be read if something was measured and neither name ends in a backslash; the reader finds the names, the
    * address, every quantity under its own name, and the time.
    */
  lemma LineTells(show: Display, measurement: string, m: Measurement, name: string)
    requires IsDisplay(show) && HasField(m) && !EndsInBackslash(measurement) && !EndsInBackslash(name)
    ensures var line := ReadLine(FormatLine(show, measurement, m, name));
            line.Some? && Tells(show, line.value, measurement, m, name)
  {
    FieldsWhenMeasured(show, m);
    LineRoundTrip(show, measurement, m, name);
    MeaningTells(show, measurement, m, name);
  }

  /** The text of a line, for names without special characters. */
  lemma LineInFull(show: Display, measurement: string, m: Measurement, name: string)
    requires forall c <- measurement :: c != ',' && c != ' '
    requires forall c <- name :: c != ',' && c != '=' && c != ' '
    ensures FormatLine(show, measurement, m, name) ==
      measurement + ",mac=" + Print(m.mac) + ",name=" + name + " " + FieldText(Fields(show, m)) + " " +
      Decimal(if m.timestamp < 0 then 0 else m.timestamp)
  {
    assert !NeedsEscape(NAME_SPECIALS, measurement) && !NeedsEscape(TAG_SPECIALS, name);
    EscapeIsIdentityWhenPlain(NAME_SPECIALS, measurement);
    EscapeIsIdentityWhenPlain(TAG_SPECIALS, name);
  }

  /** The text of the fields, for a measurement of two quantities. */
  lemma FieldsInFull(show: Display, m: Measurement)
    requires m.temperature.Some? && m.humidity.Some? && m.pressure.None? && m.battery.None? && m.txPower.None?
    requires m.movementCounter.None? && m.measurementSequence.None? && m.pm1.None? && m.pm25.None? && m.pm4.None?
    requires m.pm10.None? && m.co2.None? && m.vocIndex.None? && m.noxIndex.None? && m.luminosity.None?
    requires m.acceleration.None?
    ensures FieldText(Fields(show, m)) ==
      "temperature=" + show(m.temperature.value) + ",humidity=" + show(m.humidity.value)
  {
    TwoFields(show, m);
    TextOfTwo(("temperature", show(m.temperature.value)), ("humidity", show(m.humidity.value)));
    assert "temperature" + "=" == "temperature=";
    assert ",humidity=" == "," + "humidity" + "=";
  }

  lemma TwoFields(show: Display, m: Measurement)
    requires m.temperature.Some? && m.humidity.Some? && m.pressure.None? && m.battery.None? && m.txPower.None?
    requires m.movementCounter.None? && m.measurementSequence.None? && m.pm1.None? && m.pm25.None? && m.pm4.None?
    requires m.pm10.None? && m.co2.None? && m.vocIndex.None? && m.noxIndex.None? && m.luminosity.None?
    requires m.acceleration.None?
    ensures Fields(show, m) == [("temperature", show(m.temperature.value)), ("humidity", show(m.humidity.value))]
  {
  }

  lemma TextOfTwo(a: Pair, b: Pair)
    ensures FieldText([a, b]) == a.0 + "=" + a.1 + "," + b.0 + "=" + b.1
  {
    assert Front([a, b]) == [a] && Front([a]) == [];
    assert FieldText([a]) == KeyValue(a);
  }
}
