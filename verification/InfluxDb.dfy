/** The line protocol formatter of src/output/influxdb.rs, proved against the
  * tokenizer of LineProtocol.
  */
module InfluxDb {
  import opened Common
  import opened LineProtocol
  import opened MacAddresses
  import opened Measurements
  import opened Text

  /** How a floating-point number is displayed; not part of this model. */
  type Display = real -> string

  /** A displayed number is not empty and has no separator. */
  ghost predicate IsDisplay(show: Display) {
    forall v: real :: show(v) != [] && Plain(show(v)) && '\n' !in show(v)
  }

  class Buffer {
    var text: string

    constructor ()
      ensures text == []
    {
      text := [];
    }

    method PushStr(s: string)
      modifies this
      ensures text == old(text) + s
    {
      text := text + s;
    }
  }

  // ---------------------------------------------------------------------
  // What a line says
  // ---------------------------------------------------------------------

  function Kilopascals(pascals: real): real {
    pascals / 1000.0
  }

  /** A present field as a pair of its name and its displayed value. */
  function Field(name: string, value: Option<string>): seq<Pair> {
    match value
    case None => []
    case Some(v) => [(name, v)]
  }

  function Shown(show: Display, value: Option<real>): Option<string> {
    match value
    case None => None
    case Some(v) => Some(show(v))
  }

  function ShownInt(show: Display, value: Option<int>): Option<string> {
    match value
    case None => None
    case Some(v) => Some(show(v as real))
  }

  function ShownKilopascals(show: Display, value: Option<real>): Option<string> {
    match value
    case None => None
    case Some(v) => Some(show(Kilopascals(v)))
  }

  /** The acceleration is present or absent as a whole. */
  function Acceleration(show: Display, value: Option<(real, real, real)>): seq<Pair> {
    match value
    case None => []
    case Some((x, y, z)) => [("acceleration_x", show(x)), ("acceleration_y", show(y)), ("acceleration_z", show(z))]
  }

  function WithClimate(before: seq<Pair>, show: Display, m: Measurement): seq<Pair> {
    before +
    Field("temperature", Shown(show, m.temperature)) +
    Field("humidity", Shown(show, m.humidity)) +
    Field("pressure", ShownKilopascals(show, m.pressure)) +
    Field("battery_potential", Shown(show, m.battery))
  }

  function WithCounters(before: seq<Pair>, show: Display, m: Measurement): seq<Pair> {
    before +
    Field("tx_power", ShownInt(show, m.txPower)) +
    Field("movement_counter", ShownInt(show, m.movementCounter)) +
    Field("measurement_sequence_number", ShownInt(show, m.measurementSequence))
  }

  function WithParticles(before: seq<Pair>, show: Display, m: Measurement): seq<Pair> {
    before +
    Field("pm1_0", Shown(show, m.pm1)) +
    Field("pm2_5", Shown(show, m.pm25)) +
    Field("pm4_0", Shown(show, m.pm4)) +
    Field("pm10_0", Shown(show, m.pm10))
  }

  function WithAir(before: seq<Pair>, show: Display, m: Measurement): seq<Pair> {
    before +
    Field("co2", Shown(show, m.co2)) +
    Field("voc_index", Shown(show, m.vocIndex)) +
    Field("nox_index", Shown(show, m.noxIndex)) +
    Field("luminosity", Shown(show, m.luminosity))
  }

  /** The present fields, in the order they are written. */
  function Fields(show: Display, m: Measurement): seq<Pair> {
    WithAir(WithParticles(WithCounters(WithClimate([], show, m), show, m), show, m), show, m) +
    Acceleration(show, m.acceleration)
  }

  /** name=value pairs between commas, values as they are. */
  function FieldText(fields: seq<Pair>): string {
    if fields == [] then []
    else FieldText(Front(fields)) + (Separator(Front(fields)) + KeyValue(Last(fields)))
  }

  function KeyValue(pair: Pair): string {
    pair.0 + "=" + pair.1
  }

  function Separator(before: seq<Pair>): string {
    if before == [] then "" else ","
  }

  /** A timestamp before the epoch is written as 0. */
  function Nanos(timestamp: int): nat {
    if timestamp < 0 then 0 else timestamp
  }

  /** The line for a measurement. */
  function FormatLine(show: Display, measurement: string, m: Measurement, name: string): string {
    Escape(NAME_SPECIALS, measurement) + ",mac=" + Print(m.mac) + ",name=" + Escape(TAG_SPECIALS, name) + " " +
    FieldText(Fields(show, m)) + " " + Decimal(Nanos(m.timestamp))
  }

  // ---------------------------------------------------------------------
  // The formatter
  // ---------------------------------------------------------------------

  method WriteMeasurementName(buf: Buffer, s: string, needsEscape: bool)
    requires needsEscape == NeedsEscape(NAME_SPECIALS, s)
    modifies buf
    ensures buf.text == old(buf.text) + Escape(NAME_SPECIALS, s)
  {
    if needsEscape {
      for i := 0 to |s|
        invariant buf.text == old(buf.text) + Escape(NAME_SPECIALS, s[..i])
      {
        EscapeAppends(NAME_SPECIALS, s[..i], s[i]);
        assert s[..i + 1] == s[..i] + [s[i]];
        match s[i]
        case ',' => buf.PushStr("\\,");
        case ' ' => buf.PushStr("\\ ");
        case ch => buf.PushStr([ch]);
      }
      assert s[..|s|] == s;
    } else {
      buf.PushStr(s);
      EscapeIsIdentityWhenPlain(NAME_SPECIALS, s);
    }
  }

  method WriteTagValue(buf: Buffer, s: string)
    modifies buf
    ensures buf.text == old(buf.text) + Escape(TAG_SPECIALS, s)
  {
    if NeedsEscape(TAG_SPECIALS, s) {
      for i := 0 to |s|
        invariant buf.text == old(buf.text) + Escape(TAG_SPECIALS, s[..i])
      {
        EscapeAppends(TAG_SPECIALS, s[..i], s[i]);
        assert s[..i + 1] == s[..i] + [s[i]];
        match s[i]
        case ',' => buf.PushStr("\\,");
        case '=' => buf.PushStr("\\=");
        case ' ' => buf.PushStr("\\ ");
        case ch => buf.PushStr([ch]);
      }
      assert s[..|s|] == s;
    } else {
      buf.PushStr(s);
      EscapeIsIdentityWhenPlain(TAG_SPECIALS, s);
    }
  }

  method WriteTags(buf: Buffer, m: Measurement, name: string)
    modifies buf
    ensures buf.text == old(buf.text) + ",mac=" + Print(m.mac) + ",name=" + Escape(TAG_SPECIALS, name)
  {
    buf.PushStr(",mac=");
    buf.PushStr(Print(m.mac));
    buf.PushStr(",name=");
    WriteTagValue(buf, name);
  }

  /** The write_field macro. `written` are the fields that `buf` holds after `start`. */
  method WriteField(buf: Buffer, first: bool, name: string, value: Option<string>,
                    ghost start: string, ghost written: seq<Pair>)
    returns (first': bool, ghost written': seq<Pair>)
    requires first == (written == []) && buf.text == start + FieldText(written)
    modifies buf
    ensures written' == written + Field(name, value)
    ensures first' == (written' == []) && buf.text == start + FieldText(written')
  {
    first', written' := first, written + Field(name, value);
    if value.Some? {
      FieldTextAppends(start, written, (name, value.value));
      if first {
        first' := false;
      } else {
        buf.PushStr(",");
      }
      buf.PushStr(KeyValue((name, value.value)));
      assert written == [] ==> start + FieldText(written) + "" == start + FieldText(written);
    } else {
      assert written + [] == written;
    }
  }

  lemma FieldTextAppends(start: string, fields: seq<Pair>, pair: Pair)
    ensures start + FieldText(fields + [pair]) == start + FieldText(fields) + Separator(fields) + KeyValue(pair)
  {
  }

  method WriteFields(buf: Buffer, show: Display, m: Measurement)
    modifies buf
    ensures buf.text == old(buf.text) + FieldText(Fields(show, m))
  {
    ghost var start := buf.text;
    ghost var fs: seq<Pair> := [];
    var first := true;
    first, fs := WriteField(buf, first, "temperature", Shown(show, m.temperature), start, fs);
    first, fs := WriteField(buf, first, "humidity", Shown(show, m.humidity), start, fs);
    first, fs := WriteField(buf, first, "pressure", ShownKilopascals(show, m.pressure), start, fs);
    first, fs := WriteField(buf, first, "battery_potential", Shown(show, m.battery), start, fs);
    first, fs := WriteField(buf, first, "tx_power", ShownInt(show, m.txPower), start, fs);
    first, fs := WriteField(buf, first, "movement_counter", ShownInt(show, m.movementCounter), start, fs);
    first, fs := WriteField(buf, first, "measurement_sequence_number", ShownInt(show, m.measurementSequence),
                            start, fs);
    first, fs := WriteField(buf, first, "pm1_0", Shown(show, m.pm1), start, fs);
    first, fs := WriteField(buf, first, "pm2_5", Shown(show, m.pm25), start, fs);
    first, fs := WriteField(buf, first, "pm4_0", Shown(show, m.pm4), start, fs);
    first, fs := WriteField(buf, first, "pm10_0", Shown(show, m.pm10), start, fs);
    first, fs := WriteField(buf, first, "co2", Shown(show, m.co2), start, fs);
    first, fs := WriteField(buf, first, "voc_index", Shown(show, m.vocIndex), start, fs);
    first, fs := WriteField(buf, first, "nox_index", Shown(show, m.noxIndex), start, fs);
    first, fs := WriteField(buf, first, "luminosity", Shown(show, m.luminosity), start, fs);
    WriteAcceleration(buf, first, show, m.acceleration, start, fs);
  }

  method WriteAcceleration(buf: Buffer, first: bool, show: Display, value: Option<(real, real, real)>,
                           ghost start: string, ghost written: seq<Pair>)
    requires first == (written == []) && buf.text == start + FieldText(written)
    modifies buf
    ensures buf.text == start + FieldText(written + Acceleration(show, value))
  {
    if value.Some? {
      var (x, y, z) := value.value;
      AccelerationText(start, written, show(x), show(y), show(z));
      assert written == [] ==> buf.text + "" == buf.text;
      if !first {
        buf.PushStr(",");
      }
      buf.PushStr(AccelerationKeyValues(show(x), show(y), show(z)));
    } else {
      assert written + [] == written;
    }
  }

  function AccelerationKeyValues(x: string, y: string, z: string): string {
    KeyValue(("acceleration_x", x)) + "," + KeyValue(("acceleration_y", y)) + "," + KeyValue(("acceleration_z", z))
  }

  lemma AccelerationText(start: string, before: seq<Pair>, x: string, y: string, z: string)
    ensures start + FieldText(before + [("acceleration_x", x), ("acceleration_y", y), ("acceleration_z", z)])
         == start + FieldText(before) + Separator(before) + AccelerationKeyValues(x, y, z)
  {
    var a, b, c := ("acceleration_x", x), ("acceleration_y", y), ("acceleration_z", z);
    assert before + [a, b, c] == before + [a] + [b] + [c];
    ThreeFields(start, before, a, b, c);
  }

  lemma ThreeFields(start: string, before: seq<Pair>, a: Pair, b: Pair, c: Pair)
    ensures start + FieldText(before + [a] + [b] + [c])
         == start + FieldText(before) + Separator(before) + (KeyValue(a) + "," + KeyValue(b) + "," + KeyValue(c))
  {
    FieldTextAppends(start, before, a);
    AfterField(start, before, a, b);
    AfterField(start, before + [a], b, c);
    JoinThree(start + FieldText(before) + Separator(before), KeyValue(a), KeyValue(b), KeyValue(c),
              start + FieldText(before + [a]), start + FieldText(before + [a] + [b]));
  }

  lemma AfterField(start: string, before: seq<Pair>, a: Pair, b: Pair)
    ensures start + FieldText(before + [a] + [b]) == start + FieldText(before + [a]) + "," + KeyValue(b)
  {
    FieldTextAppends(start, before + [a], b);
  }

  lemma JoinThree(start: string, a: string, b: string, c: string, one: string, two: string)
    requires one == start + a && two == one + "," + b
    ensures two + "," + c == start + (a + "," + b + "," + c)
  {
  }

  /** Write the timestamp after a space. */
  method WriteTimestamp(buf: Buffer, timestamp: int)
    modifies buf
    ensures buf.text == old(buf.text) + " " + Decimal(Nanos(timestamp))
  {
    var nanos := if timestamp >= 0 then timestamp else 0;
    buf.PushStr(" ");
    buf.PushStr(Decimal(nanos));
  }

  /** The formatter remembers whether its measurement name needs escaping. */
  datatype InfluxDbFormatter = InfluxDbFormatter(measurementName: string, needsMeasurementEscape: bool) {
    predicate Valid() {
      needsMeasurementEscape == NeedsEscape(NAME_SPECIALS, measurementName)
    }

    method Format(show: Display, m: Measurement, name: string) returns (line: string)
      requires Valid()
      ensures line == FormatLine(show, measurementName, m, name)
    {
      var buf := new Buffer();
      WriteMeasurementName(buf, measurementName, needsMeasurementEscape);
      assert buf.text == Escape(NAME_SPECIALS, measurementName);
      WriteTags(buf, m, name);
      buf.PushStr(" ");
      WriteFields(buf, show, m);
      WriteTimestamp(buf, m.timestamp);
      line := buf.text;
    }
  }

  function NewFormatter(measurementName: string): (f: InfluxDbFormatter)
    ensures f.Valid() && f.measurementName == measurementName
  {
    InfluxDbFormatter(measurementName, NeedsEscape(NAME_SPECIALS, measurementName))
  }

  // ---------------------------------------------------------------------
  // Round trip
  // ---------------------------------------------------------------------

  function Tags(m: Measurement, name: string): seq<Pair> {
    [("mac", Print(m.mac)), ("name", name)]
  }

  /** What a reader should get from the line of a measurement. */
  function Meaning(show: Display, measurement: string, m: Measurement, name: string): Line {
    Line(measurement, Tags(m, name), Fields(show, m), Nanos(m.timestamp))
  }

  ghost predicate Clean(s: string) {
    Plain(s) && '\n' !in s
  }

  ghost predicate CleanPairs(pairs: seq<Pair>) {
    forall pair <- pairs :: Clean(pair.0) && Clean(pair.1)
  }

  lemma LettersAreClean(s: string)
    requires forall c <- s :: 'a' <= c <= 'z' || IsDigit(c) || c == '_'
    ensures Clean(s)
  {
  }

  lemma ClimateIsClean(before: seq<Pair>, show: Display, m: Measurement)
    requires IsDisplay(show) && CleanPairs(before)
    ensures CleanPairs(WithClimate(before, show, m))
  {
    LettersAreClean("temperature");
    LettersAreClean("humidity");
    LettersAreClean("pressure");
    LettersAreClean("battery_potential");
  }

  lemma CountersAreClean(before: seq<Pair>, show: Display, m: Measurement)
    requires IsDisplay(show) && CleanPairs(before)
    ensures CleanPairs(WithCounters(before, show, m))
  {
    LettersAreClean("tx_power");
    LettersAreClean("movement_counter");
    LettersAreClean("measurement_sequence_number");
  }

  lemma ParticlesAreClean(before: seq<Pair>, show: Display, m: Measurement)
    requires IsDisplay(show) && CleanPairs(before)
    ensures CleanPairs(WithParticles(before, show, m))
  {
    LettersAreClean("pm1_0");
    LettersAreClean("pm2_5");
    LettersAreClean("pm4_0");
    LettersAreClean("pm10_0");
  }

  lemma AirIsClean(before: seq<Pair>, show: Display, m: Measurement)
    requires IsDisplay(show) && CleanPairs(before)
    ensures CleanPairs(WithAir(before, show, m))
  {
    LettersAreClean("co2");
    LettersAreClean("voc_index");
    LettersAreClean("nox_index");
    LettersAreClean("luminosity");
  }

  lemma FieldsAreClean(show: Display, m: Measurement)
    requires IsDisplay(show)
    ensures CleanPairs(Fields(show, m))
  {
    var climate := WithClimate([], show, m);
    var counters := WithCounters(climate, show, m);
    var particles := WithParticles(counters, show, m);
    ClimateIsClean([], show, m);
    CountersAreClean(climate, show, m);
    ParticlesAreClean(counters, show, m);
    AirIsClean(particles, show, m);
    AccelerationIsClean(show, m.acceleration);
  }

  lemma AccelerationIsClean(show: Display, value: Option<(real, real, real)>)
    requires IsDisplay(show)
    ensures CleanPairs(Acceleration(show, value))
  {
    LettersAreClean("acceleration_x");
    LettersAreClean("acceleration_y");
    LettersAreClean("acceleration_z");
  }

  lemma HexByteIsClean(b: byte)
    ensures Clean(HexByte(b))
  {
  }

  lemma CleanColon(s: string, t: string)
    requires Clean(s) && Clean(t)
    ensures Clean(s + ":" + t)
  {
  }

  lemma PrintIsClean(mac: MacAddress)
    ensures Clean(Print(mac))
  {
    forall b: byte ensures Clean(HexByte(b)) {
      HexByteIsClean(b);
    }
    var two := HexByte(mac[0]) + ":" + HexByte(mac[1]);
    CleanColon(HexByte(mac[0]), HexByte(mac[1]));
    var three := two + ":" + HexByte(mac[2]);
    CleanColon(two, HexByte(mac[2]));
    var four := three + ":" + HexByte(mac[3]);
    CleanColon(three, HexByte(mac[3]));
    var five := four + ":" + HexByte(mac[4]);
    CleanColon(four, HexByte(mac[4]));
    CleanColon(five, HexByte(mac[5]));
  }

  /** Clean fields read the same written as they are or escaped. */
  lemma {:induction false} FieldTextIsWritten(fields: seq<Pair>)
    requires forall pair <- fields :: Plain(pair.1)
    ensures FieldText(fields) == WritePairs(fields)
  {
    if fields != [] {
      FieldTextIsWritten(Front(fields));
      WritePairsAppends(Front(fields), Last(fields));
      EscapeIsIdentityWhenPlain(TAG_SPECIALS, Last(fields).1);
      assert Front(fields) + [Last(fields)] == fields;
    }
  }

  /** What follows the measurement name and its comma, in the reader's terms. */
  function AfterName(show: Display, m: Measurement, name: string): string {
    WritePairs(Tags(m, name)) + " " + (WritePairs(Fields(show, m)) + " " + Decimal(Nanos(m.timestamp)))
  }

  lemma TagsText(m: Measurement, name: string)
    ensures WritePairs(Tags(m, name)) == "mac=" + Print(m.mac) + ",name=" + Escape(TAG_SPECIALS, name)
  {
    var mac, tag := ("mac", Print(m.mac)), ("name", name);
    PrintIsClean(m.mac);
    EscapeIsIdentityWhenPlain(TAG_SPECIALS, Print(m.mac));
    assert Tags(m, name)[1..] == [tag];
    assert WritePair(mac) == "mac=" + Print(m.mac) && "," + WritePair(tag) == ",name=" + Escape(TAG_SPECIALS, name);
    Regroup(WritePair(mac), ",", WritePair(tag));
    Regroup("mac=" + Print(m.mac), ",name=", Escape(TAG_SPECIALS, name));
  }

  lemma RegroupLine(measurement: string, mac: string, name: string, fields: string, digits: string)
    ensures measurement + ",mac=" + mac + ",name=" + name + " " + fields + " " + digits
         == measurement + [','] + ("mac=" + mac + ",name=" + name + " " + (fields + " " + digits))
  {
  }

  lemma LineShape(show: Display, measurement: string, m: Measurement, name: string)
    requires IsDisplay(show)
    ensures FormatLine(show, measurement, m, name) ==
      Escape(NAME_SPECIALS, measurement) + [','] + AfterName(show, m, name)
  {
    FieldsAreClean(show, m);
    FieldTextIsWritten(Fields(show, m));
    TagsText(m, name);
    RegroupLine(Escape(NAME_SPECIALS, measurement), Print(m.mac), Escape(TAG_SPECIALS, name),
            FieldText(Fields(show, m)), Decimal(Nanos(m.timestamp)));
  }

  lemma TagKeysArePlain()
    ensures Plain("mac") && Plain("name")
  {
    LettersAreClean("mac");
    LettersAreClean("name");
  }

  /** Fields and timestamp are read back exactly when there is a field. */
  lemma ReadFieldsBack(measurement: string, tags: seq<Pair>, fields: seq<Pair>, timestamp: nat)
    requires CleanPairs(fields)
    ensures ReadFields(measurement, tags, WritePairs(fields) + " " + Decimal(timestamp))
         == if fields == [] then None else Some(Line(measurement, tags, fields, timestamp))
  {
    var digits := Decimal(timestamp);
    if fields == [] {
      assert WritePairs(fields) + " " + digits == " " + digits;
      assert ReadToken(TAG_SPECIALS, " " + digits) == ("", " " + digits);
    } else {
      ReadWrittenPairs(fields, digits);
      assert (" " + digits)[1..] == digits;
      ReadDecimal(timestamp);
    }
  }

  /** Reading tags, fields and timestamp back, when the name allows it. */
  lemma ReadAfterName(show: Display, m: Measurement, name: string)
    requires IsDisplay(show) && !EndsInBackslash(name)
    ensures ReadPairs(AfterName(show, m, name)) ==
            Some((Tags(m, name), " " + (WritePairs(Fields(show, m)) + " " + Decimal(Nanos(m.timestamp)))))
  {
    TagKeysArePlain();
    PrintIsClean(m.mac);
    ReadWrittenPairs(Tags(m, name), WritePairs(Fields(show, m)) + " " + Decimal(Nanos(m.timestamp)));
  }

  /** A name that ends in a backslash swallows the space after it. */
  lemma MisreadAfterName(show: Display, m: Measurement, name: string)
    requires IsDisplay(show) && EndsInBackslash(name)
    ensures var r := ReadPairs(AfterName(show, m, name)); r.Some? ==> r.value.0 != Tags(m, name)
  {
    var rest := WritePairs(Fields(show, m)) + " " + Decimal(Nanos(m.timestamp));
    var tags := Tags(m, name);
    TagKeysArePlain();
    PrintIsClean(m.mac);
    WritePairsFirst(tags, rest);
    assert tags[1..] == [tags[1]];
    MisreadValue(tags[1], rest);
    ReadPairThenMore(tags[0], ',', WritePair(tags[1]) + " " + rest);
  }

  /** A measurement name that ends in a backslash swallows the comma after it. */
  lemma MisreadMeasurement(measurement: string, after: string)
    requires EndsInBackslash(measurement)
    ensures var r := ReadLine(Escape(NAME_SPECIALS, measurement) + [','] + after);
            r.Some? ==> r.value.measurement != measurement
  {
    var text := Escape(NAME_SPECIALS, measurement) + [','] + after;
    SwallowedEnd(NAME_SPECIALS, measurement, ',', after);
    if ReadLine(text).Some? {
      MeasurementIsFirstToken(text);
    }
  }

  lemma MisreadName(show: Display, measurement: string, m: Measurement, name: string)
    requires IsDisplay(show) && !EndsInBackslash(measurement) && EndsInBackslash(name)
    ensures var r := ReadLine(Escape(NAME_SPECIALS, measurement) + [','] + AfterName(show, m, name));
            r.Some? ==> r.value.tags != Tags(m, name)
  {
    var after := AfterName(show, m, name);
    var text := Escape(NAME_SPECIALS, measurement) + [','] + after;
    ReadEscaped(NAME_SPECIALS, measurement, ',', after);
    MisreadAfterName(show, m, name);
    if ReadLine(text).Some? {
      TagsAreFirstPairs(text, measurement, after);
    }
  }

  lemma ReadsBack(show: Display, measurement: string, m: Measurement, name: string)
    requires IsDisplay(show) && !EndsInBackslash(measurement) && !EndsInBackslash(name)
    ensures ReadLine(Escape(NAME_SPECIALS, measurement) + [','] + AfterName(show, m, name))
         == if Fields(show, m) == [] then None else Some(Meaning(show, measurement, m, name))
  {
    var after, rest := AfterName(show, m, name), WritePairs(Fields(show, m)) + " " + Decimal(Nanos(m.timestamp));
    ReadEscaped(NAME_SPECIALS, measurement, ',', after);
    ReadAfterName(show, m, name);
    ReadLineAfterTags(Escape(NAME_SPECIALS, measurement) + [','] + after, measurement, after, Tags(m, name), rest);
    FieldsAreClean(show, m);
    ReadFieldsBack(measurement, Tags(m, name), Fields(show, m), Nanos(m.timestamp));
  }

  /** The tokenizer gets from the line exactly what was measured, if and only if
    * there is a field and neither name ends in a backslash.
    */
  lemma LineRoundTrip(show: Display, measurement: string, m: Measurement, name: string)
    requires IsDisplay(show)
    ensures ReadLine(FormatLine(show, measurement, m, name)) == Some(Meaning(show, measurement, m, name)) <==>
            Fields(show, m) != [] && !EndsInBackslash(measurement) && !EndsInBackslash(name)
  {
    LineShape(show, measurement, m, name);
    if EndsInBackslash(measurement) {
      MisreadMeasurement(measurement, AfterName(show, m, name));
    } else if EndsInBackslash(name) {
      MisreadName(show, measurement, m, name);
    } else {
      ReadsBack(show, measurement, m, name);
    }
  }

  lemma NewlineInLine(measurement: string, mac: string, name: string, fields: string, timestamp: string)
    ensures '\n' in measurement + ",mac=" + mac + ",name=" + name + " " + fields + " " + timestamp <==>
            '\n' in measurement || '\n' in mac || '\n' in name || '\n' in fields || '\n' in timestamp
  {
    assert '\n' !in ",mac=" && '\n' !in ",name=" && '\n' !in " ";
  }

  /** A line has no newline exactly when neither name has one. */
  lemma LineHasNoNewline(show: Display, measurement: string, m: Measurement, name: string)
    requires IsDisplay(show)
    ensures '\n' in FormatLine(show, measurement, m, name) <==> '\n' in measurement || '\n' in name
  {
    FieldsAreClean(show, m);
    FieldTextHasNoNewline(Fields(show, m));
    PrintIsClean(m.mac);
    EscapeKeepsNewlines(NAME_SPECIALS, measurement);
    EscapeKeepsNewlines(TAG_SPECIALS, name);
    NewlineInLine(Escape(NAME_SPECIALS, measurement), Print(m.mac), Escape(TAG_SPECIALS, name),
                  FieldText(Fields(show, m)), Decimal(Nanos(m.timestamp)));
  }

  lemma {:induction false} FieldTextHasNoNewline(fields: seq<Pair>)
    requires CleanPairs(fields)
    ensures '\n' !in FieldText(fields)
  {
    if fields != [] {
      FieldTextHasNoNewline(Front(fields));
    }
  }

  lemma {:induction false} EscapeKeepsNewlines(specials: set<char>, s: string)
    ensures '\n' in Escape(specials, s) <==> '\n' in s
  {
    if s != [] {
      EscapeKeepsNewlines(specials, s[1..]);
    }
  }
}
