/** The processing loop of src/app.rs, proved equal to a specification over its
  * whole input: who has sent E1 is looked up in the past, and the throttle
  * never forgets.
  */
module App {
  import opened Aliases
  import opened Common
  import opened InfluxDb
  import opened MacAddresses
  import opened Measurements
  import opened Throttling

  /** The command-line options the loop uses; the throttle interval is in nanoseconds. */
  datatype Options = Options(measurement: string, aliases: seq<Alias>, verbose: bool, throttle: Option<nat>)

  /** A received result, an error being its displayed text, and the clock while it is handled. */
  datatype Arrival = Arrival(result: Result<Measurement, string>, sweep: nat, now: nat)

  /** An output that takes `room` more lines before it fails. */
  class Writer {
    var lines: seq<string>
    var room: nat

    function Contents(): Output
      reads this
    {
      Output(lines, room)
    }

    method WriteLine(line: string) returns (ok: bool)
      modifies this
      ensures ok == (old(room) > 0)
      ensures Extends(Contents(), old(Contents()), if ok then [line] else [])
    {
      ok := room > 0;
      if ok {
        lines, room := lines + [line], room - 1;
      }
    }
  }

  /** What an output holds, and the room it has left. */
  datatype Output = Output(lines: seq<string>, room: nat)

  /** `now` is `start` and what was written since. */
  predicate Extends(now: Output, start: Output, written: seq<string>) {
    now.lines == start.lines + written && now.room + |written| == start.room
  }

  class DeviceSet {
    var members: set<MacAddress>

    constructor ()
      ensures members == {}
    {
      members := {};
    }
  }

  method IsRedundantV6(e1Devices: DeviceSet, m: Measurement) returns (redundant: bool)
    modifies e1Devices
    ensures redundant <==> m.format == V6 && m.mac in e1Devices.members
    ensures e1Devices.members == old(e1Devices.members) + if m.format == E1 then {m.mac} else {}
  {
    match m.format
    case E1 =>
      e1Devices.members := e1Devices.members + {m.mac};
      redundant := false;
    case V6 =>
      redundant := m.mac in e1Devices.members;
    case V5 =>
      redundant := false;
  }

  // ---------------------------------------------------------------------
  // Specification
  // ---------------------------------------------------------------------

  predicate IsFrom(a: Arrival, mac: MacAddress) {
    a.result.Ok? && a.result.value.mac == mac
  }

  /** An E1 frame of `mac` has been received, whether or not it was written. */
  predicate SeenE1(arrivals: seq<Arrival>, mac: MacAddress) {
    exists a <- arrivals :: IsFrom(a, mac) && a.result.value.format == E1
  }

  /** A measurement that is not a V6 frame of a device that has sent E1. */
  predicate Kept(before: seq<Arrival>, a: Arrival) {
    a.result.Ok? && !(a.result.value.format == V6 && SeenE1(before, a.result.value.mac))
  }

  function EventOf(a: Arrival): Event
    requires a.result.Ok?
  {
    Event(a.result.value.mac, a.sweep, a.now)
  }

  /** The calls the throttle gets. */
  function Offered(arrivals: seq<Arrival>): seq<Event> {
    if arrivals == [] then []
    else
      Offered(Front(arrivals)) +
      if Kept(Front(arrivals), Last(arrivals)) then [EventOf(Last(arrivals))] else []
  }

  /** Whether an arrival is written, given those before it. */
  predicate Writes(options: Options, before: seq<Arrival>, a: Arrival) {
    Kept(before, a) &&
    (options.throttle.Some? ==> ReferenceAllows(options.throttle.value, Offered(before), EventOf(a)))
  }

  function Name(options: Options, mac: MacAddress): string {
    ResolveName(mac, ToMap(options.aliases))
  }

  /** The line of a measurement under the options. */
  function LineFormat(show: Display, options: Options): Measurement -> string {
    (m: Measurement) => FormatLine(show, options.measurement, m, Name(options, m.mac))
  }

  /** What an arrival adds to the output, with `line` for the text of a line. */
  function OutLine(line: Measurement -> string, options: Options, before: seq<Arrival>, a: Arrival): seq<string> {
    if Writes(options, before, a) then [line(a.result.value)] else []
  }

  function ErrLine(options: Options, a: Arrival): seq<string> {
    if a.result.Err? && options.verbose then [a.result.error] else []
  }

  /** The lines written. */
  function OutLines(line: Measurement -> string, options: Options, arrivals: seq<Arrival>): seq<string> {
    if arrivals == [] then []
    else OutLines(line, options, Front(arrivals)) + OutLine(line, options, Front(arrivals), Last(arrivals))
  }

  function ErrLines(options: Options, arrivals: seq<Arrival>): seq<string> {
    if arrivals == [] then [] else ErrLines(options, Front(arrivals)) + ErrLine(options, Last(arrivals))
  }

  /** The clock never runs backwards. */
  predicate OnTime(arrivals: seq<Arrival>) {
    arrivals == [] ||
    (OnTime(Front(arrivals)) && LatestArrival(Front(arrivals)) <= Last(arrivals).sweep <= Last(arrivals).now)
  }

  function LatestArrival(arrivals: seq<Arrival>): nat {
    if arrivals == [] then 0 else Last(arrivals).now
  }

  lemma {:induction false} OfferedInOrder(arrivals: seq<Arrival>)
    requires OnTime(arrivals)
    ensures InOrder(Offered(arrivals)) && LatestNow(Offered(arrivals)) <= LatestArrival(arrivals)
  {
    if arrivals != [] {
      OfferedInOrder(Front(arrivals));
      var before, now := Offered(Front(arrivals)), Offered(arrivals);
      if Kept(Front(arrivals), Last(arrivals)) {
        assert now == before + [EventOf(Last(arrivals))] && Front(now) == before;
      } else {
        assert now == before;
      }
    }
  }

  lemma {:induction false} PrefixOnTime(arrivals: seq<Arrival>, n: nat)
    requires OnTime(arrivals) && n <= |arrivals|
    ensures OnTime(arrivals[..n])
  {
    if n < |arrivals| {
      PrefixOnTime(Front(arrivals), n);
      assert Front(arrivals)[..n] == arrivals[..n];
    } else {
      assert arrivals[..n] == arrivals;
    }
  }

  // ---------------------------------------------------------------------
  // The loop
  // ---------------------------------------------------------------------

  /** The evicting throttle decides like the reference at the next arrival. */
  lemma ThrottleStep(interval: nat, before: seq<Arrival>, a: Arrival)
    requires OnTime(before + [a]) && Kept(before, a)
    ensures Step(interval, Run(interval, Offered(before)), EventOf(a)).1 ==
      ReferenceAllows(interval, Offered(before), EventOf(a))
    ensures Step(interval, Run(interval, Offered(before)), EventOf(a)).0 == Run(interval, Offered(before + [a]))
  {
    assert Front(before + [a]) == before;
    OfferedInOrder(before);
    OfferedInOrder(before + [a]);
    RunSimulates(interval, Offered(before));
    StepKeepsSimulation(interval, Offered(before), Run(interval, Offered(before)), EventOf(a));
    assert Front(Offered(before + [a])) == Offered(before);
  }

  lemma OutputStep(line: Measurement -> string, options: Options, before: seq<Arrival>, a: Arrival)
    ensures OutLines(line, options, before + [a]) == OutLines(line, options, before) + OutLine(line, options, before, a)
    ensures ErrLines(options, before + [a]) == ErrLines(options, before) + ErrLine(options, a)
  {
  }

  lemma StateStep(before: seq<Arrival>, a: Arrival)
    ensures Offered(before + [a]) == if Kept(before, a) then Offered(before) + [EventOf(a)] else Offered(before)
    ensures forall mac: MacAddress ::
      SeenE1(before + [a], mac) <==> SeenE1(before, mac) || (IsFrom(a, mac) && a.result.value.format == E1)
  {
  }

  /** The throttle that the options ask for, after the arrivals so far. */
  ghost predicate ThrottleFits(throttle: Throttle?, options: Options, arrivals: seq<Arrival>)
    reads throttle
  {
    if throttle == null then options.throttle == None
    else options.throttle == Some(throttle.interval) && throttle.Contents() == Run(throttle.interval, Offered(arrivals))
  }

  /** Handling `a` makes the throttle evict. */
  predicate Evicts(options: Options, before: seq<Arrival>, a: Arrival) {
    options.throttle.Some? && Kept(before, a) && Sweeps(Run(options.throttle.value, Offered(before)))
  }

  /** Handling `a` does not evict with an interval whose tenfold overflows. */
  predicate Representable(options: Options, before: seq<Arrival>, a: Arrival) {
    Evicts(options, before, a) ==> CLEANUP_THRESHOLD_MULTIPLIER * options.throttle.value <= MAX_DURATION
  }

  /** In nanoseconds: only an interval over that many, some 58 thousand million years, fails. */
  lemma RepresentableExactly(options: Options, before: seq<Arrival>, a: Arrival)
    ensures Representable(options, before, a) <==>
      (Evicts(options, before, a) ==> options.throttle.value <= 1_844_674_407_370_955_161_599_999_999)
  {
  }

  /** All that is to be written fits in the room there is. */
  predicate HasRoom(show: Display, options: Options, arrivals: seq<Arrival>, outRoom: nat, errRoom: nat) {
    |OutLines(LineFormat(show, options), options, arrivals)| <= outRoom && |ErrLines(options, arrivals)| <= errRoom
  }

  /** The loop does not get to arrival `k`, or it does not evict there with such an interval. */
  predicate TurnIsSafe(show: Display, options: Options, arrivals: seq<Arrival>, k: nat, outRoom: nat, errRoom: nat)
    requires k < |arrivals|
  {
    HasRoom(show, options, arrivals[..k], outRoom, errRoom) ==> Representable(options, arrivals[..k], arrivals[k])
  }

  predicate NeverOverflows(show: Display, options: Options, arrivals: seq<Arrival>, outRoom: nat, errRoom: nat) {
    forall k: nat | k < |arrivals| :: TurnIsSafe(show, options, arrivals, k, outRoom, errRoom)
  }

  /** Ask the throttle, if there is one. */
  method ShouldEmit(throttle: Throttle?, a: Arrival, ghost options: Options, ghost before: seq<Arrival>)
    returns (emit: bool)
    requires OnTime(before + [a]) && Kept(before, a)
    requires ThrottleFits(throttle, options, before) && Representable(options, before, a)
    modifies throttle
    ensures emit == Writes(options, before, a)
    ensures ThrottleFits(throttle, options, before + [a])
  {
    if throttle == null {
      emit := true;
    } else {
      ThrottleStep(throttle.interval, before, a);
      emit := throttle.ShouldEmit(a.result.value.mac, a.sweep, a.now);
    }
  }

  method WriteMeasurement(formatter: InfluxDbFormatter, show: Display, m: Measurement, name: string, out: Writer)
    returns (ok: bool)
    requires formatter.Valid()
    modifies out
    ensures ok == (old(out.room) > 0)
    ensures Extends(out.Contents(), old(out.Contents()),
                    if ok then [FormatLine(show, formatter.measurementName, m, name)] else [])
  {
    var line := formatter.Format(show, m, name);
    ok := out.WriteLine(line);
  }

  ghost predicate DevicesFit(e1Devices: DeviceSet, arrivals: seq<Arrival>)
    reads e1Devices
  {
    forall mac: MacAddress :: mac in e1Devices.members <==> SeenE1(arrivals, mac)
  }

  /** A measurement that is not redundant. */
  method HandleKept(show: Display, ghost options: Options, formatter: InfluxDbFormatter,
                    aliases: map<MacAddress, string>,
                    throttle: Throttle?, ghost before: seq<Arrival>, a: Arrival, out: Writer)
    returns (ok: bool)
    requires Kept(before, a) && OnTime(before + [a]) && Representable(options, before, a)
    requires formatter == NewFormatter(options.measurement) && aliases == ToMap(options.aliases)
    requires ThrottleFits(throttle, options, before)
    modifies out, throttle
    ensures ThrottleFits(throttle, options, before + [a])
    ensures ok <==> Writes(options, before, a) ==> old(out.room) > 0
    ensures Extends(out.Contents(), old(out.Contents()),
                    if ok then OutLine(LineFormat(show, options), options, before, a) else [])
  {
    var m := a.result.value;
    ok := true;
    var shouldEmit := ShouldEmit(throttle, a, options, before);
    if shouldEmit {
      var name := ResolveName(m.mac, aliases);
      ok := WriteMeasurement(formatter, show, m, name, out);
    }
  }

  /** The arm of the loop for a decoded measurement. */
  method HandleMeasurement(show: Display, ghost options: Options, formatter: InfluxDbFormatter,
                           aliases: map<MacAddress, string>,
                           throttle: Throttle?, e1Devices: DeviceSet, ghost before: seq<Arrival>,
                           a: Arrival, out: Writer)
    returns (ok: bool)
    requires a.result.Ok? && OnTime(before + [a]) && Representable(options, before, a)
    requires formatter == NewFormatter(options.measurement) && aliases == ToMap(options.aliases)
    requires DevicesFit(e1Devices, before) && ThrottleFits(throttle, options, before)
    modifies out, e1Devices, throttle
    ensures DevicesFit(e1Devices, before + [a]) && ThrottleFits(throttle, options, before + [a])
    ensures ok <==> Writes(options, before, a) ==> old(out.room) > 0
    ensures Extends(out.Contents(), old(out.Contents()),
                    if ok then OutLine(LineFormat(show, options), options, before, a) else [])
  {
    StateStep(before, a);
    ok := true;
    var redundant := IsRedundantV6(e1Devices, a.result.value);
    if !redundant {
      ok := HandleKept(show, options, formatter, aliases, throttle, before, a, out);
    }
  }

  /** The arm of the loop for an error. */
  method HandleError(ghost before: seq<Arrival>, a: Arrival, options: Options,
                     ghost throttle: Throttle?, ghost e1Devices: DeviceSet, err: Writer)
    returns (ok: bool)
    requires a.result.Err? && DevicesFit(e1Devices, before) && ThrottleFits(throttle, options, before)
    modifies err
    ensures DevicesFit(e1Devices, before + [a]) && ThrottleFits(throttle, options, before + [a])
    ensures ok <==> options.verbose ==> old(err.room) > 0
    ensures Extends(err.Contents(), old(err.Contents()), if ok then ErrLine(options, a) else [])
  {
    StateStep(before, a);
    ok := true;
    if options.verbose {
      ok := err.WriteLine(a.result.error);
    }
  }

  /** What both outputs have become. */
  predicate OutputsFit(line: Measurement -> string, options: Options, out: Output, err: Output,
                       outStart: Output, errStart: Output, arrivals: seq<Arrival>)
  {
    Extends(out, outStart, OutLines(line, options, arrivals)) && Extends(err, errStart, ErrLines(options, arrivals))
  }

  lemma OutputsGrow(line: Measurement -> string, options: Options, out: Output, err: Output,
                    outStart: Output, errStart: Output, before: seq<Arrival>, a: Arrival,
                    outNow: Output, errNow: Output)
    requires OutputsFit(line, options, out, err, outStart, errStart, before)
    requires Extends(outNow, out, OutLine(line, options, before, a)) && Extends(errNow, err, ErrLine(options, a))
    ensures OutputsFit(line, options, outNow, errNow, outStart, errStart, before + [a])
  {
    OutputStep(line, options, before, a);
  }

  /** One turn of the loop. */
  method HandleArrival(show: Display, options: Options, formatter: InfluxDbFormatter, aliases: map<MacAddress, string>,
                       throttle: Throttle?, e1Devices: DeviceSet, ghost before: seq<Arrival>, a: Arrival,
                       out: Writer, err: Writer, ghost outStart: Output, ghost errStart: Output)
    returns (ok: bool)
    requires out != err && OnTime(before + [a]) && Representable(options, before, a)
    requires formatter == NewFormatter(options.measurement) && aliases == ToMap(options.aliases)
    requires DevicesFit(e1Devices, before) && ThrottleFits(throttle, options, before)
    requires OutputsFit(LineFormat(show, options), options, out.Contents(), err.Contents(), outStart, errStart, before)
    modifies out, err, e1Devices, throttle
    ensures DevicesFit(e1Devices, before + [a]) && ThrottleFits(throttle, options, before + [a])
    ensures OutputsFit(LineFormat(show, options), options, out.Contents(), err.Contents(), outStart, errStart,
                       if ok then before + [a] else before)
    ensures !ok ==> IsFull(options, before, a, out.Contents(), err.Contents())
  {
    ghost var line, outWas, errWas := LineFormat(show, options), out.Contents(), err.Contents();
    if a.result.Ok? {
      ok := HandleMeasurement(show, options, formatter, aliases, throttle, e1Devices, before, a, out);
    } else {
      ok := HandleError(before, a, options, throttle, e1Devices, err);
    }
    if ok {
      OutputsGrow(line, options, outWas, errWas, outStart, errStart, before, a, out.Contents(), err.Contents());
    }
  }

  /** `a` has to be written, and its output takes no more. */
  predicate IsFull(options: Options, before: seq<Arrival>, a: Arrival, out: Output, err: Output) {
    if a.result.Ok? then Writes(options, before, a) && out.room == 0 else options.verbose && err.room == 0
  }

  lemma NextIsRepresentable(show: Display, options: Options, arrivals: seq<Arrival>, i: nat,
                            out: Output, err: Output, outStart: Output, errStart: Output)
    requires i < |arrivals| && TurnIsSafe(show, options, arrivals, i, outStart.room, errStart.room)
    requires OutputsFit(LineFormat(show, options), options, out, err, outStart, errStart, arrivals[..i])
    ensures Representable(options, arrivals[..i], arrivals[i])
  {
  }

  lemma NextPrefix<T>(s: seq<T>, i: nat)
    requires i < |s|
    ensures s[..i + 1] == s[..i] + [s[i]]
  {
  }

  /** What has been written is never taken back. */
  lemma {:induction false} OutputGrows(line: Measurement -> string, options: Options, arrivals: seq<Arrival>, n: nat)
    requires n <= |arrivals|
    ensures |OutLines(line, options, arrivals[..n])| <= |OutLines(line, options, arrivals)|
    ensures |ErrLines(options, arrivals[..n])| <= |ErrLines(options, arrivals)|
  {
    if n < |arrivals| {
      OutputGrows(line, options, Front(arrivals), n);
      assert Front(arrivals)[..n] == arrivals[..n];
    } else {
      assert arrivals[..n] == arrivals;
    }
  }

  lemma NoRoomWhenStopped(show: Display, options: Options, arrivals: seq<Arrival>, n: nat,
                          out: Output, err: Output, outStart: Output, errStart: Output)
    requires n < |arrivals|
    requires OutputsFit(LineFormat(show, options), options, out, err, outStart, errStart, arrivals[..n])
    requires IsFull(options, arrivals[..n], arrivals[n], out, err)
    ensures !HasRoom(show, options, arrivals, outStart.room, errStart.room)
  {
    NextPrefix(arrivals, n);
    OutputStep(LineFormat(show, options), options, arrivals[..n], arrivals[n]);
    OutputGrows(LineFormat(show, options), options, arrivals, n + 1);
  }

  method NewState(options: Options) returns (throttle: Throttle?, e1Devices: DeviceSet)
    ensures fresh(e1Devices) && (throttle != null ==> fresh(throttle))
    ensures DevicesFit(e1Devices, []) && ThrottleFits(throttle, options, [])
  {
    throttle := null;
    if options.throttle.Some? {
      throttle := new Throttle(options.throttle.value);
    }
    e1Devices := new DeviceSet();
  }

  /** Run the loop until the channel closes or a write fails. What was written
    * are the lines of the `handled` arrivals.
    */
  method RunWithIo(show: Display, options: Options, arrivals: seq<Arrival>, out: Writer, err: Writer)
    returns (ok: bool, ghost handled: nat)
    requires out != err && OnTime(arrivals) && NeverOverflows(show, options, arrivals, out.room, err.room)
    modifies out, err
    ensures handled <= |arrivals| && (ok <==> handled == |arrivals|)
    ensures OutputsFit(LineFormat(show, options), options, out.Contents(), err.Contents(),
                       old(out.Contents()), old(err.Contents()), arrivals[..handled])
    ensures !ok ==> IsFull(options, arrivals[..handled], arrivals[handled], out.Contents(), err.Contents())
    ensures ok <==> HasRoom(show, options, arrivals, old(out.room), old(err.room))
  {
    var aliases := ToMap(options.aliases);
    var formatter := NewFormatter(options.measurement);
    var throttle, e1Devices := NewState(options);
    ok, handled := true, 0;
    ghost var outStart, errStart, before := out.Contents(), err.Contents(), [];
    for i := 0 to |arrivals|
      invariant ok && handled == i && before == arrivals[..i]
      invariant fresh(e1Devices) && (throttle != null ==> fresh(throttle))
      invariant DevicesFit(e1Devices, before) && ThrottleFits(throttle, options, before)
      invariant OutputsFit(LineFormat(show, options), options, out.Contents(), err.Contents(),
                           outStart, errStart, before)
    {
      NextPrefix(arrivals, i);
      PrefixOnTime(arrivals, i + 1);
      NextIsRepresentable(show, options, arrivals, i, out.Contents(), err.Contents(), outStart, errStart);
      ok := HandleArrival(show, options, formatter, aliases, throttle, e1Devices, before, arrivals[i],
                          out, err, outStart, errStart);
      if !ok {
        NoRoomWhenStopped(show, options, arrivals, i, out.Contents(), err.Contents(), outStart, errStart);
        return;
      }
      before, handled := before + [arrivals[i]], i + 1;
    }
    assert arrivals[..|arrivals|] == arrivals;
  }
}
