/** From the packets on the air to the lines of the output: the kernel filter,
  * the receive loop of src/scanner/hci.rs and the processing loop of src/app.rs
  * in a row.
  */
module Listening {
  import opened Advertising
  import opened App
  import opened AppProperties
  import opened Bpf
  import opened Common
  import opened FilterLayers
  import opened InfluxDb
  import opened MacAddresses
  import opened Measurements

  /** The payload decoder, with displayed errors. */
  type Decoder = (MacAddress, seq<byte>) -> Result<Measurement, string>

  /** A packet, and the clock while its result is handled. */
  datatype Received = Received(packet: seq<byte>, sweep: nat, now: nat)

  // ---------------------------------------------------------------------
  // The layers
  // ---------------------------------------------------------------------

  /** What the kernel filter delivers. */
  function Delivered(received: seq<Received>): seq<Received> {
    if received == [] then []
    else Delivered(Front(received)) + if KernelDelivers(Last(received).packet) then [Last(received)] else []
  }

  function Stamp(result: Option<Result<Measurement, string>>, r: Received): seq<Arrival> {
    match result
    case None => []
    case Some(result) => [Arrival(result, r.sweep, r.now)]
  }

  /** What the receive loop puts into the channel. */
  function Channel(decode: Decoder, tooShort: string, received: seq<Received>, verbose: bool): seq<Arrival> {
    if received == [] then []
    else
      var r := Last(received);
      Channel(decode, tooShort, Front(received), verbose) + Stamp(Forward(decode, tooShort, r.packet, verbose), r)
  }

  /** What the parsers alone make of a packet, behind no filter. */
  function Parsed(packet: seq<byte>, verbose: bool): Report {
    if IsMetaEvent(packet) then ParseBySubevent(packet, verbose) else Nothing
  }

  /** What the channel would get without any filter. */
  function Unfiltered(decode: Decoder, tooShort: string, received: seq<Received>, verbose: bool): seq<Arrival> {
    if received == [] then []
    else
      var r := Last(received);
      Unfiltered(decode, tooShort, Front(received), verbose) +
      Stamp(Forwarded(decode, tooShort, Parsed(r.packet, verbose), verbose), r)
  }

  lemma DeliveredGrows(before: seq<Received>, r: Received)
    ensures Delivered(before + [r]) == Delivered(before) + if KernelDelivers(r.packet) then [r] else []
  {
    assert Front(before + [r]) == before;
  }

  /** The packets that the attached program delivers. */
  method RunKernelFilter(received: seq<Received>) returns (delivered: seq<Received>)
    ensures delivered == Delivered(received)
  {
    var filter := RuuviFilter();
    delivered := [];
    ghost var before := [];
    for i := 0 to |received|
      invariant before == received[..i] && delivered == Delivered(before)
    {
      var r := received[i];
      DeliveredGrows(before, r);
      IsDeliveredExactly(r.packet);
      if Run(filter, r.packet, 0, 0) != Returned(0) {
        delivered := delivered + [r];
      }
      before := before + [r];
    }
    assert before == received;
  }

  /** One turn of the receive loop: what is sent on for a packet. */
  method HandlePacket(decode: Decoder, tooShort: string, packet: seq<byte>, verbose: bool)
    returns (sent: Option<Result<Measurement, string>>)
    ensures sent == Forward(decode, tooShort, packet, verbose)
  {
    sent := None;
    if IsMetaEvent(packet) && MightBeRuuvi(packet) {
      var report := ParseBySubevent(packet, verbose);
      match report
      case Nothing =>
      case TooShort =>
        if verbose {
          sent := Some(Err(tooShort));
        }
      case Decode(mac, payload) =>
        var result := decode(mac, payload);
        if result.Ok? || verbose {
          sent := Some(result);
        }
    }
  }

  lemma ChannelGrows(decode: Decoder, tooShort: string, before: seq<Received>, r: Received, verbose: bool)
    ensures Channel(decode, tooShort, before + [r], verbose) ==
      Channel(decode, tooShort, before, verbose) + Stamp(Forward(decode, tooShort, r.packet, verbose), r)
  {
    assert Front(before + [r]) == before;
  }

  /** The receive loop. */
  method ReceiveLoop(decode: Decoder, tooShort: string, received: seq<Received>, verbose: bool)
    returns (channel: seq<Arrival>)
    ensures channel == Channel(decode, tooShort, received, verbose)
  {
    channel := [];
    ghost var before := [];
    for i := 0 to |received|
      invariant before == received[..i] && channel == Channel(decode, tooShort, before, verbose)
    {
      var r := received[i];
      ChannelGrows(decode, tooShort, before, r, verbose);
      var sent := HandlePacket(decode, tooShort, r.packet, verbose);
      channel := channel + Stamp(sent, r);
      before := before + [r];
    }
    assert before == received;
  }

  // ---------------------------------------------------------------------
  // What the filters take away
  // ---------------------------------------------------------------------

  /** Something would be sent on for the packet behind no filter. */
  predicate Yields(decode: Decoder, tooShort: string, packet: seq<byte>, verbose: bool) {
    Forwarded(decode, tooShort, Parsed(packet, verbose), verbose).Some?
  }

  /** In quiet mode just the packets that decode without an error yield something. */
  lemma QuietYields(decode: Decoder, tooShort: string, packet: seq<byte>)
    ensures Yields(decode, tooShort, packet, false) <==>
      ReachesDecoder(packet) &&
      decode(ParseBySubevent(packet, false).mac, ParseBySubevent(packet, false).payload).Ok?
  {
  }

  /** The id stands where the kernel filter looks for it. */
  predicate IdIsScanned(packet: seq<byte>) {
    HasId(packet, FIRST_OFFSET, LAST_OFFSET + 1)
  }

  /** For a packet that yields something the filters come down to where the id stands. */
  lemma YieldingIsDelivered(decode: Decoder, tooShort: string, packet: seq<byte>, verbose: bool)
    requires Yields(decode, tooShort, packet, verbose)
    ensures KernelDelivers(packet) <==> IdIsScanned(packet)
  {
    KernelDeliversWanted(packet);
    if Parsed(packet, verbose).Decode? {
      DecodedIsReport(packet, verbose);
    }
  }

  /** Behind the kernel filter the prefilter changes nothing. */
  lemma DeliveredIsForwarded(decode: Decoder, tooShort: string, packet: seq<byte>, verbose: bool)
    requires KernelDelivers(packet)
    ensures Forward(decode, tooShort, packet, verbose) == Forwarded(decode, tooShort, Parsed(packet, verbose), verbose)
  {
    KernelDeliversWanted(packet);
    DeliveredIsParsed(packet, verbose);
  }

  /** Every packet that yields something has the id where it is looked for. */
  predicate AllScanned(decode: Decoder, tooShort: string, received: seq<Received>, verbose: bool) {
    forall r <- received :: Yields(decode, tooShort, r.packet, verbose) ==> IdIsScanned(r.packet)
  }

  lemma AllScannedFront(decode: Decoder, tooShort: string, received: seq<Received>, verbose: bool)
    requires received != []
    ensures AllScanned(decode, tooShort, received, verbose) <==>
      AllScanned(decode, tooShort, Front(received), verbose) &&
      (Yields(decode, tooShort, Last(received).packet, verbose) ==> IdIsScanned(Last(received).packet))
  {
    assert received == Front(received) + [Last(received)];
  }

  /** What the last packet adds behind the filters, and without them. */
  lemma ChannelStep(decode: Decoder, tooShort: string, received: seq<Received>, verbose: bool)
    requires received != []
    ensures var r, before := Last(received), Channel(decode, tooShort, Delivered(Front(received)), verbose);
            Channel(decode, tooShort, Delivered(received), verbose) ==
              if KernelDelivers(r.packet)
              then before + Stamp(Forwarded(decode, tooShort, Parsed(r.packet, verbose), verbose), r) else before
  {
    var r, before := Last(received), Delivered(Front(received));
    if KernelDelivers(r.packet) {
      DeliveredIsForwarded(decode, tooShort, r.packet, verbose);
      assert Front(before + [r]) == before;
    } else {
      assert before + [] == before;
    }
  }

  /** The filters only take away, and take nothing away exactly when the id always is where they look. */
  lemma {:induction false} FiltersTakeAway(decode: Decoder, tooShort: string, received: seq<Received>, verbose: bool)
    ensures var behind := Channel(decode, tooShort, Delivered(received), verbose);
            var all := Unfiltered(decode, tooShort, received, verbose);
            |behind| <= |all| && (|behind| == |all| <==> AllScanned(decode, tooShort, received, verbose)) &&
            (|behind| == |all| ==> behind == all)
  {
    if received != [] {
      var r := Last(received);
      FiltersTakeAway(decode, tooShort, Front(received), verbose);
      AllScannedFront(decode, tooShort, received, verbose);
      ChannelStep(decode, tooShort, received, verbose);
      if Yields(decode, tooShort, r.packet, verbose) {
        YieldingIsDelivered(decode, tooShort, r.packet, verbose);
      }
    }
  }

  function Results(arrivals: seq<Arrival>): seq<Result<Measurement, string>> {
    seq(|arrivals|, i requires 0 <= i < |arrivals| => arrivals[i].result)
  }

  /** The channel gets through both filters just what it would get without any, if
    * and only if in every packet that yields something the id stands at one of
    * the scanned offsets. Then the times are the same as well.
    */
  lemma FiltersAreInvisibleExactly(decode: Decoder, tooShort: string, received: seq<Received>, verbose: bool)
    ensures var behind := Results(Channel(decode, tooShort, Delivered(received), verbose));
            var all := Results(Unfiltered(decode, tooShort, received, verbose));
            behind == all <==> AllScanned(decode, tooShort, received, verbose)
    ensures AllScanned(decode, tooShort, received, verbose) ==>
      Channel(decode, tooShort, Delivered(received), verbose) == Unfiltered(decode, tooShort, received, verbose)
  {
    FiltersTakeAway(decode, tooShort, received, verbose);
    var behind := Results(Channel(decode, tooShort, Delivered(received), verbose));
    var all := Results(Unfiltered(decode, tooShort, received, verbose));
    assert |behind| == |all| || behind != all;
  }

  // ---------------------------------------------------------------------
  // From the channel to the output
  // ---------------------------------------------------------------------

  /** Two channels that the loop cannot tell apart by its output. */
  ghost predicate SameOutput(line: Measurement -> string, options: Options, one: seq<Arrival>, two: seq<Arrival>) {
    OutLines(line, options, one) == OutLines(line, options, two) && Offered(one) == Offered(two) &&
    forall mac: MacAddress :: SeenE1(one, mac) <==> SeenE1(two, mac)
  }

  lemma SameOutputGrows(line: Measurement -> string, options: Options, one: seq<Arrival>, two: seq<Arrival>, a: Arrival)
    requires SameOutput(line, options, one, two)
    ensures SameOutput(line, options, one + [a], two + [a])
  {
    OutputStep(line, options, one, a);
    OutputStep(line, options, two, a);
    StateStep(one, a);
    StateStep(two, a);
  }

  /** An error in the channel does not show. */
  lemma ErrorKeepsOutput(line: Measurement -> string, options: Options, before: seq<Arrival>,
                         result: Option<Result<Measurement, string>>, r: Received)
    requires result.None? || result.value.Err?
    ensures SameOutput(line, options, before + Stamp(result, r), before)
  {
    match result
    case None =>
      assert before + [] == before;
    case Some(error) =>
      var a := Arrival(error, r.sweep, r.now);
      OutputStep(line, options, before, a);
      StateStep(before, a);
  }

  /** Being verbose changes no line of the output. */
  lemma {:induction false} VerboseKeepsOutput(line: Measurement -> string, options: Options, decode: Decoder,
                                              tooShort: string, received: seq<Received>)
    ensures SameOutput(line, options,
                       Channel(decode, tooShort, received, true), Channel(decode, tooShort, received, false))
  {
    if received != [] {
      var before, r := Front(received), Last(received);
      var all := Channel(decode, tooShort, before, true);
      var quiet := Channel(decode, tooShort, before, false);
      var result := Forward(decode, tooShort, r.packet, true);
      VerboseKeepsOutput(line, options, decode, tooShort, before);
      VerboseOnlyAddsErrors(decode, tooShort, r.packet);
      if result.Some? && result.value.Ok? {
        SameOutputGrows(line, options, all, quiet, Arrival(result.value, r.sweep, r.now));
      } else {
        ErrorKeepsOutput(line, options, all, result, r);
        assert quiet + [] == quiet;
      }
    }
  }

  /** The clock never runs backwards. */
  predicate Chronological(received: seq<Received>) {
    received == [] ||
    (Chronological(Front(received)) && LatestReceived(Front(received)) <= Last(received).sweep <= Last(received).now)
  }

  function LatestReceived(received: seq<Received>): nat {
    if received == [] then 0 else Last(received).now
  }

  lemma {:induction false} DeliveredInTime(received: seq<Received>)
    requires Chronological(received)
    ensures Chronological(Delivered(received)) && LatestReceived(Delivered(received)) <= LatestReceived(received)
  {
    if received != [] {
      var before := Delivered(Front(received));
      DeliveredInTime(Front(received));
      assert Front(before + [Last(received)]) == before && before + [] == before;
    }
  }

  lemma {:induction false} ChannelOnTime(decode: Decoder, tooShort: string, received: seq<Received>, verbose: bool)
    requires Chronological(received)
    ensures var channel := Channel(decode, tooShort, received, verbose);
            OnTime(channel) && LatestArrival(channel) <= LatestReceived(received)
  {
    if received != [] {
      var before := Channel(decode, tooShort, Front(received), verbose);
      ChannelOnTime(decode, tooShort, Front(received), verbose);
      var added := Stamp(Forward(decode, tooShort, Last(received).packet, verbose), Last(received));
      assert if added == [] then before + added == before else Front(before + added) == before;
    }
  }

  /** The lines do not depend on the verbosity, nor on the filters as long as every measurement is scanned for. */
  lemma SameLines(line: Measurement -> string, options: Options, decode: Decoder, tooShort: string,
                  received: seq<Received>, verbose: bool)
    ensures var quiet := Channel(decode, tooShort, Delivered(received), false);
            OutLines(line, options, Channel(decode, tooShort, Delivered(received), verbose)) ==
              OutLines(line, options, quiet) &&
            (AllScanned(decode, tooShort, received, false) ==> quiet == Unfiltered(decode, tooShort, received, false))
  {
    if verbose {
      VerboseKeepsOutput(line, options, decode, tooShort, Delivered(received));
    }
    FiltersAreInvisibleExactly(decode, tooShort, received, false);
  }

  /** Process a whole channel. */
  method Process(show: Display, options: Options, channel: seq<Arrival>, out: Writer, err: Writer) returns (ok: bool)
    requires out != err && OnTime(channel) && NeverOverflows(show, options, channel, out.room, err.room)
    modifies out, err
    ensures ok <==> App.HasRoom(show, options, channel, old(out.room), old(err.room))
    ensures ok ==> out.lines == old(out.lines) + OutLines(LineFormat(show, options), options, channel)
  {
    ghost var handled;
    ok, handled := RunWithIo(show, options, channel, out, err);
    assert channel[..|channel|] == channel;
  }

  /** Filter, receive and process. The output does not depend on the verbosity,
    * nor, as long as each packet that decodes without an error has the id at a
    * scanned offset, on the filters.
    */
  method Listen(decode: Decoder, tooShort: string, show: Display, options: Options, received: seq<Received>,
                out: Writer, err: Writer)
    returns (ok: bool)
    requires out != err && Chronological(received)
    requires NeverOverflows(show, options,
                            Channel(decode, tooShort, Delivered(received), options.verbose), out.room, err.room)
    modifies out, err
    ensures ok <==> App.HasRoom(show, options, Channel(decode, tooShort, Delivered(received), options.verbose),
                                old(out.room), old(err.room))
    ensures var quiet := Channel(decode, tooShort, Delivered(received), false);
            ok ==> out.lines == old(out.lines) + OutLines(LineFormat(show, options), options, quiet)
    ensures var unfiltered := Unfiltered(decode, tooShort, received, false);
            ok && AllScanned(decode, tooShort, received, false) ==>
              out.lines == old(out.lines) + OutLines(LineFormat(show, options), options, unfiltered)
  {
    var delivered := RunKernelFilter(received);
    var channel := ReceiveLoop(decode, tooShort, delivered, options.verbose);
    DeliveredInTime(received);
    ChannelOnTime(decode, tooShort, delivered, options.verbose);
    SameLines(LineFormat(show, options), options, decode, tooShort, received, options.verbose);
    ok := Process(show, options, channel, out, err);
  }
}
