/** Advertising reports and the AD structures inside them, as src/scanner/hci.rs reads them.
  *
  * Layouts: Bluetooth Core Specification, Vol 4 Part E, sections 7.7.65.2 and
  * 7.7.65.13; AD structures: Vol 3 Part C, section 11. The payload decoder is
  * not part of this model: a report says with what it would be called.
  */
module Advertising {
  import opened Common
  import opened Hci
  import opened MacAddresses
  import opened Bpf

  const RUUVI_MANUFACTURER_ID: nat := 0x0499
  const AD_TYPE_MANUFACTURER_DATA: byte := 0xFF

  // ---------------------------------------------------------------------
  // AD structures
  // ---------------------------------------------------------------------

  /** On the wire: a length byte counting the type and the data, the type, the data. */
  datatype AdStructure = AdStructure(adType: byte, data: seq<byte>)

  predicate Fits(s: AdStructure) {
    |s.data| < 255
  }

  function LengthByte(s: AdStructure): byte
    requires Fits(s)
  {
    1 + |s.data|
  }

  function Encode(structures: seq<AdStructure>): seq<byte>
    requires forall s <- structures :: Fits(s)
  {
    if structures == [] then []
    else
      var s := structures[0];
      [LengthByte(s), s.adType] + s.data + Encode(structures[1..])
  }

  /** No structure starts here: no room for a type, a zero length, or a length past the end. */
  predicate Stuck(ad: seq<byte>) {
    |ad| < 2 || ad[0] == 0 || 1 + ad[0] > |ad|
  }

  /** Split into structures, as far as that goes. */
  function Structures(ad: seq<byte>): seq<AdStructure>
    decreases |ad|
  {
    if Stuck(ad) then [] else [AdStructure(ad[1], ad[2..1 + ad[0]])] + Structures(ad[1 + ad[0]..])
  }

  predicate IsRuuvi(s: AdStructure) {
    s.adType == AD_TYPE_MANUFACTURER_DATA && |s.data| >= 2 &&
    LittleEndian(s.data[0], s.data[1]) == RUUVI_MANUFACTURER_ID
  }

  /** The payload, after the manufacturer id, of the first Ruuvi structure. */
  function FirstRuuvi(structures: seq<AdStructure>): Option<seq<byte>> {
    if structures == [] then None
    else if IsRuuvi(structures[0]) then Some(structures[0].data[2..])
    else FirstRuuvi(structures[1..])
  }

  /** What a report leads to: nothing, a complaint, or a call of the decoder. */
  datatype Report = Nothing | TooShort | Decode(mac: MacAddress, payload: seq<byte>)

  function AdReport(ad: seq<byte>, mac: MacAddress): Report {
    match FirstRuuvi(Structures(ad))
    case None => Nothing
    case Some(payload) => Decode(mac, payload)
  }

  /** The same payload, found without splitting first. */
  function FirstPayload(ad: seq<byte>): Option<seq<byte>>
    decreases |ad|
  {
    if Stuck(ad) then None
    else if ad[1] == AD_TYPE_MANUFACTURER_DATA && ad[0] >= 3 && LittleEndian(ad[2], ad[3]) == RUUVI_MANUFACTURER_ID then
      Some(ad[4..1 + ad[0]])
    else FirstPayload(ad[1 + ad[0]..])
  }

  lemma {:induction false} FirstPayloadIsFirstRuuvi(ad: seq<byte>)
    ensures FirstPayload(ad) == FirstRuuvi(Structures(ad))
    decreases |ad|
  {
    if !Stuck(ad) {
      FirstPayloadIsFirstRuuvi(ad[1 + ad[0]..]);
      assert ad[0] >= 3 ==> ad[2..1 + ad[0]][2..] == ad[4..1 + ad[0]];
    }
  }

  /** The walk over the structures of an advertisement. */
  method ParseRuuviFromAdData(ad: seq<byte>, mac: MacAddress) returns (r: Report)
    ensures r == AdReport(ad, mac)
  {
    FirstPayloadIsFirstRuuvi(ad);
    var offset := 0;
    ghost var rest := ad;
    while offset + 2 <= |ad|
      invariant offset <= |ad| && rest == ad[offset..]
      invariant FirstPayload(ad) == FirstPayload(rest)
      decreases |ad| - offset
    {
      var len: nat := ad[offset];
      if len == 0 || offset + 1 + len > |ad| {
        break;
      }
      var adType := ad[offset + 1];
      if adType == AD_TYPE_MANUFACTURER_DATA && len >= 3 {
        var mfgId := LittleEndian(ad[offset + 2], ad[offset + 3]);
        if mfgId == RUUVI_MANUFACTURER_ID {
          SliceOfRest(ad, offset, 4, 1 + len);
          return Decode(mac, ad[offset + 4..offset + 1 + len]);
        }
      }
      rest := rest[1 + len..];
      offset := offset + 1 + len;
    }
    return Nothing;
  }

  lemma {:induction false} NoneHasId(structures: seq<AdStructure>)
    ensures FirstRuuvi(structures).None? <==> forall s <- structures :: !BeginsWithId(s)
  {
    if structures != [] {
      NoneHasId(structures[1..]);
      assert structures == [structures[0]] + structures[1..];
      assert IsRuuvi(structures[0]) <==> BeginsWithId(structures[0]);
    }
  }

  /** The payload is all that follows the id in the first structure of type 0xFF
    * whose data begin with 0x99 0x04.
    */
  lemma {:induction false} FirstRuuviExactly(structures: seq<AdStructure>, k: nat)
    requires k < |structures| && BeginsWithId(structures[k]) && forall j | 0 <= j < k :: !BeginsWithId(structures[j])
    ensures FirstRuuvi(structures) == Some(structures[k].data[2..])
  {
    if k > 0 {
      assert forall j | 0 <= j < k - 1 :: structures[1..][j] == structures[j + 1];
      FirstRuuviExactly(structures[1..], k - 1);
    }
  }

  predicate BeginsWithId(s: AdStructure) {
    s.adType == 0xFF && |s.data| >= 2 && s.data[0] == 0x99 && s.data[1] == 0x04
  }

  // The same in bytes: the length byte at `at` counts the type and the data after it.

  predicate StructureAt(ad: seq<byte>, at: nat) {
    at + 2 <= |ad| && ad[at] != 0 && at + 1 + ad[at] as nat <= |ad|
  }

  predicate RuuviAt(ad: seq<byte>, at: nat) {
    StructureAt(ad, at) && ad[at] >= 3 && ad[at + 1] == 0xFF && ad[at + 2] == 0x99 && ad[at + 3] == 0x04
  }

  /** `starts` are the starts of consecutive structures from `from` on. */
  ghost predicate Consecutive(ad: seq<byte>, from: nat, starts: seq<nat>) {
    && starts != [] && starts[0] == from && (forall i: nat | i < |starts| :: StructureAt(ad, starts[i]))
    && forall i: nat | i + 1 < |starts| :: FollowedBy(ad, starts[i], starts[i + 1])
  }

  predicate FollowedBy(ad: seq<byte>, at: nat, next: nat)
    requires StructureAt(ad, at)
  {
    next == at + 1 + ad[at] as nat
  }

  /** The last of consecutive structures is the first with the id, and `payload` is what follows it there. */
  ghost predicate PayloadAtEnd(ad: seq<byte>, from: nat, starts: seq<nat>, payload: seq<byte>) {
    && Consecutive(ad, from, starts) && RuuviAt(ad, Last(starts))
    && (forall i: nat | i + 1 < |starts| :: !RuuviAt(ad, starts[i]))
    && payload == ad[Last(starts) + 4..Last(starts) + 1 + ad[Last(starts)] as nat]
  }

  ghost predicate HasPayload(ad: seq<byte>, from: nat, payload: seq<byte>) {
    exists starts :: PayloadAtEnd(ad, from, starts, payload)
  }

  lemma PayloadWithout(ad: seq<byte>, from: nat, starts: seq<nat>, payload: seq<byte>)
    requires PayloadAtEnd(ad, from, starts, payload) && !RuuviAt(ad, from)
    ensures PayloadAtEnd(ad, from + 1 + ad[from] as nat, starts[1..], payload)
  {
    assert |starts| > 1 && FollowedBy(ad, starts[0], starts[0 + 1]);
    forall i: nat | i + 1 < |starts[1..]| ensures FollowedBy(ad, starts[1..][i], starts[1..][i + 1]) {
      assert FollowedBy(ad, starts[i + 1], starts[i + 1 + 1]);
    }
  }

  lemma PayloadWith(ad: seq<byte>, from: nat, starts: seq<nat>, payload: seq<byte>)
    requires StructureAt(ad, from) && !RuuviAt(ad, from)
    requires PayloadAtEnd(ad, from + 1 + ad[from] as nat, starts, payload)
    ensures PayloadAtEnd(ad, from, [from] + starts, payload)
  {
    var all := [from] + starts;
    forall i: nat | i + 1 < |all| ensures FollowedBy(ad, all[i], all[i + 1]) && !RuuviAt(ad, all[i]) {
      assert i > 0 ==> FollowedBy(ad, starts[i - 1], starts[i - 1 + 1]);
    }
  }

  lemma NextHasPayload(ad: seq<byte>, from: nat, payload: seq<byte>)
    requires StructureAt(ad, from) && !RuuviAt(ad, from)
    ensures HasPayload(ad, from, payload) <==> HasPayload(ad, from + 1 + ad[from] as nat, payload)
  {
    if starts :| PayloadAtEnd(ad, from, starts, payload) {
      PayloadWithout(ad, from, starts, payload);
    }
    var next := from + 1 + ad[from] as nat;
    if starts :| PayloadAtEnd(ad, next, starts, payload) {
      PayloadWith(ad, from, starts, payload);
    }
  }

  lemma FoundHasPayload(ad: seq<byte>, from: nat, payload: seq<byte>)
    requires RuuviAt(ad, from)
    ensures HasPayload(ad, from, payload) <==> payload == ad[from + 4..from + 1 + ad[from] as nat]
  {
    assert PayloadAtEnd(ad, from, [from], ad[from + 4..from + 1 + ad[from] as nat]);
    forall starts | PayloadAtEnd(ad, from, starts, payload)
      ensures payload == ad[from + 4..from + 1 + ad[from] as nat]
    {
      assert |starts| == 1;
    }
  }

  /** How the rest of the bytes decides, in terms of all of them. */
  lemma RestDecides(ad: seq<byte>, from: nat)
    requires from <= |ad|
    ensures FirstPayload(ad[from..]) ==
      if !StructureAt(ad, from) then None
      else if RuuviAt(ad, from) then Some(ad[from + 4..from + 1 + ad[from] as nat])
      else FirstPayload(ad[from + 1 + ad[from] as nat..])
  {
    var rest := ad[from..];
    assert Stuck(rest) <==> !StructureAt(ad, from);
    if StructureAt(ad, from) {
      var len := ad[from] as nat;
      assert rest[0] == ad[from] && rest[1] == ad[from + 1] && rest[1 + len..] == ad[from + 1 + len..];
      assert len >= 3 ==> rest[2] == ad[from + 2] && rest[3] == ad[from + 3];
      assert len >= 3 ==> rest[4..1 + len] == ad[from + 4..from + 1 + len];
    }
  }

  lemma PayloadNeedsStructure(ad: seq<byte>, from: nat, payload: seq<byte>)
    ensures HasPayload(ad, from, payload) ==> StructureAt(ad, from)
  {
    if starts :| PayloadAtEnd(ad, from, starts, payload) {
      assert StructureAt(ad, starts[0]);
    }
  }

  lemma {:induction false} PayloadFrom(ad: seq<byte>, from: nat, payload: seq<byte>)
    requires from <= |ad|
    ensures FirstPayload(ad[from..]) == Some(payload) <==> HasPayload(ad, from, payload)
    decreases |ad| - from
  {
    RestDecides(ad, from);
    if RuuviAt(ad, from) {
      FoundHasPayload(ad, from, payload);
    } else if StructureAt(ad, from) {
      NextHasPayload(ad, from, payload);
      PayloadFrom(ad, from + 1 + ad[from] as nat, payload);
    } else {
      PayloadNeedsStructure(ad, from, payload);
    }
  }

  /** In bytes, from the beginning of the advertising data. */
  lemma PayloadExactly(ad: seq<byte>, payload: seq<byte>)
    ensures FirstRuuvi(Structures(ad)) == Some(payload) <==> HasPayload(ad, 0, payload)
  {
    FirstPayloadIsFirstRuuvi(ad);
    PayloadFrom(ad, 0, payload);
    assert ad[0..] == ad;
  }

  lemma SplitFirst(s: AdStructure, more: seq<byte>)
    requires Fits(s)
    ensures Structures([LengthByte(s), s.adType] + s.data + more) == [s] + Structures(more)
  {
    var ad := [LengthByte(s), s.adType] + s.data + more;
    assert ad[2..1 + ad[0]] == s.data && ad[1 + ad[0]..] == more;
  }

  /** Splitting undoes encoding, whatever follows that starts no structure ... */
  lemma {:induction false} SplitUndoesEncode(structures: seq<AdStructure>, rest: seq<byte>)
    requires (forall s <- structures :: Fits(s)) && Stuck(rest)
    ensures Structures(Encode(structures) + rest) == structures
  {
    if structures == [] {
      assert Encode(structures) + rest == rest;
    } else {
      var s, more := structures[0], Encode(structures[1..]);
      SplitUndoesEncode(structures[1..], rest);
      SplitFirst(s, more + rest);
      Regroup([LengthByte(s), s.adType] + s.data, more, rest);
    }
  }

  lemma EncodeFirst(s: AdStructure, more: seq<AdStructure>)
    requires Fits(s) && forall s <- more :: Fits(s)
    ensures Encode([s] + more) == [LengthByte(s), s.adType] + s.data + Encode(more)
  {
    assert ([s] + more)[1..] == more;
  }

  /** ... and encoding what was split gives the bytes back, up to where it got stuck. */
  lemma {:induction false} EncodeUndoesSplit(ad: seq<byte>) returns (rest: seq<byte>)
    ensures forall s <- Structures(ad) :: Fits(s)
    ensures Stuck(rest) && ad == Encode(Structures(ad)) + rest
  {
    if Stuck(ad) {
      rest := ad;
    } else {
      var s, more := AdStructure(ad[1], ad[2..1 + ad[0]]), ad[1 + ad[0]..];
      rest := EncodeUndoesSplit(more);
      FirstBytes(ad);
      EncodeFirst(s, Structures(more));
      Regroup([LengthByte(s), s.adType] + s.data, Encode(Structures(more)), rest);
    }
  }

  lemma FirstBytes(ad: seq<byte>)
    requires !Stuck(ad)
    ensures var s := AdStructure(ad[1], ad[2..1 + ad[0]]);
            Fits(s) && ad == [LengthByte(s), s.adType] + s.data + ad[1 + ad[0]..]
  {
  }

  /** The split is the one way to read bytes as well-formed structures up to
    * where no further structure starts: the longest well-formed prefix.
    */
  lemma SplitIsLongestPrefix(ad: seq<byte>, structures: seq<AdStructure>)
    ensures structures == Structures(ad) <==>
      (forall s <- structures :: Fits(s)) && exists rest :: Stuck(rest) && ad == Encode(structures) + rest
  {
    var rest := EncodeUndoesSplit(ad);
    if forall s <- structures :: Fits(s) {
      forall rest | Stuck(rest) && ad == Encode(structures) + rest
        ensures structures == Structures(ad)
      {
        SplitUndoesEncode(structures, rest);
      }
    }
  }

  /** Where the first Ruuvi structure starts among the encoded structures. */
  function MatchOffset(structures: seq<AdStructure>): nat {
    if structures == [] || IsRuuvi(structures[0]) then 0
    else 2 + |structures[0].data| + MatchOffset(structures[1..])
  }

  lemma {:induction false} MatchHasId(ad: seq<byte>)
    requires FirstRuuvi(Structures(ad)).Some?
    ensures HasIdAt(ad, MatchOffset(Structures(ad)) + 2)
    ensures MatchOffset(Structures(ad)) + 4 <= |ad|
    decreases |ad|
  {
    if !IsRuuvi(Structures(ad)[0]) {
      MatchHasId(ad[1 + ad[0]..]);
    }
  }

  // ---------------------------------------------------------------------
  // Reports
  // ---------------------------------------------------------------------

  /** Addresses stand low byte first on the wire. */
  function Reversed(bytes: seq<byte>): (r: seq<byte>)
    ensures |r| == |bytes|
  {
    seq(|bytes|, i requires 0 <= i < |bytes| => bytes[|bytes| - 1 - i])
  }

  lemma ReversedTwice(bytes: seq<byte>)
    ensures Reversed(Reversed(bytes)) == bytes
  {
  }

  /** Legacy reports, subevent 0x02. */
  function ParseAdvertisingReport(data: seq<byte>, verbose: bool): Report {
    if |data| < 12 then (if verbose then TooShort else Nothing)
    else
      var report := data[4..];
      if report == [] || report[0] == 0 || |report| < 10 then Nothing
      else
        var dataLen: nat := report[9];
        if |report| < 10 + dataLen then Nothing
        else AdReport(report[10..10 + dataLen], Reversed(report[3..9]))
  }

  /** Extended reports, subevent 0x0D. */
  function ParseExtendedAdvertisingReport(data: seq<byte>): Report {
    if |data| < 4 then Nothing
    else
      var report := data[4..];
      if report == [] || report[0] == 0 || |report| < 25 then Nothing
      else
        var dataLen: nat := report[24];
        if |report| < 25 + dataLen then Nothing
        else AdReport(report[25..25 + dataLen], Reversed(report[4..10]))
  }

  /** Some window of two bytes is the manufacturer id. */
  predicate MightBeRuuvi(data: seq<byte>) {
    HasId(data, 0, |data|)
  }

  predicate IsMetaEvent(packet: seq<byte>) {
    |packet| >= 4 && packet[0] == HCI_EVENT_PKT && packet[1] == EVT_LE_META_EVENT
  }

  /** The parser a packet's subevent selects. */
  function ParseBySubevent(packet: seq<byte>, verbose: bool): Report
    requires |packet| >= 4
  {
    if packet[3] == EVT_LE_ADVERTISING_REPORT then ParseAdvertisingReport(packet, verbose)
    else if packet[3] == EVT_LE_EXTENDED_ADVERTISING_REPORT then ParseExtendedAdvertisingReport(packet)
    else Nothing
  }

  /** What the receive loop makes of a packet. */
  function Receive(packet: seq<byte>, verbose: bool): Report {
    if IsMetaEvent(packet) && MightBeRuuvi(packet) then ParseBySubevent(packet, verbose) else Nothing
  }

  /** What is sent on for a report, given the decoder: results, and errors only when verbose. */
  function Forwarded<M, E>(decode: (MacAddress, seq<byte>) -> Result<M, E>, tooShort: E, report: Report, verbose: bool):
    Option<Result<M, E>>
  {
    var result := match report
      case Nothing => None
      case TooShort => Some(Err(tooShort))
      case Decode(mac, payload) => Some(decode(mac, payload));
    if result.Some? && result.value.Err? && !verbose then None else result
  }

  /** What the receive loop sends on for a packet. */
  function Forward<M, E>(decode: (MacAddress, seq<byte>) -> Result<M, E>, tooShort: E,
                         packet: seq<byte>, verbose: bool):
    Option<Result<M, E>>
  {
    Forwarded(decode, tooShort, Receive(packet, verbose), verbose)
  }

  // ---------------------------------------------------------------------
  // What the parsers accept, in packet offsets
  // ---------------------------------------------------------------------

  /** A report with the data length at `dataStart - 1` that holds all its data. */
  predicate HoldsReport(packet: seq<byte>, dataStart: nat) {
    4 < dataStart <= |packet| && packet[4] != 0 && dataStart + packet[dataStart - 1] as nat <= |packet|
  }

  lemma LegacyReads(packet: seq<byte>, verbose: bool)
    requires HoldsReport(packet, LEGACY_DATA)
    ensures ParseAdvertisingReport(packet, verbose) ==
      AdReport(packet[LEGACY_DATA..LEGACY_DATA + packet[LEGACY_DATA - 1] as nat], Reversed(packet[7..13]))
  {
    SliceOfRest(packet, 4, 3, 9);
    SliceOfRest(packet, 4, 10, 10 + packet[LEGACY_DATA - 1] as nat);
  }

  lemma ExtendedReads(packet: seq<byte>)
    requires HoldsReport(packet, EXTENDED_DATA)
    ensures ParseExtendedAdvertisingReport(packet) ==
      AdReport(packet[EXTENDED_DATA..EXTENDED_DATA + packet[EXTENDED_DATA - 1] as nat], Reversed(packet[8..14]))
  {
    SliceOfRest(packet, 4, 4, 10);
    SliceOfRest(packet, 4, 25, 25 + packet[EXTENDED_DATA - 1] as nat);
  }

  /** A legacy report leads to the decoder exactly when it is complete and has a
    * Ruuvi structure; the address stands in bytes 7 to 12, last byte first. It
    * is called too short exactly below 12 bytes, when verbose.
    */
  lemma LegacyDecodesExactly(packet: seq<byte>, verbose: bool, mac: MacAddress, payload: seq<byte>)
    ensures ParseAdvertisingReport(packet, verbose) == Decode(mac, payload) <==>
      HoldsReport(packet, 14) && (forall i | 0 <= i < 6 :: mac[i] == packet[12 - i]) &&
      HasPayload(packet[14..14 + packet[13] as nat], 0, payload)
    ensures ParseAdvertisingReport(packet, verbose) == TooShort <==> verbose && |packet| < 12
  {
    if HoldsReport(packet, 14) {
      LegacyReads(packet, verbose);
      PayloadExactly(packet[14..14 + packet[13] as nat], payload);
      assert forall i | 0 <= i < 6 :: Reversed(packet[7..13])[i] == packet[12 - i];
      assert Reversed(packet[7..13]) == mac <==> forall i | 0 <= i < 6 :: mac[i] == packet[12 - i];
    }
  }

  /** The same for an extended report, whose address stands in bytes 8 to 13. */
  lemma ExtendedDecodesExactly(packet: seq<byte>, mac: MacAddress, payload: seq<byte>)
    ensures ParseExtendedAdvertisingReport(packet) == Decode(mac, payload) <==>
      HoldsReport(packet, 29) && (forall i | 0 <= i < 6 :: mac[i] == packet[13 - i]) &&
      HasPayload(packet[29..29 + packet[28] as nat], 0, payload)
    ensures ParseExtendedAdvertisingReport(packet) != TooShort
  {
    if HoldsReport(packet, 29) {
      ExtendedReads(packet);
      PayloadExactly(packet[29..29 + packet[28] as nat], payload);
      assert forall i | 0 <= i < 6 :: Reversed(packet[8..14])[i] == packet[13 - i];
      assert Reversed(packet[8..14]) == mac <==> forall i | 0 <= i < 6 :: mac[i] == packet[13 - i];
    }
  }

  /** The bytes 0x04 0x3E at the start and the subevent at byte 3 pick the parser; 0x99 0x04 must stand somewhere. */
  lemma ReceivesExactly(packet: seq<byte>, verbose: bool)
    ensures Receive(packet, verbose) ==
      if !(|packet| >= 4 && packet[0] == 0x04 && packet[1] == 0x3E) then Nothing
      else if !(exists i | 0 <= i < |packet| - 1 :: packet[i] == 0x99 && packet[i + 1] == 0x04) then Nothing
      else if packet[3] == 0x02 then ParseAdvertisingReport(packet, verbose)
      else if packet[3] == 0x0D then ParseExtendedAdvertisingReport(packet)
      else Nothing
  {
    if i :| 0 <= i < |packet| - 1 && packet[i] == 0x99 && packet[i + 1] == 0x04 {
      assert HasIdAt(packet, i);
    }
  }

  /** A measurement is always sent on; an error, of the decoder or for a short packet, exactly when verbose. */
  lemma ForwardsExactly<M, E>(decode: (MacAddress, seq<byte>) -> Result<M, E>, tooShort: E, packet: seq<byte>,
                              verbose: bool, sent: Result<M, E>)
    ensures Forward(decode, tooShort, packet, verbose) == Some(sent) <==>
      (sent.Ok? || verbose) &&
      ((Receive(packet, verbose) == TooShort && sent == Err(tooShort)) ||
       exists mac, payload :: Receive(packet, verbose) == Decode(mac, payload) && sent == decode(mac, payload))
  {
  }

  /** Being verbose adds errors to what is sent on and changes nothing else. */
  lemma VerboseOnlyAddsErrors<M, E>(decode: (MacAddress, seq<byte>) -> Result<M, E>, tooShort: E, packet: seq<byte>)
    ensures var all := Forward(decode, tooShort, packet, true);
            Forward(decode, tooShort, packet, false) == if all.Some? && all.value.Ok? then all else None
  {
  }

  // ---------------------------------------------------------------------
  // Round trips
  // ---------------------------------------------------------------------

  const LEGACY_DATA: nat := 14
  const EXTENDED_DATA: nat := 29

  /** What comes before the data length in a packet with one report. */
  function LegacyHeader(eventType: byte, addrType: byte, mac: MacAddress): seq<byte> {
    [1, eventType, addrType] + Reversed(mac)
  }

  function ExtendedHeader(eventType: seq<byte>, addrType: byte, mac: MacAddress, radio: seq<byte>): seq<byte> {
    [1] + eventType + [addrType] + Reversed(mac) + radio
  }

  /** An event packet with one report. */
  function Packet(paramLen: byte, subevent: byte, header: seq<byte>, ad: seq<byte>, trailer: seq<byte>): seq<byte>
    requires |ad| < 256
  {
    [HCI_EVENT_PKT, EVT_LE_META_EVENT, paramLen, subevent] + header + [|ad|] + ad + trailer
  }

  lemma LegacyLayout(paramLen: byte, eventType: byte, addrType: byte, mac: MacAddress,
                     ad: seq<byte>, trailer: seq<byte>)
    requires |ad| < 256
    ensures var packet := Packet(paramLen, EVT_LE_ADVERTISING_REPORT, LegacyHeader(eventType, addrType, mac),
                                 ad, trailer);
            HoldsReport(packet, LEGACY_DATA) && packet[LEGACY_DATA - 1] as nat == |ad| &&
            packet[LEGACY_DATA..LEGACY_DATA + |ad|] == ad && packet[7..13] == Reversed(mac)
  {
  }

  lemma ExtendedLayout(paramLen: byte, eventType: seq<byte>, addrType: byte, mac: MacAddress, radio: seq<byte>,
                       ad: seq<byte>, trailer: seq<byte>)
    requires |eventType| == 2 && |radio| == 14 && |ad| < 256
    ensures var packet := Packet(paramLen, EVT_LE_EXTENDED_ADVERTISING_REPORT,
                                 ExtendedHeader(eventType, addrType, mac, radio), ad, trailer);
            HoldsReport(packet, EXTENDED_DATA) && packet[EXTENDED_DATA - 1] as nat == |ad| &&
            packet[EXTENDED_DATA..EXTENDED_DATA + |ad|] == ad && packet[8..14] == Reversed(mac)
  {
  }

  /** Parsing an encoded legacy report hands the decoder the address, restored,
    * and the payload of the first Ruuvi structure.
    */
  lemma LegacyRoundTrip(paramLen: byte, eventType: byte, addrType: byte, mac: MacAddress,
                        structures: seq<AdStructure>, padding: seq<byte>, trailer: seq<byte>, verbose: bool)
    requires (forall s <- structures :: Fits(s)) && Stuck(padding) && |Encode(structures) + padding| < 256
    ensures ParseAdvertisingReport(
              Packet(paramLen, EVT_LE_ADVERTISING_REPORT, LegacyHeader(eventType, addrType, mac),
                     Encode(structures) + padding, trailer), verbose)
         == match FirstRuuvi(structures)
            case None => Nothing
            case Some(payload) => Decode(mac, payload)
  {
    var ad := Encode(structures) + padding;
    LegacyLayout(paramLen, eventType, addrType, mac, ad, trailer);
    LegacyReads(Packet(paramLen, EVT_LE_ADVERTISING_REPORT, LegacyHeader(eventType, addrType, mac), ad, trailer),
                verbose);
    ReversedTwice(mac);
    SplitUndoesEncode(structures, padding);
  }

  /** The same for an extended report. */
  lemma ExtendedRoundTrip(paramLen: byte, eventType: seq<byte>, addrType: byte, mac: MacAddress, radio: seq<byte>,
                          structures: seq<AdStructure>, padding: seq<byte>, trailer: seq<byte>)
    requires |eventType| == 2 && |radio| == 14
    requires (forall s <- structures :: Fits(s)) && Stuck(padding) && |Encode(structures) + padding| < 256
    ensures ParseExtendedAdvertisingReport(
              Packet(paramLen, EVT_LE_EXTENDED_ADVERTISING_REPORT, ExtendedHeader(eventType, addrType, mac, radio),
                     Encode(structures) + padding, trailer))
         == match FirstRuuvi(structures)
            case None => Nothing
            case Some(payload) => Decode(mac, payload)
  {
    var ad := Encode(structures) + padding;
    ExtendedLayout(paramLen, eventType, addrType, mac, radio, ad, trailer);
    ExtendedReads(Packet(paramLen, EVT_LE_EXTENDED_ADVERTISING_REPORT,
                         ExtendedHeader(eventType, addrType, mac, radio), ad, trailer));
    ReversedTwice(mac);
    SplitUndoesEncode(structures, padding);
  }
}
