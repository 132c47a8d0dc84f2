/** How the kernel filter and the prefilter agree with the parser behind them
  * (src/scanner/hci.rs): what each layer may drop.
  */
module FilterLayers {
  import opened Common
  import opened Hci
  import opened MacAddresses
  import opened Bpf
  import opened Advertising

  const FIRST_OFFSET: nat := 14
  const LAST_OFFSET: nat := 60
  const NUM_OFFSETS: nat := LAST_OFFSET - FIRST_OFFSET + 1

  /** The receive buffer holds the longest event: packet type, event, length byte and 255 parameters. */
  const MAX_PACKET: nat := 258

  /** The length byte counts what follows it. */
  predicate IsEvent(packet: seq<byte>) {
    |packet| >= 3 && |packet| == 3 + packet[2] as nat
  }

  /** The attached program delivers a packet when it returns a non-zero length. */
  predicate KernelDelivers(packet: seq<byte>) {
    Run(Program(FIRST_OFFSET, NUM_OFFSETS), packet, 0, 0) != Returned(0)
  }

  /** The program that is attached. */
  method RuuviFilter() returns (filter: seq<SockFilter>)
    ensures WellFormed(filter)
    ensures forall packet :: Run(filter, packet, 0, 0) != Returned(0) <==> IsRuuviReport(packet)
  {
    filter := BuildFilter(FIRST_OFFSET, LAST_OFFSET);
    forall packet ensures Run(filter, packet, 0, 0) != Returned(0) <==> IsRuuviReport(packet) {
      IsDeliveredExactly(packet);
    }
  }

  /** An event packet 0x04 with event 0x3E, subevent 0x02 or 0x0D, and 0x99 0x04 from one of bytes 14 to 60 on. */
  predicate IsRuuviReport(packet: seq<byte>) {
    |packet| >= 4 && packet[0] == 0x04 && packet[1] == 0x3E && (packet[3] == 0x02 || packet[3] == 0x0D) &&
    exists i | 14 <= i <= 60 && i + 1 < |packet| :: packet[i] == 0x99 && packet[i + 1] == 0x04
  }

  lemma IsDeliveredExactly(packet: seq<byte>)
    ensures KernelDelivers(packet) <==> IsRuuviReport(packet)
  {
    KernelDeliversWanted(packet);
    if i: nat :| FIRST_OFFSET <= i <= LAST_OFFSET && HasIdAt(packet, i) {
      assert packet[i] == 0x99 && packet[i + 1] == 0x04;
    }
    if i :| 14 <= i <= 60 && i + 1 < |packet| && packet[i] == 0x99 && packet[i + 1] == 0x04 {
      assert HasIdAt(packet, i);
    }
  }

  lemma KernelDeliversWanted(packet: seq<byte>)
    ensures KernelDelivers(packet) <==> IsReport(packet) && HasId(packet, FIRST_OFFSET, LAST_OFFSET + 1)
  {
    FilterIsCorrect(FIRST_OFFSET, NUM_OFFSETS, packet);
  }

  // ---------------------------------------------------------------------
  // The prefilter
  // ---------------------------------------------------------------------

  /** Where the advertising data of a report starts. */
  function DataOffset(packet: seq<byte>): nat
    requires |packet| >= 4
  {
    if packet[3] == EVT_LE_ADVERTISING_REPORT then LEGACY_DATA else EXTENDED_DATA
  }

  /** The advertising data of a report, as long as its length byte says. */
  function DataOf(packet: seq<byte>): seq<byte>
    requires |packet| >= 4 && DataOffset(packet) <= |packet|
    requires DataOffset(packet) + packet[DataOffset(packet) - 1] as nat <= |packet|
  {
    packet[DataOffset(packet)..DataOffset(packet) + packet[DataOffset(packet) - 1] as nat]
  }

  predicate ReachesDecoder(packet: seq<byte>) {
    IsMetaEvent(packet) && ParseBySubevent(packet, false).Decode?
  }

  /** Where in the advertising data the decoded structure starts. */
  function DecodedAt(packet: seq<byte>): nat
    requires ReachesDecoder(packet)
  {
    MatchOffset(Structures(DataOf(packet)))
  }

  lemma DecodedIsReport(packet: seq<byte>, verbose: bool)
    requires IsMetaEvent(packet) && ParseBySubevent(packet, verbose).Decode?
    ensures ReachesDecoder(packet) && IsReport(packet)
    ensures ParseBySubevent(packet, verbose).Decode? && FirstRuuvi(Structures(DataOf(packet))).Some?
  {
    var report := packet[4..];
    if packet[3] == EVT_LE_ADVERTISING_REPORT {
      SliceOfRest(packet, 4, 10, 10 + report[9] as nat);
    } else {
      SliceOfRest(packet, 4, 25, 25 + report[24] as nat);
    }
  }

  lemma IdInData(packet: seq<byte>, at: nat)
    requires |packet| >= 4 && DataOffset(packet) <= |packet|
    requires DataOffset(packet) + packet[DataOffset(packet) - 1] as nat <= |packet| && HasIdAt(DataOf(packet), at)
    ensures HasIdAt(packet, DataOffset(packet) + at)
  {
  }

  lemma MatchHasIdInPacket(packet: seq<byte>)
    requires |packet| >= 4 && DataOffset(packet) <= |packet|
    requires DataOffset(packet) + packet[DataOffset(packet) - 1] as nat <= |packet|
    requires FirstRuuvi(Structures(DataOf(packet))).Some?
    ensures HasIdAt(packet, DataOffset(packet) + MatchOffset(Structures(DataOf(packet))) + 2)
  {
    MatchHasId(DataOf(packet));
    IdInData(packet, MatchOffset(Structures(DataOf(packet))) + 2);
  }

  /** A packet that reaches the decoder has the id where its structure says. */
  lemma DecodedHasId(packet: seq<byte>)
    requires ReachesDecoder(packet)
    ensures HasIdAt(packet, DataOffset(packet) + DecodedAt(packet) + 2)
    ensures IsReport(packet)
  {
    DecodedIsReport(packet, false);
    MatchHasIdInPacket(packet);
  }

  /** The prefilter changes nothing, except that a short packet without the id
    * is no longer reported as too short.
    */
  lemma PrefilterLosesNothing(packet: seq<byte>, verbose: bool)
    requires IsMetaEvent(packet)
    ensures ParseBySubevent(packet, verbose).Decode? ==> MightBeRuuvi(packet)
    ensures Receive(packet, verbose) == ParseBySubevent(packet, verbose) <==>
      !(verbose && |packet| < 12 && packet[3] == EVT_LE_ADVERTISING_REPORT && !MightBeRuuvi(packet))
  {
    if ParseBySubevent(packet, verbose).Decode? {
      DecodedIsReport(packet, verbose);
      DecodedHasId(packet);
    }
  }

  // ---------------------------------------------------------------------
  // The kernel filter
  // ---------------------------------------------------------------------

  /** What the kernel delivers the prefilter passes on, and none of it is too short. */
  lemma DeliveredIsParsed(packet: seq<byte>, verbose: bool)
    requires KernelDelivers(packet)
    ensures |packet| >= FIRST_OFFSET + 2 && MightBeRuuvi(packet)
    ensures Receive(packet, verbose) == ParseBySubevent(packet, verbose) != TooShort
  {
    KernelDeliversWanted(packet);
  }

  /** The last AD offset whose manufacturer id the kernel filter still looks at. */
  function LastSeenAt(subevent: byte): int {
    LAST_OFFSET - 2 - if subevent == EVT_LE_ADVERTISING_REPORT then LEGACY_DATA else EXTENDED_DATA
  }

  /** The kernel delivers every packet whose decoded structure starts early enough. */
  lemma KernelLosesNothingEarly(packet: seq<byte>)
    requires ReachesDecoder(packet) && DecodedAt(packet) <= LastSeenAt(packet[3])
    ensures KernelDelivers(packet) && MightBeRuuvi(packet)
  {
    DecodedHasId(packet);
    KernelDeliversWanted(packet);
  }

  /** In particular every legacy report within the 31 bytes of legacy advertising. */
  lemma KernelLosesNoLegacy(packet: seq<byte>)
    requires ReachesDecoder(packet) && packet[3] == EVT_LE_ADVERTISING_REPORT && packet[LEGACY_DATA - 1] <= 31
    ensures KernelDelivers(packet) && MightBeRuuvi(packet)
  {
    DecodedIsReport(packet, false);
    MatchHasId(DataOf(packet));
    KernelLosesNothingEarly(packet);
  }

  lemma LegacyData(paramLen: byte, eventType: byte, addrType: byte, mac: MacAddress, ad: seq<byte>, trailer: seq<byte>)
    requires |ad| < 256
    ensures var packet := Packet(paramLen, EVT_LE_ADVERTISING_REPORT, LegacyHeader(eventType, addrType, mac),
                                 ad, trailer);
            |packet| >= LEGACY_DATA + |ad| && packet[LEGACY_DATA - 1] as nat == |ad| && DataOf(packet) == ad &&
            IsMetaEvent(packet) && packet[3] == EVT_LE_ADVERTISING_REPORT
  {
  }

  lemma ExtendedData(paramLen: byte, eventType: seq<byte>, addrType: byte, mac: MacAddress, radio: seq<byte>,
                     ad: seq<byte>, trailer: seq<byte>)
    requires |eventType| == 2 && |radio| == 14 && |ad| < 256
    ensures var packet := Packet(paramLen, EVT_LE_EXTENDED_ADVERTISING_REPORT,
                                 ExtendedHeader(eventType, addrType, mac, radio), ad, trailer);
            |packet| >= EXTENDED_DATA + |ad| && packet[EXTENDED_DATA - 1] as nat == |ad| && DataOf(packet) == ad &&
            IsMetaEvent(packet) && packet[3] == EVT_LE_EXTENDED_ADVERTISING_REPORT
  {
  }

  /** An encoded legacy report with a Ruuvi structure reaches the decoder, at that structure. */
  lemma LegacyReaches(paramLen: byte, eventType: byte, addrType: byte, mac: MacAddress,
                      structures: seq<AdStructure>, padding: seq<byte>, trailer: seq<byte>)
    requires (forall s <- structures :: Fits(s)) && Stuck(padding) && |Encode(structures) + padding| < 256
    requires FirstRuuvi(structures).Some?
    ensures var packet := Packet(paramLen, EVT_LE_ADVERTISING_REPORT, LegacyHeader(eventType, addrType, mac),
                                 Encode(structures) + padding, trailer);
            ReachesDecoder(packet) && packet[3] == EVT_LE_ADVERTISING_REPORT &&
            DecodedAt(packet) == MatchOffset(structures) &&
            packet[LEGACY_DATA - 1] as nat == |Encode(structures) + padding|
  {
    LegacyData(paramLen, eventType, addrType, mac, Encode(structures) + padding, trailer);
    LegacyRoundTrip(paramLen, eventType, addrType, mac, structures, padding, trailer, false);
    SplitUndoesEncode(structures, padding);
  }

  lemma ExtendedReaches(paramLen: byte, eventType: seq<byte>, addrType: byte, mac: MacAddress, radio: seq<byte>,
                        structures: seq<AdStructure>, padding: seq<byte>, trailer: seq<byte>)
    requires |eventType| == 2 && |radio| == 14
    requires (forall s <- structures :: Fits(s)) && Stuck(padding) && |Encode(structures) + padding| < 256
    requires FirstRuuvi(structures).Some?
    ensures var packet := Packet(paramLen, EVT_LE_EXTENDED_ADVERTISING_REPORT,
                                 ExtendedHeader(eventType, addrType, mac, radio),
                                 Encode(structures) + padding, trailer);
            ReachesDecoder(packet) && packet[3] == EVT_LE_EXTENDED_ADVERTISING_REPORT &&
            DecodedAt(packet) == MatchOffset(structures)
  {
    ExtendedData(paramLen, eventType, addrType, mac, radio, Encode(structures) + padding, trailer);
    ExtendedRoundTrip(paramLen, eventType, addrType, mac, radio, structures, padding, trailer);
    SplitUndoesEncode(structures, padding);
  }

  /** A structure of other data that takes `size` bytes, then an empty Ruuvi payload. */
  function Late(size: nat): seq<AdStructure>
    requires 2 <= size <= 251
  {
    [AdStructure(0, seq(size - 2, _ => 0)), AdStructure(AD_TYPE_MANUFACTURER_DATA, [0x99, 0x04])]
  }

  lemma LateEncoded(size: nat)
    requires 2 <= size <= 251
    ensures Encode(Late(size)) == [size - 1, 0] + seq(size - 2, _ => 0) + [3, AD_TYPE_MANUFACTURER_DATA, 0x99, 0x04]
    ensures FirstRuuvi(Late(size)) == Some([]) && MatchOffset(Late(size)) == size
  {
    var late := Late(size);
    assert !IsRuuvi(late[0]) && IsRuuvi(late[1]);
    assert late[1..] == [late[1]] && late[1..][1..] == [];
    assert Encode(late[1..]) == [3, AD_TYPE_MANUFACTURER_DATA, 0x99, 0x04];
    assert MatchOffset(late[1..]) == 0;
    assert late[1].data[2..] == [];
    assert FirstRuuvi(late[1..]) == Some([]);
  }

  const NO_MAC: MacAddress := [0, 0, 0, 0, 0, 0]

  /** The longest event has room for a Ruuvi structure at AD offset `at`. */
  predicate HasRoom(subevent: byte, at: nat) {
    at <= MAX_PACKET - 4 - if subevent == EVT_LE_ADVERTISING_REPORT then LEGACY_DATA else EXTENDED_DATA
  }

  /** A packet of either kind with the Ruuvi structure at AD offset `size`. */
  function LatePacket(subevent: byte, size: nat): seq<byte>
    requires 2 <= size && HasRoom(subevent, size)
  {
    LateEncoded(size);
    if subevent == EVT_LE_ADVERTISING_REPORT then
      Packet(LEGACY_DATA + size + 1, subevent, LegacyHeader(0, 0, NO_MAC), Encode(Late(size)), [])
    else
      Packet(EXTENDED_DATA + size + 1, subevent, ExtendedHeader([0, 0], 0, NO_MAC, seq(14, _ => 0)),
             Encode(Late(size)), [])
  }

  /** Only its first byte and the id itself can look like the start of an id. */
  lemma LateBytes(size: nat)
    requires 2 <= size <= 251
    ensures var data := Encode(Late(size));
            |data| == size + 4 && data[1] == 0 && data[0] == size - 1 &&
            forall i | 0 < i < |data| && i != size + 2 :: data[i] != 0x99
  {
    LateEncoded(size);
  }

  lemma PacketParts(paramLen: byte, subevent: byte, header: seq<byte>, ad: seq<byte>, start: nat)
    requires |ad| < 256 && start == |header| + 5
    ensures var packet := Packet(paramLen, subevent, header, ad, []);
            |packet| == start + |ad| && packet[2] == paramLen &&
            packet[start..] == ad && packet[start - 1] as nat == |ad| &&
            forall i | 4 <= i < start - 1 :: packet[i] == header[i - 4]
  {
  }

  lemma LatePacketParts(subevent: byte, size: nat) returns (start: nat)
    requires subevent == EVT_LE_ADVERTISING_REPORT || subevent == EVT_LE_EXTENDED_ADVERTISING_REPORT
    requires 2 <= size && HasRoom(subevent, size)
    ensures start == if subevent == EVT_LE_ADVERTISING_REPORT then LEGACY_DATA else EXTENDED_DATA
    ensures var packet := LatePacket(subevent, size);
            |packet| == start + size + 4 && packet[start..] == Encode(Late(size)) && packet[start - 1] == size + 4 &&
            IsEvent(packet) && forall i | FIRST_OFFSET <= i < start - 1 :: packet[i] == 0
  {
    LateBytes(size);
    if subevent == EVT_LE_ADVERTISING_REPORT {
      start := LEGACY_DATA;
      PacketParts(start + size + 1, subevent, LegacyHeader(0, 0, NO_MAC), Encode(Late(size)), start);
    } else {
      start := EXTENDED_DATA;
      PacketParts(start + size + 1, subevent, ExtendedHeader([0, 0], 0, NO_MAC, seq(14, _ => 0)),
                  Encode(Late(size)), start);
    }
  }

  lemma LatePacketDecodes(subevent: byte, size: nat)
    requires subevent == EVT_LE_ADVERTISING_REPORT || subevent == EVT_LE_EXTENDED_ADVERTISING_REPORT
    requires 2 <= size && HasRoom(subevent, size)
    ensures DecodedFrom(LatePacket(subevent, size), subevent, size)
  {
    LateEncoded(size);
    assert Encode(Late(size)) + [] == Encode(Late(size));
    if subevent == EVT_LE_ADVERTISING_REPORT {
      LegacyReaches(LEGACY_DATA + size + 1, 0, 0, NO_MAC, Late(size), [], []);
    } else {
      ExtendedReaches(EXTENDED_DATA + size + 1, [0, 0], 0, NO_MAC, seq(14, _ => 0), Late(size), [], []);
    }
  }

  lemma LatePacketHasOneId(subevent: byte, size: nat)
    requires subevent == EVT_LE_ADVERTISING_REPORT || subevent == EVT_LE_EXTENDED_ADVERTISING_REPORT
    requires 2 <= size && HasRoom(subevent, size) && size > LastSeenAt(subevent)
    ensures !HasId(LatePacket(subevent, size), FIRST_OFFSET, LAST_OFFSET + 1)
  {
    LateBytes(size);
    var start := LatePacketParts(subevent, size);
    var packet, data := LatePacket(subevent, size), Encode(Late(size));
    assert forall i | 0 <= i < |data| :: packet[start..][i] == packet[start + i];
    forall i: nat | FIRST_OFFSET <= i <= LAST_OFFSET && i < |packet| && i >= start
      ensures packet[i] == data[i - start]
    {
      assert packet[start..][i - start] == packet[i];
    }
  }

  predicate DecodedFrom(packet: seq<byte>, subevent: byte, at: nat) {
    ReachesDecoder(packet) && packet[3] == subevent && DecodedAt(packet) == at
  }

  lemma DecodedHasRoom(packet: seq<byte>, subevent: byte, at: nat)
    requires DecodedFrom(packet, subevent, at) && |packet| <= MAX_PACKET
    ensures HasRoom(subevent, at)
  {
    DecodedIsReport(packet, false);
    MatchHasId(DataOf(packet));
  }

  /** Among the packets that fit the receive buffer, and also among the events
    * whose length byte is right, the kernel delivers every one of a kind whose
    * structure starts at AD offset `at` exactly when `at` is at most 44 (legacy)
    * or 29 (extended), or none can start that late.
    */
  lemma KernelLosesExactlyLate(subevent: byte, at: nat)
    requires subevent == EVT_LE_ADVERTISING_REPORT || subevent == EVT_LE_EXTENDED_ADVERTISING_REPORT
    ensures (forall packet | |packet| <= MAX_PACKET && DecodedFrom(packet, subevent, at) :: KernelDelivers(packet))
       <==> if subevent == EVT_LE_ADVERTISING_REPORT then at <= 44 || at > 240 else at <= 29 || at > 225
    ensures (forall packet | IsEvent(packet) && DecodedFrom(packet, subevent, at) :: KernelDelivers(packet))
       <==> if subevent == EVT_LE_ADVERTISING_REPORT then at <= 44 || at > 240 else at <= 29 || at > 225
  {
    if at <= LastSeenAt(subevent) || !HasRoom(subevent, at) {
      forall packet | |packet| <= MAX_PACKET && DecodedFrom(packet, subevent, at)
        ensures KernelDelivers(packet)
      {
        DecodedHasRoom(packet, subevent, at);
        KernelLosesNothingEarly(packet);
      }
    } else {
      var packet := LatePacket(subevent, at);
      var start := LatePacketParts(subevent, at);
      LatePacketDecodes(subevent, at);
      LatePacketHasOneId(subevent, at);
      KernelDeliversWanted(packet);
    }
  }

  // ---------------------------------------------------------------------
  // All layers together
  // ---------------------------------------------------------------------

  /** From the air to the channel: an encoded legacy report whose data fit in 31
    * bytes passes both filters, and the decoder gets the restored address and
    * the payload of the first Ruuvi structure.
    */
  lemma LegacyReportArrives(paramLen: byte, eventType: byte, addrType: byte, mac: MacAddress,
                            structures: seq<AdStructure>, padding: seq<byte>, trailer: seq<byte>, verbose: bool)
    requires (forall s <- structures :: Fits(s)) && Stuck(padding) && |Encode(structures) + padding| <= 31
    requires FirstRuuvi(structures).Some?
    ensures var packet := Packet(paramLen, EVT_LE_ADVERTISING_REPORT, LegacyHeader(eventType, addrType, mac),
                                 Encode(structures) + padding, trailer);
            KernelDelivers(packet) && Receive(packet, verbose) == Decode(mac, FirstRuuvi(structures).value)
  {
    LegacyReaches(paramLen, eventType, addrType, mac, structures, padding, trailer);
    LegacyRoundTrip(paramLen, eventType, addrType, mac, structures, padding, trailer, verbose);
    KernelLosesNoLegacy(Packet(paramLen, EVT_LE_ADVERTISING_REPORT, LegacyHeader(eventType, addrType, mac),
                               Encode(structures) + padding, trailer));
  }

  /** The same for an extended report whose Ruuvi structure starts at AD offset 29 or before. */
  lemma ExtendedReportArrives(paramLen: byte, eventType: seq<byte>, addrType: byte, mac: MacAddress, radio: seq<byte>,
                              structures: seq<AdStructure>, padding: seq<byte>, trailer: seq<byte>, verbose: bool)
    requires |eventType| == 2 && |radio| == 14
    requires (forall s <- structures :: Fits(s)) && Stuck(padding) && |Encode(structures) + padding| < 256
    requires FirstRuuvi(structures).Some? && MatchOffset(structures) <= 29
    ensures var packet := Packet(paramLen, EVT_LE_EXTENDED_ADVERTISING_REPORT,
                                 ExtendedHeader(eventType, addrType, mac, radio),
                                 Encode(structures) + padding, trailer);
            KernelDelivers(packet) && Receive(packet, verbose) == Decode(mac, FirstRuuvi(structures).value)
  {
    ExtendedReaches(paramLen, eventType, addrType, mac, radio, structures, padding, trailer);
    ExtendedRoundTrip(paramLen, eventType, addrType, mac, radio, structures, padding, trailer);
    KernelLosesNothingEarly(Packet(paramLen, EVT_LE_EXTENDED_ADVERTISING_REPORT,
                                   ExtendedHeader(eventType, addrType, mac, radio),
                                   Encode(structures) + padding, trailer));
  }
}
