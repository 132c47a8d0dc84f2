/** Setting up LE scanning over the command socket: src/scanner/hci.rs.
  *
  * Commands and replies: Bluetooth Core Specification, Vol 4 Part E, sections
  * 7.7.14, 7.8.3, 7.8.10, 7.8.11, 7.8.64 and 7.8.65.
  */
module ScanSetup {
  import opened Common
  import opened Hci

  const OGF_LE_CTL: u16 := 0x08
  const OCF_LE_READ_LOCAL_SUPPORTED_FEATURES: u16 := 0x0003
  const OCF_LE_SET_SCAN_PARAMETERS: u16 := 0x000B
  const OCF_LE_SET_SCAN_ENABLE: u16 := 0x000C
  const OCF_LE_SET_EXTENDED_SCAN_PARAMETERS: u16 := 0x0041
  const OCF_LE_SET_EXTENDED_SCAN_ENABLE: u16 := 0x0042

  // ---------------------------------------------------------------------
  // Opcodes and packets
  // ---------------------------------------------------------------------

  /** Bitwise or. */
  function BitOr(a: nat, b: nat): nat {
    if a == 0 && b == 0 then 0
    else 2 * BitOr(a / 2, b / 2) + if a % 2 == 1 || b % 2 == 1 then 1 else 0
  }

  function Pow2(n: nat): nat {
    if n == 0 then 1 else 2 * Pow2(n - 1)
  }

  /** Bits above and below position `n` add up. */
  lemma {:induction false} BitOrDisjoint(high: nat, low: nat, n: nat)
    requires low < Pow2(n)
    ensures BitOr(high * Pow2(n), low) == high * Pow2(n) + low
  {
    if n == 0 {
      BitOrZero(high);
    } else {
      var a := high * Pow2(n - 1);
      assert high * Pow2(n) == 2 * a;
      BitOrDisjoint(high, low / 2, n - 1);
    }
  }

  lemma BitOrZero(a: nat)
    ensures BitOr(a, 0) == a
  {
  }

  /** Bits beyond position `n` do not appear. */
  lemma {:induction false} BitOrBounded(a: nat, b: nat, n: nat)
    requires a < Pow2(n) && b < Pow2(n)
    ensures BitOr(a, b) < Pow2(n)
  {
    if n > 0 {
      BitOrBounded(a / 2, b / 2, n - 1);
    }
  }

  lemma OrIsSum(ogf: nat, ocf: nat)
    requires ogf < 64 && ocf < 1024
    ensures BitOr(ogf * 1024 % 0x1_0000, ocf) == 1024 * ogf + ocf
  {
    assert Pow2(10) == 1024;
    BitOrDisjoint(ogf, ocf, 10);
    assert ogf * 1024 % 0x1_0000 == ogf * 1024;
  }

  lemma OrFits(a: u16, b: u16)
    ensures BitOr(a, b) < 0x1_0000
  {
    assert Pow2(8) == 256 && Pow2(12) == 16 * Pow2(8) && Pow2(16) == 16 * Pow2(12);
    BitOrBounded(a, b, 16);
  }

  /** (ogf << 10) | ocf: the shift drops what leaves 16 bits. A group of 6 bits
    * and a command of 10 bits stand side by side.
    */
  function Opcode(ogf: u16, ocf: u16): (opcode: u16)
    ensures ogf < 64 && ocf < 1024 ==> opcode == 1024 * ogf + ocf
  {
    OrFits(ogf * 1024 % 0x1_0000, ocf);
    assert ogf < 64 && ocf < 1024 ==> BitOr(ogf * 1024 % 0x1_0000, ocf) == 1024 * ogf + ocf by {
      if ogf < 64 && ocf < 1024 {
        OrIsSum(ogf, ocf);
      }
    }
    BitOr(ogf * 1024 % 0x1_0000, ocf)
  }

  datatype Command = Command(ocf: u16, params: seq<byte>)

  predicate IsCommand(c: Command) {
    c.ocf < 1024 && |c.params| < 256
  }

  function OpcodeOf(c: Command): u16
    requires IsCommand(c)
  {
    Opcode(OGF_LE_CTL, c.ocf)
  }

  /** Packet type, opcode low byte first, the length cut down to a byte, the parameters. */
  function PacketWith(opcode: u16, params: seq<byte>): seq<byte> {
    [1, opcode % 256, opcode / 256, |params| % 256] + params
  }

  function CommandPacket(ogf: u16, ocf: u16, params: seq<byte>): seq<byte> {
    PacketWith(Opcode(ogf, ocf), params)
  }

  function PacketOf(c: Command): seq<byte>
    requires IsCommand(c)
  {
    CommandPacket(OGF_LE_CTL, c.ocf, c.params)
  }

  method HciCommandPacket(ogf: u16, ocf: u16, params: seq<byte>) returns (packet: seq<byte>)
    ensures packet == CommandPacket(ogf, ocf, params)
    ensures ogf < 64 && ocf < 1024 ==>
      packet == [0x01, (1024 * ogf + ocf) % 256, (1024 * ogf + ocf) / 256, |params| % 256] + params
  {
    var opcode := Opcode(ogf, ocf);
    packet := [];
    packet := packet + [1];
    packet := packet + [opcode % 256];
    packet := packet + [opcode / 256];
    packet := packet + [|params| % 256];
    packet := packet + params;
  }

  /** In scan set-up the opcode is 0x2000 and the command. */
  lemma PacketFromCommand(c: Command)
    requires IsCommand(c)
    ensures OpcodeOf(c) == 0x2000 + c.ocf && PacketOf(c) == PacketWith(0x2000 + c.ocf, c.params)
  {
  }

  lemma OpcodeBytes(ocf: nat)
    requires ocf < 1024
    ensures (0x2000 + ocf) % 256 == ocf % 256 && (0x2000 + ocf) / 256 == 0x20 + ocf / 256
  {
  }

  lemma PacketWithBytes(ocf: u16, params: seq<byte>)
    requires ocf < 1024 && |params| < 256
    ensures PacketWith(0x2000 + ocf, params) == [0x01, ocf % 256, 0x20 + ocf / 256, |params|] + params
  {
    OpcodeBytes(ocf);
  }

  /** The packet of a command, in bytes. */
  lemma PacketBytes(c: Command)
    requires IsCommand(c)
    ensures PacketOf(c) == [0x01, c.ocf % 256, 0x20 + c.ocf / 256, |c.params|] + c.params
    ensures OpcodeOf(c) == 0x2000 + c.ocf
  {
    PacketFromCommand(c);
    PacketWithBytes(c.ocf, c.params);
  }

  /** A packet tells its command: opcode, group, command and parameters. */
  lemma PacketTellsCommand(c: Command, d: Command)
    requires IsCommand(c) && IsCommand(d)
    ensures LittleEndian(PacketOf(c)[1], PacketOf(c)[2]) == OpcodeOf(c)
    ensures OpcodeOf(c) / 1024 == OGF_LE_CTL && OpcodeOf(c) % 1024 == c.ocf
    ensures PacketOf(c) == PacketOf(d) <==> c == d
  {
    PacketBytes(c);
    PacketBytes(d);
    assert PacketOf(c)[4..] == c.params && PacketOf(d)[4..] == d.params;
    if PacketOf(c) == PacketOf(d) {
      assert PacketOf(c)[1] == PacketOf(d)[1] && PacketOf(c)[2] == PacketOf(d)[2];
    }
  }

  // ---------------------------------------------------------------------
  // The command socket
  // ---------------------------------------------------------------------

  /** What one turn of waiting brings: the deadline, something to try again
    * after, a failure of poll or read, or a packet.
    */
  datatype Incoming = Expired | Retry | PollFails | ReadFails | Packet(data: seq<byte>)

  datatype ScanError =
    | TimedOut
    | PollFailed
    | ReadFailed
    | WriteFailed
    | Truncated
    | Refused(opcode: nat, status: byte)

  /** A Command Complete event for `opcode`. */
  predicate Completes(data: seq<byte>, opcode: nat) {
    |data| >= 6 && data[0] == HCI_EVENT_PKT && data[1] == EVT_CMD_COMPLETE && LittleEndian(data[4], data[5]) == opcode
  }

  /** What is still to come, what was sent, and how many more writes succeed. */
  datatype SocketState = SocketState(incoming: seq<Incoming>, sent: seq<seq<byte>>, room: nat)

  /** Wait for the reply to `opcode`; also what is left to come. */
  function Await(incoming: seq<Incoming>, opcode: nat): (Result<seq<byte>, ScanError>, seq<Incoming>) {
    if incoming == [] then (Err(TimedOut), [])
    else
      var rest := incoming[1..];
      match incoming[0]
      case Expired => (Err(TimedOut), rest)
      case PollFails => (Err(PollFailed), rest)
      case ReadFails => (Err(ReadFailed), rest)
      case Retry => Await(rest, opcode)
      case Packet(data) => if Completes(data, opcode) then (Ok(data), rest) else Await(rest, opcode)
  }

  /** The verdict on a reply by its status, the first return parameter, at byte 6. */
  function Judge(event: seq<byte>, opcode: nat): Result<seq<byte>, ScanError> {
    if |event| <= 6 then Err(Truncated)
    else if event[6] != 0 then Err(Refused(opcode, event[6]))
    else Ok(event)
  }

  /** Send a command and judge its reply. */
  function Exchange(st: SocketState, c: Command): (Result<seq<byte>, ScanError>, SocketState)
    requires IsCommand(c)
  {
    if st.room == 0 then (Err(WriteFailed), st)
    else
      var (reply, rest) := Await(st.incoming, OpcodeOf(c));
      (if reply.Err? then reply else Judge(reply.value, OpcodeOf(c)),
       SocketState(rest, st.sent + [PacketOf(c)], st.room - 1))
  }

  /** Bit 12 of the feature mask after the status: LE Extended Advertising. */
  predicate SupportsExtended(event: seq<byte>) {
    |event| > 8 && event[8] / 16 % 2 == 1
  }

  const READ_FEATURES: Command := Command(OCF_LE_READ_LOCAL_SUPPORTED_FEATURES, [])

  function SetEnable(extended: bool, enable: bool): (c: Command)
    ensures IsCommand(c)
  {
    var on: byte := if enable then 1 else 0;
    if extended then Command(OCF_LE_SET_EXTENDED_SCAN_ENABLE, [on, 0, 0, 0, 0, 0])
    else Command(OCF_LE_SET_SCAN_ENABLE, [on, 0])
  }

  /** A passive scan with interval and window 0x0140, on the LE 1M PHY. */
  function SetParameters(extended: bool): (c: Command)
    ensures IsCommand(c)
  {
    if extended then Command(OCF_LE_SET_EXTENDED_SCAN_PARAMETERS, [0, 0, 1, 0, 0x40, 1, 0x40, 1])
    else Command(OCF_LE_SET_SCAN_PARAMETERS, [0, 0x40, 1, 0x40, 1, 0, 0])
  }

  /** Disable, set parameters, enable. */
  function Plan(extended: bool): (cs: seq<Command>)
    ensures forall c <- cs :: IsCommand(c)
  {
    [SetEnable(extended, false), SetParameters(extended), SetEnable(extended, true)]
  }

  /** Run commands in order up to the first failure; the error, if any, and the socket afterwards. */
  function RunCommands(st: SocketState, cs: seq<Command>): (Option<ScanError>, SocketState)
    requires forall c <- cs :: IsCommand(c)
    decreases |cs|
  {
    if cs == [] then (None, st)
    else
      var (result, next) := Exchange(st, cs[0]);
      if result.Err? then (Some(result.error), next) else RunCommands(next, cs[1..])
  }

  /** Ask for the features, then set up the one family they pick. */
  function Configure(st: SocketState): (Option<ScanError>, SocketState) {
    var (result, next) := Exchange(st, READ_FEATURES);
    if result.Err? then (Some(result.error), next) else RunCommands(next, Plan(SupportsExtended(result.value)))
  }

  class CommandSocket {
    var incoming: seq<Incoming>
    var sent: seq<seq<byte>>
    var room: nat

    function State(): SocketState
      reads this
    {
      SocketState(incoming, sent, room)
    }

    method SendHciCommand(packet: seq<byte>) returns (error: Option<ScanError>)
      modifies this
      ensures incoming == old(incoming)
      ensures if old(room) == 0 then error == Some(WriteFailed) && State() == old(State())
              else error == None && sent == old(sent) + [packet] && room == old(room) - 1
    {
      if room == 0 {
        return Some(WriteFailed);
      }
      sent, room := sent + [packet], room - 1;
      return None;
    }

    method ReadCommandComplete(opcode: nat) returns (r: Result<seq<byte>, ScanError>)
      modifies this`incoming
      ensures (r, incoming) == Await(old(incoming), opcode)
    {
      while incoming != []
        invariant Await(incoming, opcode) == Await(old(incoming), opcode)
        decreases |incoming|
      {
        var next := incoming[0];
        incoming := incoming[1..];
        match next
        case Expired => return Err(TimedOut);
        case PollFails => return Err(PollFailed);
        case ReadFails => return Err(ReadFailed);
        case Retry =>
        case Packet(data) =>
          if |data| >= 6 && data[0] == HCI_EVENT_PKT && data[1] == EVT_CMD_COMPLETE {
            if LittleEndian(data[4], data[5]) == opcode {
              return Ok(data);
            }
          }
      }
      return Err(TimedOut);
    }

    method SendHciCommandChecked(ocf: u16, params: seq<byte>) returns (r: Result<seq<byte>, ScanError>)
      requires IsCommand(Command(ocf, params))
      modifies this
      ensures (r, State()) == Exchange(old(State()), Command(ocf, params))
    {
      var packet := HciCommandPacket(OGF_LE_CTL, ocf, params);
      var failed := SendHciCommand(packet);
      if failed.Some? {
        return Err(failed.value);
      }
      var opcode := Opcode(OGF_LE_CTL, ocf);
      var event := ReadCommandComplete(opcode);
      if event.Err? {
        return event;
      }
      return Judge(event.value, opcode);
    }

    method ConfigureLeScan() returns (error: Option<ScanError>)
      modifies this
      ensures (error, State()) == Configure(old(State()))
    {
      var features := SendHciCommandChecked(OCF_LE_READ_LOCAL_SUPPORTED_FEATURES, []);
      if features.Err? {
        return Some(features.error);
      }
      var event := features.value;
      if |event| > 8 && event[8] / 16 % 2 == 1 {
        error := ConfigureFamily(true);
      } else {
        error := ConfigureFamily(false);
      }
    }

    /** configure_legacy_le_scan and configure_extended_le_scan, which send the
      * same three steps in the commands of their family.
      */
    method ConfigureFamily(extended: bool) returns (error: Option<ScanError>)
      modifies this
      ensures (error, State()) == RunCommands(old(State()), Plan(extended))
    {
      PlanInSteps(State(), extended);
      var disable := SetEnable(extended, false);
      var r := SendHciCommandChecked(disable.ocf, disable.params);
      if r.Err? {
        return Some(r.error);
      }
      var parameters := SetParameters(extended);
      r := SendHciCommandChecked(parameters.ocf, parameters.params);
      if r.Err? {
        return Some(r.error);
      }
      var enable := SetEnable(extended, true);
      r := SendHciCommandChecked(enable.ocf, enable.params);
      if r.Err? {
        return Some(r.error);
      }
      return None;
    }
  }

  lemma RunFirst(st: SocketState, c: Command, cs: seq<Command>)
    requires IsCommand(c) && forall c <- cs :: IsCommand(c)
    ensures var (r, next) := Exchange(st, c);
            RunCommands(st, [c] + cs) == if r.Err? then (Some(r.error), next) else RunCommands(next, cs)
  {
  }

  lemma PlanInSteps(st: SocketState, extended: bool)
    ensures RunCommands(st, Plan(extended)) ==
      var (r1, st1) := Exchange(st, SetEnable(extended, false));
      if r1.Err? then (Some(r1.error), st1)
      else
        var (r2, st2) := Exchange(st1, SetParameters(extended));
        if r2.Err? then (Some(r2.error), st2)
        else
          var (r3, st3) := Exchange(st2, SetEnable(extended, true));
          if r3.Err? then (Some(r3.error), st3) else (None, st3)
  {
  }

  // ---------------------------------------------------------------------
  // What decides
  // ---------------------------------------------------------------------

  /** An event packet 0x04 with event 0x0E and the opcode in bytes 4 and 5, low byte first. */
  predicate IsReplyTo(data: seq<byte>, opcode: nat) {
    |data| >= 6 && data[0] == 0x04 && data[1] == 0x0E && data[4] as nat + 256 * data[5] as nat == opcode
  }

  /** Waiting for `opcode` passes over this. */
  predicate Skipped(item: Incoming, opcode: nat) {
    item.Retry? || (item.Packet? && !IsReplyTo(item.data, opcode))
  }

  /** Item `k` is the first that is not passed over. */
  predicate Decides(incoming: seq<Incoming>, opcode: nat, k: nat) {
    k < |incoming| && !Skipped(incoming[k], opcode) && forall j | 0 <= j < k :: Skipped(incoming[j], opcode)
  }

  /** A command is judged by the first Command Complete for its opcode, unless
    * time runs out or the socket fails before it; nothing else matters.
    */
  lemma {:induction false} FirstMatchDecides(incoming: seq<Incoming>, opcode: nat, k: nat)
    requires Decides(incoming, opcode, k)
    ensures Await(incoming, opcode) ==
      ((match incoming[k]
        case Packet(data) => Ok(data)
        case PollFails => Err(PollFailed)
        case ReadFails => Err(ReadFailed)
        case _ => Err(TimedOut)), incoming[k + 1..])
  {
    if k > 0 {
      FirstMatchDecides(incoming[1..], opcode, k - 1);
    }
  }

  lemma {:induction false} NothingDecides(incoming: seq<Incoming>, opcode: nat)
    requires forall item <- incoming :: Skipped(item, opcode)
    ensures Await(incoming, opcode) == (Err(TimedOut), [])
  {
    if incoming != [] {
      assert incoming[0] in incoming;
      NothingDecides(incoming[1..], opcode);
    }
  }

  /** The event completes the command with status 0. */
  predicate Acknowledges(item: Incoming, c: Command)
    requires IsCommand(c)
  {
    item.Packet? && IsReplyTo(item.data, OpcodeOf(c)) && |item.data| > 6 && item.data[6] == 0
  }

  /** Each command in turn is acknowledged by the first item that decides it. */
  ghost predicate AllAcknowledged(incoming: seq<Incoming>, cs: seq<Command>)
    requires forall c <- cs :: IsCommand(c)
  {
    cs == [] ||
    exists k: nat ::
      Decides(incoming, OpcodeOf(cs[0]), k) && Acknowledges(incoming[k], cs[0]) &&
      AllAcknowledged(incoming[k + 1..], cs[1..])
  }

  lemma ExchangeSucceedsExactly(st: SocketState, c: Command)
    requires IsCommand(c)
    ensures Exchange(st, c).0.Ok? <==>
      st.room > 0 && exists k: nat :: Decides(st.incoming, OpcodeOf(c), k) && Acknowledges(st.incoming[k], c)
    ensures forall k: nat | st.room > 0 && Decides(st.incoming, OpcodeOf(c), k) && Acknowledges(st.incoming[k], c) ::
      Exchange(st, c) ==
        (Ok(st.incoming[k].data), SocketState(st.incoming[k + 1..], st.sent + [PacketOf(c)], st.room - 1))
  {
    var opcode := OpcodeOf(c);
    DecidesOrSkips(st.incoming, opcode);
    if k: nat :| Decides(st.incoming, opcode, k) {
      FirstMatchDecides(st.incoming, opcode, k);
    } else {
      NothingDecides(st.incoming, opcode);
    }
  }

  /** Every way an exchange ends: by the write, or by the first item that is not passed over. */
  lemma ExchangeExactly(st: SocketState, c: Command)
    requires IsCommand(c)
    ensures st.room == 0 ==> Exchange(st, c).0 == Err(WriteFailed)
    ensures st.room > 0 && (forall item <- st.incoming :: Skipped(item, OpcodeOf(c))) ==>
      Exchange(st, c).0 == Err(TimedOut)
    ensures forall k: nat | st.room > 0 && Decides(st.incoming, OpcodeOf(c), k) ::
      Exchange(st, c).0 ==
        match st.incoming[k]
        case PollFails => Err(PollFailed)
        case ReadFails => Err(ReadFailed)
        case Packet(data) =>
          if |data| == 6 then Err(Truncated)
          else if data[6] == 0 then Ok(data)
          else Err(Refused(OpcodeOf(c), data[6]))
        case _ => Err(TimedOut)
  {
    if forall item <- st.incoming :: Skipped(item, OpcodeOf(c)) {
      NothingDecides(st.incoming, OpcodeOf(c));
    }
    forall k: nat | Decides(st.incoming, OpcodeOf(c), k) ensures Await(st.incoming, OpcodeOf(c)).0 ==
      match st.incoming[k]
      case Packet(data) => Ok(data)
      case PollFails => Err(PollFailed)
      case ReadFails => Err(ReadFailed)
      case _ => Err(TimedOut)
    {
      FirstMatchDecides(st.incoming, OpcodeOf(c), k);
    }
  }

  lemma {:induction false} DecidesOrSkips(incoming: seq<Incoming>, opcode: nat)
    ensures (exists k: nat :: Decides(incoming, opcode, k)) || forall item <- incoming :: Skipped(item, opcode)
  {
    if incoming != [] {
      DecidesOrSkips(incoming[1..], opcode);
      if !Skipped(incoming[0], opcode) {
        assert Decides(incoming, opcode, 0);
      } else if k: nat :| Decides(incoming[1..], opcode, k) {
        assert forall j | 0 < j <= k + 1 :: incoming[j] == incoming[1..][j - 1];
        assert Decides(incoming, opcode, k + 1);
      }
    }
  }

  /** The first `m` commands are acknowledged exactly when the first exchange succeeds and the others are after it. */
  lemma AcknowledgedFirst(st: SocketState, cs: seq<Command>, m: nat)
    requires 1 <= m <= |cs| && (forall c <- cs :: IsCommand(c)) && st.room > 0
    ensures var (result, next) := Exchange(st, cs[0]);
            AllAcknowledged(st.incoming, cs[..m]) <==> result.Ok? && AllAcknowledged(next.incoming, cs[1..][..m - 1])
  {
    ExchangeSucceedsExactly(st, cs[0]);
    assert cs[..m][1..] == cs[1..][..m - 1];
  }

  /** Command `m`, counted from 1, can be written and those before it are acknowledged in turn. */
  ghost predicate GetsSent(st: SocketState, cs: seq<Command>, m: nat)
    requires 1 <= m <= |cs| && forall c <- cs :: IsCommand(c)
  {
    m <= st.room && AllAcknowledged(st.incoming, cs[..m - 1])
  }

  lemma GetsSentFirst(st: SocketState, cs: seq<Command>)
    requires cs != [] && forall c <- cs :: IsCommand(c)
    ensures GetsSent(st, cs, 1) <==> st.room > 0
  {
  }

  lemma GetsSentLater(st: SocketState, cs: seq<Command>, m: nat)
    requires 2 <= m <= |cs| && forall c <- cs :: IsCommand(c)
    ensures var (result, next) := Exchange(st, cs[0]);
            GetsSent(st, cs, m) <==> result.Ok? && GetsSent(next, cs[1..], m - 1)
  {
    if st.room > 0 {
      AcknowledgedFirst(st, cs, m - 1);
    }
  }

  /** The packets sent are those of the first `n` commands, in order. A command
    * is among them exactly when there is room for it and every command before
    * it is acknowledged: after the first failure nothing more is sent.
    */
  lemma {:induction false} SendsInOrder(st: SocketState, cs: seq<Command>) returns (n: nat)
    requires forall c <- cs :: IsCommand(c)
    ensures n <= |cs| && (RunCommands(st, cs).0.None? ==> n == |cs|)
    ensures RunCommands(st, cs).1.sent == st.sent + Packets(cs[..n])
    ensures forall m: nat | 1 <= m <= |cs| :: m <= n <==> GetsSent(st, cs, m)
    decreases |cs|
  {
    n := 0;
    if cs != [] {
      GetsSentFirst(st, cs);
      forall m: nat | 2 <= m <= |cs|
        ensures var (result, next) := Exchange(st, cs[0]);
                GetsSent(st, cs, m) <==> result.Ok? && GetsSent(next, cs[1..], m - 1)
      {
        GetsSentLater(st, cs, m);
      }
      var (result, next) := Exchange(st, cs[0]);
      if result.Ok? {
        n := SendsInOrder(next, cs[1..]);
        PacketsFirst(st.sent, cs, n);
        n := n + 1;
      } else if st.room > 0 {
        PacketsFirst(st.sent, cs, 0);
        n := 1;
      }
    }
  }

  lemma PacketsFirst(sent: seq<seq<byte>>, cs: seq<Command>, n: nat)
    requires n < |cs| && forall c <- cs :: IsCommand(c)
    ensures sent + Packets(cs[..n + 1]) == sent + [PacketOf(cs[0])] + Packets(cs[1..][..n])
  {
    assert cs[..n + 1][1..] == cs[1..][..n];
  }

  lemma SendsAll(st: SocketState, cs: seq<Command>)
    requires (forall c <- cs :: IsCommand(c)) && RunCommands(st, cs).0.None?
    ensures RunCommands(st, cs).1.sent == st.sent + Packets(cs)
  {
    var n := SendsInOrder(st, cs);
    assert cs[..n] == cs;
  }

  function Packets(cs: seq<Command>): seq<seq<byte>>
    requires forall c <- cs :: IsCommand(c)
  {
    if cs == [] then [] else [PacketOf(cs[0])] + Packets(cs[1..])
  }

  /** Commands succeed exactly when all can be written and each is acknowledged in turn. */
  lemma {:induction false} SucceedsExactly(st: SocketState, cs: seq<Command>)
    requires forall c <- cs :: IsCommand(c)
    ensures RunCommands(st, cs).0.None? <==> |cs| <= st.room && AllAcknowledged(st.incoming, cs)
    decreases |cs|
  {
    if cs != [] {
      ExchangeSucceedsExactly(st, cs[0]);
      var (result, next) := Exchange(st, cs[0]);
      if result.Ok? {
        SucceedsExactly(next, cs[1..]);
      }
    }
  }

  /** Scan set-up succeeds exactly when the feature query, and then disable,
    * parameters and enable of the one family that the feature bit picks, are
    * written and acknowledged with status 0 in this order.
    */
  lemma ConfigureSucceedsExactly(st: SocketState)
    ensures Configure(st).0.None? <==>
      4 <= st.room && exists k: nat ::
        Decides(st.incoming, OpcodeOf(READ_FEATURES), k) && Acknowledges(st.incoming[k], READ_FEATURES) &&
        AllAcknowledged(st.incoming[k + 1..], Plan(SupportsExtended(st.incoming[k].data)))
  {
    ExchangeSucceedsExactly(st, READ_FEATURES);
    var (result, next) := Exchange(st, READ_FEATURES);
    if result.Ok? {
      SucceedsExactly(next, Plan(SupportsExtended(result.value)));
      var opcode := OpcodeOf(READ_FEATURES);
      forall k: nat, l: nat | Decides(st.incoming, opcode, k) && Decides(st.incoming, opcode, l) ensures k == l
      {
      }
    }
  }

  /** The family is the bit of value 16 in byte 8 of the reply, whatever the other bits are; without that byte it is
    * the legacy one.
    */
  lemma FamilyIsTheBit(event: seq<byte>, high: nat, bit: nat, low: nat)
    requires bit < 2 && low < 16 && (|event| > 8 ==> event[8] as nat == 32 * high + 16 * bit + low)
    ensures SupportsExtended(event) <==> |event| > 8 && bit == 1
  {
    if |event| > 8 {
      assert event[8] as nat / 16 == 2 * high + bit;
    }
  }

  /** The whole set-up for a family. */
  function Setup(extended: bool): (cs: seq<Command>)
    ensures forall c <- cs :: IsCommand(c)
  {
    [READ_FEATURES] + Plan(extended)
  }

  /** The packets of both families, byte for byte. */
  lemma SetupPacketsExactly()
    ensures Packets(Setup(false)) ==
      [[1, 0x03, 0x20, 0],
       [1, 0x0C, 0x20, 2, 0, 0],
       [1, 0x0B, 0x20, 7, 0, 0x40, 1, 0x40, 1, 0, 0],
       [1, 0x0C, 0x20, 2, 1, 0]]
    ensures Packets(Setup(true)) ==
      [[1, 0x03, 0x20, 0],
       [1, 0x42, 0x20, 6, 0, 0, 0, 0, 0, 0],
       [1, 0x41, 0x20, 8, 0, 0, 1, 0, 0x40, 1, 0x40, 1],
       [1, 0x42, 0x20, 6, 1, 0, 0, 0, 0, 0]]
  {
    var legacy, extended := Setup(false), Setup(true);
    PacketsOfFour(legacy);
    PacketsOfFour(extended);
    QueryBytes(legacy[0]);
    QueryBytes(extended[0]);
    EnableBytes(legacy[1], false, false);
    EnableBytes(legacy[3], false, true);
    EnableBytes(extended[1], true, false);
    EnableBytes(extended[3], true, true);
    ParametersBytes(legacy[2], false);
    ParametersBytes(extended[2], true);
  }

  lemma QueryBytes(c: Command)
    requires c == READ_FEATURES
    ensures PacketOf(c) == [1, 0x03, 0x20, 0]
  {
    PacketIs(c, 0x03, 0x20);
  }

  lemma EnableBytes(c: Command, extended: bool, enable: bool)
    requires c == SetEnable(extended, enable)
    ensures var on := if enable then 1 else 0;
            PacketOf(c) == if extended then [1, 0x42, 0x20, 6, on, 0, 0, 0, 0, 0] else [1, 0x0C, 0x20, 2, on, 0]
  {
    PacketIs(c, if extended then 0x42 else 0x0C, 0x20);
  }

  lemma ParametersBytes(c: Command, extended: bool)
    requires c == SetParameters(extended)
    ensures PacketOf(c) ==
      if extended then [1, 0x41, 0x20, 8, 0, 0, 1, 0, 0x40, 1, 0x40, 1]
      else [1, 0x0B, 0x20, 7, 0, 0x40, 1, 0x40, 1, 0, 0]
  {
    PacketIs(c, if extended then 0x41 else 0x0B, 0x20);
  }

  lemma PacketIs(c: Command, low: byte, high: byte)
    requires IsCommand(c) && 0x2000 + c.ocf == low + 256 * high
    ensures PacketOf(c) == [1, low, high, |c.params|] + c.params
  {
    PacketFromCommand(c);
    PacketWithIs(0x2000 + c.ocf, low, high, c.params);
  }

  lemma PacketWithIs(opcode: u16, low: byte, high: byte, params: seq<byte>)
    requires opcode == low + 256 * high && |params| < 256
    ensures PacketWith(opcode, params) == [1, low, high, |params|] + params
  {
    LowAndHigh(low, high);
  }

  lemma LowAndHigh(low: byte, high: byte)
    ensures (low + 256 * high) as nat % 256 == low && (low + 256 * high) as nat / 256 == high
  {
  }

  lemma PacketsOfFour(cs: seq<Command>)
    requires |cs| == 4 && forall c <- cs :: IsCommand(c)
    ensures Packets(cs) == [PacketOf(cs[0]), PacketOf(cs[1]), PacketOf(cs[2]), PacketOf(cs[3])]
  {
    assert cs[1..][0] == cs[1] && cs[1..][1..] == cs[2..] && cs[2..][0] == cs[2] && cs[2..][1..] == cs[3..];
    assert cs[3..][0] == cs[3] && cs[3..][1..] == [];
    assert Packets(cs[3..]) == [PacketOf(cs[3])];
    assert Packets(cs[2..]) == [PacketOf(cs[2])] + Packets(cs[3..]);
    assert Packets(cs[1..]) == [PacketOf(cs[1])] + Packets(cs[2..]);
  }

  /** The set-up runs the commands of the family that the first reply picks. */
  lemma ConfigureRunsSetup(st: SocketState) returns (extended: bool)
    ensures Configure(st) == RunCommands(st, Setup(extended))
    ensures Exchange(st, READ_FEATURES).0.Ok? ==> extended == SupportsExtended(Exchange(st, READ_FEATURES).0.value)
  {
    var result := Exchange(st, READ_FEATURES).0;
    extended := result.Ok? && SupportsExtended(result.value);
    RunFirst(st, READ_FEATURES, Plan(extended));
  }

  /** What is sent is the feature query and then disable, parameters and enable
    * of the family that the reply to the query picks, each exactly when it can
    * be written and all before it are acknowledged.
    */
  lemma ConfigureSendsInOrder(st: SocketState) returns (extended: bool, n: nat)
    ensures n <= 4 && (Configure(st).0.None? ==> n == 4)
    ensures Configure(st).1.sent == st.sent + Packets(Setup(extended)[..n])
    ensures forall m: nat | 1 <= m <= 4 :: m <= n <==> GetsSent(st, Setup(extended), m)
    ensures n > 1 ==> Exchange(st, READ_FEATURES).0.Ok?
    ensures Exchange(st, READ_FEATURES).0.Ok? ==> extended == SupportsExtended(Exchange(st, READ_FEATURES).0.value)
  {
    extended := ConfigureRunsSetup(st);
    n := SendsInOrder(st, Setup(extended));
    GetsSentLater(st, Setup(extended), 2);
  }

  // ---------------------------------------------------------------------
  // The controller
  // ---------------------------------------------------------------------

  /** The parameters are refused while scanning (Command Disallowed). */
  const COMMAND_DISALLOWED: byte := 0x0C
  const UNKNOWN_COMMAND: byte := 0x01

  /** The LE features a controller reports. */
  type FeatureMask = m: seq<byte> | |m| == 8 witness [0, 0, 0, 0, 0, 0, 0, 0]

  datatype Controller = Controller(features: FeatureMask, scanning: bool, parameters: Option<seq<byte>>) {
    /** Bit 12 of the features. */
    predicate Extended() {
      features[1] / 16 % 2 == 1
    }
  }

  /** The status of a controller's reply to a command of its family, and the controller afterwards. */
  function Respond(ctl: Controller, c: Command): (byte, Controller) {
    if c == READ_FEATURES then (0, ctl)
    else if c.ocf == SetParameters(ctl.Extended()).ocf then
      if ctl.scanning then (COMMAND_DISALLOWED, ctl) else (0, ctl.(parameters := Some(c.params)))
    else if c.ocf == SetEnable(ctl.Extended(), true).ocf && c.params != [] then (0, ctl.(scanning := c.params[0] == 1))
    else (UNKNOWN_COMMAND, ctl)
  }

  /** A Command Complete event. */
  function CommandComplete(opcode: u16, status: byte, parameters: seq<byte>): seq<byte>
    requires |parameters| <= 251
  {
    [HCI_EVENT_PKT, EVT_CMD_COMPLETE, 4 + |parameters|, 1, opcode % 256, opcode / 256, status] + parameters
  }

  /** The reply of a controller. */
  function Reply(ctl: Controller, c: Command): seq<byte>
    requires IsCommand(c)
  {
    CommandComplete(OpcodeOf(c), Respond(ctl, c).0, if c == READ_FEATURES then ctl.features else [])
  }

  function After(ctl: Controller, cs: seq<Command>): Controller
    decreases |cs|
  {
    if cs == [] then ctl else After(Respond(ctl, cs[0]).1, cs[1..])
  }

  /** What comes in while the controller answers the commands, after some noise each. */
  function Conversation(ctl: Controller, cs: seq<Command>, noise: seq<seq<Incoming>>): seq<Incoming>
    requires |noise| == |cs| && forall c <- cs :: IsCommand(c)
    decreases |cs|
  {
    if cs == [] then []
    else noise[0] + [Packet(Reply(ctl, cs[0]))] + Conversation(Respond(ctl, cs[0]).1, cs[1..], noise[1..])
  }

  /** The noise before each reply has no reply to the same command. */
  ghost predicate Quiet(cs: seq<Command>, noise: seq<seq<Incoming>>)
    requires |noise| == |cs| && forall c <- cs :: IsCommand(c)
  {
    forall i, item | 0 <= i < |cs| && item in noise[i] :: Skipped(item, OpcodeOf(cs[i]))
  }

  lemma ReplyCompletes(ctl: Controller, c: Command)
    requires IsCommand(c)
    ensures Completes(Reply(ctl, c), OpcodeOf(c))
    ensures Respond(ctl, c).0 == 0 ==> Judge(Reply(ctl, c), OpcodeOf(c)) == Ok(Reply(ctl, c))
  {
  }

  /** An accepted command succeeds with its reply, whatever noise comes before it. */
  lemma AcceptedExchange(ctl: Controller, c: Command, noise: seq<Incoming>, rest: seq<Incoming>, st: SocketState)
    requires IsCommand(c) && Respond(ctl, c).0 == 0 && st.room > 0
    requires forall item <- noise :: Skipped(item, OpcodeOf(c))
    requires st.incoming == noise + [Packet(Reply(ctl, c))] + rest
    ensures Exchange(st, c) == (Ok(Reply(ctl, c)), SocketState(rest, st.sent + [PacketOf(c)], st.room - 1))
  {
    ReplyCompletes(ctl, c);
    FirstMatchDecides(st.incoming, OpcodeOf(c), |noise|);
    assert st.incoming[|noise| + 1..] == rest;
  }

  lemma ConversationFirst(ctl: Controller, cs: seq<Command>, noise: seq<seq<Incoming>>, rest: seq<Incoming>)
    requires cs != [] && |noise| == |cs| && (forall c <- cs :: IsCommand(c)) && Quiet(cs, noise)
    ensures Conversation(ctl, cs, noise) + rest == noise[0] + [Packet(Reply(ctl, cs[0]))]
              + (Conversation(Respond(ctl, cs[0]).1, cs[1..], noise[1..]) + rest)
    ensures forall item <- noise[0] :: Skipped(item, OpcodeOf(cs[0]))
  {
  }

  /** All replies have status 0. */
  predicate Accepts(ctl: Controller, cs: seq<Command>)
    decreases |cs|
  {
    cs == [] || (Respond(ctl, cs[0]).0 == 0 && Accepts(Respond(ctl, cs[0]).1, cs[1..]))
  }

  /** What is left after the first of accepted commands. */
  function Left(ctl: Controller, cs: seq<Command>, noise: seq<seq<Incoming>>, rest: seq<Incoming>): seq<Incoming>
    requires cs != [] && |noise| == |cs| && forall c <- cs :: IsCommand(c)
  {
    Conversation(Respond(ctl, cs[0]).1, cs[1..], noise[1..]) + rest
  }

  /** The first of accepted commands succeeds, and the conversation goes on. */
  lemma AcceptedFirst(ctl: Controller, cs: seq<Command>, noise: seq<seq<Incoming>>,
                      rest: seq<Incoming>, st: SocketState)
    requires cs != [] && (forall c <- cs :: IsCommand(c)) && |noise| == |cs| && Quiet(cs, noise)
    requires Respond(ctl, cs[0]).0 == 0 && st.room > 0 && st.incoming == Conversation(ctl, cs, noise) + rest
    ensures var next := SocketState(Left(ctl, cs, noise, rest), st.sent + [PacketOf(cs[0])], st.room - 1);
            Exchange(st, cs[0]) == (Ok(Reply(ctl, cs[0])), next) && RunCommands(st, cs) == RunCommands(next, cs[1..])
  {
    ConversationFirst(ctl, cs, noise, rest);
    AcceptedExchange(ctl, cs[0], noise[0], Left(ctl, cs, noise, rest), st);
  }

  lemma RestIsQuiet(cs: seq<Command>, noise: seq<seq<Incoming>>)
    requires cs != [] && |noise| == |cs| && (forall c <- cs :: IsCommand(c)) && Quiet(cs, noise)
    ensures Quiet(cs[1..], noise[1..]) && forall c <- cs[1..] :: IsCommand(c)
  {
  }

  /** A run against a controller that accepts every command succeeds and takes in just the conversation. */
  lemma {:induction false} AcceptedRunSucceeds(ctl: Controller, cs: seq<Command>, noise: seq<seq<Incoming>>,
                                               rest: seq<Incoming>, st: SocketState)
    requires (forall c <- cs :: IsCommand(c)) && |noise| == |cs| && Quiet(cs, noise) && Accepts(ctl, cs)
    requires st.incoming == Conversation(ctl, cs, noise) + rest && |cs| <= st.room
    ensures var (error, last) := RunCommands(st, cs);
            error == None && last.incoming == rest && last.room == st.room - |cs|
    decreases |cs|
  {
    if cs != [] {
      var next := SocketState(Left(ctl, cs, noise, rest), st.sent + [PacketOf(cs[0])], st.room - 1);
      AcceptedFirst(ctl, cs, noise, rest, st);
      RestIsQuiet(cs, noise);
      AcceptedRunSucceeds(Respond(ctl, cs[0]).1, cs[1..], noise[1..], rest, next);
    }
  }

  /** The set-up is accepted in every state of the controller, scanning or not,
    * and leaves it scanning with the parameters set; without the disable step
    * a scanning controller refuses it.
    */
  lemma SetupIsAccepted(ctl: Controller)
    ensures Accepts(ctl, Setup(ctl.Extended()))
    ensures After(ctl, Setup(ctl.Extended())) ==
      Controller(ctl.features, true, Some(SetParameters(ctl.Extended()).params))
    ensures Accepts(ctl, Plan(ctl.Extended())[1..]) <==> !ctl.scanning
  {
  }

  lemma FirstReply(ctl: Controller, cs: seq<Command>, noise: seq<seq<Incoming>>, rest: seq<Incoming>, st: SocketState)
    requires cs != [] && (forall c <- cs :: IsCommand(c)) && |noise| == |cs| && Quiet(cs, noise) && Accepts(ctl, cs)
    requires st.incoming == Conversation(ctl, cs, noise) + rest && st.room > 0
    ensures Exchange(st, cs[0]).0 == Ok(Reply(ctl, cs[0]))
  {
    AcceptedFirst(ctl, cs, noise, rest, st);
  }

  lemma FeaturesInReply(opcode: u16, ctl: Controller)
    ensures SupportsExtended(CommandComplete(opcode, 0, ctl.features)) == ctl.Extended()
  {
  }

  /** The controller's features reply makes the set-up choose its family. */
  lemma ChoosesFamily(ctl: Controller, st: SocketState)
    requires Exchange(st, READ_FEATURES).0 == Ok(Reply(ctl, READ_FEATURES))
    ensures Configure(st) == RunCommands(st, Setup(ctl.Extended()))
  {
    FeaturesInReply(OpcodeOf(READ_FEATURES), ctl);
    RunFirst(st, READ_FEATURES, Plan(ctl.Extended()));
  }

  /** Against a compliant controller in any state, with any noise of other
    * events between its replies, the set-up succeeds, sends the commands of the
    * controller's own family, and leaves the controller scanning.
    */
  lemma ConfigureStartsScanning(ctl: Controller, cs: seq<Command>, noise: seq<seq<Incoming>>,
                                rest: seq<Incoming>, st: SocketState)
    requires cs == Setup(ctl.Extended()) && |noise| == |cs| && Quiet(cs, noise) && |cs| <= st.room
    requires st.incoming == Conversation(ctl, cs, noise) + rest
    ensures Configure(st) == (None, SocketState(rest, st.sent + Packets(cs), st.room - |cs|))
    ensures After(ctl, cs) == Controller(ctl.features, true, Some(SetParameters(ctl.Extended()).params))
  {
    SetupIsAccepted(ctl);
    FirstReply(ctl, cs, noise, rest, st);
    ChoosesFamily(ctl, st);
    AcceptedRunSucceeds(ctl, cs, noise, rest, st);
    SendsAll(st, cs);
  }

  // ---------------------------------------------------------------------
  // Parameters and a scanning controller
  // ---------------------------------------------------------------------

  predicate SetsParameters(c: Command) {
    c.ocf == OCF_LE_SET_SCAN_PARAMETERS || c.ocf == OCF_LE_SET_EXTENDED_SCAN_PARAMETERS
  }

  /** Some command that sets parameters reaches the controller while it scans. */
  predicate MeetsScanning(ctl: Controller, cs: seq<Command>)
    decreases |cs|
  {
    cs != [] && ((SetsParameters(cs[0]) && ctl.scanning) || MeetsScanning(Respond(ctl, cs[0]).1, cs[1..]))
  }

  /** A controller that accepts commands accepts the first of them. */
  lemma {:induction false} AcceptsPrefix(ctl: Controller, cs: seq<Command>, n: nat)
    requires Accepts(ctl, cs) && n <= |cs|
    ensures Accepts(ctl, cs[..n])
    decreases n
  {
    if n > 0 {
      AcceptsPrefix(Respond(ctl, cs[0]).1, cs[1..], n - 1);
      assert cs[..n][1..] == cs[1..][..n - 1];
    }
  }

  /** The commands of the other family are unknown to the controller. */
  lemma OtherFamilyIsUnknown(ctl: Controller, extended: bool)
    requires extended != ctl.Extended()
    ensures forall c <- Plan(extended) :: Respond(ctl, c) == (UNKNOWN_COMMAND, ctl)
    ensures Respond(ctl, READ_FEATURES) == (0, ctl)
  {
  }

  /** Of four commands, of which the third sets parameters, the first `n` meet a
    * scanning controller exactly when it scans after the second.
    */
  lemma MeetsAtThird(ctl: Controller, c1: Command, c2: Command, c3: Command, c4: Command, n: nat)
    requires n <= 4 && SetsParameters(c3) && !SetsParameters(c1) && !SetsParameters(c2) && !SetsParameters(c4)
    ensures MeetsScanning(ctl, [c1, c2, c3, c4][..n]) <==> n >= 3 && Respond(Respond(ctl, c1).1, c2).1.scanning
  {
    var cs, second := [c1, c2, c3, c4], Respond(ctl, c1).1;
    var third := Respond(second, c2).1;
    if n > 0 {
      MeetsFirst(ctl, cs, n);
      if n > 1 {
        MeetsFirst(second, cs[1..], n - 1);
        if n > 2 {
          MeetsFirst(third, cs[1..][1..], n - 2);
          if n > 3 {
            MeetsFirst(Respond(third, c3).1, cs[1..][1..][1..], n - 3);
          }
        }
      }
    }
  }

  lemma MeetsFirst(ctl: Controller, cs: seq<Command>, n: nat)
    requires 1 <= n <= |cs|
    ensures MeetsScanning(ctl, cs[..n]) <==>
      (SetsParameters(cs[0]) && ctl.scanning) || MeetsScanning(Respond(ctl, cs[0]).1, cs[1..][..n - 1])
  {
    assert cs[..n][1..] == cs[1..][..n - 1];
  }

  /** Within a set-up the parameters meet a scanning controller exactly when they
    * are sent, it scanned before, and the set-up is not for its family: then the
    * disable step before them has no effect.
    */
  lemma SetupMeetsScanning(ctl: Controller, extended: bool, n: nat)
    requires n <= 4
    ensures MeetsScanning(ctl, Setup(extended)[..n]) <==> n >= 3 && ctl.scanning && extended != ctl.Extended()
  {
    MeetsAtThird(ctl, READ_FEATURES, SetEnable(extended, false), SetParameters(extended), SetEnable(extended, true), n);
    assert Setup(extended) ==
      [READ_FEATURES, SetEnable(extended, false), SetParameters(extended), SetEnable(extended, true)];
    assert Respond(ctl, SetEnable(extended, false)).1.scanning <==> ctl.scanning && extended != ctl.Extended();
  }

  /** Whatever comes in and whatever the state of the controller: if the reply to
    * the query names the controller's own family, it accepts every command that
    * is sent. Scan parameters meet a scanning controller exactly when they can be
    * written, query and disable are acknowledged, it scanned before, and the
    * reply names the other family.
    */
  lemma ParametersMeetScanningExactly(st: SocketState, ctl: Controller) returns (extended: bool, n: nat)
    ensures n <= 4 && Configure(st).1.sent == st.sent + Packets(Setup(extended)[..n])
    ensures n > 1 ==> Exchange(st, READ_FEATURES).0.Ok?
    ensures Exchange(st, READ_FEATURES).0.Ok? ==> extended == SupportsExtended(Exchange(st, READ_FEATURES).0.value)
    ensures extended == ctl.Extended() ==> Accepts(ctl, Setup(extended)[..n])
    ensures MeetsScanning(ctl, Setup(extended)[..n]) <==>
      st.room >= 3 && AllAcknowledged(st.incoming, Setup(extended)[..2]) && ctl.scanning && extended != ctl.Extended()
  {
    extended, n := ConfigureSendsInOrder(st);
    SetupMeetsScanning(ctl, extended, n);
    assert n >= 3 <==> GetsSent(st, Setup(extended), 3);
    if extended == ctl.Extended() {
      SetupIsAccepted(ctl);
      AcceptsPrefix(ctl, Setup(extended), n);
    }
  }

  /** A set-up for the other family meets a scanning controller and changes nothing about it. */
  lemma OtherFamilyChangesNothing(ctl: Controller, extended: bool)
    requires extended != ctl.Extended()
    ensures After(ctl, Setup(extended)) == ctl
    ensures MeetsScanning(ctl, Setup(extended)) <==> ctl.scanning
  {
    OtherFamilyIsUnknown(ctl, extended);
    OtherFamilyLeavesAlone(ctl, Setup(extended));
    SetupMeetsScanning(ctl, extended, 4);
    assert Setup(extended)[..4] == Setup(extended);
  }

  lemma {:induction false} OtherFamilyLeavesAlone(ctl: Controller, cs: seq<Command>)
    requires forall c <- cs :: Respond(ctl, c).1 == ctl
    ensures After(ctl, cs) == ctl
    decreases |cs|
  {
    if cs != [] {
      assert cs[0] in cs;
      OtherFamilyLeavesAlone(ctl, cs[1..]);
    }
  }

  function OtherFamily(ctl: Controller): (other: Controller)
    ensures other.Extended() == !ctl.Extended()
  {
    Controller([0, if ctl.Extended() then 0 else 0x10, 0, 0, 0, 0, 0, 0], false, None)
  }

  /** Nothing in the code rules it out: with replies as a controller of the other
    * family gives them, the set-up of any scanning controller succeeds, although
    * the parameters meet it while it scans and nothing about it changes.
    */
  lemma ForeignRepliesMislead(ctl: Controller) returns (st: SocketState)
    requires ctl.scanning
    ensures Configure(st).0 == None && Configure(st).1.sent == st.sent + Packets(Setup(!ctl.Extended()))
    ensures MeetsScanning(ctl, Setup(!ctl.Extended())) && After(ctl, Setup(!ctl.Extended())) == ctl
  {
    st := UndisturbedSetup(OtherFamily(ctl));
    OtherFamilyChangesNothing(ctl, !ctl.Extended());
  }

  lemma UndisturbedSetup(ctl: Controller) returns (st: SocketState)
    ensures Configure(st).0 == None && Configure(st).1.sent == st.sent + Packets(Setup(ctl.Extended()))
  {
    var cs, noise := Setup(ctl.Extended()), [[], [], [], []];
    var replies := Conversation(ctl, cs, noise);
    st := SocketState(replies, [], 4);
    assert replies + [] == replies;
    ConfigureStartsScanning(ctl, cs, noise, [], st);
  }
}
