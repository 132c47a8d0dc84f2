/** The kernel-level filter of set_bpf_ruuvi_filter in src/scanner/hci.rs: a
  * classic-BPF program that is built in a loop, patched, and attached to a socket.
  */
module Bpf {
  import opened Common
  import opened Hci

  /** The manufacturer id 0x0499 as its bytes stand in a packet, read high byte first. */
  const RUUVI_ID_BE: u32 := 0x9904

  // Instruction codes are unions of disjoint bits, so their bitwise or is their sum.
  const LD_B_ABS: u16 := 0x00 + 0x10 + 0x20
  const LD_H_ABS: u16 := 0x00 + 0x08 + 0x20
  const JEQ_K: u16 := 0x05 + 0x10 + 0x00
  const RET_K: u16 := 0x06 + 0x00

  datatype SockFilter = SockFilter(code: u16, jt: byte, jf: byte, k: u32)

  // ---------------------------------------------------------------------
  // The machine
  // ---------------------------------------------------------------------

  /** A run ends with the value returned, or faults: at an unknown instruction
    * or outside the program.
    */
  datatype Outcome = Returned(k: u32) | Fault

  /** A half-word load is in network byte order. */
  function HalfWord(packet: seq<byte>, k: nat): (w: u32)
    requires k + 1 < |packet|
    ensures w == RUUVI_ID_BE <==> HasIdAt(packet, k)
  {
    256 * packet[k] as int + packet[k + 1]
  }

  /** Run `program` on `packet` from instruction `pc` with accumulator `a`. A
    * load outside the packet ends the run with 0.
    */
  function Run(program: seq<SockFilter>, packet: seq<byte>, pc: nat, a: u32): Outcome
    decreases |program| - pc
  {
    if pc >= |program| then Fault
    else
      var i := program[pc];
      if i.code == LD_B_ABS then
        if i.k < |packet| then Run(program, packet, pc + 1, packet[i.k]) else Returned(0)
      else if i.code == LD_H_ABS then
        if i.k + 1 < |packet| then Run(program, packet, pc + 1, HalfWord(packet, i.k)) else Returned(0)
      else if i.code == JEQ_K then
        Run(program, packet, pc + 1 + if a == i.k then i.jt else i.jf, a)
      else if i.code == RET_K then Returned(i.k)
      else Fault
  }

  /** What the kernel demands of a program: known instructions, jumps that stay
    * inside, a return at the end.
    */
  ghost predicate WellFormed(program: seq<SockFilter>) {
    && program != [] && Last(program).code == RET_K
    && forall pc | 0 <= pc < |program| ::
         var i := program[pc];
         i.code in {LD_B_ABS, LD_H_ABS, JEQ_K, RET_K} &&
         (i.code == JEQ_K ==> pc + 1 + i.jt < |program| && pc + 1 + i.jf < |program|)
  }

  /** A well-formed program always reaches a return. */
  lemma {:induction false} WellFormedReturns(program: seq<SockFilter>, packet: seq<byte>, pc: nat, a: u32)
    requires WellFormed(program) && pc < |program|
    ensures Run(program, packet, pc, a).Returned?
    decreases |program| - pc
  {
    var i := program[pc];
    if i.code == LD_B_ABS {
      if i.k < |packet| {
        WellFormedReturns(program, packet, pc + 1, packet[i.k]);
      }
    } else if i.code == LD_H_ABS {
      if i.k + 1 < |packet| {
        WellFormedReturns(program, packet, pc + 1, HalfWord(packet, i.k));
      }
    } else if i.code == JEQ_K {
      WellFormedReturns(program, packet, pc + 1 + if a == i.k then i.jt else i.jf, a);
    }
  }

  // ---------------------------------------------------------------------
  // The meaning of the filter
  // ---------------------------------------------------------------------

  /** The bytes 0x99 0x04 stand at `offset`. */
  predicate HasIdAt(packet: seq<byte>, offset: nat) {
    offset + 1 < |packet| && packet[offset] == 0x99 && packet[offset + 1] == 0x04
  }

  /** The bytes 0x99 0x04 stand somewhere from `lo` to before `hi`. */
  predicate HasId(packet: seq<byte>, lo: nat, hi: nat) {
    exists offset | lo <= offset < hi :: HasIdAt(packet, offset)
  }

  predicate IsReport(packet: seq<byte>) {
    |packet| >= 4 && packet[0] == HCI_EVENT_PKT && packet[1] == EVT_LE_META_EVENT &&
    (packet[3] == EVT_LE_ADVERTISING_REPORT || packet[3] == EVT_LE_EXTENDED_ADVERTISING_REPORT)
  }

  /** An advertising report, legacy or extended, with the id among `n` offsets. */
  predicate Wanted(packet: seq<byte>, first: nat, n: nat) {
    IsReport(packet) && HasId(packet, first, first + n)
  }

  function Verdict(wanted: bool): Outcome {
    Returned(if wanted then 0xFFFF else 0)
  }

  // ---------------------------------------------------------------------
  // The program
  // ---------------------------------------------------------------------

  const CHECKS_START: nat := 7

  /** The displacement from instruction `from` to `to`, cut down to a byte. */
  function Displacement(from: nat, to: nat): byte
    requires from < to
  {
    (to - from - 1) % 256
  }

  /** Instruction `pc` of the patched program that scans `n` offsets from `first`. */
  function InstructionAt(first: nat, n: nat, pc: nat): SockFilter
    requires first + n <= 0x1_0000_0000 && pc < CHECKS_START + 2 * n + 2
  {
    var reject := CHECKS_START + 2 * n;
    if pc == 0 then SockFilter(LD_B_ABS, 0, 0, 0)
    else if pc == 1 then SockFilter(JEQ_K, 0, Displacement(1, reject), HCI_EVENT_PKT)
    else if pc == 2 then SockFilter(LD_B_ABS, 0, 0, 1)
    else if pc == 3 then SockFilter(JEQ_K, 0, Displacement(3, reject), EVT_LE_META_EVENT)
    else if pc == 4 then SockFilter(LD_B_ABS, 0, 0, 3)
    else if pc == 5 then SockFilter(JEQ_K, Displacement(5, CHECKS_START), 0, EVT_LE_ADVERTISING_REPORT)
    else if pc == 6 then
      SockFilter(JEQ_K, Displacement(6, CHECKS_START), Displacement(6, reject), EVT_LE_EXTENDED_ADVERTISING_REPORT)
    else if pc == reject then SockFilter(RET_K, 0, 0, 0)
    else if pc == reject + 1 then SockFilter(RET_K, 0, 0, 0xFFFF)
    else if (pc - CHECKS_START) % 2 == 0 then SockFilter(LD_H_ABS, 0, 0, first + (pc - CHECKS_START) / 2)
    else SockFilter(JEQ_K, Displacement(pc, reject + 1), 0, RUUVI_ID_BE)
  }

  function Program(first: nat, n: nat): seq<SockFilter>
    requires first + n <= 0x1_0000_0000
  {
    seq(CHECKS_START + 2 * n + 2, pc requires 0 <= pc < CHECKS_START + 2 * n + 2 => InstructionAt(first, n, pc))
  }

  /** The program in numbers, for up to 125 offsets: 0x30 loads a byte, 0x28 a half-word, 0x15 compares, 6 returns. */
  lemma InstructionsExactly(first: nat, n: nat)
    requires first + n <= 0x1_0000_0000 && 1 <= n <= 125
    ensures var p := Program(first, n);
            |p| == 2 * n + 9 &&
            p[0] == SockFilter(0x30, 0, 0, 0) && p[1] == SockFilter(0x15, 0, 2 * n + 5, 0x04) &&
            p[2] == SockFilter(0x30, 0, 0, 1) && p[3] == SockFilter(0x15, 0, 2 * n + 3, 0x3E) &&
            p[4] == SockFilter(0x30, 0, 0, 3) && p[5] == SockFilter(0x15, 1, 0, 0x02) &&
            p[6] == SockFilter(0x15, 0, 2 * n, 0x0D) &&
            p[2 * n + 7] == SockFilter(6, 0, 0, 0) && p[2 * n + 8] == SockFilter(6, 0, 0, 0xFFFF)
    ensures forall i: nat | i < n ::
      Program(first, n)[7 + 2 * i] == SockFilter(0x28, 0, 0, first + i) &&
      Program(first, n)[8 + 2 * i] == SockFilter(0x15, 2 * (n - i) - 1, 0, 0x9904)
  {
    forall i: nat | i < n
      ensures Program(first, n)[7 + 2 * i] == SockFilter(0x28, 0, 0, first + i) &&
              Program(first, n)[8 + 2 * i] == SockFilter(0x15, 2 * (n - i) - 1, 0, 0x9904)
    {
      ProgramScans(first, n);
      assert ChecksAt(Program(first, n), first, n, i);
    }
  }

  /** The instructions as they are pushed, before any jump is patched. */
  function UnpatchedAt(first: nat, n: nat, pc: nat): SockFilter
    requires first + n <= 0x1_0000_0000 && pc < CHECKS_START + 2 * n + 2
  {
    InstructionAt(first, n, pc).(jt := 0, jf := 0)
  }

  method EmitFilter(first: u32, last: u32) returns (filter: seq<SockFilter>)
    requires first <= last
    ensures var n := last - first + 1;
            |filter| == CHECKS_START + 2 * n + 2 &&
            forall pc | 0 <= pc < |filter| :: filter[pc] == UnpatchedAt(first, n, pc)
  {
    ghost var n := last - first + 1;
    filter := [];
    filter := filter + [SockFilter(LD_B_ABS, 0, 0, 0)];
    filter := filter + [SockFilter(JEQ_K, 0, 0, HCI_EVENT_PKT)];
    filter := filter + [SockFilter(LD_B_ABS, 0, 0, 1)];
    filter := filter + [SockFilter(JEQ_K, 0, 0, EVT_LE_META_EVENT)];
    filter := filter + [SockFilter(LD_B_ABS, 0, 0, 3)];
    filter := filter + [SockFilter(JEQ_K, 0, 0, EVT_LE_ADVERTISING_REPORT)];
    filter := filter + [SockFilter(JEQ_K, 0, 0, EVT_LE_EXTENDED_ADVERTISING_REPORT)];
    for offset := first to last + 1
      invariant |filter| == CHECKS_START + 2 * (offset - first)
      invariant forall pc | 0 <= pc < |filter| :: filter[pc] == UnpatchedAt(first, n, pc)
    {
      filter := filter + [SockFilter(LD_H_ABS, 0, 0, offset)];
      filter := filter + [SockFilter(JEQ_K, 0, 0, RUUVI_ID_BE)];
    }
    filter := filter + [SockFilter(RET_K, 0, 0, 0)];
    filter := filter + [SockFilter(RET_K, 0, 0, 0xFFFF)];
  }

  /** Patch the tests of the header. */
  method PatchHeader(unpatched: seq<SockFilter>, ghost first: u32, ghost n: nat) returns (filter: seq<SockFilter>)
    requires first + n <= 0x1_0000_0000 && |unpatched| == CHECKS_START + 2 * n + 2
    requires forall pc | 0 <= pc < |unpatched| :: unpatched[pc] == UnpatchedAt(first, n, pc)
    ensures |filter| == |unpatched|
    ensures forall pc | 0 <= pc < |filter| ::
      filter[pc] == if pc < CHECKS_START then InstructionAt(first, n, pc) else unpatched[pc]
  {
    var checksStart, reject := CHECKS_START, |unpatched| - 2;
    filter := unpatched;
    filter := filter[1 := filter[1].(jf := (reject - 1 - 1) % 256)];
    filter := filter[3 := filter[3].(jf := (reject - 3 - 1) % 256)];
    filter := filter[5 := filter[5].(jt := (checksStart - 5 - 1) % 256)];
    filter := filter[6 := filter[6].(jt := (checksStart - 6 - 1) % 256)];
    filter := filter[6 := filter[6].(jf := (reject - 6 - 1) % 256)];
  }

  /** Build the program for offsets `first` to `last` and patch its jumps. For up
    * to 125 offsets the program is well-formed and accepts exactly the wanted packets.
    */
  method BuildFilter(first: u32, last: u32) returns (filter: seq<SockFilter>)
    requires first <= last
    ensures filter == Program(first, last - first + 1)
    ensures last - first < 125 ==> WellFormed(filter)
    ensures last - first < 125 ==>
      forall packet :: Run(filter, packet, 0, 0) == Verdict(Wanted(packet, first, last - first + 1))
  {
    var numOffsets := last - first + 1;
    var unpatched := EmitFilter(first, last);
    filter := PatchHeader(unpatched, first, numOffsets);
    var checksStart, reject, accept := CHECKS_START, |filter| - 2, |filter| - 1;
    for i := 0 to numOffsets
      invariant |filter| == |unpatched|
      invariant forall pc | 0 <= pc < |filter| ::
        filter[pc] ==
          if pc < checksStart + 2 * i || pc >= reject then InstructionAt(first, numOffsets, pc) else unpatched[pc]
    {
      var check := checksStart + i * 2 + 1;
      filter := filter[check := filter[check].(jt := (accept - check - 1) % 256)];
    }
    IsProgram(filter, first, numOffsets);
    if numOffsets <= 125 {
      ProgramIsWellFormed(first, numOffsets);
      CorrectExactlyUpTo125(first, numOffsets);
    }
  }

  lemma IsProgram(filter: seq<SockFilter>, first: nat, n: nat)
    requires first + n <= 0x1_0000_0000 && |filter| == CHECKS_START + 2 * n + 2
    requires forall pc | 0 <= pc < |filter| :: filter[pc] == InstructionAt(first, n, pc)
    ensures filter == Program(first, n)
  {
  }

  lemma ProgramIsWellFormed(first: nat, n: nat)
    requires first + n <= 0x1_0000_0000 && 1 <= n <= 125
    ensures WellFormed(Program(first, n))
  {
  }

  // ---------------------------------------------------------------------
  // Correctness
  // ---------------------------------------------------------------------

  /** A program that scans `n` offsets from `first`: two instructions for each, two returns at the end. */
  ghost predicate Scans(p: seq<SockFilter>, first: nat, n: nat) {
    && |p| == CHECKS_START + 2 * n + 2
    && p[CHECKS_START + 2 * n] == SockFilter(RET_K, 0, 0, 0)
    && p[CHECKS_START + 2 * n + 1] == SockFilter(RET_K, 0, 0, 0xFFFF)
    && first + n <= 0x1_0000_0000 && forall i: nat | i < n :: ChecksAt(p, first, n, i)
  }

  predicate ChecksAt(p: seq<SockFilter>, first: nat, n: nat, i: nat)
    requires |p| == CHECKS_START + 2 * n + 2 && first + n <= 0x1_0000_0000 && i < n
  {
    p[CHECKS_START + 2 * i] == SockFilter(LD_H_ABS, 0, 0, first + i) &&
    p[CHECKS_START + 2 * i + 1] == SockFilter(JEQ_K, (2 * (n - i) - 1) % 256, 0, RUUVI_ID_BE)
  }

  lemma ProgramScans(first: nat, n: nat)
    requires first + n <= 0x1_0000_0000
    ensures Scans(Program(first, n), first, n)
  {
    forall i: nat | i < n ensures ChecksAt(Program(first, n), first, n, i) {
      assert Program(first, n)[CHECKS_START + 2 * i + 1] == InstructionAt(first, n, CHECKS_START + 2 * i + 1);
    }
  }

  /** One check: the load ... */
  lemma CheckLoads(p: seq<SockFilter>, first: nat, n: nat, packet: seq<byte>, i: nat, a: u32)
    requires Scans(p, first, n) && i < n
    ensures Run(p, packet, CHECKS_START + 2 * i, a) ==
      if first + i + 1 >= |packet| then Returned(0)
      else Run(p, packet, CHECKS_START + 2 * i + 1, HalfWord(packet, first + i))
  {
    assert ChecksAt(p, first, n, i);
  }

  /** ... and the comparison: on the id the displacement, cut down to a byte, is taken. */
  lemma CheckCompares(p: seq<SockFilter>, first: nat, n: nat, packet: seq<byte>, i: nat, word: u32)
    requires Scans(p, first, n) && i < n
    ensures Run(p, packet, CHECKS_START + 2 * i + 1, word) ==
      Run(p, packet, CHECKS_START + 2 * (i + 1) + if word == RUUVI_ID_BE then (2 * (n - i) - 1) % 256 else 0, word)
  {
    assert ChecksAt(p, first, n, i);
  }

  lemma HasIdStep(packet: seq<byte>, lo: nat, hi: nat)
    requires lo < hi
    ensures HasId(packet, lo, hi) <==> HasIdAt(packet, lo) || HasId(packet, lo + 1, hi)
  {
  }

  /** From check `i` on, the program decides whether the id stands at one of the
    * offsets left, as long as these checks' displacements fit in a byte.
    */
  lemma {:induction false} ScanFrom(p: seq<SockFilter>, first: nat, n: nat, packet: seq<byte>, i: nat, a: u32)
    requires Scans(p, first, n) && i <= n <= i + 128
    ensures Run(p, packet, CHECKS_START + 2 * i, a) == Verdict(HasId(packet, first + i, first + n))
    decreases n - i
  {
    if i < n {
      CheckLoads(p, first, n, packet, i, a);
      if first + i + 1 < |packet| {
        var word := HalfWord(packet, first + i);
        CheckCompares(p, first, n, packet, i, word);
        HasIdStep(packet, first + i, first + n);
        ScanFrom(p, first, n, packet, i + 1, word);
      }
    }
  }

  /** A program whose first seven instructions test for a report, with jumps that fit. */
  ghost predicate TestsForReport(p: seq<SockFilter>, n: nat) {
    && n <= 125 && |p| == CHECKS_START + 2 * n + 2 && p[CHECKS_START + 2 * n] == SockFilter(RET_K, 0, 0, 0)
    && p[0] == SockFilter(LD_B_ABS, 0, 0, 0) && p[1] == SockFilter(JEQ_K, 0, 5 + 2 * n, HCI_EVENT_PKT)
    && p[2] == SockFilter(LD_B_ABS, 0, 0, 1) && p[3] == SockFilter(JEQ_K, 0, 3 + 2 * n, EVT_LE_META_EVENT)
    && p[4] == SockFilter(LD_B_ABS, 0, 0, 3) && p[5] == SockFilter(JEQ_K, 1, 0, EVT_LE_ADVERTISING_REPORT)
    && p[6] == SockFilter(JEQ_K, 0, 2 * n, EVT_LE_EXTENDED_ADVERTISING_REPORT)
  }

  lemma ProgramTestsForReport(first: nat, n: nat)
    requires first + n <= 0x1_0000_0000 && 1 <= n <= 125
    ensures TestsForReport(Program(first, n), n)
  {
  }

  lemma HeaderLeadsToScan(p: seq<SockFilter>, n: nat, packet: seq<byte>)
    requires TestsForReport(p, n) && IsReport(packet)
    ensures Run(p, packet, 0, 0) == Run(p, packet, CHECKS_START, packet[3])
  {
    assert Run(p, packet, 0, 0) == Run(p, packet, 1, packet[0]) == Run(p, packet, 2, packet[0]);
    assert Run(p, packet, 2, packet[0]) == Run(p, packet, 3, packet[1]) == Run(p, packet, 4, packet[1]);
    assert Run(p, packet, 4, packet[1]) == Run(p, packet, 5, packet[3]);
    if packet[3] != EVT_LE_ADVERTISING_REPORT {
      assert Run(p, packet, 5, packet[3]) == Run(p, packet, 6, packet[3]);
    }
  }

  lemma HeaderRejects(p: seq<SockFilter>, n: nat, packet: seq<byte>)
    requires TestsForReport(p, n) && !IsReport(packet)
    ensures Run(p, packet, 0, 0) == Returned(0)
  {
    var reject := CHECKS_START + 2 * n;
    if |packet| > 0 {
      assert Run(p, packet, 0, 0) == Run(p, packet, 1, packet[0]);
      if packet[0] != HCI_EVENT_PKT {
        assert Run(p, packet, 1, packet[0]) == Run(p, packet, reject, packet[0]);
      } else if |packet| > 1 {
        assert Run(p, packet, 1, packet[0]) == Run(p, packet, 2, packet[0]) == Run(p, packet, 3, packet[1]);
        if packet[1] != EVT_LE_META_EVENT {
          assert Run(p, packet, 3, packet[1]) == Run(p, packet, reject, packet[1]);
        } else if |packet| > 3 {
          assert Run(p, packet, 3, packet[1]) == Run(p, packet, 4, packet[1]) == Run(p, packet, 5, packet[3]);
          assert Run(p, packet, 5, packet[3]) == Run(p, packet, 6, packet[3]) == Run(p, packet, reject, packet[3]);
        } else {
          assert Run(p, packet, 3, packet[1]) == Run(p, packet, 4, packet[1]) == Returned(0);
        }
      } else {
        assert Run(p, packet, 1, packet[0]) == Run(p, packet, 2, packet[0]) == Returned(0);
      }
    }
  }

  /** For up to 125 offsets the patched program accepts exactly the wanted packets. */
  lemma FilterIsCorrect(first: nat, n: nat, packet: seq<byte>)
    requires first + n <= 0x1_0000_0000 && 1 <= n <= 125
    ensures Run(Program(first, n), packet, 0, 0) == Verdict(Wanted(packet, first, n))
  {
    ProgramTestsForReport(first, n);
    if IsReport(packet) {
      HeaderLeadsToScan(Program(first, n), n, packet);
      ProgramScans(first, n);
      ScanFrom(Program(first, n), first, n, packet, 0, packet[3]);
    } else {
      HeaderRejects(Program(first, n), n, packet);
    }
  }

  // ---------------------------------------------------------------------
  // 125 offsets is the limit
  // ---------------------------------------------------------------------

  /** Not an event packet, with the id at the last scanned offset. */
  function Stray(first: nat, n: nat): seq<byte>
    requires n > 125
  {
    var sameTest := Displacement(1, CHECKS_START + 2 * n) == 3;
    var head: byte := if sameTest then EVT_LE_ADVERTISING_REPORT else EVT_LE_META_EVENT;
    seq(first + n + 1, i =>
      if i == 0 then head
      else if i == 3 then EVT_LE_ADVERTISING_REPORT
      else if i == first + n - 1 then 0x99
      else if i == first + n then 0x04
      else 0)
  }

  lemma StrayHasIdLast(first: nat, n: nat, offset: nat)
    requires 125 < n && first <= offset < first + n
    ensures offset + 1 < |Stray(first, n)| && (HasIdAt(Stray(first, n), offset) <==> offset == first + n - 1)
  {
  }

  /** From any check on, a packet with the id at the last offset, and only there, is accepted. */
  lemma {:induction false} ScanFindsLast(p: seq<SockFilter>, first: nat, n: nat, packet: seq<byte>, i: nat, a: u32)
    requires Scans(p, first, n) && i < n && first + n < |packet|
    requires forall offset | first <= offset < first + n :: HasIdAt(packet, offset) <==> offset == first + n - 1
    ensures Run(p, packet, CHECKS_START + 2 * i, a) == Returned(0xFFFF)
    decreases n - i
  {
    var word := HalfWord(packet, first + i);
    CheckLoads(p, first, n, packet, i, a);
    CheckCompares(p, first, n, packet, i, word);
    if i < n - 1 {
      ScanFindsLast(p, first, n, packet, i + 1, word);
    }
  }

  lemma StrayScanned(first: nat, n: nat, i: nat, a: u32)
    requires first + n <= 0x1_0000_0000 && 125 < n && i < n
    ensures Run(Program(first, n), Stray(first, n), CHECKS_START + 2 * i, a) == Returned(0xFFFF)
  {
    ProgramScans(first, n);
    forall offset | first <= offset < first + n
      ensures HasIdAt(Stray(first, n), offset) <==> offset == first + n - 1
    {
      StrayHasIdLast(first, n, offset);
    }
    ScanFindsLast(Program(first, n), first, n, Stray(first, n), i, a);
  }

  lemma FirstTestFails(p: seq<SockFilter>, packet: seq<byte>, jf: byte)
    requires |p| >= 2 && p[0] == SockFilter(LD_B_ABS, 0, 0, 0) && p[1] == SockFilter(JEQ_K, 0, jf, HCI_EVENT_PKT)
    requires packet != [] && packet[0] != HCI_EVENT_PKT
    ensures Run(p, packet, 0, 0) == Run(p, packet, 2 + jf, packet[0])
  {
    assert Run(p, packet, 0, 0) == Run(p, packet, 1, packet[0]);
  }

  lemma ProgramStarts(first: nat, n: nat)
    requires first + n <= 0x1_0000_0000
    ensures var p := Program(first, n);
            |p| >= 2 && p[0] == SockFilter(LD_B_ABS, 0, 0, 0) &&
            p[1] == SockFilter(JEQ_K, 0, Displacement(1, CHECKS_START + 2 * n), HCI_EVENT_PKT)
  {
  }

  lemma StrayStarts(first: nat, n: nat)
    requires 125 < n
    ensures Stray(first, n) != [] && Stray(first, n)[0] != HCI_EVENT_PKT
  {
  }

  lemma StrayTakesFirstJump(first: nat, n: nat)
    requires first + n <= 0x1_0000_0000 && 125 < n
    ensures var jf := Displacement(1, CHECKS_START + 2 * n);
            Run(Program(first, n), Stray(first, n), 0, 0) ==
            Run(Program(first, n), Stray(first, n), 2 + jf, Stray(first, n)[0])
  {
    ProgramStarts(first, n);
    StrayStarts(first, n);
    FirstTestFails(Program(first, n), Stray(first, n), Displacement(1, CHECKS_START + 2 * n));
  }

  lemma StrayFromEventCheck(first: nat, n: nat, pc: nat)
    requires first + n <= 0x1_0000_0000 && 125 < n
    requires pc == 3 && Stray(first, n)[0] == EVT_LE_META_EVENT
    ensures Run(Program(first, n), Stray(first, n), pc, Stray(first, n)[0]) == Returned(0xFFFF)
  {
    var p, packet := Program(first, n), Stray(first, n);
    assert Run(p, packet, 3, packet[0]) == Run(p, packet, 4, packet[0]);
    assert Run(p, packet, 4, packet[0]) == Run(p, packet, 5, packet[3]);
    assert Run(p, packet, 5, packet[3]) == Run(p, packet, CHECKS_START, packet[3]);
    StrayScanned(first, n, 0, packet[3]);
  }

  lemma StrayFromSubeventCheck(first: nat, n: nat, pc: nat)
    requires first + n <= 0x1_0000_0000 && 125 < n
    requires pc == 5 && Stray(first, n)[0] == EVT_LE_ADVERTISING_REPORT
    ensures Run(Program(first, n), Stray(first, n), pc, Stray(first, n)[0]) == Returned(0xFFFF)
  {
    var p, packet := Program(first, n), Stray(first, n);
    assert Run(p, packet, 5, packet[0]) == Run(p, packet, CHECKS_START, packet[0]);
    StrayScanned(first, n, 0, packet[0]);
  }

  lemma StrayFromScan(first: nat, n: nat, pc: nat, i: nat)
    requires first + n <= 0x1_0000_0000 && 125 < n
    requires pc == CHECKS_START + 2 * i && i < n
    ensures Run(Program(first, n), Stray(first, n), pc, Stray(first, n)[0]) == Returned(0xFFFF)
  {
    StrayScanned(first, n, i, Stray(first, n)[0]);
  }

  /** The cut-down displacement is odd, so it lands on a test of the header or on
    * the start of a check.
    */
  lemma FirstJumpLands(n: nat)
    requires 125 < n
    ensures var jf := Displacement(1, CHECKS_START + 2 * n);
            jf == 1 || jf == 3 || (5 <= jf && (jf - 5) / 2 < n && 2 + jf == CHECKS_START + 2 * ((jf - 5) / 2))
  {
  }

  lemma StrayFromLanding(first: nat, n: nat, jf: nat)
    requires first + n <= 0x1_0000_0000 && 125 < n && jf == Displacement(1, CHECKS_START + 2 * n)
    ensures Run(Program(first, n), Stray(first, n), 2 + jf, Stray(first, n)[0]) == Returned(0xFFFF)
  {
    FirstJumpLands(n);
    if jf == 1 {
      StrayFromEventCheck(first, n, 2 + jf);
    } else if jf == 3 {
      StrayFromSubeventCheck(first, n, 2 + jf);
    } else {
      StrayFromScan(first, n, 2 + jf, (jf - 5) / 2);
    }
  }

  /** With more offsets a cut-down displacement lets a stray packet through. */
  lemma StrayIsAccepted(first: nat, n: nat)
    requires first + n <= 0x1_0000_0000 && 125 < n
    ensures Run(Program(first, n), Stray(first, n), 0, 0) == Returned(0xFFFF)
  {
    StrayTakesFirstJump(first, n);
    StrayFromLanding(first, n, Displacement(1, CHECKS_START + 2 * n));
  }

  /** The built program is correct on every packet exactly for up to 125 offsets. */
  lemma CorrectExactlyUpTo125(first: nat, n: nat)
    requires first + n <= 0x1_0000_0000 && 1 <= n
    ensures (forall packet :: Run(Program(first, n), packet, 0, 0) == Verdict(Wanted(packet, first, n))) <==> n <= 125
  {
    if n <= 125 {
      forall packet ensures Run(Program(first, n), packet, 0, 0) == Verdict(Wanted(packet, first, n)) {
        FilterIsCorrect(first, n, packet);
      }
    } else {
      StrayIsAccepted(first, n);
      assert !Wanted(Stray(first, n), first, n);
    }
  }
}
