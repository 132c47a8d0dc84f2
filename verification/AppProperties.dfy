/** What the output of a whole run guarantees. */
module AppProperties {
  import opened Aliases
  import opened App
  import opened Common
  import opened FieldTable
  import opened InfluxDb
  import opened LineProtocol
  import opened MacAddresses
  import opened Measurements
  import opened Text
  import opened Throttling

  // ---------------------------------------------------------------------
  // The output is an ordered part of the input
  // ---------------------------------------------------------------------

  /** The arrivals that are written. */
  function Written(options: Options, arrivals: seq<Arrival>): (ws: seq<nat>)
    ensures forall k | 0 <= k < |ws| :: ws[k] < |arrivals|
  {
    if arrivals == [] then []
    else
      Written(options, Front(arrivals)) +
      if Writes(options, Front(arrivals), Last(arrivals)) then [|arrivals| - 1] else []
  }

  /** The lines are those of the written arrivals, each once and in order. */
  lemma {:induction false} LinesAreSubsequence(line: Measurement -> string, options: Options, arrivals: seq<Arrival>)
    ensures var ws, lines := Written(options, arrivals), OutLines(line, options, arrivals);
            |lines| == |ws| &&
            (forall k, l | 0 <= k < l < |ws| :: ws[k] < ws[l]) &&
            (forall k | 0 <= k < |ws| :: arrivals[ws[k]].result.Ok? && lines[k] == line(arrivals[ws[k]].result.value))
  {
    if arrivals != [] {
      LinesAreSubsequence(line, options, Front(arrivals));
    }
  }

  /** The arrivals that are errors. */
  function Failed(arrivals: seq<Arrival>): (es: seq<nat>)
    ensures forall k | 0 <= k < |es| :: es[k] < |arrivals|
  {
    if arrivals == [] then []
    else Failed(Front(arrivals)) + if Last(arrivals).result.Err? then [|arrivals| - 1] else []
  }

  lemma {:induction false} FailedExactly(arrivals: seq<Arrival>, i: nat)
    requires i < |arrivals|
    ensures i in Failed(arrivals) <==> arrivals[i].result.Err?
  {
    if i < |arrivals| - 1 {
      FailedExactly(Front(arrivals), i);
    } else {
      assert i !in Failed(Front(arrivals));
    }
  }

  /** The error output is empty in quiet mode; else it is the text of every error, each once and in order. */
  lemma {:induction false} ErrorsAreShown(options: Options, arrivals: seq<Arrival>)
    ensures !options.verbose ==> ErrLines(options, arrivals) == []
    ensures var es, lines := Failed(arrivals), ErrLines(options, arrivals);
            (forall k, l | 0 <= k < l < |es| :: es[k] < es[l]) &&
            (options.verbose ==>
             |lines| == |es| && forall k | 0 <= k < |es| ::
               arrivals[es[k]].result.Err? && lines[k] == arrivals[es[k]].result.error)
  {
    if arrivals != [] {
      ErrorsAreShown(options, Front(arrivals));
      if Last(arrivals).result.Ok? || !options.verbose {
        assert ErrLines(options, arrivals) == ErrLines(options, Front(arrivals));
      }
      if Last(arrivals).result.Ok? {
        assert Failed(arrivals) == Failed(Front(arrivals));
      }
    }
  }

  lemma {:induction false} WrittenAreWrites(options: Options, arrivals: seq<Arrival>, i: nat)
    requires i < |arrivals|
    ensures i in Written(options, arrivals) <==> Writes(options, arrivals[..i], arrivals[i])
  {
    var before := Written(options, Front(arrivals));
    if i < |arrivals| - 1 {
      WrittenAreWrites(options, Front(arrivals), i);
      assert Front(arrivals)[..i] == arrivals[..i];
    } else {
      assert i !in before;
    }
  }

  // ---------------------------------------------------------------------
  // Why an arrival is not written
  // ---------------------------------------------------------------------

  lemma {:induction false} ArrivalTimesGrow(arrivals: seq<Arrival>, i: nat, j: nat)
    requires OnTime(arrivals) && i <= j < |arrivals|
    ensures arrivals[i].now <= arrivals[j].now
  {
    if j < |arrivals| - 1 {
      ArrivalTimesGrow(Front(arrivals), i, j);
    } else if i < j {
      ArrivalTimesGrow(Front(arrivals), i, j - 1);
    }
  }

  /** The last emission of a device is the time of its last written arrival. */
  lemma {:induction false} LastEmissionWasWritten(options: Options, arrivals: seq<Arrival>, i: nat, mac: MacAddress)
    returns (j: nat)
    requires options.throttle.Some? && i <= |arrivals|
    requires LastEmission(options.throttle.value, Offered(arrivals[..i]), mac).Some?
    ensures j < i && IsFrom(arrivals[j], mac) && Writes(options, arrivals[..j], arrivals[j])
    ensures LastEmission(options.throttle.value, Offered(arrivals[..i]), mac) == Some(arrivals[j].now)
    ensures forall k | j < k < i && IsFrom(arrivals[k], mac) :: !Writes(options, arrivals[..k], arrivals[k])
  {
    var before, a := arrivals[..i - 1], arrivals[i - 1];
    assert arrivals[..i] == before + [a];
    EmissionGrows(options.throttle.value, before, a, mac);
    if IsFrom(a, mac) && Writes(options, before, a) {
      j := i - 1;
    } else {
      j := LastEmissionWasWritten(options, arrivals, i - 1, mac);
    }
  }

  /** Without an emission no arrival of the device was written. */
  lemma {:induction false} NoEmissionNoneWritten(options: Options, arrivals: seq<Arrival>, i: nat, mac: MacAddress)
    requires options.throttle.Some? && i <= |arrivals|
    requires LastEmission(options.throttle.value, Offered(arrivals[..i]), mac).None?
    ensures forall k | 0 <= k < i && IsFrom(arrivals[k], mac) :: !Writes(options, arrivals[..k], arrivals[k])
  {
    if i > 0 {
      var before, a := arrivals[..i - 1], arrivals[i - 1];
      assert arrivals[..i] == before + [a];
      EmissionGrows(options.throttle.value, before, a, mac);
      NoEmissionNoneWritten(options, arrivals, i - 1, mac);
    }
  }

  /** A V6 frame of a device that has sent E1. */
  predicate Redundant(arrivals: seq<Arrival>, i: nat)
    requires i < |arrivals|
  {
    var a := arrivals[i];
    a.result.Ok? && a.result.value.format == V6 &&
    exists j | 0 <= j < i :: IsFrom(arrivals[j], a.result.value.mac) && arrivals[j].result.value.format == E1
  }

  /** An earlier written arrival of the same device is less than the interval old. */
  predicate Covered(options: Options, arrivals: seq<Arrival>, i: nat)
    requires i < |arrivals|
  {
    var a := arrivals[i];
    a.result.Ok? && options.throttle.Some? &&
    exists j | 0 <= j < i ::
      IsFrom(arrivals[j], a.result.value.mac) && Writes(options, arrivals[..j], arrivals[j]) &&
      a.now - arrivals[j].now < options.throttle.value
  }

  lemma RedundantIsNotKept(arrivals: seq<Arrival>, i: nat)
    requires i < |arrivals| && arrivals[i].result.Ok?
    ensures Kept(arrivals[..i], arrivals[i]) <==> !Redundant(arrivals, i)
  {
  }

  /** An arrival is covered exactly when the last written one of its device covers it. */
  lemma CoveredByLast(options: Options, arrivals: seq<Arrival>, i: nat, j: nat)
    requires OnTime(arrivals) && j < i < |arrivals| && arrivals[i].result.Ok? && options.throttle.Some?
    requires IsFrom(arrivals[j], arrivals[i].result.value.mac) && Writes(options, arrivals[..j], arrivals[j])
    requires forall k | j < k < i && IsFrom(arrivals[k], arrivals[i].result.value.mac) ::
      !Writes(options, arrivals[..k], arrivals[k])
    ensures Covered(options, arrivals, i) <==> arrivals[i].now - arrivals[j].now < options.throttle.value
  {
    if Covered(options, arrivals, i) {
      var k: nat :| k < i && IsFrom(arrivals[k], arrivals[i].result.value.mac) &&
        Writes(options, arrivals[..k], arrivals[k]) &&
        arrivals[i].now - arrivals[k].now < options.throttle.value;
      ArrivalTimesGrow(arrivals, k, j);
    }
  }

  lemma CoveredIsNotAllowed(options: Options, arrivals: seq<Arrival>, i: nat)
    requires OnTime(arrivals) && i < |arrivals| && arrivals[i].result.Ok? && options.throttle.Some?
    ensures ReferenceAllows(options.throttle.value, Offered(arrivals[..i]), EventOf(arrivals[i])) <==>
      !Covered(options, arrivals, i)
  {
    var mac := arrivals[i].result.value.mac;
    if LastEmission(options.throttle.value, Offered(arrivals[..i]), mac).Some? {
      var j := LastEmissionWasWritten(options, arrivals, i, mac);
      ArrivalTimesGrow(arrivals, j, i);
      CoveredByLast(options, arrivals, i, j);
    } else {
      NoEmissionNoneWritten(options, arrivals, i, mac);
    }
  }

  /** A measurement is written unless it is a V6 frame of a device that sent E1
    * before, or an earlier line of the same device is less than the interval
    * old. No measurement is lost for another reason.
    */
  lemma WrittenExactly(options: Options, arrivals: seq<Arrival>, i: nat)
    requires OnTime(arrivals) && i < |arrivals|
    ensures i in Written(options, arrivals) <==>
      arrivals[i].result.Ok? && !Redundant(arrivals, i) && !Covered(options, arrivals, i)
  {
    WrittenAreWrites(options, arrivals, i);
    if arrivals[i].result.Ok? {
      RedundantIsNotKept(arrivals, i);
      if options.throttle.Some? {
        CoveredIsNotAllowed(options, arrivals, i);
      }
    }
  }

  // ---------------------------------------------------------------------
  // Devices do not interfere
  // ---------------------------------------------------------------------

  /** What one device sent. */
  function OnlyDevice(arrivals: seq<Arrival>, mac: MacAddress): seq<Arrival> {
    if arrivals == [] then []
    else OnlyDevice(Front(arrivals), mac) + if IsFrom(Last(arrivals), mac) then [Last(arrivals)] else []
  }

  /** The lines of one device. */
  function LinesOf(line: Measurement -> string, options: Options, arrivals: seq<Arrival>, mac: MacAddress):
    seq<string>
  {
    if arrivals == [] then []
    else
      LinesOf(line, options, Front(arrivals), mac) +
      if IsFrom(Last(arrivals), mac) && Writes(options, Front(arrivals), Last(arrivals))
      then [line(Last(arrivals).result.value)] else []
  }

  /** What concerns a device depends only on what it sent. */
  lemma {:induction false} DeviceStateIsItsOwn(interval: nat, arrivals: seq<Arrival>, mac: MacAddress)
    ensures SeenE1(arrivals, mac) <==> SeenE1(OnlyDevice(arrivals, mac), mac)
    ensures LastEmission(interval, Offered(arrivals), mac) ==
      LastEmission(interval, Offered(OnlyDevice(arrivals, mac)), mac)
  {
    if arrivals != [] {
      var before, a := Front(arrivals), Last(arrivals);
      DeviceStateIsItsOwn(interval, before, mac);
      SeenE1Grows(before, a, mac);
      EmissionGrows(interval, before, a, mac);
      assert arrivals == before + [a];
      if IsFrom(a, mac) {
        SeenE1Grows(OnlyDevice(before, mac), a, mac);
        EmissionGrows(interval, OnlyDevice(before, mac), a, mac);
      } else {
        assert OnlyDevice(arrivals, mac) == OnlyDevice(before, mac);
      }
    }
  }

  lemma SeenE1Grows(before: seq<Arrival>, a: Arrival, mac: MacAddress)
    ensures SeenE1(before + [a], mac) <==> SeenE1(before, mac) || (IsFrom(a, mac) && a.result.value.format == E1)
  {
  }

  /** How one more arrival moves the timer of a device. */
  lemma EmissionGrows(interval: nat, before: seq<Arrival>, a: Arrival, mac: MacAddress)
    ensures var last := LastEmission(interval, Offered(before), mac);
            LastEmission(interval, Offered(before + [a]), mac) ==
              if IsFrom(a, mac) && Kept(before, a) && Allows(interval, last, a.now) then Some(a.now) else last
  {
    assert Front(before + [a]) == before;
    if Kept(before, a) {
      assert Offered(before + [a]) == Offered(before) + [EventOf(a)];
      assert Front(Offered(before + [a])) == Offered(before);
    } else {
      assert Offered(before + [a]) == Offered(before);
    }
  }

  /** In any interleaving, each arrival of a device is written exactly when it is
    * written in a run that is fed only what that device sent, at the same times ...
    */
  lemma DeviceDecides(options: Options, arrivals: seq<Arrival>, i: nat, mac: MacAddress)
    requires i < |arrivals| && IsFrom(arrivals[i], mac)
    ensures Writes(options, arrivals[..i], arrivals[i]) <==>
      Writes(options, OnlyDevice(arrivals[..i], mac), arrivals[i])
  {
    DeviceStateIsItsOwn(if options.throttle.Some? then options.throttle.value else 0, arrivals[..i], mac);
  }

  /** ... so its lines are the whole output of that run. */
  lemma {:induction false} DevicesDoNotInterfere(line: Measurement -> string, options: Options, arrivals: seq<Arrival>,
                                                 mac: MacAddress)
    ensures LinesOf(line, options, arrivals, mac) == OutLines(line, options, OnlyDevice(arrivals, mac))
    ensures ErrLines(options, OnlyDevice(arrivals, mac)) == []
  {
    if arrivals != [] {
      var before, a := Front(arrivals), Last(arrivals);
      DevicesDoNotInterfere(line, options, before, mac);
      if IsFrom(a, mac) {
        DeviceDecides(options, arrivals, |arrivals| - 1, mac);
        assert Front(OnlyDevice(before, mac) + [a]) == OnlyDevice(before, mac);
      } else {
        assert OnlyDevice(arrivals, mac) == OnlyDevice(before, mac);
      }
    }
  }

  /** A device's own input is on time. */
  lemma {:induction false} OnlyDeviceOnTime(arrivals: seq<Arrival>, mac: MacAddress)
    requires OnTime(arrivals)
    ensures OnTime(OnlyDevice(arrivals, mac)) && LatestArrival(OnlyDevice(arrivals, mac)) <= LatestArrival(arrivals)
    ensures forall a <- OnlyDevice(arrivals, mac) :: IsFrom(a, mac)
  {
    if arrivals != [] {
      OnlyDeviceOnTime(Front(arrivals), mac);
      var before := OnlyDevice(Front(arrivals), mac);
      if IsFrom(Last(arrivals), mac) {
        assert Front(before + [Last(arrivals)]) == before;
      } else {
        assert before + [] == before;
      }
    }
  }

  /** A throttle that serves one device holds one entry ... */
  lemma {:induction false} OneEntry(interval: nat, arrivals: seq<Arrival>, mac: MacAddress)
    requires forall a <- arrivals :: IsFrom(a, mac)
    ensures Run(interval, Offered(arrivals)).lastSeen.Keys <= {mac}
  {
    if arrivals != [] {
      OneEntry(interval, Front(arrivals), mac);
      assert arrivals == Front(arrivals) + [Last(arrivals)];
      StateStep(Front(arrivals), Last(arrivals));
      assert IsFrom(Last(arrivals), mac);
      assert Front(Offered(Front(arrivals)) + [EventOf(Last(arrivals))]) == Offered(Front(arrivals));
    }
  }

  /** ... so it never evicts, whatever the interval. */
  lemma OneDeviceNeverEvicts(options: Options, arrivals: seq<Arrival>, k: nat, mac: MacAddress)
    requires k < |arrivals| && forall a <- arrivals :: IsFrom(a, mac)
    ensures !Evicts(options, arrivals[..k], arrivals[k])
  {
    if options.throttle.Some? {
      var lastSeen := Run(options.throttle.value, Offered(arrivals[..k])).lastSeen;
      OneEntry(options.throttle.value, arrivals[..k], mac);
      SubsetIsSmaller(lastSeen.Keys, {mac});
      assert |lastSeen| == |lastSeen.Keys|;
    }
  }

  predicate NeverEvicts(options: Options, arrivals: seq<Arrival>) {
    forall k: nat | k < |arrivals| :: !Evicts(options, arrivals[..k], arrivals[k])
  }

  lemma SubsetIsSmaller<T>(s: set<T>, t: set<T>)
    requires s <= t
    ensures |s| <= |t|
  {
    assert t == s + (t - s);
  }

  /** The loop run on everything, and run on what one device sent. The second
    * run writes the lines that the first one writes for that device, and
    * nothing else; it completes exactly when there is room for them, and its
    * throttle never evicts.
    */
  method RunTogetherAndAlone(show: Display, options: Options, arrivals: seq<Arrival>, mac: MacAddress,
                             out: Writer, err: Writer, outAlone: Writer, errAlone: Writer)
    returns (ok: bool, okAlone: bool)
    requires out != err && {outAlone, errAlone} !! {out, err} && outAlone != errAlone
    requires OnTime(arrivals) && NeverOverflows(show, options, arrivals, out.room, err.room)
    modifies out, err, outAlone, errAlone
    ensures ok <==> HasRoom(show, options, arrivals, old(out.room), old(err.room))
    ensures ok ==> out.lines == old(out.lines) + OutLines(LineFormat(show, options), options, arrivals)
    ensures okAlone <==> |LinesOf(LineFormat(show, options), options, arrivals, mac)| <= old(outAlone.room)
    ensures okAlone ==>
      outAlone.lines == old(outAlone.lines) + LinesOf(LineFormat(show, options), options, arrivals, mac)
    ensures errAlone.lines == old(errAlone.lines)
    ensures NeverEvicts(options, OnlyDevice(arrivals, mac))
  {
    ghost var handled;
    assert arrivals[..|arrivals|] == arrivals;
    ok, handled := RunWithIo(show, options, arrivals, out, err);
    var alone := OnlyDevice(arrivals, mac);
    OnlyDeviceOnTime(arrivals, mac);
    forall k: nat | k < |alone| ensures !Evicts(options, alone[..k], alone[k]) {
      OneDeviceNeverEvicts(options, alone, k, mac);
    }
    assert alone[..|alone|] == alone;
    DevicesDoNotInterfere(LineFormat(show, options), options, arrivals, mac);
    okAlone, handled := RunWithIo(show, options, alone, outAlone, errAlone);
    OutputGrows(LineFormat(show, options), options, alone, handled);
  }

  // ---------------------------------------------------------------------
  // Errors and redundant frames change nothing
  // ---------------------------------------------------------------------

  /** Taking out an error or a redundant V6 frame leaves the output as it is. */
  lemma {:induction false} IgnoredChangesNothing(line: Measurement -> string, options: Options,
                                                 before: seq<Arrival>, a: Arrival, after: seq<Arrival>)
    requires !Kept(before, a)
    ensures OutLines(line, options, before + [a] + after) == OutLines(line, options, before + after)
    ensures Offered(before + [a] + after) == Offered(before + after)
    ensures forall mac: MacAddress :: SeenE1(before + [a] + after, mac) <==> SeenE1(before + after, mac)
  {
    if after == [] {
      assert before + [a] + after == before + [a] && before + after == before;
      StateStep(before, a);
      OutputStep(line, options, before, a);
    } else {
      var with, without := before + [a] + Front(after), before + Front(after);
      IgnoredChangesNothing(line, options, before, a, Front(after));
      assert before + [a] + after == with + [Last(after)] && before + after == without + [Last(after)];
      StateStep(with, Last(after));
      StateStep(without, Last(after));
      OutputStep(line, options, with, Last(after));
      OutputStep(line, options, without, Last(after));
    }
  }

  // ---------------------------------------------------------------------
  // The output can be read back
  // ---------------------------------------------------------------------

  predicate Readable(s: string) {
    '\n' !in s && !EndsInBackslash(s)
  }

  /** A measurement with a field, under names that can be read back. */
  predicate HasReadableLine(show: Display, options: Options, m: Measurement) {
    Fields(show, m) != [] && Readable(options.measurement) && Readable(Name(options, m.mac))
  }

  lemma LineIsReadable(show: Display, options: Options, m: Measurement)
    requires IsDisplay(show)
    ensures var line := LineFormat(show, options)(m);
            HasReadableLine(show, options, m) <==>
              '\n' !in line && ReadLine(line) == Some(Meaning(show, options.measurement, m, Name(options, m.mac)))
  {
    LineHasNoNewline(show, options.measurement, m, Name(options, m.mac));
    LineRoundTrip(show, options.measurement, m, Name(options, m.mac));
  }

  /** Line `k` that a reader sees gives back the `k`th written measurement, with its name, fields and time. */
  predicate ReadsBackAt(show: Display, options: Options, arrivals: seq<Arrival>, read: seq<string>, k: nat)
    requires k < |read| && k < |Written(options, arrivals)|
  {
    var a := arrivals[Written(options, arrivals)[k]];
    a.result.Ok? &&
    var m := a.result.value;
    ReadLine(read[k]) == Some(Meaning(show, options.measurement, m, Name(options, m.mac)))
  }

  /** Splitting the output at newlines and reading each line gives back, in
    * order, the written measurements and nothing else.
    */
  predicate OutputIsReadable(show: Display, options: Options, arrivals: seq<Arrival>) {
    var n := |Written(options, arrivals)|;
    var read := Split(Unlines(OutLines(LineFormat(show, options), options, arrivals)), '\n');
    |read| == n + 1 && Last(read) == [] && forall k: nat | k < n :: ReadsBackAt(show, options, arrivals, read, k)
  }

  predicate HasReadableLineAt(show: Display, options: Options, arrivals: seq<Arrival>, k: nat)
    requires k < |Written(options, arrivals)|
  {
    var a := arrivals[Written(options, arrivals)[k]];
    a.result.Ok? && HasReadableLine(show, options, a.result.value)
  }

  lemma LineIsReadableAt(show: Display, options: Options, arrivals: seq<Arrival>, k: nat)
    requires IsDisplay(show) && k < |Written(options, arrivals)|
    ensures var lines := OutLines(LineFormat(show, options), options, arrivals);
            k < |lines| && arrivals[Written(options, arrivals)[k]].result.Ok? &&
            (HasReadableLineAt(show, options, arrivals, k) <==>
             '\n' !in lines[k] && ReadsBackAt(show, options, arrivals, lines, k))
  {
    LinesAreSubsequence(LineFormat(show, options), options, arrivals);
    LineIsReadable(show, options, arrivals[Written(options, arrivals)[k]].result.value);
  }

  lemma ReadsSplitLines(show: Display, options: Options, arrivals: seq<Arrival>, k: nat)
    requires IsDisplay(show) && k < |Written(options, arrivals)|
    requires |Split(Unlines(OutLines(LineFormat(show, options), options, arrivals)), '\n')| ==
      |Written(options, arrivals)| + 1
    ensures var read := Split(Unlines(OutLines(LineFormat(show, options), options, arrivals)), '\n');
            HasReadableLineAt(show, options, arrivals, k) <==> ReadsBackAt(show, options, arrivals, read, k)
  {
    var lines := OutLines(LineFormat(show, options), options, arrivals);
    LinesAreSubsequence(LineFormat(show, options), options, arrivals);
    ReadLines(lines);
    LineIsReadableAt(show, options, arrivals, k);
    assert lines[k] in lines;
  }

  lemma ReadableLinesSplit(show: Display, options: Options, arrivals: seq<Arrival>)
    requires IsDisplay(show) &&
      forall k: nat | k < |Written(options, arrivals)| :: HasReadableLineAt(show, options, arrivals, k)
    ensures |Split(Unlines(OutLines(LineFormat(show, options), options, arrivals)), '\n')| ==
      |Written(options, arrivals)| + 1
  {
    var lines := OutLines(LineFormat(show, options), options, arrivals);
    LinesAreSubsequence(LineFormat(show, options), options, arrivals);
    forall k: nat | k < |lines| ensures '\n' !in lines[k] {
      LineIsReadableAt(show, options, arrivals, k);
    }
    ReadLines(lines);
  }

  /** The output can be read back if and only if every written measurement has a
    * field, and the measurement name and its own resolved name have no newline
    * and no trailing backslash.
    */
  lemma OutputReadsBack(show: Display, options: Options, arrivals: seq<Arrival>)
    requires IsDisplay(show)
    ensures OutputIsReadable(show, options, arrivals) <==>
      forall k: nat | k < |Written(options, arrivals)| :: HasReadableLineAt(show, options, arrivals, k)
  {
    var n, lines := |Written(options, arrivals)|, OutLines(LineFormat(show, options), options, arrivals);
    LinesAreSubsequence(LineFormat(show, options), options, arrivals);
    ReadLines(lines);
    if forall k: nat | k < n :: HasReadableLineAt(show, options, arrivals, k) {
      ReadableLinesSplit(show, options, arrivals);
    }
    if |Split(Unlines(lines), '\n')| == n + 1 {
      forall k: nat | k < n
        ensures HasReadableLineAt(show, options, arrivals, k) <==>
                ReadsBackAt(show, options, arrivals, Split(Unlines(lines), '\n'), k)
      {
        ReadsSplitLines(show, options, arrivals, k);
      }
    }
  }

  /** In particular when the measurement name and every alias can be read back:
    * an address that is printed for want of an alias always can.
    */
  lemma ReadableNamesSuffice(show: Display, options: Options, arrivals: seq<Arrival>)
    requires IsDisplay(show) && Readable(options.measurement) && forall alias <- options.aliases :: Readable(alias.name)
    requires forall i <- Written(options, arrivals) | arrivals[i].result.Ok? ::
      Fields(show, arrivals[i].result.value) != []
    ensures OutputIsReadable(show, options, arrivals)
  {
    LinesAreSubsequence(LineFormat(show, options), options, arrivals);
    forall k: nat | k < |Written(options, arrivals)| ensures HasReadableLineAt(show, options, arrivals, k) {
      assert Written(options, arrivals)[k] in Written(options, arrivals);
      NameIsReadable(options, arrivals[Written(options, arrivals)[k]].result.value.mac);
    }
    OutputReadsBack(show, options, arrivals);
  }

  lemma NameIsReadable(options: Options, mac: MacAddress)
    requires forall alias <- options.aliases :: Readable(alias.name)
    ensures Readable(Name(options, mac))
  {
    LastAliasWins(options.aliases, mac);
    if mac !in ToMap(options.aliases) {
      PrintIsClean(mac);
      assert Print(mac) != [] ==> Last(Print(mac)) in Print(mac);
    }
  }

  // ---------------------------------------------------------------------
  // What the reader of the output finds
  // ---------------------------------------------------------------------

  /** A device goes by the name of its last alias, or by its printed address if it has none. */
  lemma NameExactly(options: Options, mac: MacAddress)
    ensures forall i: nat | i < |options.aliases| && IsLastFor(options.aliases, i, mac) ::
      Name(options, mac) == options.aliases[i].name
    ensures (forall alias <- options.aliases :: alias.address != mac) ==> Name(options, mac) == Print(mac)
  {
    LastAliasWins(options.aliases, mac);
    if mac in ToMap(options.aliases) {
      var j: nat :| j < |options.aliases| && IsLastFor(options.aliases, j, mac) &&
        ResolveName(mac, ToMap(options.aliases)) == options.aliases[j].name;
      assert forall i: nat | i < |options.aliases| && IsLastFor(options.aliases, i, mac) :: i == j;
    } else {
      assert forall i: nat | i < |options.aliases| :: options.aliases[i].address != mac;
    }
  }

  /** From output that can be read, the reader gets in line `k` the measurement
    * name, the address, every quantity under its own name and the time of the
    * `k`th written arrival, and as the name of the device its last alias, or
    * its printed address if it has none.
    */
  lemma ReaderFinds(show: Display, options: Options, arrivals: seq<Arrival>, k: nat)
    requires IsDisplay(show) && OutputIsReadable(show, options, arrivals) && k < |Written(options, arrivals)|
    ensures var read := Split(Unlines(OutLines(LineFormat(show, options), options, arrivals)), '\n');
            var a := arrivals[Written(options, arrivals)[k]];
            |read| == |Written(options, arrivals)| + 1 && a.result.Ok? && ReadLine(read[k]).Some? &&
            var line, m, aliases := ReadLine(read[k]).value, a.result.value, options.aliases;
            (forall i: nat | i < |aliases| && IsLastFor(aliases, i, m.mac) ::
               Tells(show, line, options.measurement, m, aliases[i].name)) &&
            ((forall alias <- aliases :: alias.address != m.mac) ==>
               Tells(show, line, options.measurement, m, Print(m.mac)))
  {
    var read := Split(Unlines(OutLines(LineFormat(show, options), options, arrivals)), '\n');
    assert ReadsBackAt(show, options, arrivals, read, k);
    var m := arrivals[Written(options, arrivals)[k]].result.value;
    NameExactly(options, m.mac);
    MeaningTells(show, options.measurement, m, Name(options, m.mac));
  }
}
