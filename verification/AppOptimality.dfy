/** The throttled output is as large as it can be: the lines of a device are a
  * largest choice of what it sent, pairwise an interval apart.
  */
module AppOptimality {
  import opened App
  import opened AppProperties
  import opened Common
  import opened MacAddresses
  import opened Measurements
  import opened Throttling
  import ThrottleProperties

  /** No throttle is a throttle with interval zero. */
  function Interval(options: Options): nat {
    match options.throttle
    case None => 0
    case Some(interval) => interval
  }

  lemma WritesExactly(options: Options, before: seq<Arrival>, a: Arrival)
    ensures Writes(options, before, a) <==>
      Kept(before, a) && ReferenceAllows(Interval(options), Offered(before), EventOf(a))
  {
  }

  /** The written arrivals of a device. */
  function WrittenOf(options: Options, arrivals: seq<Arrival>, mac: MacAddress): (ws: seq<nat>)
    ensures forall k | 0 <= k < |ws| :: ws[k] < |arrivals|
  {
    if arrivals == [] then []
    else
      var before, a := Front(arrivals), Last(arrivals);
      WrittenOf(options, before, mac) + if IsFrom(a, mac) && Writes(options, before, a) then [|before|] else []
  }

  /** `chosen` lists, in order, arrivals of a device that are not redundant. */
  ghost predicate Choice(arrivals: seq<Arrival>, mac: MacAddress, chosen: seq<nat>) {
    && (forall k | 0 <= k < |chosen| :: chosen[k] < |arrivals| && IsKeptOf(arrivals, mac, chosen[k]))
    && (forall k, l | 0 <= k < l < |chosen| :: chosen[k] < chosen[l])
  }

  predicate IsKeptOf(arrivals: seq<Arrival>, mac: MacAddress, i: nat)
    requires i < |arrivals|
  {
    IsFrom(arrivals[i], mac) && Kept(arrivals[..i], arrivals[i])
  }

  /** The chosen arrivals are pairwise at least `interval` apart. */
  ghost predicate Apart(interval: nat, arrivals: seq<Arrival>, chosen: seq<nat>)
    requires forall k | 0 <= k < |chosen| :: chosen[k] < |arrivals|
  {
    forall k, l | 0 <= k < l < |chosen| :: arrivals[chosen[k]].now + interval <= arrivals[chosen[l]].now
  }

  // ---------------------------------------------------------------------
  // Where an arrival stands among the calls of the throttle
  // ---------------------------------------------------------------------

  lemma {:induction false} OfferedAt(arrivals: seq<Arrival>, i: nat, n: nat)
    requires i < n <= |arrivals| && Kept(arrivals[..i], arrivals[i])
    ensures |Offered(arrivals[..i])| < |Offered(arrivals[..n])|
    ensures Offered(arrivals[..n])[|Offered(arrivals[..i])|] == EventOf(arrivals[i])
  {
    NextPrefix(arrivals, n - 1);
    StateStep(arrivals[..n - 1], arrivals[n - 1]);
    if i < n - 1 {
      OfferedAt(arrivals, i, n - 1);
    }
  }

  /** A choice of arrivals as a choice of calls. */
  function Calls(arrivals: seq<Arrival>, chosen: seq<nat>): (calls: seq<nat>)
    requires forall k | 0 <= k < |chosen| :: chosen[k] < |arrivals|
    ensures |calls| == |chosen|
  {
    seq(|chosen|, k requires 0 <= k < |chosen| => |Offered(arrivals[..chosen[k]])|)
  }

  lemma CallAt(arrivals: seq<Arrival>, mac: MacAddress, i: nat)
    requires i < |arrivals| && IsKeptOf(arrivals, mac, i)
    ensures |Offered(arrivals[..i])| < |Offered(arrivals)|
    ensures Offered(arrivals)[|Offered(arrivals[..i])|] == EventOf(arrivals[i])
  {
    OfferedAt(arrivals, i, |arrivals|);
    assert arrivals[..|arrivals|] == arrivals;
  }

  lemma CallsAreLegal(interval: nat, arrivals: seq<Arrival>, mac: MacAddress, chosen: seq<nat>)
    requires Choice(arrivals, mac, chosen) && Apart(interval, arrivals, chosen)
    ensures ThrottleProperties.Legal(interval, Offered(arrivals), mac, Calls(arrivals, chosen))
  {
    var calls := Calls(arrivals, chosen);
    forall k | 0 <= k < |calls|
      ensures calls[k] < |Offered(arrivals)| && Offered(arrivals)[calls[k]] == EventOf(arrivals[chosen[k]])
    {
      CallAt(arrivals, mac, chosen[k]);
    }
    forall k, l | 0 <= k < l < |calls| ensures calls[k] < calls[l] {
      assert IsKeptOf(arrivals, mac, chosen[k]);
      OfferedAt(arrivals, chosen[k], chosen[l]);
    }
  }

  // ---------------------------------------------------------------------
  // The written arrivals are such a choice, and a largest one
  // ---------------------------------------------------------------------

  /** As many arrivals of a device are written as calls for it are allowed. */
  lemma {:induction false} WrittenAreEmissions(options: Options, arrivals: seq<Arrival>, mac: MacAddress)
    requires OnTime(arrivals)
    ensures |WrittenOf(options, arrivals, mac)|
         == |ThrottleProperties.Emissions(Interval(options), Offered(arrivals), mac)|
  {
    if arrivals != [] {
      var before, a := Front(arrivals), Last(arrivals);
      assert arrivals == before + [a];
      WrittenAreEmissions(options, before, mac);
      WritesExactly(options, before, a);
      StateStep(before, a);
      if Kept(before, a) {
        EmissionAtEnd(Interval(options), before, a, mac);
      }
    }
  }

  lemma EmissionAtEnd(interval: nat, before: seq<Arrival>, a: Arrival, mac: MacAddress)
    requires OnTime(before + [a]) && Kept(before, a)
    ensures var history := Offered(before);
            |ThrottleProperties.Emissions(interval, history + [EventOf(a)], mac)| ==
              |ThrottleProperties.Emissions(interval, history, mac)| +
              if IsFrom(a, mac) && ReferenceAllows(interval, history, EventOf(a)) then 1 else 0
  {
    var history := Offered(before) + [EventOf(a)];
    OfferedInOrder(before + [a]);
    StateStep(before, a);
    EvictionIsInvisible(interval, history, |history| - 1);
    assert Front(history) == Offered(before) && history[..|history| - 1] == Offered(before);
  }

  lemma {:induction false} WrittenAreChosen(options: Options, arrivals: seq<Arrival>, mac: MacAddress)
    ensures Choice(arrivals, mac, WrittenOf(options, arrivals, mac))
    ensures forall k | 0 <= k < |WrittenOf(options, arrivals, mac)| ::
      WrittenOf(options, arrivals, mac)[k] in Written(options, arrivals)
  {
    if arrivals != [] {
      var before, a := Front(arrivals), Last(arrivals);
      WrittenAreChosen(options, before, mac);
      assert arrivals[..|before|] == before;
      forall i: nat | i < |before| && IsKeptOf(before, mac, i) ensures IsKeptOf(arrivals, mac, i) {
        assert before[..i] == arrivals[..i];
      }
    }
  }

  lemma WrittenAreApart(options: Options, arrivals: seq<Arrival>, mac: MacAddress)
    requires OnTime(arrivals)
    ensures Choice(arrivals, mac, WrittenOf(options, arrivals, mac))
    ensures Apart(Interval(options), arrivals, WrittenOf(options, arrivals, mac))
  {
    var ws := WrittenOf(options, arrivals, mac);
    WrittenAreChosen(options, arrivals, mac);
    forall k, l | 0 <= k < l < |ws| ensures arrivals[ws[k]].now + Interval(options) <= arrivals[ws[l]].now {
      WrittenPairApart(options, arrivals, mac, ws[k], ws[l]);
    }
  }

  lemma WrittenPairApart(options: Options, arrivals: seq<Arrival>, mac: MacAddress, i: nat, j: nat)
    requires OnTime(arrivals) && i < j < |arrivals| && IsFrom(arrivals[i], mac) && IsFrom(arrivals[j], mac)
    requires i in Written(options, arrivals) && j in Written(options, arrivals)
    ensures arrivals[i].now + Interval(options) <= arrivals[j].now
  {
    ArrivalTimesGrow(arrivals, i, j);
    WrittenAreWrites(options, arrivals, i);
    WrittenExactly(options, arrivals, j);
    if options.throttle.Some? {
      assert !Covered(options, arrivals, j);
    }
  }

  lemma {:induction false} LinesOfWritten(line: Measurement -> string, options: Options, arrivals: seq<Arrival>,
                                          mac: MacAddress)
    ensures var ws, lines := WrittenOf(options, arrivals, mac), LinesOf(line, options, arrivals, mac);
            |lines| == |ws| && forall k | 0 <= k < |ws| ::
              arrivals[ws[k]].result.Ok? && lines[k] == line(arrivals[ws[k]].result.value)
  {
    if arrivals != [] {
      LinesOfWritten(line, options, Front(arrivals), mac);
    }
  }

  /** The lines of a device are a choice of what it sent and is not redundant,
    * pairwise at least the interval apart, and no such choice is larger.
    */
  lemma LinesAreLargestChoice(line: Measurement -> string, options: Options, arrivals: seq<Arrival>, mac: MacAddress)
    requires OnTime(arrivals)
    ensures var ws, lines := WrittenOf(options, arrivals, mac), LinesOf(line, options, arrivals, mac);
            Choice(arrivals, mac, ws) && Apart(Interval(options), arrivals, ws) &&
            |lines| == |ws| && (forall k | 0 <= k < |ws| ::
              arrivals[ws[k]].result.Ok? && lines[k] == line(arrivals[ws[k]].result.value))
    ensures forall chosen | Choice(arrivals, mac, chosen) && Apart(Interval(options), arrivals, chosen) ::
      |chosen| <= |LinesOf(line, options, arrivals, mac)|
  {
    WrittenAreApart(options, arrivals, mac);
    LinesOfWritten(line, options, arrivals, mac);
    OfferedInOrder(arrivals);
    WrittenAreEmissions(options, arrivals, mac);
    ThrottleProperties.GreedyIsOptimal(Interval(options), Offered(arrivals), mac);
    forall chosen | Choice(arrivals, mac, chosen) && Apart(Interval(options), arrivals, chosen)
      ensures |chosen| <= |LinesOf(line, options, arrivals, mac)|
    {
      CallsAreLegal(Interval(options), arrivals, mac, chosen);
    }
  }
}
