/** What the throttle guarantees over whole runs, evictions included. */
module ThrottleProperties {
  import opened Common
  import opened MacAddresses
  import opened Throttling

  // ---------------------------------------------------------------------
  // Rate and optimality
  // ---------------------------------------------------------------------

  /** `chosen` lists, in order, calls made for `mac`. */
  ghost predicate Selection(history: seq<Event>, mac: MacAddress, chosen: seq<nat>) {
    && (forall k | 0 <= k < |chosen| :: chosen[k] < |history| && history[chosen[k]].mac == mac)
    && (forall k, l | 0 <= k < l < |chosen| :: chosen[k] < chosen[l])
  }

  /** The chosen calls are pairwise at least `interval` apart. */
  ghost predicate Spread(interval: nat, history: seq<Event>, chosen: seq<nat>)
    requires forall k | 0 <= k < |chosen| :: chosen[k] < |history|
  {
    forall k, l | 0 <= k < l < |chosen| :: history[chosen[k]].now + interval <= history[chosen[l]].now
  }

  ghost predicate Legal(interval: nat, history: seq<Event>, mac: MacAddress, chosen: seq<nat>) {
    Selection(history, mac, chosen) && Spread(interval, history, chosen)
  }

  /** The calls for `mac` that the implementation allows. */
  function Emissions(interval: nat, history: seq<Event>, mac: MacAddress): (es: seq<nat>)
    ensures forall k | 0 <= k < |es| :: es[k] < |history|
  {
    if history == [] then []
    else
      var i := |history| - 1;
      Emissions(interval, Front(history), mac) +
      if history[i].mac == mac && Emits(interval, history, i) then [i] else []
  }

  /** A choice grows by a later call that keeps its distance. */
  lemma LegalGrows(interval: nat, history: seq<Event>, mac: MacAddress, chosen: seq<nat>)
    requires history != [] && InOrder(history) && Last(history).mac == mac
    requires Legal(interval, Front(history), mac, chosen)
    requires chosen != [] ==> history[Last(chosen)].now + interval <= Last(history).now
    ensures Legal(interval, history, mac, chosen + [|history| - 1])
  {
  }

  /** The last allowed call is the reference's last emission. */
  lemma {:induction false} EmissionsEndAtLast(interval: nat, history: seq<Event>, mac: MacAddress)
    requires InOrder(history)
    ensures var es := Emissions(interval, history, mac);
            LastEmission(interval, history, mac) == if es == [] then None else Some(history[Last(es)].now)
  {
    if history != [] {
      EmissionsEndAtLast(interval, Front(history), mac);
      EvictionIsInvisible(interval, history, |history| - 1);
    }
  }

  /** The allowed calls are legal. */
  lemma {:induction false} EmissionsAreLegal(interval: nat, history: seq<Event>, mac: MacAddress)
    requires InOrder(history)
    ensures Legal(interval, history, mac, Emissions(interval, history, mac))
  {
    if history != [] {
      var i, before := |history| - 1, Emissions(interval, Front(history), mac);
      EmissionsAreLegal(interval, Front(history), mac);
      if history[i].mac == mac && Emits(interval, history, i) {
        if before != [] {
          EmissionKeepsDistance(interval, history, mac);
        }
        LegalGrows(interval, history, mac, before);
      } else {
        assert Emissions(interval, history, mac) == before;
      }
    }
  }

  lemma EmissionKeepsDistance(interval: nat, history: seq<Event>, mac: MacAddress)
    requires history != [] && InOrder(history) && Emissions(interval, Front(history), mac) != []
    requires Last(history).mac == mac && Emits(interval, history, |history| - 1)
    ensures var j := Last(Emissions(interval, Front(history), mac));
            j < |history| && history[j].now + interval <= Last(history).now
  {
    EmissionsEndAtLast(interval, Front(history), mac);
    EvictionIsInvisible(interval, history, |history| - 1);
    TimesGrow(history, Last(Emissions(interval, Front(history), mac)), |history| - 1);
  }

  lemma LegalInFront(interval: nat, history: seq<Event>, mac: MacAddress, chosen: seq<nat>)
    requires history != [] && Legal(interval, history, mac, chosen)
    requires chosen != [] ==> Last(chosen) < |history| - 1
    ensures Legal(interval, Front(history), mac, chosen)
  {
  }

  /** A choice of `n` calls ending at `end` does not get ahead of the emissions. */
  ghost predicate Behind(interval: nat, history: seq<Event>, mac: MacAddress, n: nat, end: nat) {
    var es, last := Emissions(interval, history, mac), LastEmission(interval, history, mac);
    n <= |es| && (n == |es| > 0 ==> last.Some? && last.value <= end)
  }

  /** The emissions stay ahead when the choice takes the latest call ... */
  lemma StaysAheadOfTaken(interval: nat, history: seq<Event>, mac: MacAddress, n: nat, end: nat)
    requires history != [] && InOrder(history) && Last(history).mac == mac
    requires Behind(interval, Front(history), mac, n, end)
    requires n > 0 ==> end + interval <= Last(history).now
    ensures Behind(interval, history, mac, n + 1, Last(history).now)
  {
    EvictionIsInvisible(interval, history, |history| - 1);
    EmissionsEndAtLast(interval, Front(history), mac);
    LastEmissionIsPast(interval, history, mac);
  }

  /** ... and when it does not. */
  lemma StaysAheadOfSkipped(interval: nat, history: seq<Event>, mac: MacAddress, n: nat, end: nat)
    requires history != [] && InOrder(history) && Behind(interval, Front(history), mac, n, end)
    ensures Behind(interval, history, mac, n, end)
  {
    EvictionIsInvisible(interval, history, |history| - 1);
  }

  /** Greedy stays ahead: no legal choice has more calls than were allowed, and
    * one that has as many ends no earlier.
    */
  lemma {:induction false} GreedyStaysAhead(interval: nat, history: seq<Event>, mac: MacAddress, chosen: seq<nat>)
    requires InOrder(history) && Legal(interval, history, mac, chosen)
    ensures Behind(interval, history, mac, |chosen|, if chosen == [] then 0 else history[Last(chosen)].now)
  {
    if chosen != [] {
      assert chosen[|chosen| - 1] < |history|;
      if Last(chosen) < |history| - 1 {
        LegalInFront(interval, history, mac, chosen);
        GreedyStaysAhead(interval, Front(history), mac, chosen);
        StaysAheadOfSkipped(interval, history, mac, |chosen|, history[Last(chosen)].now);
      } else {
        var fewer := Front(chosen);
        LegalInFront(interval, history, mac, fewer);
        GreedyStaysAhead(interval, Front(history), mac, fewer);
        StaysAheadOfTaken(interval, history, mac, |fewer|, if fewer == [] then 0 else history[Last(fewer)].now);
      }
    } else {
      EmissionsEndAtLast(interval, history, mac);
    }
  }

  /** The number of events allowed for a device is the most that any choice of
    * its events, pairwise at least `interval` apart, can have.
    */
  lemma GreedyIsOptimal(interval: nat, history: seq<Event>, mac: MacAddress)
    requires InOrder(history)
    ensures Legal(interval, history, mac, Emissions(interval, history, mac))
    ensures forall chosen | Legal(interval, history, mac, chosen) :: |chosen| <= |Emissions(interval, history, mac)|
  {
    EmissionsAreLegal(interval, history, mac);
    forall chosen | Legal(interval, history, mac, chosen)
      ensures |chosen| <= |Emissions(interval, history, mac)|
    {
      GreedyStaysAhead(interval, history, mac, chosen);
    }
  }

  /** k legal emissions take at least (k - 1) intervals. */
  lemma {:induction false} LegalSpan(interval: nat, history: seq<Event>, mac: MacAddress, chosen: seq<nat>)
    requires Legal(interval, history, mac, chosen) && chosen != []
    ensures (|chosen| - 1) * interval <= history[Last(chosen)].now - history[chosen[0]].now
  {
    if |chosen| > 1 {
      LegalSpan(interval, history, mac, Front(chosen));
      assert (|chosen| - 1) * interval == (|chosen| - 2) * interval + interval;
    }
  }

  lemma LegalSlice(interval: nat, history: seq<Event>, mac: MacAddress, chosen: seq<nat>, lo: nat, hi: nat)
    requires Legal(interval, history, mac, chosen) && lo <= hi <= |chosen|
    ensures Legal(interval, history, mac, chosen[lo..hi])
  {
  }

  /** Rate: the emissions of a device from the `first`th to the `last`th take at
    * least (last - first) intervals.
    */
  lemma RateIsBounded(interval: nat, history: seq<Event>, mac: MacAddress, first: nat, last: nat)
    requires InOrder(history)
    requires first <= last < |Emissions(interval, history, mac)|
    ensures var es := Emissions(interval, history, mac);
            es[first] <= es[last] < |history| &&
            (last - first) * interval <= history[es[last]].now - history[es[first]].now
  {
    var es := Emissions(interval, history, mac);
    EmissionsAreLegal(interval, history, mac);
    LegalSlice(interval, history, mac, es, first, last + 1);
    LegalSpan(interval, history, mac, es[first..last + 1]);
  }

  lemma {:induction false} EmissionsAreEmits(interval: nat, history: seq<Event>, mac: MacAddress, j: nat)
    requires j < |history|
    ensures j in Emissions(interval, history, mac) <==> history[j].mac == mac && Emits(interval, history, j)
  {
    if j < |history| - 1 {
      EmissionsAreEmits(interval, Front(history), mac, j);
      assert Front(history)[..j] == history[..j];
    }
  }

  /** Suppressed events lie strictly within `interval` after an allowed one. */
  lemma SuppressedIsCovered(interval: nat, history: seq<Event>, i: nat) returns (j: nat)
    requires InOrder(history) && i < |history| && !Emits(interval, history, i)
    ensures j < i && history[j].mac == history[i].mac && Emits(interval, history, j)
    ensures history[i].now - history[j].now < interval
  {
    var mac, es := history[i].mac, Emissions(interval, history[..i], history[i].mac);
    PrefixInOrder(history, i);
    EmissionsEndAtLast(interval, history[..i], mac);
    EvictionIsInvisible(interval, history, i);
    j := Last(es);
    EmissionsAreEmits(interval, history[..i], mac, j);
    assert history[..i][..j] == history[..j];
    TimesGrow(history, j, i);
  }

  lemma EmissionsAreApart(interval: nat, history: seq<Event>, mac: MacAddress, k: nat, l: nat)
    requires InOrder(history) && k < |Emissions(interval, history, mac)| && l < |Emissions(interval, history, mac)|
    requires Emissions(interval, history, mac)[k] < Emissions(interval, history, mac)[l]
    ensures history[Emissions(interval, history, mac)[k]].now + interval <=
      history[Emissions(interval, history, mac)[l]].now
  {
    EmissionsAreLegal(interval, history, mac);
    assert k < l;
  }

  /** Allowed events of a device are at least `interval` apart. */
  lemma AllowedAreApart(interval: nat, history: seq<Event>, j: nat, i: nat)
    requires InOrder(history) && j < i < |history| && history[j].mac == history[i].mac
    requires Emits(interval, history, j) && Emits(interval, history, i)
    ensures history[j].now + interval <= history[i].now
  {
    var mac, es := history[i].mac, Emissions(interval, history, history[i].mac);
    EmissionsAreEmits(interval, history, mac, j);
    EmissionsAreEmits(interval, history, mac, i);
    var k: nat :| k < |es| && es[k] == j;
    var l: nat :| l < |es| && es[l] == i;
    EmissionsAreApart(interval, history, mac, k, l);
  }

  /** A call is suppressed exactly when an earlier allowed call of the same
    * device lies strictly within `interval` before it; in particular a
    * suppressed call never delays a later one.
    */
  lemma SuppressedExactlyWhenCovered(interval: nat, history: seq<Event>, i: nat)
    requires InOrder(history) && i < |history|
    ensures !Emits(interval, history, i) <==>
      exists j | 0 <= j < i && history[j].mac == history[i].mac ::
        Emits(interval, history, j) && history[i].now - history[j].now < interval
  {
    if !Emits(interval, history, i) {
      var j := SuppressedIsCovered(interval, history, i);
    } else {
      forall j | 0 <= j < i && history[j].mac == history[i].mac && Emits(interval, history, j)
        ensures history[i].now - history[j].now >= interval
      {
        AllowedAreApart(interval, history, j, i);
      }
    }
  }

  // ---------------------------------------------------------------------
  // Devices do not interfere
  // ---------------------------------------------------------------------

  /** The calls made for one device, at the times they were made. */
  function OnlyDevice(history: seq<Event>, mac: MacAddress): seq<Event> {
    if history == [] then []
    else OnlyDevice(Front(history), mac) + if Last(history).mac == mac then [Last(history)] else []
  }

  lemma {:induction false} OnlyDeviceKeepsOrder(history: seq<Event>, mac: MacAddress)
    requires InOrder(history)
    ensures InOrder(OnlyDevice(history, mac)) && LatestNow(OnlyDevice(history, mac)) <= LatestNow(history)
  {
    if history != [] {
      OnlyDeviceKeepsOrder(Front(history), mac);
      var before, now := OnlyDevice(Front(history), mac), OnlyDevice(history, mac);
      assert now == if Last(history).mac == mac then before + [Last(history)] else before;
      assert Last(history).mac == mac ==> Front(now) == before;
    }
  }

  lemma {:induction false} ReferenceIsPerDevice(interval: nat, history: seq<Event>, mac: MacAddress)
    ensures LastEmission(interval, history, mac) == LastEmission(interval, OnlyDevice(history, mac), mac)
  {
    if history != [] {
      ReferenceIsPerDevice(interval, Front(history), mac);
      var before, now := OnlyDevice(Front(history), mac), OnlyDevice(history, mac);
      assert now == if Last(history).mac == mac then before + [Last(history)] else before;
      assert Last(history).mac == mac ==> Front(now) == before;
    }
  }

  /** The call counter, the size threshold and the eviction are shared, yet a
    * call of a device gets the decision of a throttle that only ever served it.
    */
  lemma DevicesDoNotInterfere(interval: nat, history: seq<Event>, i: nat)
    requires InOrder(history) && i < |history|
    ensures var alone := OnlyDevice(history[..i + 1], history[i].mac);
            alone != [] && Last(alone) == history[i] &&
            Emits(interval, history, i) == Emits(interval, alone, |alone| - 1)
  {
    var mac := history[i].mac;
    assert Front(history[..i + 1]) == history[..i];
    var before, alone := OnlyDevice(history[..i], mac), OnlyDevice(history[..i + 1], mac);
    assert alone == before + [history[i]] && Front(alone) == before;
    PrefixInOrder(history, i + 1);
    OnlyDeviceKeepsOrder(history[..i + 1], mac);
    EvictionIsInvisible(interval, history, i);
    EvictionIsInvisible(interval, alone, |alone| - 1);
    ReferenceIsPerDevice(interval, history[..i], mac);
  }

  // ---------------------------------------------------------------------
  // Space
  // ---------------------------------------------------------------------

  /** The number of calls up to and including the latest periodic check. */
  function LatestCheck(history: seq<Event>): nat {
    |history| / 100 * 100
  }

  /** The devices whose last emission was at most ten intervals old at the latest check. */
  function ActiveAtCheck(interval: nat, history: seq<Event>): set<MacAddress> {
    var n := LatestCheck(history);
    if n == 0 then {}
    else
      set i: nat | i < n - 1 && IsActive(interval, history[..n - 1], history[i].mac, history[n - 1].sweep)
        :: history[i].mac
  }

  predicate IsActive(interval: nat, history: seq<Event>, mac: MacAddress, at: nat) {
    var last := LastEmission(interval, history, mac);
    last.Some? && Since(at, last.value) <= 10 * interval
  }

  lemma {:induction false} CountsCalls(interval: nat, history: seq<Event>)
    ensures Run(interval, history).checkCount == |history| % 100
  {
    if history != [] {
      CountsCalls(interval, Front(history));
    }
  }

  lemma {:induction false} EmittersWereCalled(interval: nat, history: seq<Event>, mac: MacAddress)
    requires LastEmission(interval, history, mac).Some?
    ensures exists i | 0 <= i < |history| :: history[i].mac == mac
  {
    if Last(history).mac != mac {
      EmittersWereCalled(interval, Front(history), mac);
      var i :| 0 <= i < |Front(history)| && Front(history)[i].mac == mac;
      assert history[i].mac == mac;
    } else {
      assert history[|history| - 1].mac == mac;
    }
  }

  lemma SweptAreActive(interval: nat, history: seq<Event>, mac: MacAddress, at: nat)
    requires interval > 0 && InOrder(history) && LatestNow(history) <= at
    ensures mac in Swept(interval, Run(interval, history).lastSeen, at) <==> IsActive(interval, history, mac, at)
  {
    RunSimulates(interval, history);
  }

  lemma ActiveMembers(interval: nat, history: seq<Event>, mac: MacAddress)
    requires history != [] && LatestCheck(history) == |history|
    ensures mac in ActiveAtCheck(interval, history) <==> IsActive(interval, Front(history), mac, Last(history).sweep)
  {
    var before := Front(history);
    assert history[..|history| - 1] == before;
    if LastEmission(interval, before, mac).Some? {
      EmittersWereCalled(interval, before, mac);
      var i :| 0 <= i < |before| && before[i].mac == mac;
      assert history[i] == before[i];
    }
  }

  /** What survives a sweep is exactly the set of active devices. */
  lemma SweepKeepsActive(interval: nat, history: seq<Event>)
    requires interval > 0 && history != [] && InOrder(history)
    requires LatestCheck(history) == |history|
    ensures Swept(interval, Run(interval, Front(history)).lastSeen, Last(history).sweep).Keys
         == ActiveAtCheck(interval, history)
  {
    forall mac: MacAddress
      ensures mac in Swept(interval, Run(interval, Front(history)).lastSeen, Last(history).sweep) <==>
              mac in ActiveAtCheck(interval, history)
    {
      SweptAreActive(interval, Front(history), mac, Last(history).sweep);
      ActiveMembers(interval, history, mac);
    }
  }

  /** A call adds at most one entry to what the sweep left. */
  lemma StepAddsOne(interval: nat, st: State, e: Event)
    ensures var kept := if Sweeps(st) then Swept(interval, st.lastSeen, e.sweep) else st.lastSeen;
            |Step(interval, st, e).0.lastSeen| <= |kept| + 1
  {
  }

  lemma ActiveBetweenChecks(interval: nat, history: seq<Event>)
    requires |history| % 100 != 0
    ensures ActiveAtCheck(interval, Front(history)) == ActiveAtCheck(interval, history)
  {
    var n := LatestCheck(history);
    assert n == LatestCheck(Front(history));
    if n > 0 {
      assert Front(history)[..n - 1] == history[..n - 1];
    }
  }

  lemma SweptSize(interval: nat, history: seq<Event>)
    requires interval > 0 && InOrder(history) && history != [] && LatestCheck(history) == |history|
    ensures |Swept(interval, Run(interval, Front(history)).lastSeen, Last(history).sweep)| ==
      |ActiveAtCheck(interval, history)|
  {
    SweepKeepsActive(interval, history);
    var kept := Swept(interval, Run(interval, Front(history)).lastSeen, Last(history).sweep);
    assert |kept| == |kept.Keys|;
  }

  lemma EveryHundredthChecks(interval: nat, history: seq<Event>)
    requires history != [] && |history| % 100 == 0
    ensures Checks(Run(interval, Front(history))) && LatestCheck(history) == |history|
  {
    CountsCalls(interval, Front(history));
  }

  lemma SpaceAfterCheck(interval: nat, history: seq<Event>)
    requires interval > 0 && InOrder(history) && history != [] && |history| % 100 == 0
    ensures |Run(interval, history).lastSeen| <= Max(50, |ActiveAtCheck(interval, history)|) + 1
  {
    EveryHundredthChecks(interval, history);
    SweptSize(interval, history);
    SpaceAfterStep(interval, Run(interval, Front(history)), Last(history), |ActiveAtCheck(interval, history)|);
  }

  lemma SpaceAfterStep(interval: nat, st: State, e: Event, active: nat)
    requires Checks(st) && |Swept(interval, st.lastSeen, e.sweep)| == active
    ensures |Step(interval, st, e).0.lastSeen| <= Max(50, active) + 1
  {
    StepAddsOne(interval, st, e);
  }

  lemma NextRemainder(n: nat)
    requires (n + 1) % 100 != 0
    ensures (n + 1) % 100 == n % 100 + 1
  {
  }

  lemma SpaceWithoutCheck(interval: nat, history: seq<Event>)
    requires history != [] && |history| % 100 != 0
    ensures |Run(interval, history).lastSeen| <= |Run(interval, Front(history)).lastSeen| + 1
  {
    CountsCalls(interval, Front(history));
    StepAddsOne(interval, Run(interval, Front(history)), Last(history));
  }

  /** The bound on the number of entries between two checks. */
  function Bound(interval: nat, history: seq<Event>): nat {
    Max(50, |ActiveAtCheck(interval, history)|) + |history| % 100 + 1
  }

  lemma BoundGrows(interval: nat, history: seq<Event>)
    requires |history| % 100 != 0
    ensures Bound(interval, history) == Bound(interval, Front(history)) + 1
  {
    ActiveBetweenChecks(interval, history);
    NextRemainder(|Front(history)|);
  }

  lemma {:induction false} SpaceBetweenChecks(interval: nat, history: seq<Event>)
    requires interval > 0 && InOrder(history)
    ensures |Run(interval, history).lastSeen| <= Bound(interval, history)
  {
    if history != [] {
      if |history| % 100 == 0 {
        SpaceAfterCheck(interval, history);
      } else {
        SpaceBetweenChecks(interval, Front(history));
        SpaceWithoutCheck(interval, history);
        BoundGrows(interval, history);
      }
    }
  }

  /** The map never holds more than the active devices, or 50, and one entry for
    * each call since.
    */
  lemma SpaceIsBounded(interval: nat, history: seq<Event>)
    requires interval > 0 && InOrder(history)
    ensures |Run(interval, history).lastSeen|
         <= Max(50, |ActiveAtCheck(interval, history)|) + 100
  {
    SpaceBetweenChecks(interval, history);
  }

  // ---------------------------------------------------------------------
  // When and what is evicted
  // ---------------------------------------------------------------------

  /** Evicting happens at every hundredth call that finds more than 50 entries. */
  lemma SweepsExactly(interval: nat, history: seq<Event>)
    ensures Sweeps(Run(interval, history)) <==> |history| % 100 == 99 && |Run(interval, history).lastSeen| > 50
  {
    CountsCalls(interval, history);
  }

  /** A call forgets the entries that are more than ten intervals old when it evicts, unless the interval is zero, and
    * no other; it remembers the device if it allows the event, and leaves every other entry as it is.
    */
  lemma StepExactly(interval: nat, history: seq<Event>, e: Event, mac: MacAddress)
    requires InOrder(history + [e])
    ensures var before, (after, emit) := Run(interval, history).lastSeen, Step(interval, Run(interval, history), e);
            var evicts := |history| % 100 == 99 && |before| > 50 && interval > 0;
            (mac in after.lastSeen <==>
             (mac == e.mac && emit) || (mac in before && !(evicts && e.sweep - before[mac] > 10 * interval))) &&
            (mac in after.lastSeen ==> after.lastSeen[mac] == if mac == e.mac && emit then e.now else before[mac])
  {
    SweepsExactly(interval, history);
    assert Front(history + [e]) == history;
    RunSimulates(interval, history);
    LastEmissionIsPast(interval, history, mac);
  }
}
