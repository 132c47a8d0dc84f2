/** The per-device throttle of src/throttle.rs: a map of last emissions with a
  * shared call counter and periodic eviction of stale entries.
  *
  * Time is a number of nanoseconds. Each call carries the two readings of the
  * monotonic clock it may take: `sweep` while removing stale entries and `now`
  * afterwards.
  */
module Throttling {
  import opened Common
  import opened MacAddresses

  const CLEANUP_THRESHOLD_MULTIPLIER: nat := 10
  const CLEANUP_CHECK_INTERVAL: nat := 100
  const CLEANUP_SIZE_THRESHOLD: nat := 50

  /** The longest representable duration: u64::MAX seconds and 999999999 nanoseconds. */
  const MAX_DURATION: nat := 0xFFFF_FFFF_FFFF_FFFF * 1_000_000_000 + 999_999_999

  /** One call of should_emit. */
  datatype Event = Event(mac: MacAddress, sweep: nat, now: nat)

  /** Instant::duration_since saturates at zero. */
  function Since(now: nat, earlier: nat): nat {
    if earlier <= now then now - earlier else 0
  }

  // ---------------------------------------------------------------------
  // The throttle as it is implemented
  // ---------------------------------------------------------------------

  datatype State = State(lastSeen: map<MacAddress, nat>, checkCount: nat)

  const INITIAL: State := State(map[], 0)

  function Swept(interval: nat, lastSeen: map<MacAddress, nat>, now: nat): map<MacAddress, nat> {
    if interval == 0 then lastSeen
    else map mac | mac in lastSeen && Since(now, lastSeen[mac]) <= CLEANUP_THRESHOLD_MULTIPLIER * interval
      :: lastSeen[mac]
  }

  predicate Checks(st: State) {
    st.checkCount + 1 >= CLEANUP_CHECK_INTERVAL
  }

  predicate Sweeps(st: State) {
    Checks(st) && |st.lastSeen| > CLEANUP_SIZE_THRESHOLD
  }

  /** What one call leaves behind, and whether it allows the event. */
  function Step(interval: nat, st: State, e: Event): (State, bool) {
    var lastSeen := if Sweeps(st) then Swept(interval, st.lastSeen, e.sweep) else st.lastSeen;
    var emit := e.mac !in lastSeen || Since(e.now, lastSeen[e.mac]) >= interval;
    (State(if emit then lastSeen[e.mac := e.now] else lastSeen, if Checks(st) then 0 else st.checkCount + 1), emit)
  }

  class Throttle {
    const interval: nat
    var lastSeen: map<MacAddress, nat>
    var checkCount: nat

    function Contents(): State
      reads this
    {
      State(lastSeen, checkCount)
    }

    constructor (interval: nat)
      ensures this.interval == interval && Contents() == INITIAL
    {
      this.interval, lastSeen, checkCount := interval, map[], 0;
    }

    method ShouldEmit(mac: MacAddress, sweep: nat, now: nat) returns (emit: bool)
      requires Sweeps(Contents()) ==> CLEANUP_THRESHOLD_MULTIPLIER * interval <= MAX_DURATION
      modifies this
      ensures (Contents(), emit) == Step(interval, old(Contents()), Event(mac, sweep, now))
    {
      checkCount := checkCount + 1;
      if checkCount >= CLEANUP_CHECK_INTERVAL {
        checkCount := 0;
        if |lastSeen| > CLEANUP_SIZE_THRESHOLD {
          CleanupStale(sweep);
        }
      }
      if mac in lastSeen {
        if Since(now, lastSeen[mac]) < interval {
          emit := false;
        } else {
          lastSeen := lastSeen[mac := now];
          emit := true;
        }
      } else {
        lastSeen := lastSeen[mac := now];
        emit := true;
      }
    }

    /** Multiplying the interval overflows, and panics, unless the product is representable. */
    method CleanupStale(now: nat)
      requires CLEANUP_THRESHOLD_MULTIPLIER * interval <= MAX_DURATION
      modifies this`lastSeen
      ensures lastSeen == Swept(interval, old(lastSeen), now)
    {
      if interval == 0 {
        return;
      }
      var threshold := interval * CLEANUP_THRESHOLD_MULTIPLIER;
      lastSeen := map mac | mac in lastSeen && Since(now, lastSeen[mac]) <= threshold :: lastSeen[mac];
    }
  }

  /** The state after a whole history of calls on a new throttle. */
  function Run(interval: nat, history: seq<Event>): State {
    if history == [] then INITIAL else Step(interval, Run(interval, Front(history)), Last(history)).0
  }

  /** Whether the implementation allows call number `i` of a history. */
  predicate Emits(interval: nat, history: seq<Event>, i: nat)
    requires i < |history|
  {
    Step(interval, Run(interval, history[..i]), history[i]).1
  }

  // ---------------------------------------------------------------------
  // The reference: one timer per device, nothing is ever forgotten
  // ---------------------------------------------------------------------

  predicate Allows(interval: nat, last: Option<nat>, now: nat) {
    last.None? || Since(now, last.value) >= interval
  }

  /** When the reference throttle last allowed an event of `mac`. */
  function LastEmission(interval: nat, history: seq<Event>, mac: MacAddress): Option<nat> {
    if history == [] then None
    else
      var before, e := LastEmission(interval, Front(history), mac), Last(history);
      if e.mac == mac && Allows(interval, before, e.now) then Some(e.now) else before
  }

  /** Whether the reference throttle allows `e` after `history`. */
  predicate ReferenceAllows(interval: nat, history: seq<Event>, e: Event) {
    Allows(interval, LastEmission(interval, history, e.mac), e.now)
  }

  function LatestNow(history: seq<Event>): nat {
    if history == [] then 0 else Last(history).now
  }

  /** The monotonic clock never runs backwards. */
  predicate InOrder(history: seq<Event>) {
    history == [] ||
    (InOrder(Front(history)) && LatestNow(Front(history)) <= Last(history).sweep <= Last(history).now)
  }

  // ---------------------------------------------------------------------
  // Eviction is invisible
  // ---------------------------------------------------------------------

  /** The simulation invariant: what is remembered is right, and what has been
    * forgotten is older than the eviction threshold.
    */
  ghost predicate Remembers(interval: nat, history: seq<Event>, lastSeen: map<MacAddress, nat>) {
    forall mac: MacAddress ::
      var last := LastEmission(interval, history, mac);
      if mac in lastSeen then last == Some(lastSeen[mac])
      else last.None? || (interval > 0 && last.value + CLEANUP_THRESHOLD_MULTIPLIER * interval < LatestNow(history))
  }

  lemma LastEmissionIsPast(interval: nat, history: seq<Event>, mac: MacAddress)
    requires InOrder(history)
    ensures var last := LastEmission(interval, history, mac); last.Some? ==> last.value <= LatestNow(history)
  {
  }

  lemma {:induction false} StepKeepsSimulation(interval: nat, history: seq<Event>, st: State, e: Event)
    requires InOrder(history + [e]) && Remembers(interval, history, st.lastSeen)
    ensures Step(interval, st, e).1 == ReferenceAllows(interval, history, e)
    ensures Remembers(interval, history + [e], Step(interval, st, e).0.lastSeen)
  {
  }

  /** Whatever the calls were, the implementation's state simulates the reference. */
  lemma {:induction false} RunSimulates(interval: nat, history: seq<Event>)
    requires InOrder(history)
    ensures Remembers(interval, history, Run(interval, history).lastSeen)
  {
    if history != [] {
      RunSimulates(interval, Front(history));
      assert history == Front(history) + [Last(history)];
      StepKeepsSimulation(interval, Front(history), Run(interval, Front(history)), Last(history));
    }
  }

  /** The evicting throttle makes exactly the decisions of the one that forgets nothing. */
  lemma {:induction false} EvictionIsInvisible(interval: nat, history: seq<Event>, i: nat)
    requires InOrder(history) && i < |history|
    ensures Emits(interval, history, i) == ReferenceAllows(interval, history[..i], history[i])
  {
    PrefixInOrder(history, i);
    PrefixInOrder(history, i + 1);
    assert history[..i + 1] == history[..i] + [history[i]];
    RunSimulates(interval, history[..i]);
    StepKeepsSimulation(interval, history[..i], Run(interval, history[..i]), history[i]);
  }

  lemma {:induction false} PrefixInOrder(history: seq<Event>, n: nat)
    requires InOrder(history) && n <= |history|
    ensures InOrder(history[..n])
  {
    if n < |history| {
      PrefixInOrder(Front(history), n);
      assert Front(history)[..n] == history[..n];
    } else {
      assert history[..n] == history;
    }
  }

  lemma {:induction false} TimesGrow(history: seq<Event>, i: nat, j: nat)
    requires InOrder(history) && i <= j < |history|
    ensures history[i].now <= history[j].now
  {
    if j < |history| - 1 {
      TimesGrow(Front(history), i, j);
    } else if i < j {
      TimesGrow(Front(history), i, j - 1);
    }
  }
}
