/** The counter that slows down guessing of the SPAKE2+ password: `oc_knx.c`. */
module HandshakeThrottle {

  const LIMIT: nat := 10

  /** `pending` are the admitted handshakes whose outcome is not known yet. */
  datatype State = State(count: nat, blocking: bool, pending: nat)

  const INITIAL := State(0, false, 0)

  /** A tick comes every ten seconds; an attempt is a request that asks whether it is blocked. */
  datatype Event = Tick | Attempt | Failure | Success

  predicate Blocked(s: State) {
    s.blocking || s.count > LIMIT
  }

  /** `decrement_counter` */
  function Ticked(s: State): State {
    var count := if s.count > 0 then s.count - 1 else 0;
    s.(count := count, blocking := s.blocking && count != 0)
  }

  function Step(s: State, e: Event): State {
    match e
    case Tick => Ticked(s)
    case Attempt => if Blocked(s) then s.(blocking := true) else s.(pending := s.pending + 1)
    case Failure => State(s.count + 1, s.blocking, if s.pending > 0 then s.pending - 1 else 0)
    case Success => s.(pending := if s.pending > 0 then s.pending - 1 else 0)
  }

  /** Outcomes belong to admitted handshakes, and attempts come with fewer than `m` of them open. */
  predicate Enabled(s: State, e: Event, m: nat) {
    match e
    case Tick => true
    case Attempt => s.pending < m
    case Failure => s.pending > 0
    case Success => s.pending > 0
  }

  predicate Possible(s: State, events: seq<Event>, m: nat)
    decreases |events|
  {
    events == [] || (Enabled(s, events[0], m) && Possible(Step(s, events[0]), events[1..], m))
  }

  function After(s: State, events: seq<Event>): State
    decreases |events|
  {
    if events == [] then s else After(Step(s, events[0]), events[1..])
  }

  function Number(events: seq<Event>, e: Event): nat {
    if events == [] then 0 else (if events[0] == e then 1 else 0) + Number(events[1..], e)
  }

  /**
   With at most `m` open handshakes, open and failed ones never exceed the limit by more than `m`; the
   attempt that made the device block came with fewer than `m` of them open.
   */
  predicate Bounded(s: State, m: nat) {
    s.count + s.pending <= LIMIT + m && (s.blocking ==> s.count > 0 && s.pending < m)
  }

  /**
   With at most `m` handshakes open at a time, the count never exceeds 10 + m, a blocking device has a
   positive count and fewer than `m` handshakes open, and failures in any stretch of a run are at most
   10 + m more than the ticks in it.
   */
  lemma {:induction false} FailuresAreThrottled(s: State, events: seq<Event>, m: nat)
    requires Bounded(s, m) && Possible(s, events, m)
    ensures var r := After(s, events);
            && Bounded(r, m)
            && r.count + Number(events, Tick) >= s.count + Number(events, Failure)
            && r.count <= 10 + m && Number(events, Failure) <= 10 + m + Number(events, Tick) - s.count
    decreases |events|
  {
    if events != [] {
      FailuresAreThrottled(Step(s, events[0]), events[1..], m);
    }
  }

  ghost predicate Reaches(s: State, events: seq<Event>, m: nat) {
    Possible(s, events, m) && After(s, events).count == 10 + m
  }

  /** The bound is reached from the start: ten failures one by one, then `m` handshakes that all fail. */
  lemma {:induction false} BoundIsReached(count: nat, m: nat) returns (events: seq<Event>)
    requires count <= 10 && m > 0
    ensures Reaches(State(count, false, 0), events, m)
    decreases 10 - count
  {
    if count == 10 {
      events := AdmitThenFail(0, m);
    } else {
      var later := BoundIsReached(count + 1, m);
      events := [Attempt, Failure] + later;
      assert events[1..][1..] == later && events[1..][0] == Failure;
      assert Step(Step(State(count, false, 0), Attempt), Failure) == State(count + 1, false, 0);
      assert Possible(Step(State(count, false, 0), Attempt), events[1..], m);
    }
  }

  lemma {:induction false} AdmitThenFail(pending: nat, m: nat) returns (events: seq<Event>)
    requires pending <= m
    ensures Reaches(State(10, false, pending), events, m)
    decreases m - pending
  {
    if pending == m {
      AllFail(m, 10, m);
      events := seq(m, _ => Failure);
    } else {
      var later := AdmitThenFail(pending + 1, m);
      events := [Attempt] + later;
      assert events[1..] == later;
    }
  }

  lemma {:induction false} AllFail(n: nat, count: nat, m: nat)
    ensures Possible(State(count, false, n), seq(n, _ => Failure), m)
    ensures After(State(count, false, n), seq(n, _ => Failure)).count == count + n
    decreases n
  {
    if n > 0 {
      AllFail(n - 1, count + 1, m);
      assert seq(n, _ => Failure)[1..] == seq(n - 1, _ => Failure);
    }
  }

  /**
   While blocked with no handshake open, nobody is admitted, and it takes exactly as many ticks as the
   count until the device unblocks: the seconds it reports are ten for each of them.
   */
  lemma {:induction false} UnblocksAfterCountTicks(s: State, events: seq<Event>, m: nat)
    requires s.blocking && s.count > 0 && s.pending == 0 && Possible(s, events, m)
    requires Number(events, Tick) <= s.count && (Number(events, Tick) == s.count ==> events[|events| - 1] == Tick)
    ensures After(s, events) == State(s.count - Number(events, Tick), Number(events, Tick) < s.count, 0)
    decreases |events|
  {
    if events != [] {
      var next := Step(s, events[0]);
      assert events[1..] != [] ==> events[1..][|events| - 2] == events[|events| - 1];
      if next.count == 0 {
        NoTickLeft(events[1..]);
      } else {
        UnblocksAfterCountTicks(next, events[1..], m);
      }
    }
  }

  lemma {:induction false} NoTickLeft(events: seq<Event>)
    requires Number(events, Tick) == 0 && (events != [] ==> events[|events| - 1] == Tick)
    ensures events == []
  {
    if events != [] {
      if |events| > 1 {
        NoTickLeft(events[1..]);
      }
    }
  }

  // --- How long a device stays blocked ---

  /** The device is blocked before, between and after the events. */
  predicate BlockedThrough(s: State, events: seq<Event>)
    decreases |events|
  {
    s.blocking && (events == [] || BlockedThrough(Step(s, events[0]), events[1..]))
  }

  /**
   While a device is blocked nobody is admitted; the count falls with ticks and rises with the open handshakes
   that fail.
   */
  lemma {:induction false} BlockedAccounts(s: State, events: seq<Event>, m: nat)
    requires Possible(s, events, m) && BlockedThrough(s, events) && s.count > 0
    ensures
      var r, failures := After(s, events), Number(events, Failure);
      && r.count > 0
      && r.count + Number(events, Tick) == s.count + failures
      && r.pending + failures + Number(events, Success) == s.pending
    decreases |events|
  {
    if events != [] {
      var next := Step(s, events[0]);
      assert BlockedThrough(next, events[1..]);
      BlockedAccounts(next, events[1..], m);
    }
  }

  /** With fewer ticks than the count the device is still blocked. */
  lemma {:induction false} StillBlocked(s: State, events: seq<Event>, m: nat)
    requires Possible(s, events, m) && s.blocking && Number(events, Tick) < s.count
    ensures BlockedThrough(s, events)
    decreases |events|
  {
    if events != [] {
      StillBlocked(Step(s, events[0]), events[1..], m);
    }
  }

  /** What the reported seconds, ten for each tick, say of every run from a blocked state on. */
  ghost predicate Tells(s: State, seconds: nat) {
    forall events: seq<Event>, m: nat | Possible(s, events, m) ::
      && (10 * Number(events, Tick) < seconds ==> BlockedThrough(s, events))
      && (10 * Number(events, Tick) >= seconds + 10 * s.pending ==> !BlockedThrough(s, events))
  }

  /**
   A blocked device unblocks after at least as many ticks as the count, and at most as many more as
   handshakes are still open.
   */
  lemma UnblocksBetween(s: State, events: seq<Event>, m: nat)
    requires s.blocking && s.count > 0 && Possible(s, events, m)
    ensures Number(events, Tick) < s.count ==> BlockedThrough(s, events)
    ensures Number(events, Tick) >= s.count + s.pending ==> !BlockedThrough(s, events)
  {
    if Number(events, Tick) < s.count { StillBlocked(s, events, m); }
    if BlockedThrough(s, events) { BlockedAccounts(s, events, m); }
  }

  function Ticks(n: nat): seq<Event> {
    seq(n, _ => Tick)
  }

  lemma {:induction false} TicksOnly(s: State, n: nat)
    ensures Possible(s, Ticks(n), 0) && Number(Ticks(n), Tick) == n
    ensures s.blocking && s.count > 0 ==> (BlockedThrough(s, Ticks(n)) <==> n < s.count)
    decreases n
  {
    if n > 0 {
      TicksOnly(Ticked(s), n - 1);
      assert Ticks(n)[1..] == Ticks(n - 1);
    }
  }

  /** All open handshakes fail, and then as many ticks pass as leave a count of one. */
  function Late(s: State): seq<Event>
    requires s.count > 0
  {
    seq(s.pending, _ => Failure) + Ticks(s.count + s.pending - 1)
  }

  lemma {:induction false} FailuresFirst(s: State)
    requires s.blocking && s.count > 0
    ensures
      Possible(s, Late(s), 0) && Number(Late(s), Tick) == s.count + s.pending - 1 && BlockedThrough(s, Late(s))
    decreases s.pending
  {
    if s.pending == 0 {
      TicksOnly(s, s.count - 1);
      assert Late(s) == Ticks(s.count - 1);
    } else {
      FailuresFirst(Step(s, Failure));
      assert Late(s)[0] == Failure && Late(s)[1..] == Late(Step(s, Failure));
    }
  }

  /** Both bounds are met: when nothing happens but ticks, and when all open handshakes fail first. */
  lemma BoundsAreMet(s: State)
    requires s.blocking && s.count > 0
    ensures
      var soon := Ticks(s.count);
      Possible(s, soon, 0) && Number(soon, Tick) == s.count && !BlockedThrough(s, soon)
    ensures
      var late := Late(s);
      Possible(s, late, 0) && Number(late, Tick) == s.count + s.pending - 1 && BlockedThrough(s, late)
  {
    TicksOnly(s, s.count);
    FailuresFirst(s);
  }

  /**
   One handshake at a time: from the start, whenever the device blocks, it stays so for exactly as many ticks
   as the count.
   */
  lemma BlockedForCountTicks(events: seq<Event>, later: seq<Event>)
    requires Possible(State(0, false, 0), events, 1)
    requires var s := After(State(0, false, 0), events); s.blocking && Possible(s, later, 1)
    ensures var s := After(State(0, false, 0), events);
            s.pending == 0 && (BlockedThrough(s, later) <==> Number(later, Tick) < s.count)
  {
    FailuresAreThrottled(INITIAL, events, 1);
    UnblocksBetween(After(INITIAL, events), later, 1);
  }

  /** The two static variables, and how many admitted handshakes are open. */
  class Throttle {
    var failed: nat
    var blocking: bool
    ghost var pending: nat

    ghost function View(): State
      reads this
    {
      State(failed, blocking, pending)
    }

    constructor ()
      ensures View() == INITIAL && failed == 0 && !blocking
    {
      failed, blocking, pending := 0, false, 0;
    }

    /** `decrement_counter`, every ten seconds. */
    method Decrement()
      modifies this
      ensures View() == Step(old(View()), Tick)
    {
      if failed > 0 { failed := failed - 1; }
      if blocking && failed == 0 { blocking := false; }
    }

    /** `increment_counter`, for a handshake that failed. */
    method Increment()
      requires pending > 0
      modifies this
      ensures View() == Step(old(View()), Failure)
    {
      failed := failed + 1;
      pending := pending - 1;
    }

    /** `is_handshake_blocked`; whoever is not blocked is admitted. */
    method IsBlocked() returns (blocked: bool)
      modifies this
      ensures View() == Step(old(View()), Attempt) && blocked == (old(blocking) || old(failed) > 10)
    {
      if blocking { return true; }
      if failed > LIMIT {
        blocking := true;
        return true;
      }
      pending := pending + 1;
      return false;
    }

    /** `get_seconds_until_unblocked` */
    method SecondsUntilUnblocked() returns (seconds: nat)
      ensures seconds == 10 * failed
      ensures blocking && failed > 0 ==> Tells(View(), seconds)
    {
      seconds := failed * 10;
      if blocking && failed > 0 {
        forall events: seq<Event>, m: nat | Possible(View(), events, m)
          ensures
            && (10 * Number(events, Tick) < seconds ==> BlockedThrough(View(), events))
            && (10 * Number(events, Tick) >= seconds + 10 * pending ==> !BlockedThrough(View(), events))
        {
          UnblocksBetween(View(), events, m);
        }
      }
    }
  }
}
