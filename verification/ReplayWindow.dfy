/**
 The sliding window that `oc_replay.c` keeps for one client: the newest accepted
 sequence number and 32 bits, bit k standing for "newest - k was accepted".
 The partner is the unbounded set of accepted numbers, as section 7.4 of RFC 8613 has it.
 */
module ReplayWindow {

  /** Sender sequence numbers are at most five bytes long (section 6.1 of RFC 8613). */
  const SSN_LIMIT: nat := 0x100_0000_0000
  type Ssn = n: nat | n < SSN_LIMIT

  const WINDOW_BITS: nat := 32

  /** A uint32_t used as a bitfield: its 32 bits, least significant first. */
  type Bits = s: seq<bool> | |s| == WINDOW_BITS witness seq(WINDOW_BITS, i => false)

  function Zero(): Bits {
    seq(WINDOW_BITS, i => false)
  }

  /** `w << n` for n < 32: bits move up, the top ones drop out and zeros come in. */
  function ShiftLeft(w: Bits, n: nat): Bits {
    seq(WINDOW_BITS, i requires 0 <= i < WINDOW_BITS => n <= i && w[i - n])
  }

  /** `(uint32_t)1 << k` for k < 32 */
  function Mask(k: nat): Bits {
    ShiftLeft(Zero()[0 := true], k)
  }

  function Or(a: Bits, b: Bits): Bits {
    seq(WINDOW_BITS, i requires 0 <= i < WINDOW_BITS => a[i] || b[i])
  }

  /** `a & b` is not zero. */
  predicate Overlap(a: Bits, b: Bits) {
    exists i | 0 <= i < WINDOW_BITS :: a[i] && b[i]
  }

  datatype Window = Window(rxSsn: Ssn, bits: Bits)

  datatype Outcome = Outcome(window: Window, accepted: bool)

  /** A uint64_t difference read as int64_t. */
  function SignedDifference(a: nat, b: nat): int {
    var d := (a - b) % 0x1_0000_0000_0000_0000;
    if d < 0x8000_0000_0000_0000 then d else d - 0x1_0000_0000_0000_0000
  }

  /** The bit probed at distance `diff`: C leaves `1 << 32` undefined, `shift32` is what the platform yields. */
  function Probe(diff: nat, shift32: Bits): Bits {
    if diff == WINDOW_BITS then shift32 else Mask(diff)
  }

  /** The bits after moving forward by n. */
  function Advance(w: Bits, n: nat): Bits {
    Or(if n >= WINDOW_BITS then Zero() else ShiftLeft(w, n), Mask(0))
  }

  /** One call of the window test; the length test lets the distance 32 through to the probe. */
  function Check(w: Window, ssn: Ssn, rplwdo: nat, shift32: Bits): Outcome {
    var diff := SignedDifference(w.rxSsn, ssn);
    if diff >= 0 then
      if diff > WINDOW_BITS then Outcome(w, false)
      else if Overlap(w.bits, Probe(diff, shift32)) then Outcome(w, false)
      else Outcome(Window(w.rxSsn, Or(w.bits, Probe(diff, shift32))), true)
    else if -diff <= rplwdo then Outcome(Window(ssn, Advance(w.bits, -diff)), true)
    else Outcome(w, false)
  }

  /** The window written by a synchronisation. */
  function Synchronised(ssn: Ssn): Window {
    Window(ssn, Mask(0))
  }

  // ----- the ideal window

  /** The window stands for exactly the numbers in `seen`. */
  ghost predicate Represents(w: Window, seen: set<nat>) {
    && w.rxSsn in seen
    && (forall s | s in seen :: s <= w.rxSsn)
    && forall k: nat | k < WINDOW_BITS :: w.bits[k] <==> (k <= w.rxSsn && w.rxSsn - k in seen)
  }

  /** Unseen, and either less than 32 behind the newest number or at most `rplwdo` ahead. */
  predicate Admissible(newest: nat, seen: set<nat>, ssn: nat, rplwdo: nat) {
    ssn !in seen && newest < ssn + WINDOW_BITS && ssn <= newest + rplwdo
  }

  // ----- the window refines the set

  lemma DifferenceIsExact(a: Ssn, b: Ssn)
    ensures SignedDifference(a, b) == a - b
  {
  }

  /** Right after a synchronisation only the synchronised number counts as accepted. */
  lemma SynchronisedRepresents(ssn: Ssn)
    ensures Represents(Synchronised(ssn), {ssn})
  {
  }

  /**
   At every distance but exactly 32 behind, the code decides as the ideal window does, and
   the new window stands for the new set.
   */
  lemma CheckRefinesSet(w: Window, seen: set<nat>, ssn: Ssn, rplwdo: nat, shift32: Bits)
    requires Represents(w, seen)
    requires w.rxSsn != ssn + WINDOW_BITS
    ensures
      var out := Check(w, ssn, rplwdo, shift32);
      && (out.accepted <==> Admissible(w.rxSsn, seen, ssn, rplwdo))
      && (if out.accepted then Represents(out.window, seen + {ssn}) else out.window == w)
      && w.rxSsn <= out.window.rxSsn
  {
    DifferenceIsExact(w.rxSsn, ssn);
    var out := Check(w, ssn, rplwdo, shift32);
    if ssn <= w.rxSsn < ssn + WINDOW_BITS {
      var diff := w.rxSsn - ssn;
      assert w.bits[diff] <==> ssn in seen;
      assert Mask(diff)[diff];
    }
  }

  /** Bit 0 is always set, so an odd `1 << 32` makes the code turn the distance 32 away. */
  lemma DistanceThirtyTwo(w: Window, seen: set<nat>, ssn: Ssn, rplwdo: nat, shift32: Bits)
    requires Represents(w, seen)
    requires w.rxSsn == ssn + WINDOW_BITS
    ensures Check(w, ssn, rplwdo, shift32).accepted <==> !Overlap(w.bits, shift32)
    ensures shift32[0] ==> Check(w, ssn, rplwdo, shift32) == Outcome(w, false)
  {
    DifferenceIsExact(w.rxSsn, ssn);
    assert w.bits[0];
  }

  // ----- runs of one client between two synchronisations

  datatype Arrival = Arrival(ssn: Ssn, rplwdo: nat)

  /** The verdict on every arrival, the replay window setting being free at each of them. */
  function Verdicts(w: Window, run: seq<Arrival>, shift32: Bits): (v: seq<bool>)
    ensures |v| == |run|
    decreases |run|
  {
    if run == [] then []
    else
      var out := Check(w, run[0].ssn, run[0].rplwdo, shift32);
      [out.accepted] + Verdicts(out.window, run[1..], shift32)
  }

  /** What the unbounded set of accepted numbers would have answered. */
  function IdealVerdicts(newest: nat, seen: set<nat>, run: seq<Arrival>): (v: seq<bool>)
    ensures |v| == |run|
    decreases |run|
  {
    if run == [] then []
    else if Admissible(newest, seen, run[0].ssn, run[0].rplwdo) then
      [true] + IdealVerdicts(if newest < run[0].ssn then run[0].ssn else newest, seen + {run[0].ssn}, run[1..])
    else [false] + IdealVerdicts(newest, seen, run[1..])
  }

  /** No arrival is exactly 32 behind the newest number, so that the undefined shift is never met. */
  predicate Avoids(w: Window, run: seq<Arrival>, shift32: Bits)
    decreases |run|
  {
    run == [] ||
    (w.rxSsn != run[0].ssn + WINDOW_BITS
        && Avoids(Check(w, run[0].ssn, run[0].rplwdo, shift32).window, run[1..], shift32))
  }

  /** The window test where C defines it, or with an odd `1 << 32`. */
  lemma WindowStep(w: Window, seen: set<nat>, ssn: Ssn, rplwdo: nat, shift32: Bits)
    requires Represents(w, seen)
    requires shift32[0] || w.rxSsn != ssn + WINDOW_BITS
    ensures
      var out := Check(w, ssn, rplwdo, shift32);
      && (out.accepted <==> Admissible(w.rxSsn, seen, ssn, rplwdo))
      && Represents(out.window, if out.accepted then seen + {ssn} else seen)
      && (!out.accepted ==> out.window == w)
  {
    if w.rxSsn == ssn + WINDOW_BITS {
      DistanceThirtyTwo(w, seen, ssn, rplwdo, shift32);
    } else {
      CheckRefinesSet(w, seen, ssn, rplwdo, shift32);
    }
  }

  /**
   Where C defines the shift, or with an odd `1 << 32`, 32 bits answer every run exactly as the unbounded set
   would.
   */
  lemma {:induction false} WindowAnswersAsIdealSet(w: Window, seen: set<nat>, run: seq<Arrival>, shift32: Bits)
    requires Represents(w, seen)
    requires shift32[0] || Avoids(w, run, shift32)
    ensures Verdicts(w, run, shift32) == IdealVerdicts(w.rxSsn, seen, run)
    decreases |run|
  {
    if run != [] {
      var a := run[0];
      var out := Check(w, a.ssn, a.rplwdo, shift32);
      WindowStep(w, seen, a.ssn, a.rplwdo, shift32);
      hide Check, Admissible;
      var seen' := if out.accepted then seen + {a.ssn} else seen;
      assert out.window.rxSsn == if out.accepted && w.rxSsn < a.ssn then a.ssn else w.rxSsn by {
        assert out.window.rxSsn in seen' && w.rxSsn in seen';
      }
      WindowAnswersAsIdealSet(out.window, seen', run[1..], shift32);
    }
  }

  /** No number is accepted twice, and the one synchronised on is never accepted again. */
  ghost predicate ReplayFree(start: Ssn, run: seq<Arrival>, shift32: Bits) {
    var v := Verdicts(Synchronised(start), run, shift32);
    && (forall i | 0 <= i < |run| && v[i] :: run[i].ssn != start)
    && forall i, j | 0 <= i < j < |run| && v[i] && v[j] :: run[i].ssn != run[j].ssn
  }

  ghost predicate ReplayFreeOnEveryRun(shift32: Bits) {
    forall start: Ssn, run: seq<Arrival> :: ReplayFree(start, run, shift32)
  }

  /** From a window standing for `seen`, whatever a run accepts is new, and new only once. */
  lemma {:induction false} RunAcceptsOnlyNew(w: Window, seen: set<nat>, run: seq<Arrival>, shift32: Bits)
    requires Represents(w, seen)
    requires shift32[0] || Avoids(w, run, shift32)
    ensures
      var v := Verdicts(w, run, shift32);
      && (forall i | 0 <= i < |run| && v[i] :: run[i].ssn !in seen)
      && forall i, j | 0 <= i < j < |run| && v[i] && v[j] :: run[i].ssn != run[j].ssn
    decreases |run|
  {
    if run != [] {
      var a, rest := run[0], run[1..];
      var out := Check(w, a.ssn, a.rplwdo, shift32);
      WindowStep(w, seen, a.ssn, a.rplwdo, shift32);
      var seen' := if out.accepted then seen + {a.ssn} else seen;
      RunAcceptsOnlyNew(out.window, seen', rest, shift32);
      var v, v' := Verdicts(w, run, shift32), Verdicts(out.window, rest, shift32);
      assert v == [out.accepted] + v';
      hide Verdicts, Represents, Check;
      forall i | 0 < i < |run| && v[i]
        ensures run[i].ssn !in seen'
      {
        assert rest[i - 1] == run[i] && v'[i - 1] == v[i];
      }
      forall i, j | 0 < i < j < |run| && v[i] && v[j]
        ensures run[i].ssn != run[j].ssn
      {
        assert rest[i - 1] == run[i] && rest[j - 1] == run[j] && v'[i - 1] == v[i] && v'[j - 1] == v[j];
      }
    }
  }

  /** When `1 << 32` comes out even, 0 is accepted again after 32 has arrived. */
  lemma EvenShiftReplays(shift32: Bits)
    requires !shift32[0]
    ensures !ReplayFree(0, [Arrival(32, 32), Arrival(0, 32)], shift32)
  {
    var run := [Arrival(32, 32), Arrival(0, 32)];
    var w1 := Check(Synchronised(0), 32, 32, shift32);
    assert w1 == Outcome(Window(32, Mask(0)), true);
    var w2 := Check(w1.window, 0, 32, shift32);
    assert w2.accepted;
    assert run[1..] == [Arrival(0, 32)];
    var v1 := Verdicts(w1.window, run[1..], shift32);
    assert v1[0];
    assert Verdicts(Synchronised(0), run, shift32)[1] == v1[0];
  }

  /**
   Over every run, with any replay window setting at each call, nothing is replayed if and only if
   the platform's value of the undefined `1 << 32` is odd (as with a shift count taken modulo 32).
   */
  lemma ReplayFreeIffOddShift(shift32: Bits)
    ensures ReplayFreeOnEveryRun(shift32) <==> shift32[0]
  {
    if shift32[0] {
      forall start: Ssn, run: seq<Arrival>
        ensures ReplayFree(start, run, shift32)
      {
        SynchronisedRepresents(start);
        RunAcceptsOnlyNew(Synchronised(start), {start}, run, shift32);
      }
    } else {
      EvenShiftReplays(shift32);
    }
  }

  /** Whatever the platform makes of the shift: a run that never meets it is free of replays. */
  lemma AvoidingRunIsReplayFree(start: Ssn, run: seq<Arrival>, shift32: Bits)
    requires Avoids(Synchronised(start), run, shift32)
    ensures ReplayFree(start, run, shift32)
  {
    SynchronisedRepresents(start);
    RunAcceptsOnlyNew(Synchronised(start), {start}, run, shift32);
  }
}
