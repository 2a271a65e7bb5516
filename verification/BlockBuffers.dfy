/**
 The life of the block-wise buffers in `oc_blockwise.c` against the timers of `oc_ri.c`: buffers are
 allocated from a pool, listed, given a timeout, and freed by their user, by a scrub or by the timeout.
 */
module BlockBuffers {
  import opened Options

  type Address = nat

  datatype Kind = Requests | Responses

  /** What a timer calls: the timeout of a buffer, or something that leaves the buffers alone. */
  datatype Callback = Timeout(kind: Kind, buffer: Address) | Other(id: nat)

  /** An entry of `timed_callbacks`; `cell` is its own address. */
  datatype Timer = Timer(cell: Address, callback: Callback)

  datatype Info = Info(refCount: nat, clientCb: nat)

  /** One list of buffers, and the memory its pool has handed out. */
  datatype Side = Side(list: seq<Address>, pool: set<Address>)

  datatype State = State(requests: Side, responses: Side, infos: map<Address, Info>, timers: seq<Timer>) {
    function Of(kind: Kind): Side {
      if kind.Requests? then requests else responses
    }

    function With(kind: Kind, side: Side): (r: State)
      ensures r.Of(kind) == side && forall other: Kind | other != kind :: r.Of(other) == Of(other)
      ensures r.infos == infos && r.timers == timers
    {
      if kind.Requests? then this.(requests := side) else this.(responses := side)
    }
  }

  const EMPTY := State(Side([], {}), Side([], {}), map[], [])

  // --- Lists ---

  ghost predicate Distinct<T(!new)>(s: seq<T>) {
    forall i, j | 0 <= i < j < |s| :: s[i] != s[j]
  }

  /** `oc_list_remove`: the first `x`, if any, is unlinked. */
  function Without<T(==)>(s: seq<T>, x: T): seq<T> {
    if s == [] then [] else if s[0] == x then s[1..] else [s[0]] + Without(s[1..], x)
  }

  lemma {:induction false} WithoutOne<T(!new)>(before: seq<T>, x: T, after: seq<T>)
    requires x !in before
    ensures Without(before + [x] + after, x) == before + after
  {
    if before == [] {
      assert [] + [x] + after == [x] + after && ([] + after == after);
    } else {
      WithoutOne(before[1..], x, after);
      assert (before + [x] + after)[1..] == before[1..] + [x] + after;
      assert before + after == [before[0]] + (before[1..] + after);
    }
  }

  lemma {:induction false} DistinctSplit<T(!new)>(s: seq<T>, x: T) returns (before: seq<T>, after: seq<T>)
    requires Distinct(s) && x in s
    ensures s == before + [x] + after && x !in before && x !in after && Distinct(before + after)
  {
    var i :| 0 <= i < |s| && s[i] == x;
    before, after := s[..i], s[i + 1..];
    assert forall k | 0 <= k < |before + after| :: (before + after)[k] == s[if k < i then k else k + 1];
  }

  // --- Timers ---

  /** Cells are distinct, and so are the buffers whose timeouts are pending. */
  ghost predicate Apart(ts: seq<Timer>) {
    forall i, j | 0 <= i < j < |ts| ::
        ts[i].cell != ts[j].cell && (ts[i].callback.Timeout? ==> ts[i].callback != ts[j].callback)
  }

  /** `oc_ri_remove_timed_event_callback`: only the first timer that calls `callback` goes. */
  function WithoutTimer(ts: seq<Timer>, callback: Callback): seq<Timer> {
    if ts == [] then [] else if ts[0].callback == callback then ts[1..] else [ts[0]] + WithoutTimer(ts[1..], callback)
  }

  lemma ApartCons(t: Timer, ts: seq<Timer>)
    requires Apart(ts)
    requires forall u | u in ts :: u.cell != t.cell && (t.callback.Timeout? ==> u.callback != t.callback)
    ensures Apart([t] + ts)
  {}

  lemma ApartTail(ts: seq<Timer>)
    requires Apart(ts) && ts != []
    ensures Apart(ts[1..])
    ensures forall u | u in ts[1..] ::
        u.cell != ts[0].cell && (ts[0].callback.Timeout? ==> u.callback != ts[0].callback)
  {
    forall u | u in ts[1..] ensures u.cell != ts[0].cell && (ts[0].callback.Timeout? ==> u.callback != ts[0].callback) {
      var j :| 0 <= j < |ts| - 1 && ts[1..][j] == u;
      assert ts[j + 1] == u;
    }
  }

  /** With at most one timer per buffer, removing the first one removes every one. */
  lemma {:induction false} RemovesEvery(ts: seq<Timer>, callback: Callback)
    requires Apart(ts) && callback.Timeout?
    ensures Apart(WithoutTimer(ts, callback))
    ensures forall t :: t in WithoutTimer(ts, callback) <==> t in ts && t.callback != callback
  {
    hide Apart;
    if ts != [] {
      ApartTail(ts);
      RemovesEvery(ts[1..], callback);
      if ts[0].callback != callback {
        ApartCons(ts[0], WithoutTimer(ts[1..], callback));
      }
    }
  }

  /** `oc_list_remove` on the timers: cells are distinct, so exactly that timer goes. */
  lemma {:induction false} UnlinksOne(ts: seq<Timer>, x: Timer)
    requires Apart(ts)
    ensures Apart(Without(ts, x))
    ensures forall t :: t in Without(ts, x) <==> t in ts && t != x
  {
    hide Apart;
    if ts != [] {
      ApartTail(ts);
      UnlinksOne(ts[1..], x);
      if ts[0] != x {
        ApartCons(ts[0], Without(ts[1..], x));
      }
    }
  }

  // --- What every run keeps ---

  /**
   Every buffer is in exactly one list, once; memory is out for the listed buffers and no others;
   a buffer has at most one timeout pending, and no timeout is pending for a buffer not listed.
   */
  ghost predicate Sound(s: State) {
    && SoundSide(s, Requests) && SoundSide(s, Responses)
    && s.requests.pool !! s.responses.pool
    && s.infos.Keys == s.requests.pool + s.responses.pool
    && Apart(s.timers)
    && forall t | t in s.timers && t.callback.Timeout? :: t.callback.buffer in s.Of(t.callback.kind).pool
  }

  ghost predicate SoundSide(s: State, kind: Kind) {
    Distinct(s.Of(kind).list) && forall b :: b in s.Of(kind).pool <==> b in s.Of(kind).list
  }

  /** The pool has handed out exactly as many blocks as the list is long. */
  lemma {:induction false} UsageIsLength(list: seq<Address>, pool: set<Address>)
    requires Distinct(list) && forall b :: b in pool <==> b in list
    ensures |pool| == |list|
  {
    if list == [] {
      assert pool == {};
    } else {
      assert forall b | b in list[1..] :: b != list[0];
      UsageIsLength(list[1..], pool - {list[0]});
    }
  }

  // --- Allocating and freeing ---

  /** `oc_blockwise_free_buffer`: unlinked from its list and returned to its pool. */
  function Released(s: State, kind: Kind, b: Address): State {
    s.With(kind, Side(Without(s.Of(kind).list, b), s.Of(kind).pool - {b})).(infos := s.infos - {b})
  }

  /** `oc_blockwise_free_request_buffer` and its twin: the timer first, then the buffer. */
  function Freed(s: State, kind: Kind, b: Address): State {
    Released(s.(timers := WithoutTimer(s.timers, Timeout(kind, b))), kind, b)
  }

  /** `oc_blockwise_alloc_request_buffer` and its twin, once there is memory and an href. */
  function Added(s: State, kind: Kind, b: Address, cell: Option<Address>): State {
    s.With(kind, Side(s.Of(kind).list + [b], s.Of(kind).pool + {b}))
    .(infos := s.infos[b := Info(1, 0)],
      timers := s.timers + if cell.Some? then [Timer(cell.value, Timeout(kind, b))] else [])
  }

  lemma AddKeepsSound(s: State, kind: Kind, b: Address, cell: Option<Address>)
    requires Sound(s) && b !in s.requests.pool + s.responses.pool
    requires cell.Some? ==> forall t | t in s.timers :: t.cell != cell.value
    ensures Sound(Added(s, kind, b, cell))
  {
    var r := Added(s, kind, b, cell);
    assert forall other: Kind | other != kind :: SoundSide(r, other)
        by { assert SoundSide(s, Requests) && SoundSide(s, Responses); }
    assert b !in s.Of(kind).list;
    assert SoundSide(r, kind);
    assert forall t | t in s.timers && t.callback.Timeout? :: t.callback != Timeout(kind, b);
    assert Apart(r.timers);
    assert r.infos.Keys == s.infos.Keys + {b};
    assert r.requests.pool + r.responses.pool == s.requests.pool + s.responses.pool + {b};
    assert Requests != kind ==> SoundSide(r, Requests);
  }

  /** Unlinking a listed buffer leaves a list of distinct buffers without it. */
  lemma UnlinksBuffer(list: seq<Address>, b: Address)
    requires Distinct(list) && b in list
    ensures Distinct(Without(list, b)) && forall x :: x in Without(list, b) <==> x in list && x != b
  {
    var before, after := DistinctSplit(list, b);
    WithoutOne(before, b, after);
  }

  /** A freed buffer is in no list and out of its pool, and no timeout for it is left. */
  lemma FreeKeepsSound(s: State, kind: Kind, b: Address)
    requires Sound(s) && b in s.Of(kind).list
    ensures Sound(Freed(s, kind, b))
    ensures b !in Freed(s, kind, b).Of(kind).list
    ensures forall t :: t in Freed(s, kind, b).timers <==> t in s.timers && t.callback != Timeout(kind, b)
    ensures Freed(s, kind, b).infos == s.infos - {b}
  {
    hide Distinct, Apart;
    RemovesEvery(s.timers, Timeout(kind, b));
    UnlinksBuffer(s.Of(kind).list, b);
    hide Without, WithoutTimer;
    var r := Freed(s, kind, b);
    assert SoundSide(r, Requests) && SoundSide(r, Responses);
    assert r.infos.Keys == s.infos.Keys - {b};
    assert r.requests.pool + r.responses.pool == s.requests.pool + s.responses.pool - {b};
  }

  // --- Scrubbing ---

  /** Which buffers a scrub drops: the unreferenced ones (or all), or those of one client callback. */
  datatype Scrub = Unused(all: bool) | OfClient(cb: nat)

  predicate Dropped(scrub: Scrub, infos: map<Address, Info>, b: Address) {
    b in infos && match scrub
                  case Unused(all) => infos[b].refCount == 0 || all
                  case OfClient(cb) => infos[b].clientCb == cb
  }

  /** The walk over one list. */
  function ScrubWalk(s: State, kind: Kind, rest: seq<Address>, scrub: Scrub): State
    decreases |rest|
  {
    if rest == [] then s
    else ScrubWalk(if Dropped(scrub, s.infos, rest[0]) then Freed(s, kind, rest[0]) else s, kind, rest[1..], scrub)
  }

  /** `oc_blockwise_scrub_buffers` and `oc_blockwise_scrub_buffers_for_client_cb` */
  function Scrubbed(s: State, scrub: Scrub): State {
    var r := ScrubWalk(s, Requests, s.requests.list, scrub);
    ScrubWalk(r, Responses, r.responses.list, scrub)
  }

  function Survivors(list: seq<Address>, scrub: Scrub, infos: map<Address, Info>): (r: seq<Address>)
    ensures forall b :: b in r <==> b in list && !Dropped(scrub, infos, b)
  {
    if list == [] then []
    else (if Dropped(scrub, infos, list[0]) then [] else [list[0]]) + Survivors(list[1..], scrub, infos)
  }

  lemma {:induction false} SurvivorsSame(list: seq<Address>, scrub: Scrub, infos: map<Address, Info>,
                                         fewer: map<Address, Info>)
    requires forall b | b in list :: Dropped(scrub, infos, b) == Dropped(scrub, fewer, b)
    ensures Survivors(list, scrub, infos) == Survivors(list, scrub, fewer)
  {
    if list != [] {
      SurvivorsSame(list[1..], scrub, infos, fewer);
    }
  }

  /** What a walk over `rest` owes: the dropped buffers are gone with their timeouts, all else stays. */
  ghost predicate Dropping(s: State, kind: Kind, done: seq<Address>, rest: seq<Address>, scrub: Scrub, r: State) {
    && Sound(r)
    && r.Of(kind).list == done + Survivors(rest, scrub, s.infos)
    && OthersKept(s, kind, r)
    && TimersLeft(s, kind, rest, scrub, r)
  }

  ghost predicate TimersLeft(s: State, kind: Kind, rest: seq<Address>, scrub: Scrub, r: State) {
    forall t :: t in r.timers <==> t in s.timers && !Doomed(kind, rest, scrub, s.infos, t)
  }

  ghost predicate OthersKept(s: State, kind: Kind, r: State) {
    && (forall other: Kind | other != kind :: r.Of(other) == s.Of(other))
    && (forall b | b in r.infos :: b in s.infos && r.infos[b] == s.infos[b])
  }

  predicate Doomed(kind: Kind, rest: seq<Address>, scrub: Scrub, infos: map<Address, Info>, t: Timer) {
    t.callback.Timeout? && t.callback.kind == kind && t.callback.buffer in rest
        && Dropped(scrub, infos, t.callback.buffer)
  }

  lemma {:induction false} ScrubWalkDrops(s: State, kind: Kind, done: seq<Address>, rest: seq<Address>, scrub: Scrub)
    requires Sound(s) && s.Of(kind).list == done + rest
    ensures Dropping(s, kind, done, rest, scrub, ScrubWalk(s, kind, rest, scrub))
    decreases |rest|
  {
    if rest == [] {
      assert done + [] == done;
    } else if Dropped(scrub, s.infos, rest[0]) {
      var next := Freed(s, kind, rest[0]);
      FreesOne(s, kind, done, rest);
      ScrubWalkDrops(next, kind, done, rest[1..], scrub);
      DroppingOne(s, kind, done, rest, scrub, ScrubWalk(next, kind, rest[1..], scrub));
    } else {
      assert done + [rest[0]] + rest[1..] == done + rest;
      ScrubWalkDrops(s, kind, done + [rest[0]], rest[1..], scrub);
      KeepingOne(s, kind, done, rest, scrub, ScrubWalk(s, kind, rest[1..], scrub));
    }
  }

  lemma FreesOne(s: State, kind: Kind, done: seq<Address>, rest: seq<Address>)
    requires Sound(s) && s.Of(kind).list == done + rest && rest != []
    ensures rest[0] !in done && rest[0] !in rest[1..]
    ensures Sound(Freed(s, kind, rest[0])) && Freed(s, kind, rest[0]).Of(kind).list == done + rest[1..]
  {
    var b, list := rest[0], s.Of(kind).list;
    assert SoundSide(s, kind);
    assert forall i | 0 <= i < |done| :: list[i] == done[i] && list[|done|] == b;
    assert forall i | 0 <= i < |rest| - 1 :: list[|done| + 1 + i] == rest[1..][i];
    assert list == done + [b] + rest[1..];
    WithoutOne(done, b, rest[1..]);
    FreeKeepsSound(s, kind, b);
  }

  lemma DroppingOne(s: State, kind: Kind, done: seq<Address>, rest: seq<Address>, scrub: Scrub, r: State)
    requires Sound(s) && s.Of(kind).list == done + rest && rest != [] && Dropped(scrub, s.infos, rest[0])
    requires Dropping(Freed(s, kind, rest[0]), kind, done, rest[1..], scrub, r)
    ensures Dropping(s, kind, done, rest, scrub, r)
  {
    hide Sound, Distinct, SoundSide;
    var b := rest[0];
    var next := Freed(s, kind, b);
    FreesOne(s, kind, done, rest);
    assert b in s.Of(kind).list;
    FreeKeepsSound(s, kind, b);
    assert forall other: Kind | other != kind :: next.Of(other) == s.Of(other);
    hide Freed;
    DoomedLater(kind, rest, scrub, s.infos, next.infos);
    hide Dropped, Doomed;
  }

  /** Forgetting the freed head changes nothing for the buffers still to be visited. */
  lemma DoomedLater(kind: Kind, rest: seq<Address>, scrub: Scrub, infos: map<Address, Info>, fewer: map<Address, Info>)
    requires rest != [] && rest[0] !in rest[1..] && Dropped(scrub, infos, rest[0]) && fewer == infos - {rest[0]}
    ensures Survivors(rest, scrub, infos) == Survivors(rest[1..], scrub, fewer)
    ensures forall t :: Doomed(kind, rest, scrub, infos, t)
                        <==> t.callback == Timeout(kind, rest[0]) || Doomed(kind, rest[1..], scrub, fewer, t)
  {
    assert forall b | b in rest[1..] :: Dropped(scrub, infos, b) == Dropped(scrub, fewer, b);
    SurvivorsSame(rest[1..], scrub, infos, fewer);
    assert forall b :: b in rest <==> b == rest[0] || b in rest[1..];
  }

  lemma KeepingOne(s: State, kind: Kind, done: seq<Address>, rest: seq<Address>, scrub: Scrub, r: State)
    requires rest != [] && !Dropped(scrub, s.infos, rest[0])
    requires Dropping(s, kind, done + [rest[0]], rest[1..], scrub, r)
    ensures Dropping(s, kind, done, rest, scrub, r)
  {
    hide Sound, Survivors, OthersKept, TimersLeft;
    ListKept(done, rest, scrub, s.infos);
    TimersKept(s, kind, rest, scrub, r);
  }

  lemma ListKept(done: seq<Address>, rest: seq<Address>, scrub: Scrub, infos: map<Address, Info>)
    requires rest != [] && !Dropped(scrub, infos, rest[0])
    ensures done + [rest[0]] + Survivors(rest[1..], scrub, infos) == done + Survivors(rest, scrub, infos)
  {
    SurvivorKept(rest, scrub, infos);
    hide Survivors;
  }

  lemma TimersKept(s: State, kind: Kind, rest: seq<Address>, scrub: Scrub, r: State)
    requires rest != [] && !Dropped(scrub, s.infos, rest[0])
    requires TimersLeft(s, kind, rest[1..], scrub, r)
    ensures TimersLeft(s, kind, rest, scrub, r)
  {
    DoomedKept(kind, rest, scrub, s.infos);
    hide Doomed;
  }

  lemma SurvivorKept(rest: seq<Address>, scrub: Scrub, infos: map<Address, Info>)
    requires rest != [] && !Dropped(scrub, infos, rest[0])
    ensures Survivors(rest, scrub, infos) == [rest[0]] + Survivors(rest[1..], scrub, infos)
  {
  }

  lemma DoomedKept(kind: Kind, rest: seq<Address>, scrub: Scrub, infos: map<Address, Info>)
    requires rest != [] && !Dropped(scrub, infos, rest[0])
    ensures forall t :: Doomed(kind, rest, scrub, infos, t) == Doomed(kind, rest[1..], scrub, infos, t)
  {
    hide Dropped;
    assert forall b :: b in rest <==> b == rest[0] || b in rest[1..];
  }

  /**
   A scrub leaves exactly the buffers it does not drop, in order and unchanged, with exactly the
   timers that are not timeouts of a dropped buffer.
   */
  lemma ScrubLeavesSurvivors(s: State, scrub: Scrub)
    requires Sound(s)
    ensures var r := Scrubbed(s, scrub);
            && Sound(r)
            && (forall kind: Kind :: r.Of(kind).list == Survivors(s.Of(kind).list, scrub, s.infos))
            && (forall b | b in r.infos :: b in s.infos && r.infos[b] == s.infos[b])
            && (forall t :: t in r.timers <==>
                  t in s.timers && !(t.callback.Timeout? && Dropped(scrub, s.infos, t.callback.buffer)))
  {
    hide Sound, ScrubWalk, Dropped, Doomed, Survivors;
    var first := ScrubWalk(s, Requests, s.requests.list, scrub);
    var second := ScrubWalk(first, Responses, first.responses.list, scrub);
    NothingDone(s.requests.list);
    NothingDone(s.responses.list);
    ScrubWalkDrops(s, Requests, [], s.requests.list, scrub);
    assert first.Of(Responses) == s.Of(Responses);
    ScrubWalkDrops(first, Responses, [], first.responses.list, scrub);
    ScrubsBoth(s, scrub, first, second);
  }

  lemma NothingDone(list: seq<Address>)
    ensures list == [] + list
  {
  }

  /** Buffers whose information is the same are dropped or kept alike. */
  lemma SameInfos(list: seq<Address>, scrub: Scrub, infos: map<Address, Info>, fewer: map<Address, Info>)
    requires forall b | b in list :: b in infos && b in fewer && fewer[b] == infos[b]
    ensures Survivors(list, scrub, infos) == Survivors(list, scrub, fewer)
    ensures forall b | b in list :: Dropped(scrub, infos, b) == Dropped(scrub, fewer, b)
  {
    SurvivorsSame(list, scrub, infos, fewer);
  }

  /** What soundness says of buffers in the lists and of timeouts. */
  lemma ListedOnce(s: State)
    requires Sound(s)
    ensures forall b | b in s.responses.list :: b in s.infos && b !in s.requests.list
    ensures forall t | t in s.timers && t.callback.Timeout? :: t.callback.buffer in s.Of(t.callback.kind).list
  {
    hide Distinct, Apart;
    assert SoundSide(s, Requests) && SoundSide(s, Responses);
  }

  lemma ScrubsBoth(s: State, scrub: Scrub, first: State, second: State)
    requires Sound(s)
    requires Dropping(s, Requests, [], s.requests.list, scrub, first)
    requires Dropping(first, Responses, [], first.responses.list, scrub, second)
    ensures forall kind: Kind :: second.Of(kind).list == Survivors(s.Of(kind).list, scrub, s.infos)
    ensures forall b | b in second.infos :: b in s.infos && second.infos[b] == s.infos[b]
    ensures forall t :: t in second.timers <==>
              t in s.timers && !(t.callback.Timeout? && Dropped(scrub, s.infos, t.callback.buffer))
  {
    ListedOnce(s);
    ListedOnce(first);
    hide Sound, Survivors, Dropped;
    assert first.Of(Responses) == s.Of(Responses) && second.Of(Requests) == first.Of(Requests);
    SameInfos(s.responses.list, scrub, s.infos, first.infos);
    forall t
      ensures t in second.timers <==>
                t in s.timers && !(t.callback.Timeout? && Dropped(scrub, s.infos, t.callback.buffer))
    {
      assert t in first.timers <==> t in s.timers && !Doomed(Requests, s.requests.list, scrub, s.infos, t);
      assert t in second.timers <==> t in first.timers && !Doomed(Responses, s.responses.list, scrub, first.infos, t);
    }
  }

  // --- Timeouts ---

  /**
   `poll_event_callback_timers` fires the timer at `i`: the callback runs while its timer is still
   listed, and then the timer is unlinked.
   */
  function Fired(s: State, i: nat): State
    requires i < |s.timers|
  {
    var t := s.timers[i];
    var r := if t.callback.Timeout? then Released(s, t.callback.kind, t.callback.buffer) else s;
    r.(timers := Without(r.timers, t))
  }

  lemma {:induction false} UnlinksItsTimer(ts: seq<Timer>, t: Timer)
    requires Apart(ts) && t in ts && t.callback.Timeout?
    ensures Without(ts, t) == WithoutTimer(ts, t.callback)
  {
    if ts[0] != t {
      assert exists j | 0 < j < |ts| :: ts[j] == t;
      UnlinksItsTimer(ts[1..], t);
    }
  }

  /** A timeout that fires does exactly what freeing the buffer by hand does. */
  lemma TimeoutIsFree(s: State, i: nat)
    requires Sound(s) && i < |s.timers| && s.timers[i].callback.Timeout?
    ensures Fired(s, i) == Freed(s, s.timers[i].callback.kind, s.timers[i].callback.buffer)
    ensures s.timers[i].callback.buffer in s.Of(s.timers[i].callback.kind).list
  {
    UnlinksItsTimer(s.timers, s.timers[i]);
    assert SoundSide(s, s.timers[i].callback.kind);
  }

  function FirstExpired(ts: seq<Timer>, expired: set<Address>): (i: nat)
    ensures i <= |ts|
    ensures i < |ts| ==> ts[i].cell in expired
    ensures forall j | 0 <= j < i :: ts[j].cell !in expired
  {
    if ts == [] || ts[0].cell in expired then 0 else 1 + FirstExpired(ts[1..], expired)
  }

  /** Whether a timer that fires is restarted: its callback says so. Timeouts never do. */
  predicate Restarts(t: Timer, again: set<nat>) {
    t.callback.Other? && t.callback.id in again
  }

  /**
   The whole poll. `expired` are the cells whose timers have run out; a restarted timer has not.
   After each timer that fires, the walk starts at the head again.
   */
  function Polled(s: State, expired: set<Address>, again: set<nat>): State
    decreases |expired|
  {
    var i := FirstExpired(s.timers, expired);
    if i == |s.timers| then s
    else
      var t := s.timers[i];
      Polled(if Restarts(t, again) then s else Fired(s, i), expired - {t.cell}, again)
  }

  predicate Ends(t: Timer, expired: set<Address>, again: set<nat>) {
    t.cell in expired && !Restarts(t, again)
  }

  ghost predicate TimedOut(ts: seq<Timer>, expired: set<Address>, kind: Kind, b: Address) {
    exists t | t in ts :: t.callback == Timeout(kind, b) && t.cell in expired
  }

  /**
   After a poll exactly the expired timers that are not restarted are gone, and exactly the buffers
   whose timeout expired are freed.
   */
  lemma {:induction false} PollFreesExpired(s: State, expired: set<Address>, again: set<nat>)
    requires Sound(s)
    ensures var r := Polled(s, expired, again);
            && Sound(r)
            && (forall t :: t in r.timers <==> t in s.timers && !Ends(t, expired, again))
            && (forall kind: Kind, b :: b in r.Of(kind).pool <==>
                  b in s.Of(kind).pool && !TimedOut(s.timers, expired, kind, b))
    decreases |expired|
  {
    var i := FirstExpired(s.timers, expired);
    if i < |s.timers| {
      var t := s.timers[i];
      var next := if Restarts(t, again) then s else Fired(s, i);
      FiresOne(s, i, again);
      PollFreesExpired(next, expired - {t.cell}, again);
      PollsOn(s, i, expired, again, next, Polled(next, expired - {t.cell}, again));
    }
  }

  lemma FiresOne(s: State, i: nat, again: set<nat>)
    requires Sound(s) && i < |s.timers|
    ensures var t, next := s.timers[i], if Restarts(s.timers[i], again) then s else Fired(s, i);
            && Sound(next)
            && (forall u :: u in next.timers <==> u in s.timers && (u != t || Restarts(t, again)))
            && (forall kind: Kind, b :: b in next.Of(kind).pool <==>
                  b in s.Of(kind).pool && t.callback != Timeout(kind, b))
  {
    if s.timers[i].callback.Timeout? { FiresTimeout(s, i); } else { FiresOther(s, i); }
    hide Fired, Sound;
  }

  lemma FiresTimeout(s: State, i: nat)
    requires Sound(s) && i < |s.timers| && s.timers[i].callback.Timeout?
    ensures var t, next := s.timers[i], Fired(s, i);
            && Sound(next)
            && (forall u :: u in next.timers <==> u in s.timers && u != t)
            && (forall kind: Kind, b :: b in next.Of(kind).pool <==>
                  b in s.Of(kind).pool && t.callback != Timeout(kind, b))
  {
    var t := s.timers[i];
    OneTimeout(s.timers, i);
    TimeoutIsFree(s, i);
    hide Sound, Distinct, Apart, SoundSide, Fired, WithoutTimer, Without;
    FreeKeepsSound(s, t.callback.kind, t.callback.buffer);
  }

  lemma OneTimeout(ts: seq<Timer>, i: nat)
    requires Apart(ts) && i < |ts| && ts[i].callback.Timeout?
    ensures forall u | u in ts && u.callback == ts[i].callback :: u == ts[i]
  {
  }

  lemma FiresOther(s: State, i: nat)
    requires Sound(s) && i < |s.timers| && !s.timers[i].callback.Timeout?
    ensures var t, next := s.timers[i], Fired(s, i);
            && Sound(next)
            && (forall u :: u in next.timers <==> u in s.timers && u != t)
            && (forall kind: Kind :: next.Of(kind) == s.Of(kind))
  {
    UnlinksOne(s.timers, s.timers[i]);
    hide Distinct, Apart, Without;
    var next := Fired(s, i);
    assert SoundSide(next, Requests) && SoundSide(next, Responses);
  }

  lemma PollsOn(s: State, i: nat, expired: set<Address>, again: set<nat>, next: State, r: State)
    requires i < |s.timers| && s.timers[i].cell in expired && Apart(s.timers)
    requires forall u :: u in next.timers <==> u in s.timers && (u != s.timers[i] || Restarts(s.timers[i], again))
    requires forall kind: Kind, b :: b in next.Of(kind).pool <==>
               b in s.Of(kind).pool && s.timers[i].callback != Timeout(kind, b)
    requires forall t :: t in r.timers <==> t in next.timers && !Ends(t, expired - {s.timers[i].cell}, again)
    requires forall kind: Kind, b :: b in r.Of(kind).pool <==>
               b in next.Of(kind).pool && !TimedOut(next.timers, expired - {s.timers[i].cell}, kind, b)
    ensures forall t :: t in r.timers <==> t in s.timers && !Ends(t, expired, again)
    ensures forall kind: Kind, b :: b in r.Of(kind).pool <==>
              b in s.Of(kind).pool && !TimedOut(s.timers, expired, kind, b)
  {
    var t, fewer := s.timers[i], expired - {s.timers[i].cell};
    assert forall u | u in s.timers && u.cell == t.cell :: u == t;
    hide Apart;
    forall kind: Kind, b
      ensures TimedOut(s.timers, expired, kind, b) <==>
                t.callback == Timeout(kind, b) || TimedOut(next.timers, fewer, kind, b)
    {
      if TimedOut(s.timers, expired, kind, b) {
        var u :| u in s.timers && u.callback == Timeout(kind, b) && u.cell in expired;
        assert u != t ==> u in next.timers && u.cell in fewer;
      }
    }
  }

  // --- Runs ---

  /**
   Everything that can happen. Fresh memory and timer cells come from allocators; users free and
   use only buffers they were given and that are still listed.
   */
  datatype Event =
    | Allocate(kind: Kind, hrefLen: nat, memory: Option<Address>, cell: Option<Address>)
    | Use(b: Address, info: Info)
    | Free(kind: Kind, b: Address)
    | ScrubBuffers(scrub: Scrub)
    | Poll(expired: set<Address>, again: set<nat>)
    | Start(id: nat, cell: Option<Address>)
    | Stop(id: nat)

  ghost predicate Unused(s: State, cell: Option<Address>) {
    cell.Some? ==> forall t | t in s.timers :: t.cell != cell.value
  }

  ghost predicate Enabled(s: State, e: Event) {
    match e
    case Allocate(_, _, memory, cell) => (memory.Some? ==> memory.value !in s.requests.pool + s.responses.pool)
        && Unused(s, cell)
    case Use(b, _) => b in s.infos
    case Free(kind, b) => b in s.Of(kind).list
    case Start(_, cell) => Unused(s, cell)
    case _ => true
  }

  function Step(s: State, e: Event): State {
    match e
    case Allocate(kind, hrefLen, memory, cell) =>
      if hrefLen == 0 || memory.None? then s else Added(s, kind, memory.value, cell)
    case Use(b, info) => s.(infos := s.infos[b := info])
    case Free(kind, b) => Freed(s, kind, b)
    case ScrubBuffers(scrub) => Scrubbed(s, scrub)
    case Poll(expired, again) => Polled(s, expired, again)
    case Start(id, cell) => s.(timers := s.timers + if cell.Some? then [Timer(cell.value, Other(id))] else [])
    case Stop(id) => s.(timers := WithoutTimer(s.timers, Other(id)))
  }

  lemma {:induction false} StopsOne(ts: seq<Timer>, id: nat)
    requires Apart(ts)
    ensures Apart(WithoutTimer(ts, Other(id)))
    ensures forall t | t in WithoutTimer(ts, Other(id)) :: t in ts
  {
    hide Apart;
    if ts != [] {
      ApartTail(ts);
      StopsOne(ts[1..], id);
      if ts[0].callback != Other(id) {
        ApartCons(ts[0], WithoutTimer(ts[1..], Other(id)));
      }
    }
  }

  lemma StepKeepsSound(s: State, e: Event)
    requires Sound(s) && Enabled(s, e)
    ensures Sound(Step(s, e))
  {
    hide ScrubWalk, Polled;
    match e
    case Allocate(kind, hrefLen, memory, cell) =>
      if hrefLen != 0 && memory.Some? { AddKeepsSound(s, kind, memory.value, cell); }
    case Use(b, info) =>
      assert SoundSide(Step(s, e), Requests) && SoundSide(Step(s, e), Responses);
      assert s.infos[b := info].Keys == s.infos.Keys;
    case Free(kind, b) => FreeKeepsSound(s, kind, b);
    case ScrubBuffers(scrub) => ScrubLeavesSurvivors(s, scrub);
    case Poll(expired, again) => PollFreesExpired(s, expired, again);
    case Start(_, _) =>
      assert SoundSide(Step(s, e), Requests) && SoundSide(Step(s, e), Responses);
    case Stop(id) =>
      StopsOne(s.timers, id);
      assert SoundSide(Step(s, e), Requests) && SoundSide(Step(s, e), Responses);
  }

  ghost predicate Possible(s: State, events: seq<Event>)
    decreases |events|
  {
    events == [] || (Enabled(s, events[0]) && Possible(Step(s, events[0]), events[1..]))
  }

  ghost function After(s: State, events: seq<Event>): State
    decreases |events|
  {
    if events == [] then s else After(Step(s, events[0]), events[1..])
  }

  /**
   Whatever happens, in any order: a buffer is in one list only and once, pool usage is list length,
   a buffer has at most one pending timeout, and every pending timeout is for a buffer still listed.
   */
  lemma {:induction false} EveryRunIsSound(s: State, events: seq<Event>)
    requires Sound(s) && Possible(s, events)
    ensures var r := After(s, events);
            && Sound(r)
            && |r.requests.pool| == |r.requests.list| && |r.responses.pool| == |r.responses.list|
            && (forall b | b in r.requests.list :: b !in r.responses.list)
            && (forall t | t in r.timers && t.callback.Timeout? :: t.callback.buffer in r.Of(t.callback.kind).list)
    decreases |events|
  {
    if events == [] {
      assert SoundSide(s, Requests) && SoundSide(s, Responses);
      UsageIsLength(s.requests.list, s.requests.pool);
      UsageIsLength(s.responses.list, s.responses.pool);
    } else {
      StepKeepsSound(s, events[0]);
      EveryRunIsSound(Step(s, events[0]), events[1..]);
    }
  }

  // --- The modules' own state ---

  lemma {:induction false} WithoutTimerFrom(ts: seq<Timer>, i: nat, callback: Callback)
    requires i <= |ts| && forall j | 0 <= j < i :: ts[j].callback != callback
    ensures WithoutTimer(ts, callback) == ts[..i] + WithoutTimer(ts[i..], callback)
  {
    if i == 0 {
      assert ts[0..] == ts && ts[..0] + WithoutTimer(ts, callback) == WithoutTimer(ts, callback);
    } else {
      WithoutTimerFrom(ts[1..], i - 1, callback);
      assert ts[1..][i - 1..] == ts[i..] && ts[..i] == [ts[0]] + ts[1..][..i - 1];
      var rest := WithoutTimer(ts[i..], callback);
      assert WithoutTimer(ts, callback) == [ts[0]] + WithoutTimer(ts[1..], callback);
      hide WithoutTimer;
      assert [ts[0]] + (ts[1..][..i - 1] + rest) == ts[..i] + rest;
    }
  }

  lemma {:induction false} FirstExpiredIs(ts: seq<Timer>, expired: set<Address>, i: nat)
    requires i <= |ts| && forall j | 0 <= j < i :: ts[j].cell !in expired
    requires i == |ts| || ts[i].cell in expired
    ensures FirstExpired(ts, expired) == i
  {}

  class Store {
    var requests: Side
    var responses: Side
    var infos: map<Address, Info>
    var timers: seq<Timer>

    ghost function View(): State
      reads this
    {
      State(requests, responses, infos, timers)
    }

    constructor ()
      ensures View() == EMPTY && Sound(View())
    {
      requests, responses := Side([], {}), Side([], {});
      infos := map[];
      timers := [];
    }

    /** `oc_blockwise_alloc_request_buffer` and its twin. */
    method Alloc(kind: Kind, hrefLen: nat, memory: Option<Address>, cell: Option<Address>)
      returns (buffer: Option<Address>)
      requires Sound(View()) && Enabled(View(), Allocate(kind, hrefLen, memory, cell))
      modifies this
      ensures View() == Step(old(View()), Allocate(kind, hrefLen, memory, cell)) && Sound(View())
      ensures buffer == if hrefLen == 0 then None else memory
    {
      StepKeepsSound(View(), Allocate(kind, hrefLen, memory, cell));
      if hrefLen == 0 || memory.None? { return None; }
      var b := memory.value;
      infos := infos[b := Info(1, 0)];
      timers := timers + if cell.Some? then [Timer(cell.value, Timeout(kind, b))] else [];
      match kind {
        case Requests => requests := Side(requests.list + [b], requests.pool + {b});
        case Responses => responses := Side(responses.list + [b], responses.pool + {b});
      }
      return memory;
    }

    /** `oc_blockwise_free_buffer` */
    method Release(kind: Kind, b: Address)
      modifies this
      ensures View() == Released(old(View()), kind, b)
    {
      match kind {
        case Requests => requests := Side(Without(requests.list, b), requests.pool - {b});
        case Responses => responses := Side(Without(responses.list, b), responses.pool - {b});
      }
      infos := infos - {b};
    }

    /** `oc_ri_remove_timed_event_callback` */
    method RemoveTimer(callback: Callback)
      modifies this`timers
      ensures timers == WithoutTimer(old(timers), callback)
    {
      var i := 0;
      while i < |timers|
        invariant i <= |timers| && timers == old(timers)
        invariant forall j | 0 <= j < i :: timers[j].callback != callback
      {
        if timers[i].callback == callback {
          WithoutTimerFrom(timers, i, callback);
          assert timers[i..][1..] == timers[i + 1..];
          timers := timers[..i] + timers[i + 1..];
          return;
        }
        i := i + 1;
      }
      WithoutTimerFrom(timers, i, callback);
    }

    /** `oc_blockwise_free_request_buffer` and its twin. */
    method FreeBuffer(kind: Kind, b: Address)
      requires Sound(View()) && Enabled(View(), Free(kind, b))
      modifies this
      ensures View() == Step(old(View()), Free(kind, b)) && Sound(View())
    {
      StepKeepsSound(View(), Free(kind, b));
      RemoveTimer(Timeout(kind, b));
      Release(kind, b);
    }

    /** One of the two loops of a scrub: `next` is fetched before the buffer may go. */
    method ScrubList(kind: Kind, scrub: Scrub)
      requires Sound(View())
      modifies this
      ensures View() == ScrubWalk(old(View()), kind, old(View()).Of(kind).list, scrub) && Sound(View())
    {
      hide Sound, Freed;
      var k := 0;
      assert View().Of(kind).list[0..] == View().Of(kind).list;
      while k < |if kind.Requests? then requests.list else responses.list|
        invariant k <= |View().Of(kind).list| && Sound(View())
        invariant ScrubWalk(View(), kind, View().Of(kind).list[k..], scrub)
               == ScrubWalk(old(View()), kind, old(View()).Of(kind).list, scrub)
        decreases |View().Of(kind).list| - k
      {
        var list := if kind.Requests? then requests.list else responses.list;
        assert list[..k] + list[k..] == list && list[k..][1..] == list[k + 1..];
        FreesOne(View(), kind, list[..k], list[k..]);
        if Dropped(scrub, infos, list[k]) {
          FreeBuffer(kind, list[k]);
          assert (list[..k] + list[k + 1..])[k..] == list[k + 1..];
        } else {
          k := k + 1;
        }
      }
    }

    /** `oc_blockwise_scrub_buffers` and `oc_blockwise_scrub_buffers_for_client_cb` */
    method ScrubAll(scrub: Scrub)
      requires Sound(View())
      modifies this
      ensures View() == Step(old(View()), ScrubBuffers(scrub)) && Sound(View())
    {
      ScrubList(Requests, scrub);
      ScrubList(Responses, scrub);
    }

    /** `poll_event_callback_timers` on `timed_callbacks`. */
    method PollTimers(expired: set<Address>, again: set<nat>)
      requires Sound(View())
      modifies this
      ensures View() == Step(old(View()), Poll(expired, again)) && Sound(View())
    {
      hide Sound, Apart, Released;
      var left, i := expired, 0;
      while i < |timers|
        invariant i <= |timers| && Sound(View())
        invariant forall j | 0 <= j < i :: timers[j].cell !in left
        invariant Polled(View(), left, again) == Polled(old(View()), expired, again)
        decreases |left|, |timers| - i
      {
        var t := timers[i];
        if t.cell in left {
          FirstExpiredIs(timers, left, i);
          FiresOne(View(), i, again);
          if !Restarts(t, again) {
            if t.callback.Timeout? { Release(t.callback.kind, t.callback.buffer); }
            timers := Without(timers, t);
          }
          left := left - {t.cell};
          i := 0;
        } else {
          i := i + 1;
        }
      }
      FirstExpiredIs(timers, left, i);
    }
  }
}
