/**
 What the operations on block-wise buffers do, in terms of reference counts, client callbacks, lists and
 timers alone.
 */
module BufferLaws {
  import opened BlockBuffers
  import opened Options

  ghost predicate Precedes<T(!new)>(list: seq<T>, x: T, y: T) {
    exists k, l | 0 <= k < l < |list| :: list[k] == x && list[l] == y
  }

  /** What the list holds is in the longer one, in the same order. */
  ghost predicate InOrder<T(!new)>(list: seq<T>, longer: seq<T>) {
    forall i, j | 0 <= i < j < |list| :: Precedes(longer, list[i], list[j])
  }

  ghost predicate LeavesSide(side: Side, r: Side, left: set<Address>) {
    && (forall b :: b in r.list <==> b in side.list && b in left)
    && (forall b :: b in r.pool <==> b in side.pool && b in left)
    && InOrder(r.list, side.list) && Distinct(r.list)
  }

  /** Exactly these buffers are left in both lists, in order and as they were, and the timeouts of no others. */
  ghost predicate Leaves(s: State, r: State, left: set<Address>) {
    && LeavesSide(s.requests, r.requests, left) && LeavesSide(s.responses, r.responses, left)
    && (forall b :: b in r.infos <==> b in s.infos && b in left)
    && (forall b | b in r.infos :: r.infos[b] == s.infos[b])
    && (forall t :: t in r.timers <==> t in s.timers && (t.callback.Timeout? ==> t.callback.buffer in left))
  }

  lemma {:induction false} SurvivorsInOrder(list: seq<Address>, scrub: Scrub, infos: map<Address, Info>)
    ensures InOrder(Survivors(list, scrub, infos), list)
  {
    if list != [] {
      var rest := Survivors(list[1..], scrub, infos);
      SurvivorsInOrder(list[1..], scrub, infos);
      hide Dropped, InOrder;
      if Dropped(scrub, infos, list[0]) {
        OrderSkips(rest, list);
        assert [] + rest == rest;
      } else {
        OrderTakes(rest, list);
      }
    }
  }

  lemma OrderSkips<T(!new)>(rest: seq<T>, list: seq<T>)
    requires list != [] && InOrder(rest, list[1..])
    ensures InOrder(rest, list)
  {
    forall i, j | 0 <= i < j < |rest| ensures Precedes(list, rest[i], rest[j]) {
      var k, l :| 0 <= k < l < |list[1..]| && list[1..][k] == rest[i] && list[1..][l] == rest[j];
      assert list[k + 1] == rest[i] && list[l + 1] == rest[j];
    }
  }

  lemma OrderTakes<T(!new)>(rest: seq<T>, list: seq<T>)
    requires list != [] && InOrder(rest, list[1..]) && forall b | b in rest :: b in list[1..]
    ensures InOrder([list[0]] + rest, list)
  {
    OrderSkips(rest, list);
    var r := [list[0]] + rest;
    forall i, j | 0 <= i < j < |r| ensures Precedes(list, r[i], r[j]) {
      assert r[j] == rest[j - 1];
      if i == 0 {
        assert rest[j - 1] in rest;
        var l :| 0 <= l < |list[1..]| && list[1..][l] == r[j];
        assert list[0] == r[0] && list[l + 1] == r[j];
      } else {
        assert r[i] == rest[i - 1];
      }
    }
  }

  /** In a sound state lists and pools hold the same, and the infos are those of the listed buffers. */
  lemma SoundMeans(s: State)
    requires Sound(s)
    ensures forall kind: Kind, b :: b in s.Of(kind).pool <==> b in s.Of(kind).list
    ensures forall kind: Kind :: Distinct(s.Of(kind).list)
    ensures forall b :: b in s.infos <==> b in s.requests.list || b in s.responses.list
    ensures forall t | t in s.timers && t.callback.Timeout? :: t.callback.buffer in s.infos
  {
    hide Distinct, Apart;
    assert SoundSide(s, Requests) && SoundSide(s, Responses);
  }

  /** A scrub leaves the buffers that its condition does not hold of. */
  lemma ScrubLeaves(s: State, scrub: Scrub, left: set<Address>)
    requires Sound(s)
    requires forall b :: b in left <==> b in s.infos && !Dropped(scrub, s.infos, b)
    ensures Leaves(s, Step(s, ScrubBuffers(scrub)), left)
  {
    ScrubLeavesSurvivors(s, scrub);
    hide *;
    SurvivorsLeave(s, scrub, left, Scrubbed(s, scrub));
    ScrubStep(s, scrub);
  }

  lemma ScrubStep(s: State, scrub: Scrub)
    ensures Step(s, ScrubBuffers(scrub)) == Scrubbed(s, scrub)
  {
  }

  lemma SurvivorsLeave(s: State, scrub: Scrub, left: set<Address>, r: State)
    requires Sound(s) && Sound(r)
    requires forall b :: b in left <==> b in s.infos && !Dropped(scrub, s.infos, b)
    requires forall kind: Kind :: r.Of(kind).list == Survivors(s.Of(kind).list, scrub, s.infos)
    requires forall b | b in r.infos :: b in s.infos && r.infos[b] == s.infos[b]
    requires forall t :: t in r.timers <==>
               t in s.timers && !(t.callback.Timeout? && Dropped(scrub, s.infos, t.callback.buffer))
    ensures Leaves(s, r, left)
  {
    hide Dropped, InOrder, Distinct, Sound, Survivors, LeavesSide;
    SurvivorsInOrder(s.requests.list, scrub, s.infos);
    SurvivorsInOrder(s.responses.list, scrub, s.infos);
    SoundMeans(s);
    SoundMeans(r);
    assert r.Of(Requests).list == Survivors(s.Of(Requests).list, scrub, s.infos);
    assert r.Of(Responses).list == Survivors(s.Of(Responses).list, scrub, s.infos);
    SideLeaves(s, scrub, left, r, Requests);
    SideLeaves(s, scrub, left, r, Responses);
    InfosLeave(s, scrub, left, r);
  }

  lemma InfosLeave(s: State, scrub: Scrub, left: set<Address>, r: State)
    requires forall b :: b in left <==> b in s.infos && !Dropped(scrub, s.infos, b)
    requires r.requests.list == Survivors(s.requests.list, scrub, s.infos)
    requires r.responses.list == Survivors(s.responses.list, scrub, s.infos)
    requires forall b :: b in s.infos <==> b in s.requests.list || b in s.responses.list
    requires forall b :: b in r.infos <==> b in r.requests.list || b in r.responses.list
    ensures forall b :: b in r.infos <==> b in s.infos && b in left
  {
    hide Dropped;
  }

  lemma SideLeaves(s: State, scrub: Scrub, left: set<Address>, r: State, kind: Kind)
    requires forall b :: b in left <==> b in s.infos && !Dropped(scrub, s.infos, b)
    requires r.Of(kind).list == Survivors(s.Of(kind).list, scrub, s.infos)
    requires InOrder(r.Of(kind).list, s.Of(kind).list) && Distinct(r.Of(kind).list)
    requires forall b :: b in s.Of(kind).pool <==> b in s.Of(kind).list
    requires forall b :: b in r.Of(kind).pool <==> b in r.Of(kind).list
    requires forall b | b in s.Of(kind).list :: b in s.infos
    ensures LeavesSide(s.Of(kind), r.Of(kind), left)
  {
    hide Dropped, InOrder, Distinct;
  }

  /**
   A scrub of the unused buffers frees exactly those that nobody refers to, in both lists and with their
   timeouts, and a scrub of all buffers frees every one.
   */
  lemma UnusedAreFreed(s: State, all: bool)
    requires Sound(s)
    ensures Leaves(s, Step(s, ScrubBuffers(Unused(all))),
                   set b | b in s.infos && s.infos[b].refCount > 0 && !all)
  {
    ScrubLeaves(s, Unused(all), set b | b in s.infos && s.infos[b].refCount > 0 && !all);
  }

  /** A scrub for a client callback frees exactly the buffers of that callback. */
  lemma ClientBuffersAreFreed(s: State, cb: nat)
    requires Sound(s)
    ensures Leaves(s, Step(s, ScrubBuffers(OfClient(cb))), set b | b in s.infos && s.infos[b].clientCb != cb)
  {
    ScrubLeaves(s, OfClient(cb), set b | b in s.infos && s.infos[b].clientCb != cb);
  }

  /** A buffer that its user frees goes with its timeout, and no other goes. */
  lemma OneIsFreed(s: State, kind: Kind, b: Address)
    requires Sound(s) && b in s.Of(kind).list
    ensures Leaves(s, Step(s, Free(kind, b)), s.infos.Keys - {b})
  {
    var r := Freed(s, kind, b);
    FreeKeepsSound(s, kind, b);
    FreedSides(s, kind, b);
    hide *;
    OneUnlinked(s.Of(kind).list, b);
    UnlinksBuffer(s.Of(kind).list, b) by { SoundMeans(s); }
    OneLeaves(s, r, kind, b);
    FreeStep(s, kind, b);
  }

  lemma FreeStep(s: State, kind: Kind, b: Address)
    ensures Step(s, Free(kind, b)) == Freed(s, kind, b)
  {
  }

  lemma FreedSides(s: State, kind: Kind, b: Address)
    ensures var r := Freed(s, kind, b);
            && r.Of(kind).list == Without(s.Of(kind).list, b)
            && forall other: Kind | other != kind :: r.Of(other) == s.Of(other)
  {
  }

  lemma OneLeaves(s: State, r: State, kind: Kind, b: Address)
    requires Sound(s) && Sound(r) && r.infos == s.infos - {b} && b in s.Of(kind).list
    requires forall t :: t in r.timers <==> t in s.timers && t.callback != Timeout(kind, b)
    requires forall other: Kind | other != kind :: r.Of(other) == s.Of(other)
    requires InOrder(r.Of(kind).list, s.Of(kind).list)
    requires forall x :: x in r.Of(kind).list <==> x in s.Of(kind).list && x != b
    ensures Leaves(s, r, s.infos.Keys - {b})
  {
    SoundMeans(s);
    SoundMeans(r);
    OtherListed(s, kind, b);
    hide Sound, InOrder, Distinct, LeavesSide;
    var left, other := s.infos.Keys - {b}, if kind.Requests? then Responses else Requests;
    SideWithout(s, r, kind, b);
    SameOrder(s.Of(other).list);
    SideStays(s.Of(other), left);
    SidesLeave(s, r, left, kind, other);
    assert forall t :: t in r.timers <==> t in s.timers && (t.callback.Timeout? ==> t.callback.buffer in left);
  }

  lemma SidesLeave(s: State, r: State, left: set<Address>, kind: Kind, other: Kind)
    requires kind != other && LeavesSide(s.Of(kind), r.Of(kind), left) && LeavesSide(s.Of(other), r.Of(other), left)
    ensures LeavesSide(s.requests, r.requests, left) && LeavesSide(s.responses, r.responses, left)
  {
    hide LeavesSide;
  }

  lemma SideWithout(s: State, r: State, kind: Kind, b: Address)
    requires InOrder(r.Of(kind).list, s.Of(kind).list) && Distinct(r.Of(kind).list)
    requires forall x :: x in r.Of(kind).list <==> x in s.Of(kind).list && x != b
    requires forall x :: x in s.Of(kind).pool <==> x in s.Of(kind).list
    requires forall x :: x in r.Of(kind).pool <==> x in r.Of(kind).list
    requires forall x | x in s.Of(kind).list :: x in s.infos
    ensures LeavesSide(s.Of(kind), r.Of(kind), s.infos.Keys - {b})
  {
    hide InOrder, Distinct;
  }

  lemma SideStays(side: Side, left: set<Address>)
    requires InOrder(side.list, side.list) && Distinct(side.list)
    requires forall x :: x in side.pool <==> x in side.list
    requires forall x | x in side.list :: x in left
    ensures LeavesSide(side, side, left)
  {
    hide InOrder, Distinct;
  }

  /** A buffer is in one list only, and its timeout is for that one. */
  lemma OtherListed(s: State, kind: Kind, b: Address)
    requires Sound(s) && b in s.Of(kind).list
    ensures forall other: Kind | other != kind :: b !in s.Of(other).list
    ensures forall t | t in s.timers && t.callback.Timeout? && t.callback.buffer == b :: t.callback.kind == kind
  {
    ListedOnce(s);
    hide Sound;
  }

  lemma SameOrder<T(!new)>(list: seq<T>)
    ensures InOrder(list, list)
  {
    forall i, j | 0 <= i < j < |list| ensures Precedes(list, list[i], list[j]) {}
  }

  lemma {:induction false} OneUnlinked(list: seq<Address>, b: Address)
    ensures InOrder(Without(list, b), list) && forall x | x in Without(list, b) :: x in list
  {
    if list != [] {
      OneUnlinked(list[1..], b);
      hide InOrder;
      SameOrder(list[1..]);
      if list[0] == b { OrderSkips(list[1..], list); } else { OrderTakes(Without(list[1..], b), list); }
    }
  }

  /**
   A buffer that is allocated is listed last, with one reference, no client callback and a timeout if
   there is a cell for it; without memory or an href nothing happens.
   */
  lemma OneIsAdded(s: State, kind: Kind, hrefLen: nat, memory: Option<Address>, cell: Option<Address>)
    ensures
      var r := Step(s, Allocate(kind, hrefLen, memory, cell));
      if hrefLen == 0 || memory.None? then r == s
      else
        var b := memory.value;
        && r.Of(kind).list == s.Of(kind).list + [b]
            && (forall other: Kind | other != kind :: r.Of(other) == s.Of(other))
        && b in r.infos && r.infos[b].refCount == 1 && r.infos[b].clientCb == 0
        && (forall c | c != b :: c in r.infos <==> c in s.infos)
        && (forall c | c in s.infos && c != b :: r.infos[c] == s.infos[c])
        && r.timers == s.timers + if cell.Some? then [Timer(cell.value, Timeout(kind, b))] else []
  {
  }

  /**
   A poll ends the expired timers that do not ask to be restarted, and frees the buffers that they were
   timeouts of.
   */
  lemma ExpiredAreFreed(s: State, expired: set<Address>, again: set<nat>)
    requires Sound(s)
    ensures
      var r := Step(s, Poll(expired, again));
      && (forall t :: t in r.timers <==>
            t in s.timers && (t.cell !in expired || (t.callback.Other? && t.callback.id in again)))
      && (forall kind: Kind, b :: b in r.Of(kind).list <==>
            b in s.Of(kind).list && forall t | t in s.timers && t.callback == Timeout(kind, b) :: t.cell !in expired)
  {
    PollFreesExpired(s, expired, again);
    SoundMeans(s);
    SoundMeans(Polled(s, expired, again));
    hide Sound, Polled;
  }

  /**
   What a buffer lives through: freshly allocated it outlasts a scrub of the unused ones, and goes in one
   as soon as its user has let go of it.
   */
  lemma LifeOfOne(s: State, kind: Kind, hrefLen: nat, b: Address, cell: Option<Address>, infos: Info)
    requires Sound(s) && Enabled(s, Allocate(kind, hrefLen, Some(b), cell)) && hrefLen > 0
    ensures
      var used := Step(s, Allocate(kind, hrefLen, Some(b), cell));
      && b in Step(used, ScrubBuffers(Unused(false))).Of(kind).list
      && (b in Step(Step(used, Use(b, infos)), ScrubBuffers(Unused(false))).Of(kind).list <==> infos.refCount > 0)
  {
    var used := Step(s, Allocate(kind, hrefLen, Some(b), cell));
    StepKeepsSound(s, Allocate(kind, hrefLen, Some(b), cell));
    OneIsAdded(s, kind, hrefLen, Some(b), cell);
    hide Sound, Leaves, LeavesSide;
    UnusedAreFreed(used, false);
    var later := Step(used, Use(b, infos));
    StepKeepsSound(used, Use(b, infos));
    UnusedAreFreed(later, false);
    assert b in used.Of(kind).list && later.Of(kind) == used.Of(kind);
    var left := set c | c in used.infos && used.infos[c].refCount > 0 && !false;
    var leftLater := set c | c in later.infos && later.infos[c].refCount > 0 && !false;
    LeftIn(used, Step(used, ScrubBuffers(Unused(false))), left, kind, b);
    LeftIn(later, Step(later, ScrubBuffers(Unused(false))), leftLater, kind, b);
  }

  lemma LeftIn(s: State, r: State, left: set<Address>, kind: Kind, b: Address)
    requires Leaves(s, r, left)
    ensures b in r.Of(kind).list <==> b in s.Of(kind).list && b in left
  {
  }
}
