/**
 The replay record table over whole runs: it refines a bounded map from clients to windows,
 and no client gets a number accepted twice between two of its synchronisations.
 */
module ReplayRuns {
  import opened ReplayWindow
  import opened ReplayTable

  // ----- the table as a map from clients to windows

  datatype Client = Unknown | Known(window: Window, time: nat)

  /** A record that can be found again. */
  predicate Tracked(r: Record) {
    r.inUse && r.key.kid != []
  }

  ghost predicate UniqueKeys(rs: seq<Record>) {
    forall i, j | 0 <= i < j < |rs| && Tracked(rs[i]) && Tracked(rs[j]) :: rs[i].key != rs[j].key
  }

  /** What the table knows of a client. */
  function Lookup(rs: seq<Record>, key: Key): Client {
    var at := Find(rs, key, 0);
    if at < |rs| then Known(rs[at].window, rs[at].time) else Unknown
  }

  lemma FoundAt(rs: seq<Record>, i: nat)
    requires UniqueKeys(rs) && i < |rs| && Tracked(rs[i])
    ensures Find(rs, rs[i].key, 0) == i
  {
    assert Matches(rs[i], rs[i].key);
  }

  lemma NotFound(rs: seq<Record>, key: Key)
    requires forall i | 0 <= i < |rs| && Tracked(rs[i]) :: rs[i].key != key
    ensures Find(rs, key, 0) == |rs|
  {
    var at := Find(rs, key, 0);
    if at < |rs| { assert Tracked(rs[at]); }
  }

  lemma StoreUnique(rs: seq<Record>, at: nat, r: Record)
    requires UniqueKeys(rs) && at < |rs|
    requires Tracked(r) ==> Find(rs, r.key, 0) == at || Find(rs, r.key, 0) == |rs|
    ensures UniqueKeys(rs[at := r])
  {
    hide Find;
    forall i | 0 <= i < |rs| && i != at && Tracked(rs[i]) && Tracked(r)
      ensures rs[i].key != r.key
    {
      FoundAt(rs, i);
    }
  }

  /** What writing one record does to the map. */
  lemma Store(rs: seq<Record>, at: nat, r: Record, k: Key)
    requires UniqueKeys(rs) && at < |rs|
    requires Tracked(r) ==> Find(rs, r.key, 0) == at || Find(rs, r.key, 0) == |rs|
    ensures UniqueKeys(rs[at := r])
    ensures Lookup(rs[at := r], k) ==
              if Tracked(r) && r.key == k then Known(r.window, r.time)
              else if Tracked(rs[at]) && rs[at].key == k then Unknown
              else Lookup(rs, k)
  {
    var rs' := rs[at := r];
    StoreUnique(rs, at, r);
    hide Find;
    assert rs'[at] == r;
    assert forall i | 0 <= i < |rs| && i != at :: rs[i] == rs'[i];
    if Tracked(rs[at]) { FoundAt(rs, at); }
    if i :| 0 <= i < |rs| && Tracked(rs'[i]) && rs'[i].key == k {
      FoundAt(rs', i);
      if i != at { FoundAt(rs, i); }
    } else {
      NotFound(rs', k);
      if i :| 0 <= i < |rs| && Tracked(rs[i]) && rs[i].key == k {
        FoundAt(rs, i);
      } else {
        NotFound(rs, k);
      }
    }
  }

  /** The client that makes way for a new one. */
  predicate MakesWay(rs: seq<Record>, key: Key, k: Key)
    requires rs != []
  {
    Find(rs, key, 0) == |rs| && Tracked(rs[SlotFor(rs)]) && rs[SlotFor(rs)].key == k
  }

  /** Nobody makes way unless every record is in use, and then the oldest does, the first of them on a tie. */
  lemma EvictionIsOldest(rs: seq<Record>, key: Key, k: Key)
    requires rs != [] && UniqueKeys(rs)
    requires MakesWay(rs, key, k)
    ensures Lookup(rs, k).Known? && k != key
    ensures forall r | r in rs :: r.inUse && Lookup(rs, k).time <= r.time
    ensures exists i | 0 <= i < |rs| :: rs[i].key == k && forall j | 0 <= j < i :: Lookup(rs, k).time < rs[j].time
  {
    FoundAt(rs, SlotFor(rs));
    assert Vacant(rs, 0) == |rs|;
  }

  /** `oc_replay_add_client` on the map: that client starts over, at most one other is forgotten. */
  lemma AddRefinesMap(rs: seq<Record>, ssn: Ssn, key: Key, now: nat, k: Key)
    requires rs != [] && UniqueKeys(rs)
    ensures UniqueKeys(Added(rs, ssn, key, now))
    ensures Lookup(Added(rs, ssn, key, now), k) ==
              if k == key && key.kid != [] then Known(Synchronised(ssn), now)
              else if MakesWay(rs, key, k) then Unknown
              else Lookup(rs, k)
  {
    var found := Find(rs, key, 0);
    Store(rs, if found < |rs| then found else SlotFor(rs), Record(key, Synchronised(ssn), now, true), k);
  }

  /** `oc_replay_check_client` on the map: only the client asked about changes, by the window test. */
  lemma CheckRefinesMap(rs: seq<Record>, ssn: Ssn, key: Key, multicast: bool, now: nat, rplwdo: nat, build: Build,
                        k: Key)
    requires rs != [] && UniqueKeys(rs)
    ensures
      var a := Checked(rs, ssn, key, multicast, now, rplwdo, build);
      && UniqueKeys(a.records)
      && match Lookup(rs, key)
         case Known(window, _) =>
           var out := Check(window, ssn, rplwdo, build.shift32);
           a.accepted == out.accepted &&
           Lookup(a.records, k) == if k == key then Known(out.window, now) else Lookup(rs, k)
         case Unknown =>
           if build.trustFirstMulticast && multicast then a == Answer(Added(rs, ssn, key, now), true)
           else a == Answer(rs, false)
  {
    var found := Find(rs, key, 0);
    if found < |rs| {
      var out := Check(rs[found].window, ssn, rplwdo, build.shift32);
      Store(rs, found, rs[found].(window := out.window, time := now), k);
    } else {
      AddRefinesMap(rs, ssn, key, now, k);
    }
  }

  /** `oc_replay_free_client` on the map: every context of that key identifier is forgotten, nothing else. */
  lemma ReleaseRefinesMap(rs: seq<Record>, kid: ByteString, k: Key)
    requires UniqueKeys(rs)
    ensures UniqueKeys(Released(rs, kid))
    ensures Lookup(Released(rs, kid), k) == if k.kid == kid then Unknown else Lookup(rs, k)
  {
    var rs' := Released(rs, kid);
    assert forall i | 0 <= i < |rs| && Tracked(rs'[i]) :: rs'[i] == rs[i] && rs[i].key.kid != kid;
    if i :| 0 <= i < |rs| && Tracked(rs[i]) && rs[i].key == k {
      FoundAt(rs, i);
      if k.kid == kid { NotFound(rs', k); } else { FoundAt(rs', i); }
    } else {
      NotFound(rs, k);
      NotFound(rs', k);
    }
  }

  // ----- runs

  datatype Op =
    | CheckOp(key: Key, ssn: Ssn, multicast: bool, now: nat, rplwdo: nat)
    | AddOp(key: Key, ssn: Ssn, now: nat)
    | FreeOp(kid: ByteString)

  function Step(rs: seq<Record>, op: Op, build: Build): (a: Answer)
    requires rs != []
    ensures |a.records| == |rs|
  {
    match op
    case CheckOp(key, ssn, multicast, now, rplwdo) => Checked(rs, ssn, key, multicast, now, rplwdo, build)
    case AddOp(key, ssn, now) => Answer(Added(rs, ssn, key, now), true)
    case FreeOp(kid) => Answer(Released(rs, kid), false)
  }

  /** The records before operation n of a run. */
  function After(rs: seq<Record>, ops: seq<Op>, n: nat, build: Build): (rs': seq<Record>)
    requires rs != [] && n <= |ops|
    ensures |rs'| == |rs|
  {
    if n == 0 then rs else Step(After(rs, ops, n - 1, build), ops[n - 1], build).records
  }

  /** Operation n starts the client's window over: a synchronisation, or a first multicast taken on trust. */
  ghost predicate SynchronisesAt(rs: seq<Record>, ops: seq<Op>, n: nat, key: Key, build: Build)
    requires rs != [] && n < |ops|
  {
    match ops[n]
    case AddOp(k, _, _) => k == key
    case CheckOp(k, _, _, _, _) => k == key && Lookup(After(rs, ops, n, build), key).Unknown?
        && AcceptsAt(rs, ops, n, build)
    case FreeOp(_) => false
  }

  /** Operation n lets a message through. */
  ghost predicate AcceptsAt(rs: seq<Record>, ops: seq<Op>, n: nat, build: Build)
    requires rs != [] && n < |ops|
  {
    Step(After(rs, ops, n, build), ops[n], build).accepted
  }

  /** Operation n accepts number `ssn` of client `key`. */
  ghost predicate Accepts(rs: seq<Record>, ops: seq<Op>, n: nat, key: Key, ssn: Ssn, build: Build)
    requires rs != [] && n < |ops|
  {
    && (ops[n].CheckOp? || ops[n].AddOp?)
    && ops[n].key == key && ops[n].ssn == ssn
    && AcceptsAt(rs, ops, n, build)
  }

  /** The numbers accepted from `key` since its last synchronisation before operation n. */
  ghost function SeenSince(rs: seq<Record>, ops: seq<Op>, n: nat, key: Key, build: Build): set<nat>
    requires rs != [] && n <= |ops|
  {
    if n == 0 then {}
    else if SynchronisesAt(rs, ops, n - 1, key, build) then {ops[n - 1].ssn as nat}
    else if ops[n - 1].CheckOp? && Accepts(rs, ops, n - 1, key, ops[n - 1].ssn, build) then
      SeenSince(rs, ops, n - 1, key, build) + {ops[n - 1].ssn as nat}
    else SeenSince(rs, ops, n - 1, key, build)
  }

  /** Operation n asks about a number exactly 32 behind the newest of `key`, where C leaves the shift undefined. */
  ghost predicate MeetsShift(rs: seq<Record>, ops: seq<Op>, n: nat, key: Key, build: Build)
    requires rs != [] && n < |ops|
  {
    && ops[n].CheckOp? && ops[n].key == key
    && Lookup(After(rs, ops, n, build), key).Known?
    && Lookup(After(rs, ops, n, build), key).window.rxSsn == ops[n].ssn + WINDOW_BITS
  }

  /** The first n operations stay where C defines the shift for `key`, or it comes out odd. */
  ghost predicate Defined(rs: seq<Record>, ops: seq<Op>, n: nat, key: Key, build: Build)
    requires rs != [] && n <= |ops|
  {
    build.shift32[0] || forall m | 0 <= m < n :: !MeetsShift(rs, ops, m, key, build)
  }

  function Fresh(size: nat): seq<Record> {
    seq(size, i => Freed())
  }

  /**
   In every reachable state there is at most one record for a client, and its window stands for
   exactly what the client got accepted since its last synchronisation.
   */
  lemma {:induction false} ReachableTable(size: nat, ops: seq<Op>, n: nat, build: Build, k: Key)
    requires size > 0 && n <= |ops| && Defined(Fresh(size), ops, n, k, build)
    ensures
      var rs := After(Fresh(size), ops, n, build);
      && UniqueKeys(rs)
      && (Lookup(rs, k).Known? ==> Represents(Lookup(rs, k).window, SeenSince(Fresh(size), ops, n, k, build)))
  {
    var start := Fresh(size);
    if n == 0 {
      NotFound(start, k);
    } else {
      hide Check, Represents, Synchronised, Lookup, UniqueKeys, Step;
      ReachableTable(size, ops, n - 1, build, k);
      var before, op := After(start, ops, n - 1, build), ops[n - 1];
      StepRefinesMap(before, op, build, k);
      if !op.FreeOp? && op.key == k {
        if op.CheckOp? && Lookup(before, k).Known? {
          assert !MeetsShift(start, ops, n - 1, k, build) || build.shift32[0];
          WindowStep(Lookup(before, k).window, SeenSince(start, ops, n - 1, k, build), op.ssn, op.rplwdo,
              build.shift32);
        } else {
          SynchronisedRepresents(op.ssn);
        }
      }
    }
  }

  /** One operation on the map: the client concerned, and possibly one evicted client, are all that changes. */
  lemma StepRefinesMap(rs: seq<Record>, op: Op, build: Build, k: Key)
    requires rs != [] && UniqueKeys(rs)
    ensures
      var a := Step(rs, op, build);
      && UniqueKeys(a.records)
      && (op.FreeOp? || k != op.key ==> Lookup(a.records, k) in {Unknown, Lookup(rs, k)})
      && (!op.FreeOp? && k == op.key ==>
            if op.CheckOp? && Lookup(rs, k).Known? then
              var out := Check(Lookup(rs, k).window, op.ssn, op.rplwdo, build.shift32);
              a.accepted == out.accepted && Lookup(a.records, k) == Known(out.window, op.now)
            else if a.accepted then
              Lookup(a.records, k) in {Unknown, Known(Synchronised(op.ssn), op.now)}
            else a.records == rs)
  {
    match op
    case CheckOp(key, ssn, multicast, now, rplwdo) =>
      CheckRefinesMap(rs, ssn, key, multicast, now, rplwdo, build, k);
      AddRefinesMap(rs, ssn, key, now, k);
    case AddOp(key, ssn, now) =>
      AddRefinesMap(rs, ssn, key, now, k);
    case FreeOp(kid) =>
      ReleaseRefinesMap(rs, kid, k);
  }

  lemma {:induction false} SeenPersists(rs: seq<Record>, ops: seq<Op>, i: nat, j: nat, key: Key, ssn: Ssn, build: Build)
    requires rs != [] && i < j <= |ops|
    requires Accepts(rs, ops, i, key, ssn, build)
    requires forall m | i < m < j :: !SynchronisesAt(rs, ops, m, key, build)
    ensures ssn in SeenSince(rs, ops, j, key, build)
    decreases j
  {
    if i + 1 < j { SeenPersists(rs, ops, i, j - 1, key, ssn, build); }
  }

  /**
   Whatever the order of checks, synchronisations and releases for any number of clients, and
   whatever is evicted: a number accepted twice from a client was accepted, the second time or in
   between, by a synchronisation of that client.
   */
  lemma NoReplayOnAnyRun(size: nat, ops: seq<Op>, i: nat, j: nat, key: Key, ssn: Ssn, build: Build)
    requires size > 0 && i < j < |ops| && Defined(Fresh(size), ops, j + 1, key, build)
    requires Accepts(Fresh(size), ops, i, key, ssn, build) && Accepts(Fresh(size), ops, j, key, ssn, build)
    ensures exists m | i < m <= j :: SynchronisesAt(Fresh(size), ops, m, key, build)
  {
    var start := Fresh(size);
    if !exists m | i < m <= j :: SynchronisesAt(start, ops, m, key, build) {
      SeenPersists(start, ops, i, j, key, ssn, build);
      ReachableTable(size, ops, j, build, key);
      var rs := After(start, ops, j, build);
      assert !SynchronisesAt(start, ops, j, key, build);
      assert !MeetsShift(start, ops, j, key, build) || build.shift32[0];
      StepRefinesMap(rs, ops[j], build, key);
      WindowStep(Lookup(rs, key).window, SeenSince(start, ops, j, key, build), ssn, ops[j].rplwdo, build.shift32);
      assert false;
    }
  }

  // ----- how many clients a table holds

  /** Operations among the first n that may take a record. */
  function Takings(ops: seq<Op>, n: nat): nat
    requires n <= |ops|
  {
    if n == 0 then 0 else Takings(ops, n - 1) + if ops[n - 1].FreeOp? then 0 else 1
  }

  function InUse(rs: seq<Record>): set<nat> {
    set i: nat | i < |rs| && rs[i].inUse
  }

  lemma OneMoreInUse(rs: seq<Record>, at: nat, r: Record)
    requires at < |rs|
    ensures |InUse(rs[at := r])| <= |InUse(rs)| + 1
    ensures rs[at].inUse ==> |InUse(rs[at := r])| <= |InUse(rs)|
  {
    var more := InUse(rs) + {at};
    SubsetSize(InUse(rs[at := r]), more);
    assert rs[at].inUse ==> more == InUse(rs);
  }

  lemma {:induction false} SubsetSize(a: set<nat>, b: set<nat>)
    requires a <= b
    ensures |a| <= |b|
  {
    assert b == a + (b - a);
  }

  lemma FreeTakesNone(rs: seq<Record>, kid: ByteString)
    ensures |InUse(Released(rs, kid))| <= |InUse(rs)|
  {
    SubsetSize(InUse(Released(rs, kid)), InUse(rs));
  }

  lemma StepTakesOne(rs: seq<Record>, op: Op, build: Build)
    requires rs != []
    ensures |InUse(Step(rs, op, build).records)| <= |InUse(rs)| + if op.FreeOp? then 0 else 1
  {
    hide Check, InUse, Find, SlotFor;
    match op
    case FreeOp(kid) => FreeTakesNone(rs, kid);
    case AddOp(key, ssn, now) =>
      OneMoreInUse(rs, if Find(rs, key, 0) < |rs| then Find(rs, key, 0) else SlotFor(rs),
                   Record(key, Synchronised(ssn), now, true));
    case CheckOp(key, ssn, multicast, now, rplwdo) =>
      var found := Find(rs, key, 0);
      OneMoreInUse(rs, if found < |rs| then found else SlotFor(rs), Record(key, Synchronised(ssn), now, true));
      if found < |rs| {
        var out := Check(rs[found].window, ssn, rplwdo, build.shift32);
        OneMoreInUse(rs, found, rs[found].(window := out.window, time := now));
      }
  }

  /** Records in use are at most as many as operations that may have taken one. */
  lemma {:induction false} UseIsBounded(size: nat, ops: seq<Op>, n: nat, build: Build)
    requires size > 0 && n <= |ops|
    ensures |InUse(After(Fresh(size), ops, n, build))| <= Takings(ops, n)
  {
    if n == 0 {
      assert InUse(Fresh(size)) == {};
    } else {
      UseIsBounded(size, ops, n - 1, build);
      StepTakesOne(After(Fresh(size), ops, n - 1, build), ops[n - 1], build);
      hide InUse, Step;
    }
  }

  function InUseBelow(rs: seq<Record>, n: nat): set<nat>
    requires n <= |rs|
  {
    set i: nat | i < n && rs[i].inUse
  }

  lemma {:induction false} AllBelow(rs: seq<Record>, n: nat)
    requires n <= |rs| && forall i | 0 <= i < n :: rs[i].inUse
    ensures |InUseBelow(rs, n)| == n
  {
    if n == 0 {
      assert InUseBelow(rs, 0) == {};
    } else {
      AllBelow(rs, n - 1);
      assert InUseBelow(rs, n) == InUseBelow(rs, n - 1) + {n - 1};
    }
  }

  lemma AllInUse(rs: seq<Record>)
    requires forall i | 0 <= i < |rs| :: rs[i].inUse
    ensures |InUse(rs)| == |rs|
  {
    AllBelow(rs, |rs|);
    assert InUse(rs) == InUseBelow(rs, |rs|);
  }

  /** Unless that is its release, a client that the table knows is known after the next operation if there is room. */
  lemma StaysKnown(rs: seq<Record>, op: Op, build: Build, k: Key)
    requires rs != [] && UniqueKeys(rs) && Lookup(rs, k).Known? && |InUse(rs)| < |rs|
    requires op.FreeOp? ==> op.kid != k.kid
    ensures Lookup(Step(rs, op, build).records, k).Known?
  {
    if Vacant(rs, 0) == |rs| { AllInUse(rs); }
    assert !rs[SlotFor(rs)].inUse;
    assert k.kid != [];
    match op
    case CheckOp(key, ssn, multicast, now, rplwdo) =>
      CheckRefinesMap(rs, ssn, key, multicast, now, rplwdo, build, k);
      AddRefinesMap(rs, ssn, key, now, k);
    case AddOp(key, ssn, now) => AddRefinesMap(rs, ssn, key, now, k);
    case FreeOp(kid) => ReleaseRefinesMap(rs, kid, k);
  }

  lemma {:induction false} RunKeysUnique(size: nat, ops: seq<Op>, n: nat, build: Build)
    requires size > 0 && n <= |ops|
    ensures UniqueKeys(After(Fresh(size), ops, n, build))
  {
    if n > 0 {
      RunKeysUnique(size, ops, n - 1, build);
      hide UniqueKeys, After;
      var rs := After(Fresh(size), ops, n - 1, build);
      StepRefinesMap(rs, ops[n - 1], build, Key([], []));
      AfterNext(size, ops, n, build);
    }
  }

  lemma AfterNext(size: nat, ops: seq<Op>, n: nat, build: Build)
    requires size > 0 && 0 < n <= |ops|
    ensures After(Fresh(size), ops, n, build) == Step(After(Fresh(size), ops, n - 1, build), ops[n - 1], build).records
  {
  }

  /**
   A table of `size` records forgets nobody, releases aside, before as many operations as it has records
   could have taken one.
   */
  lemma {:induction false} NobodyForgottenEarly(size: nat, ops: seq<Op>, i: nat, j: nat, build: Build, k: Key)
    requires size > 0 && i <= j <= |ops| && Takings(ops, j) <= size
    requires Lookup(After(Fresh(size), ops, i, build), k).Known?
    requires forall m | i <= m < j && ops[m].FreeOp? :: ops[m].kid != k.kid
    ensures Lookup(After(Fresh(size), ops, j, build), k).Known?
    decreases j
  {
    hide Lookup, UniqueKeys, Step, InUse;
    if i < j {
      NobodyForgottenEarly(size, ops, i, j - 1, build, k);
      RunKeysUnique(size, ops, j - 1, build);
      UseIsBounded(size, ops, j - 1, build);
      var rs := After(Fresh(size), ops, j - 1, build);
      if ops[j - 1].FreeOp? {
        ReleaseKeeps(rs, ops[j - 1], build, k);
      } else {
        StaysKnown(rs, ops[j - 1], build, k);
      }
      AfterNext(size, ops, j, build);
    }
  }

  lemma ReleaseKeeps(rs: seq<Record>, op: Op, build: Build, k: Key)
    requires rs != [] && UniqueKeys(rs) && Lookup(rs, k).Known? && op.FreeOp? && op.kid != k.kid
    ensures Lookup(Step(rs, op, build).records, k).Known?
  {
    ReleaseRefinesMap(rs, op.kid, k);
  }
}
