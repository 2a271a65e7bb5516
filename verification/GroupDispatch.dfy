/**
 Received S-mode messages against the group object table: the searches by group address of
 `oc_knx_fp.c`, and what the handler of `oc_knx.c` does to the resources that the entries name.
 */
module GroupDispatch {

  import opened CStrings
  import opened GroupObjects
  import opened Options

  const READ := 8
  const WRITE := 16
  const INIT := 32
  const TRANSMISSION := 64
  const UPDATE := 128

  /** `(cflags & flag) > 0`, on a 32-bit word. */
  predicate HasFlag(cflags: int, flag: nat)
    requires flag > 0
  {
    ToUint32(cflags) / flag % 2 == 1
  }

  // --- What the flags of a request mean ---

  function CountOf(ns: seq<int>, n: int): nat {
    if ns == [] then 0 else CountOf(ns[..|ns| - 1], n) + if ns[|ns| - 1] == n then 1 else 0
  }

  lemma {:induction false} CountPositive(ns: seq<int>, n: int)
    ensures CountOf(ns, n) > 0 <==> n in ns
  {
    if ns != [] {
      CountPositive(ns[..|ns| - 1], n);
      assert ns == ns[..|ns| - 1] + [ns[|ns| - 1]];
    }
  }

  lemma {:induction false} SumOfCounts(ns: seq<int>)
    ensures FlagSum(ns) == 8 * CountOf(ns, 1) + 16 * CountOf(ns, 2) + 64 * CountOf(ns, 3) + 128 * CountOf(ns, 4)
        + 32 * CountOf(ns, 5)
  {
    if ns != [] {
      SumOfCounts(ns[..|ns| - 1]);
    }
  }

  /** The flags of the codes that occur: 1 read, 2 write, 3 transmission, 4 update, 5 init. */
  function FlagUnion(ns: seq<int>): nat {
    (if 1 in ns then READ else 0) + (if 2 in ns then WRITE else 0) + (if 3 in ns then TRANSMISSION else 0)
    + (if 4 in ns then UPDATE else 0) + (if 5 in ns then INIT else 0)
  }

  /** The codes are added up, so a list of them means its flags if and only if no code is given twice. */
  lemma SumIsUnion(ns: seq<int>)
    ensures FlagSum(ns) == FlagUnion(ns) <==> forall n | 1 <= n <= 5 :: CountOf(ns, n) <= 1
  {
    hide CountOf, FlagSum;
    SumOfCounts(ns);
    CountPositive(ns, 1);
    CountPositive(ns, 2);
    CountPositive(ns, 3);
    CountPositive(ns, 4);
    CountPositive(ns, 5);
  }

  /** Each flag is set exactly if its code occurs. */
  lemma FlagsMean(ns: seq<int>)
    requires forall n | 1 <= n <= 5 :: CountOf(ns, n) <= 1
    ensures HasFlag(FlagSum(ns), READ) <==> 1 in ns
    ensures HasFlag(FlagSum(ns), WRITE) <==> 2 in ns
    ensures HasFlag(FlagSum(ns), TRANSMISSION) <==> 3 in ns
    ensures HasFlag(FlagSum(ns), UPDATE) <==> 4 in ns
    ensures HasFlag(FlagSum(ns), INIT) <==> 5 in ns
  {
    hide FlagSum, CountOf, HasFlag;
    SumIsUnion(ns);
    BitsOf(if 1 in ns then 1 else 0, if 2 in ns then 1 else 0, if 5 in ns then 1 else 0, if 3 in ns then 1 else 0,
        if 4 in ns then 1 else 0);
  }

  lemma BitsOf(read: nat, write: nat, init: nat, transmission: nat, update: nat)
    requires read < 2 && write < 2 && init < 2 && transmission < 2 && update < 2
    ensures var sum := READ * read + WRITE * write + INIT * init + TRANSMISSION * transmission + UPDATE * update;
            && (HasFlag(sum, READ) <==> read == 1) && (HasFlag(sum, WRITE) <==> write == 1)
                && (HasFlag(sum, INIT) <==> init == 1)
            && (HasFlag(sum, TRANSMISSION) <==> transmission == 1) && (HasFlag(sum, UPDATE) <==> update == 1)
  {
    var sum := 8 * read + 16 * write + 32 * init + 64 * transmission + 128 * update;
    assert sum / 8 == read + 2 * (write + 2 * init + 4 * transmission + 8 * update);
    assert sum / 16 == write + 2 * (init + 2 * transmission + 4 * update);
    assert sum / 32 == init + 2 * (transmission + 2 * update);
    assert sum / 64 == transmission + 2 * update;
    assert sum / 128 == update;
  }

  /** Read given twice comes out as write. */
  lemma TwiceReadIsWrite()
    ensures HasFlag(FlagSum([1, 1]), WRITE) && !HasFlag(FlagSum([1, 1]), READ)
  {
    assert [1, 1][..1] == [1] && [1][..0] == [];
    assert FlagSum([1]) == FlagSum([]) + FlagOf(1);
  }

  // --- Resources ---

  datatype Resource = Resource(uri: string, discoverable: bool, canPut: bool, canGet: bool)

  /** `oc_ri_get_app_resource_by_uri`: the whole uri, its leading slash optional. */
  predicate Names(uri: string, r: Resource) {
    uri != "" && if uri[0] == '/' then r.uri == uri else |r.uri| == |uri| + 1 && r.uri[1..] == uri
  }

  function Resolve(uri: string, resources: seq<Resource>): (r: Option<Resource>)
    ensures r.Some? ==> r.value in resources && Names(uri, r.value)
    ensures r.None? ==> forall x | x in resources :: !Names(uri, x)
  {
    if resources == [] then None
    else if Names(uri, resources[0]) then Some(resources[0])
    else Resolve(uri, resources[1..])
  }

  function Stripped(uri: string): string {
    if |uri| > 1 && uri[0] == '/' then uri[1..] else uri
  }

  /** `oc_belongs_href_to_resource` through `oc_url_cmp`, which compares C strings no further than the href. */
  predicate Belongs(href: string, resources: seq<Resource>) {
    exists r | r in resources :: r.discoverable && Stripped(CString(href, NUL)) <= Stripped(CString(r.uri, NUL))
  }

  // --- Searching the table ---

  predicate Holds(e: Entry, ga: nat) {
    e.id > -1 && ga in e.ga
  }

  /** The first slot at or after `from` that holds `ga`, else the length. */
  function NextHolder(got: seq<Entry>, ga: nat, from: nat): (i: nat)
    requires from <= |got|
    ensures from <= i <= |got|
    ensures i < |got| ==> Holds(got[i], ga)
    ensures forall j | from <= j < i :: !Holds(got[j], ga)
    decreases |got| - from
  {
    if from == |got| || Holds(got[from], ga) then from else NextHolder(got, ga, from + 1)
  }

  lemma {:induction false} NextHolderIs(got: seq<Entry>, ga: nat, from: nat, i: nat)
    requires from <= i <= |got| && (i < |got| ==> Holds(got[i], ga))
    requires forall j | from <= j < i :: !Holds(got[j], ga)
    ensures NextHolder(got, ga, from) == i
    decreases i - from
  {
    if from < i {
      NextHolderIs(got, ga, from + 1, i);
    }
  }

  /** Starting at `from`: the slots that the searches find one after the other. */
  function Found(got: seq<Entry>, ga: nat, from: nat): seq<nat>
    requires from <= |got|
    decreases |got| - from
  {
    var i := NextHolder(got, ga, from);
    if i == |got| then [] else [i] + Found(got, ga, i + 1)
  }

  ghost predicate Ascending(s: seq<nat>) {
    forall i, j | 0 <= i < j < |s| :: s[i] < s[j]
  }

  /** The searches visit exactly the used entries holding the address, ascending, once each, and end. */
  lemma {:induction false} SearchVisitsHolders(got: seq<Entry>, ga: nat, from: nat)
    requires from <= |got|
    ensures Ascending(Found(got, ga, from))
    ensures forall i :: i in Found(got, ga, from) <==> from <= i < |got| && Holds(got[i], ga)
    decreases |got| - from
  {
    hide Holds;
    var i := NextHolder(got, ga, from);
    if i < |got| {
      SearchVisitsHolders(got, ga, i + 1);
      var later := Found(got, ga, i + 1);
      assert Found(got, ga, from) == [i] + later;
      hide Found, NextHolder, Ascending;
      assert forall x :: x in [i] + later <==> x == i || x in later;
      AscendingCons(i, later);
    } else {
      NothingAscends();
    }
  }

  lemma AscendingCons(i: nat, later: seq<nat>)
    requires Ascending(later) && forall x | x in later :: i < x
    ensures Ascending([i] + later)
  {
    assert forall k | 0 <= k < |later| :: later[k] in later;
  }

  lemma NothingAscends()
    ensures Ascending([])
  {
  }

  method HoldsAddress(e: Entry, ga: nat) returns (found: bool)
    ensures found == Holds(e, ga)
  {
    if e.id <= -1 { return false; }
    var j := 0;
    while j < |e.ga|
      invariant j <= |e.ga| && ga !in e.ga[..j]
    {
      if ga == e.ga[j] { return true; }
      j := j + 1;
    }
    return false;
  }

  /** `oc_core_find_group_object_table_index` */
  method FindIndex(got: array<Entry>, ga: nat) returns (i: int)
    ensures i == if NextHolder(got[..], ga, 0) < got.Length then NextHolder(got[..], ga, 0) else -1
  {
    i := FindFrom(got, ga, 0);
  }

  method FindFrom(got: array<Entry>, ga: nat, from: nat) returns (i: int)
    requires from <= got.Length
    ensures i == if NextHolder(got[..], ga, from) < got.Length then NextHolder(got[..], ga, from) else -1
  {
    i := from;
    while i < got.Length
      invariant from <= i <= got.Length && forall j | from <= j < i :: !Holds(got[j], ga)
    {
      var found := HoldsAddress(got[i], ga);
      if found {
        NextHolderIs(got[..], ga, from, i);
        return;
      }
      i := i + 1;
    }
    NextHolderIs(got[..], ga, from, i);
    i := -1;
  }

  /** `oc_core_find_next_group_object_table_index` */
  method FindNextIndex(got: array<Entry>, ga: nat, current: int) returns (i: int)
    requires -1 <= current < got.Length
    ensures current == -1 ==> i == -1
    ensures current != -1 ==>
              var next := NextHolder(got[..], ga, current + 1);
              i == if next < got.Length then next else -1
  {
    if current == -1 { return -1; }
    i := FindFrom(got, ga, current + 1);
  }

  // --- Receiving ---

  datatype Device = Device(ia: int, iid: int, lsm: LoadState)

  /** `oc_is_device_in_runtime` */
  predicate InRuntime(device: Device) {
    device.ia > 0 && device.iid > 0 && device.lsm == LoadedState
  }

  datatype Message = Write | Report | ReadRequest | Unknown

  function MessageOf(st: string): Message {
    if st == "w" then Write else if st == "a" || st == "rp" then Report else if st == "r" then ReadRequest else Unknown
  }

  /** What the handler does: call a resource's handler, or send on the object's own account. */
  datatype Effect = Put(index: nat) | Get(index: nat) | Send(scope: nat, url: string, st: string, checked: bool)

  /** Every send goes out in scope 5, and before that in scope 2 where the build has it. */
  function Sends(scope2: bool, url: string, st: string, checked: bool): seq<Effect> {
    (if scope2 then [Send(2, url, st, checked)] else []) + [Send(5, url, st, checked)]
  }

  function PutAndForward(i: nat, e: Entry, r: Resource, scope2: bool): seq<Effect> {
    if !r.canPut then []
    else [Put(i)] + if HasFlag(e.cflags, TRANSMISSION) then Sends(scope2, e.href, "w", true) else []
  }

  function Reaction(i: nat, e: Entry, r: Resource, m: Message, scope2: bool): seq<Effect> {
    if m.Write? && HasFlag(e.cflags, WRITE) then PutAndForward(i, e, r, scope2)
    else if m.Report? && HasFlag(e.cflags, UPDATE) then PutAndForward(i, e, r, scope2)
    else if m.ReadRequest? && HasFlag(e.cflags, READ) then
      (if r.canGet then [Get(i)] else []) + Sends(scope2, e.href, "a", false)
    else []
  }

  /** An entry whose href names no resource ends the whole handling. */
  predicate Stops(e: Entry, resources: seq<Resource>) {
    e.href != "" && Resolve(e.href, resources).None?
  }

  /** What the loop over the entries does, from slot `from`. */
  function Reactions(got: seq<Entry>, ga: nat, m: Message, resources: seq<Resource>, scope2: bool,
                     from: nat): seq<Effect>
    requires from <= |got|
    decreases |got| - from
  {
    var i := NextHolder(got, ga, from);
    if i == |got| || Stops(got[i], resources) then []
    else ReactionOf(i, got[i], m, resources, scope2) + Reactions(got, ga, m, resources, scope2, i + 1)
  }

  /** What one entry contributes; an entry without href contributes nothing. */
  function ReactionOf(i: nat, e: Entry, m: Message, resources: seq<Resource>, scope2: bool): seq<Effect>
    requires !Stops(e, resources)
  {
    if e.href == "" then [] else Reaction(i, e, Resolve(e.href, resources).value, m, scope2)
  }

  lemma ReactionsOnce(got: seq<Entry>, ga: nat, m: Message, resources: seq<Resource>, scope2: bool, from: nat)
    requires from <= |got|
    ensures var i := NextHolder(got, ga, from);
            Reactions(got, ga, m, resources, scope2, from)
            == if i == |got| || Stops(got[i], resources) then []
               else ReactionOf(i, got[i], m, resources, scope2) + Reactions(got, ga, m, resources, scope2, i + 1)
  {}

  /** All effects of a received message. */
  function Received(got: seq<Entry>, device: Device, st: string, ga: nat, resources: seq<Resource>,
                    scope2: bool): seq<Effect> {
    if InRuntime(device) then Reactions(got, ga, MessageOf(st), resources, scope2, 0) else []
  }

  /** `oc_core_knx_k_post_handler`, once it knows what was received. */
  method Receive(got: array<Entry>, device: Device, st: string, ga: nat, resources: seq<Resource>, scope2: bool)
    returns (effects: seq<Effect>)
    ensures effects == Received(got[..], device, st, ga, resources, scope2)
  {
    hide Reactions;
    if !InRuntime(device) { return []; }
    effects := ReactToAll(got, MessageOf(st), ga, resources, scope2);
  }

  /** Its loop over the holders of the address. */
  method ReactToAll(got: array<Entry>, m: Message, ga: nat, resources: seq<Resource>, scope2: bool)
    returns (effects: seq<Effect>)
    ensures effects == Reactions(got[..], ga, m, resources, scope2, 0)
  {
    hide Holds, Reactions, NextHolder, Stops, ReactionOf;
    effects := [];
    ghost var g, from := got[..], 0;
    var index := FindIndex(got, ga);
    while index != -1
      invariant 0 <= from <= got.Length && -1 <= index < got.Length
      invariant index == if NextHolder(g, ga, from) < got.Length then NextHolder(g, ga, from) else -1
      invariant effects + Reactions(g, ga, m, resources, scope2, from) == Reactions(g, ga, m, resources, scope2, 0)
      decreases got.Length - from
    {
      ReactionsOnce(g, ga, m, resources, scope2, from);
      var stop, more := ReactAt(index, got[index], m, resources, scope2);
      if stop {
        assert effects + [] == effects;
        return;
      }
      Regroup(effects, more, Reactions(g, ga, m, resources, scope2, index + 1));
      effects := effects + more;
      from := index + 1;
      index := FindNextIndex(got, ga, index);
    }
    ReactionsOnce(g, ga, m, resources, scope2, from);
    assert effects + [] == effects;
  }

  /** One entry: nothing without an href, and an end if its href names no resource. */
  method ReactAt(index: nat, e: Entry, m: Message, resources: seq<Resource>, scope2: bool)
    returns (stop: bool, more: seq<Effect>)
    ensures stop == Stops(e, resources)
    ensures !stop ==> more == ReactionOf(index, e, m, resources, scope2)
  {
    hide HasFlag, Names, Reaction, Resolve;
    stop, more := false, [];
    if e.href != "" {
      var resource := Resolve(e.href, resources);
      if resource.None? { return true, []; }
      more := ReactTo(index, e, resource.value, m, scope2);
    }
  }

  lemma Regroup(a: seq<Effect>, b: seq<Effect>, c: seq<Effect>)
    ensures a + b + c == a + (b + c)
  {}

  /** The three cases for one entry. */
  method ReactTo(index: nat, e: Entry, r: Resource, m: Message, scope2: bool) returns (effects: seq<Effect>)
    ensures effects == Reaction(index, e, r, m, scope2)
  {
    effects := [];
    if HasFlag(e.cflags, WRITE) && m.Write? {
      if r.canPut {
        effects := effects + [Put(index)];
        if HasFlag(e.cflags, TRANSMISSION) { effects := effects + Sends(scope2, e.href, "w", true); }
      }
    }
    if HasFlag(e.cflags, UPDATE) && m.Report? {
      if r.canPut {
        effects := effects + [Put(index)];
        if HasFlag(e.cflags, TRANSMISSION) { effects := effects + Sends(scope2, e.href, "w", true); }
      }
    }
    if HasFlag(e.cflags, READ) && m.ReadRequest? {
      if r.canGet { effects := effects + [Get(index)]; }
      effects := effects + Sends(scope2, e.href, "a", false);
    }
  }

  // --- What receiving means ---

  /** The slots whose put handler is called, in order. */
  function Puts(effects: seq<Effect>): seq<nat> {
    if effects == [] then [] else (if effects[0].Put? then [effects[0].index] else []) + Puts(effects[1..])
  }

  lemma {:induction false} PutsBoth(a: seq<Effect>, b: seq<Effect>)
    ensures Puts(a + b) == Puts(a) + Puts(b)
  {
    if a == [] {
      assert a + b == b;
    } else {
      var c := a + b;
      assert c != [] && c[0] == a[0] && c[1..] == a[1..] + b;
      PutsBoth(a[1..], b);
      var here := if a[0].Put? then [a[0].index] else [];
      assert Puts(c) == here + Puts(c[1..]) && Puts(a) == here + Puts(a[1..]);
    }
  }

  lemma SendsPutNothing(scope2: bool, url: string, st: string, checked: bool)
    ensures Puts(Sends(scope2, url, st, checked)) == []
  {
    PutsBoth([Send(2, url, st, checked)], [Send(5, url, st, checked)]);
    assert [] + [Send(5, url, st, checked)] == [Send(5, url, st, checked)];
  }

  lemma ForwardPuts(i: nat, e: Entry, r: Resource, scope2: bool)
    ensures Puts(PutAndForward(i, e, r, scope2)) == if r.canPut then [i] else []
  {
    hide HasFlag, Sends;
    SendsPutNothing(scope2, e.href, "w", true);
    PutsBoth([Put(i)], if HasFlag(e.cflags, TRANSMISSION) then Sends(scope2, e.href, "w", true) else []);
  }

  lemma ReactionPuts(i: nat, e: Entry, r: Resource, m: Message, scope2: bool)
    ensures Puts(Reaction(i, e, r, m, scope2))
         == if r.canPut && ((m.Write? && HasFlag(e.cflags, WRITE)) || (m.Report? && HasFlag(e.cflags, UPDATE)))
            then [i] else []
  {
    hide HasFlag, Sends, PutAndForward;
    ForwardPuts(i, e, r, scope2);
    SendsPutNothing(scope2, e.href, "a", false);
    PutsBoth(if r.canGet then [Get(i)] else [], Sends(scope2, e.href, "a", false));
  }

  lemma ReactionOfPuts(i: nat, got: seq<Entry>, ga: nat, m: Message, resources: seq<Resource>, scope2: bool)
    requires i < |got| && Holds(got[i], ga) && !Stops(got[i], resources)
    ensures Puts(ReactionOf(i, got[i], m, resources, scope2)) == if Takes(got[i], ga, m, resources) then [i] else []
  {
    hide HasFlag, Reaction;
    if got[i].href != "" { ReactionPuts(i, got[i], Resolve(got[i].href, resources).value, m, scope2); }
  }

  /** The first entry that ends the handling, or the length. */
  function StopAt(got: seq<Entry>, ga: nat, resources: seq<Resource>, from: nat): (i: nat)
    requires from <= |got|
    ensures from <= i <= |got|
    ensures i < |got| ==> Holds(got[i], ga) && Stops(got[i], resources)
    ensures forall j | from <= j < i :: !(Holds(got[j], ga) && Stops(got[j], resources))
    decreases |got| - from
  {
    if from == |got| || (Holds(got[from], ga) && Stops(got[from], resources)) then from
    else StopAt(got, ga, resources, from + 1)
  }

  /** Whether an entry is to take the value of a message: it holds the address, has the flag and a put handler. */
  ghost predicate Takes(e: Entry, ga: nat, m: Message, resources: seq<Resource>) {
    && Holds(e, ga) && e.href != "" && Resolve(e.href, resources).Some?
    && Resolve(e.href, resources).value.canPut
    && ((m.Write? && HasFlag(e.cflags, WRITE)) || (m.Report? && HasFlag(e.cflags, UPDATE)))
  }

  ghost function Takers(got: seq<Entry>, ga: nat, m: Message, resources: seq<Resource>): set<nat> {
    set i: nat | i < |got| && Takes(got[i], ga, m, resources)
  }

  ghost predicate ExactlyBetween(puts: seq<nat>, takers: set<nat>, from: nat, stop: nat) {
    Ascending(puts) && forall i :: i in puts <==> from <= i < stop && i in takers
  }

  lemma OneMore(later: seq<nat>, takers: set<nat>, from: nat, i: nat, stop: nat)
    requires from <= i < stop && ExactlyBetween(later, takers, i + 1, stop)
    requires forall j | from <= j < i :: j !in takers
    ensures ExactlyBetween((if i in takers then [i] else []) + later, takers, from, stop)
  {
    if i in takers {
      assert forall k | 0 <= k < |later| :: later[k] in later;
      assert forall k :: k in [i] + later <==> k == i || k in later;
    } else {
      assert [] + later == later;
    }
  }

  lemma {:induction false} ReactionsPut(got: seq<Entry>, ga: nat, m: Message, resources: seq<Resource>, scope2: bool,
                                        from: nat)
    requires from <= |got|
    ensures ExactlyBetween(Puts(Reactions(got, ga, m, resources, scope2, from)), Takers(got, ga, m, resources),
                           from, StopAt(got, ga, resources, from))
    decreases |got| - from
  {
    hide Stops, ReactionOf, Reactions, NextHolder, Takes, Takers, Holds, ExactlyBetween, StopAt;
    var i, takers, stop := NextHolder(got, ga, from), Takers(got, ga, m, resources), StopAt(got, ga, resources, from);
    ReactionsOnce(got, ga, m, resources, scope2, from);
    NoTakers(got, ga, m, resources, from, i);
    if i == |got| || Stops(got[i], resources) {
      assert stop == i by { if i < |got| { StopLater(got, ga, resources, from, i); } }
      NoneBetween(takers, from, stop);
    } else {
      StopLater(got, ga, resources, from, i);
      ReactionsPut(got, ga, m, resources, scope2, i + 1);
      ReactionOfPuts(i, got, ga, m, resources, scope2);
      TakerIs(got, ga, m, resources, i);
      var later := Reactions(got, ga, m, resources, scope2, i + 1);
      PutsBoth(ReactionOf(i, got[i], m, resources, scope2), later);
      OneMore(Puts(later), takers, from, i, stop);
    }
  }

  lemma NoneBetween(takers: set<nat>, from: nat, stop: nat)
    requires forall j | from <= j < stop :: j !in takers
    ensures ExactlyBetween([], takers, from, stop)
  {
  }

  lemma TakerIs(got: seq<Entry>, ga: nat, m: Message, resources: seq<Resource>, i: nat)
    requires i < |got|
    ensures i in Takers(got, ga, m, resources) <==> Takes(got[i], ga, m, resources)
  {
  }

  lemma NoTakers(got: seq<Entry>, ga: nat, m: Message, resources: seq<Resource>, from: nat, to: nat)
    requires from <= to <= |got| && forall j | from <= j < to :: !Holds(got[j], ga)
    ensures forall j | from <= j < to :: j !in Takers(got, ga, m, resources)
  {
    hide Holds, Resolve, HasFlag;
  }

  lemma StopLater(got: seq<Entry>, ga: nat, resources: seq<Resource>, from: nat, i: nat)
    requires from <= i < |got| && i == NextHolder(got, ga, from)
    ensures StopAt(got, ga, resources, from) == if Stops(got[i], resources) then i
        else StopAt(got, ga, resources, i + 1)
  {
    var stop := StopAt(got, ga, resources, from);
    assert stop >= i;
  }

  /**
   A received message calls put handlers only in runtime state, of each entry at most once and in
   table order, and of exactly the entries that are to take the value and come before the first
   holder of the address whose href names no resource.
   */
  lemma ReceivedPuts(got: seq<Entry>, device: Device, st: string, ga: nat, resources: seq<Resource>, scope2: bool)
    ensures var puts := Puts(Received(got, device, st, ga, resources, scope2));
            && Ascending(puts)
            && forall i :: i in puts <==> && 0 <= i < StopAt(got, ga, resources, 0) && InRuntime(device)
                                          && Takes(got[i], ga, MessageOf(st), resources)
  {
    ReactionsPut(got, ga, MessageOf(st), resources, scope2, 0);
  }

  /** Whether entry `i` is the reason for an effect of a message. */
  ghost predicate Causes(i: nat, e: Entry, r: Resource, m: Message, scope2: bool, x: Effect) {
    var takes := r.canPut && ((m.Write? && HasFlag(e.cflags, WRITE)) || (m.Report? && HasFlag(e.cflags, UPDATE)));
    var answers := m.ReadRequest? && HasFlag(e.cflags, READ);
    match x
    case Put(index) => index == i && takes
    case Get(index) => index == i && answers && r.canGet
    case Send(scope, url, st, checked) =>
      && url == e.href && (scope == 5 || (scope2 && scope == 2))
      && ((st == "w" && checked && takes && HasFlag(e.cflags, TRANSMISSION)) || (st == "a" && !checked && answers))
  }

  lemma ReactionIs(i: nat, e: Entry, r: Resource, m: Message, scope2: bool)
    ensures forall x :: x in Reaction(i, e, r, m, scope2) <==> Causes(i, e, r, m, scope2, x)
  {
    hide HasFlag;
    forall x, st: string, checked: bool
      ensures x in Sends(scope2, e.href, st, checked)
          <==> x == Send(5, e.href, st, checked) || (scope2 && x == Send(2, e.href, st, checked))
    {
    }
    hide Sends;
  }

  /** Whether entry `i` holds the address, names a resource and is the reason for an effect. */
  ghost predicate CausesAt(got: seq<Entry>, i: nat, ga: nat, m: Message, resources: seq<Resource>, scope2: bool,
                           x: Effect)
    requires i < |got|
  {
    && Holds(got[i], ga) && got[i].href != "" && Resolve(got[i].href, resources).Some?
    && Causes(i, got[i], Resolve(got[i].href, resources).value, m, scope2, x)
  }

  lemma ReactionOfIs(got: seq<Entry>, i: nat, ga: nat, m: Message, resources: seq<Resource>, scope2: bool, x: Effect)
    requires i < |got| && Holds(got[i], ga) && !Stops(got[i], resources)
    ensures x in ReactionOf(i, got[i], m, resources, scope2) <==> CausesAt(got, i, ga, m, resources, scope2, x)
  {
    hide Reaction, Causes, Names;
    if got[i].href != "" { ReactionIs(i, got[i], Resolve(got[i].href, resources).value, m, scope2); }
  }

  lemma {:induction false} ReactionsAre(got: seq<Entry>, ga: nat, m: Message, resources: seq<Resource>, scope2: bool,
                                        from: nat, x: Effect)
    requires from <= |got|
    ensures x in Reactions(got, ga, m, resources, scope2, from)
       <==> exists i | from <= i < StopAt(got, ga, resources, from) :: CausesAt(got, i, ga, m, resources, scope2, x)
    decreases |got| - from
  {
    hide Stops, ReactionOf, Reactions, StopAt, Causes, Resolve, Names;
    var i := NextHolder(got, ga, from);
    ReactionsOnce(got, ga, m, resources, scope2, from);
    assert forall j | from <= j < i :: !CausesAt(got, j, ga, m, resources, scope2, x);
    hide NextHolder;
    if i < |got| {
      StopLater(got, ga, resources, from, i);
      if !Stops(got[i], resources) {
        ReactionsAre(got, ga, m, resources, scope2, i + 1, x);
        ReactionOfIs(got, i, ga, m, resources, scope2, x);
        hide CausesAt, Holds;
        assert x in ReactionOf(i, got[i], m, resources, scope2) + Reactions(got, ga, m, resources, scope2, i + 1)
          <==> x in ReactionOf(i, got[i], m, resources, scope2) || x in Reactions(got, ga, m, resources, scope2, i + 1);
      }
    }
  }

  /**
   What a received message does, all of it: values are taken as `ReceivedPuts` says and sent on by
   entries that transmit; a read request fetches the value and sends it, without looking at that flag.
   */
  lemma ReceivedDoes(got: seq<Entry>, device: Device, st: string, ga: nat, resources: seq<Resource>, scope2: bool,
                     x: Effect)
    ensures x in Received(got, device, st, ga, resources, scope2)
       <==> InRuntime(device) && exists i | 0 <= i < StopAt(got, ga, resources, 0) ::
           CausesAt(got, i, ga, MessageOf(st), resources, scope2, x)
  {
    hide CausesAt, StopAt, Reactions;
    ReactionsAre(got, ga, MessageOf(st), resources, scope2, 0, x);
  }

  /**
   In runtime, every entry that is to take the value gets it if and only if none of them comes after
   a holder of the address whose href names no resource.
   */
  lemma AllTakersServed(got: seq<Entry>, device: Device, st: string, ga: nat, resources: seq<Resource>, scope2: bool)
    requires InRuntime(device)
    ensures (forall i | 0 <= i < |got| && Takes(got[i], ga, MessageOf(st), resources)
               :: i in Puts(Received(got, device, st, ga, resources, scope2)))
       <==> !exists s, i | 0 <= s < i < |got| ::
           Holds(got[s], ga) && Stops(got[s], resources) && Takes(got[i], ga, MessageOf(st), resources)
  {
    hide Holds, Takes, Stops;
    ReceivedPuts(got, device, st, ga, resources, scope2);
    var stop := StopAt(got, ga, resources, 0);
    if i :| stop <= i < |got| && Takes(got[i], ga, MessageOf(st), resources) {
      assert i != stop by { TakerDoesNotStop(got[i], ga, MessageOf(st), resources); }
    }
  }

  lemma TakerDoesNotStop(e: Entry, ga: nat, m: Message, resources: seq<Resource>)
    requires Takes(e, ga, m, resources)
    ensures !Stops(e, resources)
  {}

  lemma BeginningBelongs(href: string, r: Resource)
    requires NUL !in href && NUL !in r.uri && |href| > 1 && |r.uri| > 1 && href <= r.uri && href[0] == '/'
    requires r.discoverable
    ensures Belongs(href, [r])
  {
    hide CString;
    assert CString(href, NUL) == href && CString(r.uri, NUL) == r.uri;
    assert r in [r];
  }

  lemma BeginningAccepted(e: Entry, r: Resource)
    requires NUL !in e.href && NUL !in r.uri && 1 < |e.href| <= 30 && |r.uri| > 1 && e.href <= r.uri && e.href[0] == '/'
    requires r.discoverable && e.ga != [] && e.cflags != 0
    ensures Acceptable(e, href => Belongs(href, [r]))
  {
    hide Belongs;
    BeginningBelongs(e.href, r);
  }

  /**
   The check made when an entry is stored is weaker than the search made when it is used: an href
   that is only the beginning of a resource's uri, as "/p" of "/p/light", is accepted, and then starves the
   entry of the resource after it.
   */
  lemma AcceptedHrefStopsDispatch(r: Resource, first: Entry, second: Entry, ga: nat)
    requires r.discoverable && r.canPut && NUL !in r.uri && |r.uri| <= 30
    requires first.href <= r.uri == second.href && 1 < |first.href| < |r.uri| && r.uri[0] == '/'
    requires Holds(first, ga) && Holds(second, ga) && first.cflags != 0 && HasFlag(second.cflags, WRITE)
    ensures Acceptable(first, href => Belongs(href, [r])) && Acceptable(second, href => Belongs(href, [r]))
    ensures Takes(second, ga, MessageOf("w"), [r])
    ensures Received([first, second], Device(1, 1, LoadedState), "w", ga, [r], false) == []
  {
    BeginningAccepted(first, r);
    BeginningAccepted(second, r);
    hide Acceptable, Received, Takes;
    StarvesLater(first, second, ga, r);
  }

  lemma StarvesLater(first: Entry, second: Entry, ga: nat, r: Resource)
    requires Holds(first, ga) && first.href != "" && !Names(first.href, r)
    requires Holds(second, ga) && second.href != "" && Names(second.href, r) && r.canPut
        && HasFlag(second.cflags, WRITE)
    ensures Takes(second, ga, MessageOf("w"), [r])
    ensures Received([first, second], Device(1, 1, LoadedState), "w", ga, [r], false) == []
  {
    hide Names, HasFlag;
    assert [r][1..] == [];
    assert Resolve(second.href, [r]) == Some(r) && Resolve(first.href, [r]) == None;
    NextHolderIs([first, second], ga, 0, 0);
  }
}
