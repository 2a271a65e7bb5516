/**
 What received and issued messages do, read off the message's text, the bits of the flag words, the uris
 and the tables: bit 8 is read, 16 write, 32 init, 64 transmission and 128 update.
 */
module GroupMessages {
  import opened GroupDispatch
  import opened GroupObjects
  import opened GroupRequests
  import opened GroupSending
  import opened Options

  // --- Bits, uris and groups ---

  predicate Bit(word: int, value: nat)
    requires value > 0
  {
    word / value % 2 == 1
  }

  lemma FlagsAreBits(word: int)
    ensures HasFlag(word, READ) <==> Bit(word, 8)
    ensures HasFlag(word, WRITE) <==> Bit(word, 16)
    ensures HasFlag(word, TRANSMISSION) <==> Bit(word, 64)
    ensures HasFlag(word, UPDATE) <==> Bit(word, 128)
  {
    var q, r := word / 0x1_0000_0000, word % 0x1_0000_0000;
    BitOfSum8(0x1000_0000 * q, r);
    BitOfSum16(0x800_0000 * q, r);
    BitOfSum64(0x200_0000 * q, r);
    BitOfSum128(0x100_0000 * q, r);
  }

  lemma EvenAdds(x: int, e: int)
    ensures (2 * x + e) % 2 == e % 2
  {
  }

  lemma BitOfSum8(x: int, r: int)
    ensures (16 * x + r) / 8 % 2 == r / 8 % 2
  {
    var d, e := (16 * x + r) / 8, r / 8;
    assert -8 < 8 * (2 * x + e - d) < 8;
    assert d == 2 * x + e;
    EvenAdds(x, e);
  }

  lemma BitOfSum16(x: int, r: int)
    ensures (32 * x + r) / 16 % 2 == r / 16 % 2
  {
    var d, e := (32 * x + r) / 16, r / 16;
    assert -16 < 16 * (2 * x + e - d) < 16;
    assert d == 2 * x + e;
    EvenAdds(x, e);
  }

  lemma BitOfSum64(x: int, r: int)
    ensures (128 * x + r) / 64 % 2 == r / 64 % 2
  {
    var d, e := (128 * x + r) / 64, r / 64;
    assert -64 < 64 * (2 * x + e - d) < 64;
    assert d == 2 * x + e;
    EvenAdds(x, e);
  }

  lemma BitOfSum128(x: int, r: int)
    ensures (256 * x + r) / 128 % 2 == r / 128 % 2
  {
    var d, e := (256 * x + r) / 128, r / 128;
    assert -128 < 128 * (2 * x + e - d) < 128;
    assert d == 2 * x + e;
    EvenAdds(x, e);
  }

  /** The uri of a resource, or that without its first character if that is not a slash. */
  ghost predicate Naming(uri: string, full: string) {
    uri != "" && if uri[0] == '/' then full == uri else exists c :: full == [c] + uri
  }

  /** Resource `k` is the first that the uri names. */
  ghost predicate NamedAt(uri: string, resources: seq<Resource>, k: nat) {
    k < |resources| && Naming(uri, resources[k].uri) && forall j | 0 <= j < k :: !Naming(uri, resources[j].uri)
  }

  ghost predicate NamesNone(uri: string, resources: seq<Resource>) {
    forall r | r in resources :: !Naming(uri, r.uri)
  }

  lemma NamingIs(uri: string, r: Resource)
    ensures Names(uri, r) <==> Naming(uri, r.uri)
  {
    if Names(uri, r) && uri[0] != '/' { assert r.uri == [r.uri[0]] + uri; }
  }

  lemma {:induction false} ResolvesTo(uri: string, resources: seq<Resource>)
    ensures if Resolve(uri, resources).None? then NamesNone(uri, resources)
            else exists k: nat | k < |resources| ::
                NamedAt(uri, resources, k) && resources[k] == Resolve(uri, resources).value
  {
    hide Names, Naming;
    if resources != [] {
      NamingIs(uri, resources[0]);
      if !Names(uri, resources[0]) {
        ResolvesTo(uri, resources[1..]);
        if Resolve(uri, resources[1..]).Some? {
          var k: nat :| k < |resources[1..]| && NamedAt(uri, resources[1..], k)
              && resources[1..][k] == Resolve(uri, resources[1..]).value;
          NamedLater(uri, resources, k);
        }
      } else {
        assert NamedAt(uri, resources, 0);
      }
    }
  }

  lemma NamedLater(uri: string, resources: seq<Resource>, k: nat)
    requires resources != [] && !Naming(uri, resources[0].uri) && NamedAt(uri, resources[1..], k)
    ensures NamedAt(uri, resources, k + 1)
  {
    hide Naming;
    forall j | 0 <= j < k + 1 ensures !Naming(uri, resources[j].uri) {
      assert j > 0 ==> resources[j] == resources[1..][j - 1];
    }
  }

  lemma NamedOnce(uri: string, resources: seq<Resource>, k: nat)
    requires NamedAt(uri, resources, k)
    ensures Resolve(uri, resources) == Some(resources[k])
  {
    hide Resolve, Naming;
    ResolvesTo(uri, resources);
    assert resources[k] in resources;
    assert Resolve(uri, resources).Some?;
    var l: nat :| l < |resources| && NamedAt(uri, resources, l) && resources[l] == Resolve(uri, resources).value;
    assert l == k;
  }

  lemma NoneNamed(uri: string, resources: seq<Resource>)
    requires NamesNone(uri, resources)
    ensures Resolve(uri, resources) == None
  {
    hide Resolve, Naming;
    ResolvesTo(uri, resources);
  }

  predicate Running(device: Device) {
    device.ia > 0 && device.iid > 0 && device.lsm == LoadedState
  }

  // --- Receiving ---

  /** A used entry with the address, whose href names a resource, none before it naming nothing. */
  ghost predicate Reached(got: seq<Entry>, ga: nat, resources: seq<Resource>, i: nat, k: nat) {
    && i < |got| && got[i].id >= 0 && ga in got[i].ga && NamedAt(got[i].href, resources, k)
    && forall j | 0 <= j < i && got[j].id >= 0 && ga in got[j].ga && got[j].href != "" ::
         !NamesNone(got[j].href, resources)
  }

  /** What a message "w", "a", "rp" or "r" does by way of entry `i` with resource `r`. */
  predicate Effected(i: nat, e: Entry, r: Resource, st: string, scope2: bool, x: Effect) {
    var stored := r.canPut && ((st == "w" && Bit(e.cflags, 16)) || ((st == "a" || st == "rp") && Bit(e.cflags, 128)));
    match x
    case Put(index) => index == i && stored
    case Get(index) => index == i && st == "r" && Bit(e.cflags, 8) && r.canGet
    case Send(scope, url, text, checked) =>
      && url == e.href && (scope == 5 || (scope == 2 && scope2))
      && (if checked then text == "w" && stored && Bit(e.cflags, 64) else text == "a" && st == "r" && Bit(e.cflags, 8))
  }

  lemma CausesMeans(i: nat, e: Entry, r: Resource, st: string, scope2: bool, x: Effect)
    ensures Causes(i, e, r, MessageOf(st), scope2, x) <==> Effected(i, e, r, st, scope2, x)
  {
    FlagsAreBits(e.cflags);
    hide HasFlag, Bit;
  }

  lemma ReachedMeans(got: seq<Entry>, ga: nat, resources: seq<Resource>, i: nat)
    ensures (exists k: nat | k < |resources| :: Reached(got, ga, resources, i, k))
       <==> i < StopAt(got, ga, resources, 0) && Holds(got[i], ga) && got[i].href != ""
            && Resolve(got[i].href, resources).Some?
  {
    hide Resolve, Naming, StopAt, NamesNone, NamedAt;
    if k: nat :| k < |resources| && Reached(got, ga, resources, i, k) {
      NamedOnce(got[i].href, resources, k);
      NamedHasText(got[i].href, resources, k);
      var stop := StopAt(got, ga, resources, 0);
      if stop <= i {
        ResolvesTo(got[stop].href, resources);
      }
    }
    if i < StopAt(got, ga, resources, 0) && Holds(got[i], ga) && Resolve(got[i].href, resources).Some? {
      ResolvesTo(got[i].href, resources);
      var k: nat :| k < |resources| && NamedAt(got[i].href, resources, k);
      forall j | 0 <= j < i && got[j].id >= 0 && ga in got[j].ga && got[j].href != ""
        ensures !NamesNone(got[j].href, resources)
      {
        assert !(Holds(got[j], ga) && Stops(got[j], resources));
        if NamesNone(got[j].href, resources) { NoneNamed(got[j].href, resources); }
      }
      assert Reached(got, ga, resources, i, k);
    }
  }

  lemma NamedHasText(uri: string, resources: seq<Resource>, k: nat)
    requires NamedAt(uri, resources, k)
    ensures uri != ""
  {
  }

  lemma EffectedMeans(got: seq<Entry>, ga: nat, resources: seq<Resource>, i: nat, k: nat, st: string, scope2: bool,
                      x: Effect)
    requires Reached(got, ga, resources, i, k)
    ensures CausesAt(got, i, ga, MessageOf(st), resources, scope2, x) <==>
              Effected(i, got[i], resources[k], st, scope2, x)
  {
    NamedOnce(got[i].href, resources, k);
    NamedHasText(got[i].href, resources, k);
    hide NamedAt, Effected, Causes, Resolve, NamesNone, MessageOf;
    CausesMeans(i, got[i], resources[k], st, scope2, x);
  }

  lemma CauseHolds(got: seq<Entry>, i: nat, ga: nat, m: Message, resources: seq<Resource>, scope2: bool, x: Effect)
    requires i < |got| && CausesAt(got, i, ga, m, resources, scope2, x)
    ensures Holds(got[i], ga) && got[i].href != "" && Resolve(got[i].href, resources).Some?
  {
  }

  /**
   Everything a received message does: in runtime only, by way of the used entries with the address up to
   one whose href names no resource. "w" stores into those with the write flag, "a" and "rp" into those with
   the update flag, and the value goes on by those that transmit; "r" is answered by those with the read
   flag; any other text does nothing.
   */
  lemma ReceivedText(got: seq<Entry>, device: Device, st: string, ga: nat, resources: seq<Resource>, scope2: bool,
                     x: Effect)
    ensures x in Received(got, device, st, ga, resources, scope2)
       <==> Running(device) && exists i: nat, k: nat | i < |got| && k < |resources| ::
              Reached(got, ga, resources, i, k) && Effected(i, got[i], resources[k], st, scope2, x)
  {
    hide CausesAt, StopAt, Reached, Effected, Resolve, Received, MessageOf, Holds;
    ReceivedDoes(got, device, st, ga, resources, scope2, x);
    if i: nat :| i < StopAt(got, ga, resources, 0) && CausesAt(got, i, ga, MessageOf(st), resources, scope2, x) {
      CauseHolds(got, i, ga, MessageOf(st), resources, scope2, x);
      ReachedMeans(got, ga, resources, i);
      var k: nat :| k < |resources| && Reached(got, ga, resources, i, k);
      EffectedMeans(got, ga, resources, i, k, st, scope2, x);
    }
    if i: nat, k: nat :|
      i < |got| && k < |resources| && Reached(got, ga, resources, i, k)
      && Effected(i, got[i], resources[k], st, scope2, x)
    {
      ReachedMeans(got, ga, resources, i);
      EffectedMeans(got, ga, resources, i, k, st, scope2, x);
    }
  }

  /** Put handlers are called in table order, each entry's once at most. */
  lemma ReceivedOrder(got: seq<Entry>, device: Device, st: string, ga: nat, resources: seq<Resource>, scope2: bool)
    ensures var puts := Puts(Received(got, device, st, ga, resources, scope2));
            && (forall a, b | 0 <= a < b < |puts| :: puts[a] < puts[b])
            && forall i: nat :: i in puts <==> Put(i) in Received(got, device, st, ga, resources, scope2)
  {
    hide Received;
    ReceivedPuts(got, device, st, ga, resources, scope2);
    PutsAre(Received(got, device, st, ga, resources, scope2));
  }

  lemma {:induction false} PutsAre(effects: seq<Effect>)
    ensures forall i: nat :: i in Puts(effects) <==> Put(i) in effects
  {
    if effects != [] { PutsAre(effects[1..]); }
  }

  // --- Sending ---

  /** Group `k` is the first with the address. */
  predicate FirstGroup(groups: seq<Group>, ga: nat, k: nat) {
    k < |groups| && ga in groups[k].ga && forall j | 0 <= j < k :: ga !in groups[j].ga
  }

  /** The number of the first group with the address. */
  ghost predicate NumberedAt(groups: seq<Group>, ga: nat, n: nat) {
    exists k: nat :: FirstGroup(groups, ga, k) && groups[k].grpid == n
  }

  /** What a sender addresses: the group's number, or the group address itself without one. */
  ghost predicate SentTo(groups: seq<Group>, ga: nat, n: nat) {
    if exists m: nat :: m > 0 && NumberedAt(groups, ga, m) then NumberedAt(groups, ga, n) else n == ga
  }

  lemma {:induction false} GroupNumberIs(groups: seq<Group>, ga: nat)
    ensures if exists g :: g in groups && ga in g.ga then NumberedAt(groups, ga, GroupNumber(groups, ga))
            else GroupNumber(groups, ga) == 0
  {
    if groups != [] {
      GroupNumberIs(groups[1..], ga);
      if ga in groups[0].ga {
        assert FirstGroup(groups, ga, 0);
      } else if NumberedAt(groups[1..], ga, GroupNumber(groups[1..], ga)) {
        var k: nat :| FirstGroup(groups[1..], ga, k) && groups[1..][k].grpid == GroupNumber(groups[1..], ga);
        forall j | 0 <= j < k + 1 ensures ga !in groups[j].ga {
          assert j > 0 ==> groups[j] == groups[1..][j - 1];
        }
        assert FirstGroup(groups, ga, k + 1);
      }
    }
  }

  lemma OneNumber(groups: seq<Group>, ga: nat, n: nat, m: nat)
    requires NumberedAt(groups, ga, n) && NumberedAt(groups, ga, m)
    ensures n == m && exists g :: g in groups && ga in g.ga
  {
    var k: nat :| FirstGroup(groups, ga, k) && groups[k].grpid == n;
    var l: nat :| FirstGroup(groups, ga, l) && groups[l].grpid == m;
    assert k == l;
    assert groups[k] in groups;
  }

  /** The number of the first holder of the address is positive, or there is none such. */
  lemma NumberMeans(groups: seq<Group>, ga: nat, n: nat)
    requires n > 0
    ensures NumberedAt(groups, ga, n) <==> GroupNumber(groups, ga) == n
  {
    hide NumberedAt, GroupNumber;
    GroupNumberIs(groups, ga);
    if NumberedAt(groups, ga, n) {
      OneNumber(groups, ga, n, n);
      OneNumber(groups, ga, n, GroupNumber(groups, ga));
    }
  }

  lemma SentToMeans(groups: seq<Group>, ga: nat, n: nat)
    ensures SentTo(groups, ga, n) <==> n == SenderNumber(groups, ga)
  {
    hide NumberedAt, GroupNumber;
    var number := GroupNumber(groups, ga);
    if m: nat :| m > 0 && NumberedAt(groups, ga, m) {
      NumberMeans(groups, ga, m);
      if NumberedAt(groups, ga, n) { OneNumber(groups, ga, n, m); }
    } else if number > 0 {
      NumberMeans(groups, ga, number);
    }
  }

  /** An entry for the resource that may send: it transmits, unless that is not looked at. */
  predicate Sender(e: Entry, url: string, checked: bool) {
    e.href == url && (checked ==> Bit(e.cflags, 64))
  }

  /** Another used entry that holds one of the addresses, is open to writes, and has a put handler. */
  ghost predicate Updated(got: seq<Entry>, i: nat, resources: seq<Resource>, o: nat) {
    && i < |got| && o < |got| && o != i && got[o].id >= 0 && Bit(got[o].cflags, 16)
    && (exists ga :: ga in got[i].ga && ga in got[o].ga)
    && exists k: nat | k < |resources| :: NamedAt(got[o].href, resources, k) && resources[k].canPut
  }

  /** What entry `i` sends for its resource, and updates if it reports. */
  ghost predicate SentBy(got: seq<Entry>, recipients: seq<Group>, resources: seq<Resource>, scope: nat, report: bool,
                         i: nat, x: Sent)
    requires i < |got|
  {
    match x
    case Multicast(to, n, ga) => to == scope && got[i].ga != [] && ga == got[i].ga[0] && SentTo(recipients, ga, n)
    case Update(o) => report && Updated(got, i, resources, o)
  }

  lemma UpdatesMeans(e: Entry, resources: seq<Resource>)
    ensures Updates(e, resources) <==>
              Bit(e.cflags, 16) && exists k: nat | k < |resources| ::
                  NamedAt(e.href, resources, k) && resources[k].canPut
  {
    FlagsAreBits(e.cflags);
    ResolvesTo(e.href, resources);
    hide HasFlag, Bit, Resolve, NamedAt;
    if k: nat :| k < |resources| && NamedAt(e.href, resources, k) && resources[k].canPut {
      NamedOnce(e.href, resources, k);
    }
  }

  lemma SelectedMeans(e: Entry, url: string, checked: bool)
    ensures Selected(e, url, checked) <==> Sender(e, url, checked)
  {
    FlagsAreBits(e.cflags);
    hide HasFlag, Bit;
  }

  lemma UpdatedMeans(s: Sending, i: nat, x: Sent)
    requires i < |s.got| && x.Update?
    ensures UpdatesFor(s, i, |s.got[i].ga|, x) <==> s.report && Updated(s.got, i, s.resources, x.index)
  {
    if x.index < |s.got| { UpdatesMeans(s.got[x.index], s.resources); }
    hide Updates, Bit, NamedAt;
    if ga :| ga in s.got[i].ga && x.index < |s.got| && ga in s.got[x.index].ga {
      var j :| 0 <= j < |s.got[i].ga| && s.got[i].ga[j] == ga;
      assert s.got[x.index].id >= 0 ==> Holds(s.got[x.index], s.got[i].ga[j]);
    }
  }

  lemma SentByMeans(s: Sending, i: nat, x: Sent)
    requires i < |s.got|
    ensures SendsFor(s, i, x) || UpdatesFor(s, i, |s.got[i].ga|, x)
       <==> SentBy(s.got, s.recipients, s.resources, s.scope, s.report, i, x)
  {
    if x.Update? {
      UpdatedMeans(s, i, x);
    } else {
      SentToMeans(s.recipients, x.ga, x.number);
    }
    hide SentTo, SenderNumber, Updated, Updates, Holds;
  }

  /**
   Everything a change of a resource sends and updates: in runtime only, for "w", "a", "rp" and "r" only and
   for the uri of a resource, by way of the entries with that href that may send. Each sends one message, to
   the group of its first address; with "a" and "rp" it updates the other entries that share an address.
   */
  lemma IssuedText(got: seq<Entry>, recipients: seq<Group>, resources: seq<Resource>, device: Device, scope: nat,
                   url: string, st: string, checked: bool, x: Sent)
    ensures x in Issued(Sending(got, recipients, resources, scope, MessageOf(st).Report?), device, url, st, checked)
       <==> && Running(device) && (st == "w" || st == "a" || st == "rp" || st == "r") && !NamesNone(url, resources)
            && exists i: nat | i < |got| ::
                 Sender(got[i], url, checked)
                 && SentBy(got, recipients, resources, scope, st == "a" || st == "rp", i, x)
  {
    var s := Sending(got, recipients, resources, scope, MessageOf(st).Report?);
    ResolvesTo(url, resources);
    if NamesNone(url, resources) {
      NoneNamed(url, resources);
    } else if Running(device) && !MessageOf(st).Unknown? {
      hide Selected, Sender, SendsFor, UpdatesFor, SentBy, Issued, Resolve, NamedAt, NamesNone;
      assert Resolve(url, resources).Some?;
      IssuedIs(s, device, url, st, checked);
      forall i: nat | i < |got|
        ensures Selected(got[i], url, checked) && (SendsFor(s, i, x) || UpdatesFor(s, i, |s.got[i].ga|, x))
           <==> Sender(got[i], url, checked)
                && SentBy(got, recipients, resources, scope, st == "a" || st == "rp", i, x)
      {
        SelectedMeans(got[i], url, checked);
        SentByMeans(s, i, x);
      }
    }
  }

  /** One message for each entry that may send and has an address. */
  lemma IssuedCount(s: Sending, device: Device, url: string, st: string, checked: bool)
    requires Running(device) && (st == "w" || st == "a" || st == "rp" || st == "r") && !NamesNone(url, s.resources)
    ensures MessageCount(Issued(s, device, url, st, checked)) ==
              |set i: nat | i < |s.got| && Sender(s.got[i], url, checked) && s.got[i].ga != []|
  {
    ResolvesTo(url, s.resources);
    hide NamedAt, NamesNone, Resolve, Selected, Sender, ForEntries;
    MessagesAreSenders(s, url, checked, |s.got|);
    forall i: nat | i < |s.got| ensures Selected(s.got[i], url, checked) <==> Sender(s.got[i], url, checked) {
      SelectedMeans(s.got[i], url, checked);
    }
    var senders := set i: nat | i < |s.got| && Sender(s.got[i], url, checked) && s.got[i].ga != [];
    assert Senders(s.got, url, checked, |s.got|) == senders;
  }

  // --- In which order ---

  /** The first resource that the uri names, or the length. */
  ghost function FirstNamed(uri: string, resources: seq<Resource>, k: nat): (at: nat)
    requires k <= |resources|
    ensures k <= at <= |resources|
    decreases |resources| - k
  {
    if k == |resources| || Naming(uri, resources[k].uri) then k else FirstNamed(uri, resources, k + 1)
  }

  lemma {:induction false} FirstNamedIs(uri: string, resources: seq<Resource>, k: nat)
    requires k <= |resources| && forall j | 0 <= j < k :: !Naming(uri, resources[j].uri)
    ensures var at := FirstNamed(uri, resources, k);
            if at == |resources| then NamesNone(uri, resources) else NamedAt(uri, resources, at)
    decreases |resources| - k
  {
    hide Naming;
    if k < |resources| && !Naming(uri, resources[k].uri) { FirstNamedIs(uri, resources, k + 1); }
  }

  /** What an entry does about a message, in order. */
  function Contribution(i: nat, e: Entry, r: Resource, st: string, scope2: bool): seq<Effect> {
    if (st == "w" && Bit(e.cflags, 16)) || ((st == "a" || st == "rp") && Bit(e.cflags, 128)) then
      if !r.canPut then []
      else if !Bit(e.cflags, 64) then [Put(i)]
      else if scope2 then [Put(i), Send(2, e.href, "w", true), Send(5, e.href, "w", true)]
      else [Put(i), Send(5, e.href, "w", true)]
    else if st == "r" && Bit(e.cflags, 8) then
      (if r.canGet then [Get(i)] else []) + (if scope2 then [Send(2, e.href, "a", false)] else [])
      + [Send(5, e.href, "a", false)]
    else []
  }

  /** Slot by slot: entries that do not hold the address or have no href are passed by, a bad href is the end. */
  ghost function EffectsFrom(got: seq<Entry>, ga: nat, st: string, resources: seq<Resource>, scope2: bool,
                             i: nat): seq<Effect>
    requires i <= |got|
    decreases |got| - i
  {
    if i == |got| then []
    else if got[i].id < 0 || ga !in got[i].ga || got[i].href == "" then
      EffectsFrom(got, ga, st, resources, scope2, i + 1)
    else
      var k := FirstNamed(got[i].href, resources, 0);
      if k == |resources| then []
      else
        Contribution(i, got[i], resources[k], st, scope2) + EffectsFrom(got, ga, st, resources, scope2, i + 1)
  }

  lemma ContributionIs(i: nat, e: Entry, r: Resource, st: string, scope2: bool)
    ensures Reaction(i, e, r, MessageOf(st), scope2) == Contribution(i, e, r, st, scope2)
  {
    FlagsAreBits(e.cflags);
    hide HasFlag, Bit;
  }

  lemma SlotIsPassed(got: seq<Entry>, ga: nat, st: string, resources: seq<Resource>, scope2: bool, i: nat)
    requires i < |got|
    ensures
      var m := MessageOf(st);
      Reactions(got, ga, m, resources, scope2, i) ==
        if !Holds(got[i], ga) then Reactions(got, ga, m, resources, scope2, i + 1)
        else if Stops(got[i], resources) then []
        else ReactionOf(i, got[i], m, resources, scope2) + Reactions(got, ga, m, resources, scope2, i + 1)
  {
    hide MessageOf, ReactionOf, Stops, Reactions, NextHolder;
    NextOnce(got, ga, i);
    ReactionsOnce(got, ga, MessageOf(st), resources, scope2, i);
    ReactionsOnce(got, ga, MessageOf(st), resources, scope2, i + 1);
  }

  /** The searches by address do what a walk over all slots would. */
  lemma {:induction false} ReactionsInOrder(got: seq<Entry>, ga: nat, st: string, resources: seq<Resource>,
                                            scope2: bool, i: nat)
    requires i <= |got|
    ensures Reactions(got, ga, MessageOf(st), resources, scope2, i) == EffectsFrom(got, ga, st, resources, scope2, i)
    decreases |got| - i
  {
    hide MessageOf, Naming, Resolve, Reaction, Contribution, Reactions, NamedAt, NamesNone, FirstNamed;
    if i == |got| {
      ReactionsOnce(got, ga, MessageOf(st), resources, scope2, i);
    } else {
      ReactionsInOrder(got, ga, st, resources, scope2, i + 1);
      SlotIsPassed(got, ga, st, resources, scope2, i);
      var k, later := FirstNamed(got[i].href, resources, 0), EffectsFrom(got, ga, st, resources, scope2, i + 1);
      FirstNamedIs(got[i].href, resources, 0);
      if k == |resources| {
        NoneNamed(got[i].href, resources);
      } else {
        NamedOnce(got[i].href, resources, k);
        ContributionIs(i, got[i], resources[k], st, scope2);
      }
      assert [] + later == later;
    }
  }

  /** The effects of a received message, each as often and where it occurs. */
  lemma ReceivedSequence(got: seq<Entry>, device: Device, st: string, ga: nat, resources: seq<Resource>, scope2: bool)
    ensures Received(got, device, st, ga, resources, scope2) ==
              if Running(device) then EffectsFrom(got, ga, st, resources, scope2, 0) else []
  {
    hide Reactions, EffectsFrom, MessageOf;
    ReactionsInOrder(got, ga, st, resources, scope2, 0);
  }

  /** Slot by slot: the other entries with the address that take a reported value. */
  ghost function UpdatesFrom(got: seq<Entry>, ga: nat, self: nat, resources: seq<Resource>, o: nat): seq<Sent>
    requires o <= |got|
    decreases |got| - o
  {
    if o == |got| then []
    else
      var k := FirstNamed(got[o].href, resources, 0);
      (if o != self && got[o].id >= 0 && ga in got[o].ga && Bit(got[o].cflags, 16) && k < |resources|
          && resources[k].canPut then [Update(o)] else [])
      + UpdatesFrom(got, ga, self, resources, o + 1)
  }

  lemma UpdateMeans(e: Entry, resources: seq<Resource>)
    ensures var k := FirstNamed(e.href, resources, 0);
            Updates(e, resources) <==> Bit(e.cflags, 16) && k < |resources| && resources[k].canPut
  {
    FlagsAreBits(e.cflags);
    hide HasFlag, Bit, NamedAt, NamesNone, Naming, Resolve;
    var k := FirstNamed(e.href, resources, 0);
    FirstNamedIs(e.href, resources, 0);
    if k == |resources| { NoneNamed(e.href, resources); } else { NamedOnce(e.href, resources, k); }
  }

  lemma {:induction false} UpdatesInOrder(got: seq<Entry>, ga: nat, self: nat, resources: seq<Resource>, o: nat)
    requires o <= |got|
    ensures OwnUpdates(got, ga, self, resources, o) == UpdatesFrom(got, ga, self, resources, o)
    decreases |got| - o
  {
    hide Updates, Bit, FirstNamed, OwnUpdates;
    UpdatesStep(got, ga, self, resources, o);
    if o < |got| {
      UpdatesInOrder(got, ga, self, resources, o + 1);
      UpdateMeans(got[o], resources);
    }
  }

  /** The search passes a slot by, or updates its entry. */
  lemma UpdatesStep(got: seq<Entry>, ga: nat, self: nat, resources: seq<Resource>, o: nat)
    requires o <= |got|
    ensures OwnUpdates(got, ga, self, resources, o) ==
              if o == |got| then []
              else
                (if o != self && got[o].id >= 0 && ga in got[o].ga && Updates(got[o], resources) then [Update(o)]
                    else [])
                + OwnUpdates(got, ga, self, resources, o + 1)
  {
    hide Updates, OwnUpdates, NextHolder;
    OwnUpdatesOnce(got, ga, self, resources, o);
    if o < |got| {
      NextOnce(got, ga, o);
      OwnUpdatesOnce(got, ga, self, resources, o + 1);
      var later := OwnUpdates(got, ga, self, resources, o + 1);
      assert [] + later == later;
    }
  }

  lemma NextOnce(got: seq<Entry>, ga: nat, i: nat)
    requires i < |got|
    ensures NextHolder(got, ga, i) == if got[i].id >= 0 && ga in got[i].ga then i else NextHolder(got, ga, i + 1)
  {
  }

  /** The number that an address is sent to. */
  ghost function Addressed(groups: seq<Group>, ga: nat): (n: nat)
    ensures SentTo(groups, ga, n)
  {
    SentToMeans(groups, ga, SenderNumber(groups, ga));
    var n: nat :| SentTo(groups, ga, n);
    n
  }

  /** For each address of an entry: the updates of others if it reports, and for the first one a message. */
  ghost function SentForAddresses(s: Sending, i: nat, n: nat): seq<Sent>
    requires i < |s.got| && n <= |s.got[i].ga|
  {
    if n == 0 then []
    else
      var ga := s.got[i].ga[n - 1];
      SentForAddresses(s, i, n - 1)
      + (if s.report then UpdatesFrom(s.got, ga, i, s.resources, 0) else [])
      + (if n == 1 then [Multicast(s.scope, Addressed(s.recipients, ga), ga)] else [])
  }

  ghost function SentForSlots(s: Sending, url: string, checked: bool, n: nat): seq<Sent>
    requires n <= |s.got|
  {
    if n == 0 then []
    else
      SentForSlots(s, url, checked, n - 1)
      + if Sender(s.got[n - 1], url, checked) then SentForAddresses(s, n - 1, |s.got[n - 1].ga|) else []
  }

  lemma {:induction false} AddressesInOrder(s: Sending, i: nat, n: nat)
    requires i < |s.got| && n <= |s.got[i].ga|
    ensures ForAddresses(s, i, n) == SentForAddresses(s, i, n)
  {
    hide OwnUpdates, UpdatesFrom, SenderNumber, SentTo, Addressed;
    if n > 0 {
      var ga := s.got[i].ga[n - 1];
      AddressesInOrder(s, i, n - 1);
      UpdatesInOrder(s.got, ga, i, s.resources, 0);
      SentToMeans(s.recipients, ga, Addressed(s.recipients, ga));
    }
  }

  lemma {:induction false} SlotsInOrder(s: Sending, url: string, checked: bool, n: nat)
    requires n <= |s.got|
    ensures ForEntries(s, url, checked, n) == SentForSlots(s, url, checked, n)
  {
    hide Selected, Sender, ForAddresses, SentForAddresses;
    if n > 0 {
      SlotsInOrder(s, url, checked, n - 1);
      SelectedMeans(s.got[n - 1], url, checked);
      AddressesInOrder(s, n - 1, |s.got[n - 1].ga|);
    }
  }

  /** What a change of a resource sends and updates, each as often and where it occurs. */
  lemma IssuedSequence(s: Sending, device: Device, url: string, st: string, checked: bool)
    ensures Issued(s, device, url, st, checked) ==
              if Running(device) && (st == "w" || st == "a" || st == "rp" || st == "r") && !NamesNone(url, s.resources)
              then SentForSlots(s, url, checked, |s.got|) else []
  {
    hide ForEntries, SentForSlots, Resolve, NamedAt;
    ResolvesTo(url, s.resources);
    if NamesNone(url, s.resources) { NoneNamed(url, s.resources); }
    SlotsInOrder(s, url, checked, |s.got|);
  }

  // --- Load events and messages ---

  /**
   After any run from a fresh table: a message has effects only if the device has an address and an
   installation, and loading was completed and neither started again nor undone since; and then it has all
   those of the entries that it reaches.
   */
  lemma OnlyLoadedReceives(n: nat, events: seq<Event>, ia: int, iid: int, st: string, ga: nat,
                           resources: seq<Resource>, scope2: bool, x: Effect)
    ensures
      x in Received(After(Fresh(n), events).got, Device(ia, iid, After(Fresh(n), events).lsm), st, ga, resources,
          scope2)
      <==> && ia > 0 && iid > 0 && (exists i: nat :: CompletedAt(events, i))
           && var got := After(Fresh(n), events).got;
              exists i: nat, k: nat | i < |got| && k < |resources| ::
                Reached(got, ga, resources, i, k) && Effected(i, got[i], resources[k], st, scope2, x)
  {
    hide After, Received, Reached, Effected, CompletedAt;
    var s := After(Fresh(n), events);
    LoadedOnlyByCompletion(n, events);
    ReceivedText(s.got, Device(ia, iid, s.lsm), st, ga, resources, scope2, x);
  }
}
