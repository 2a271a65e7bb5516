/** What a change of a resource sends, and which of the device's own objects it updates: `oc_knx_client.c`. */
module GroupSending {

  import opened GroupDispatch
  import opened GroupObjects
  import opened Options

  /** What a change of a resource causes: own resources updated, and messages to multicast groups. */
  datatype Sent = Update(index: nat) | Multicast(scope: nat, number: nat, ga: nat)

  /** An entry of the recipient or the publisher table; only what group addressing reads. */
  datatype Group = Group(grpid: nat, ga: seq<nat>)

  /** `oc_find_grpid_in_table`: of the first entry with the address; 0 for none. */
  function GroupNumber(table: seq<Group>, ga: nat): nat {
    if table == [] then 0 else if ga in table[0].ga then table[0].grpid else GroupNumber(table[1..], ga)
  }

  /** The number a sender puts into the multicast address. */
  function SenderNumber(recipients: seq<Group>, ga: nat): nat {
    if GroupNumber(recipients, ga) > 0 then GroupNumber(recipients, ga) else ga
  }

  /** Another entry of this device that takes a reported value: it has the flag and a put handler. */
  predicate Updates(e: Entry, resources: seq<Resource>) {
    Resolve(e.href, resources).Some? && HasFlag(e.cflags, WRITE) && Resolve(e.href, resources).value.canPut
  }

  /** The walk over the other entries that hold `ga`. */
  function OwnUpdates(got: seq<Entry>, ga: nat, self: nat, resources: seq<Resource>, from: nat): seq<Sent>
    requires from <= |got|
    decreases |got| - from
  {
    var i := NextHolder(got, ga, from);
    if i == |got| then []
    else
      (if i != self && Updates(got[i], resources) then [Update(i)] else [])
      + OwnUpdates(got, ga, self, resources, i + 1)
  }

  /** How a device sends: its tables, its resources, and the message. */
  datatype Sending = Sending(got: seq<Entry>, recipients: seq<Group>, resources: seq<Resource>, scope: nat,
                             report: bool)

  function ForAddress(s: Sending, i: nat, j: nat): seq<Sent>
    requires i < |s.got| && j < |s.got[i].ga|
  {
    var ga := s.got[i].ga[j];
    (if s.report then OwnUpdates(s.got, ga, i, s.resources, 0) else [])
    + (if j == 0 then [Multicast(s.scope, SenderNumber(s.recipients, ga), ga)] else [])
  }

  function ForAddresses(s: Sending, i: nat, n: nat): seq<Sent>
    requires i < |s.got| && n <= |s.got[i].ga|
  {
    if n == 0 then [] else ForAddresses(s, i, n - 1) + ForAddress(s, i, n - 1)
  }

  predicate Selected(e: Entry, url: string, checked: bool) {
    e.href == url && (!checked || HasFlag(e.cflags, TRANSMISSION))
  }

  function ForEntries(s: Sending, url: string, checked: bool, n: nat): seq<Sent>
    requires n <= |s.got|
  {
    if n == 0 then []
    else ForEntries(s, url, checked, n - 1)
         + if Selected(s.got[n - 1], url, checked) then ForAddresses(s, n - 1, |s.got[n - 1].ga|) else []
  }

  /** Everything `oc_do_s_mode_with_scope_and_check` sends and updates. */
  function Issued(s: Sending, device: Device, url: string, st: string, checked: bool): seq<Sent> {
    if !MessageOf(st).Unknown? && InRuntime(device) && Resolve(url, s.resources).Some?
    then ForEntries(s, url, checked, |s.got|) else []
  }

  method FindGroupNumber(table: seq<Group>, ga: nat) returns (number: nat)
    ensures number == GroupNumber(table, ga)
  {
    var k := 0;
    assert table[0..] == table;
    while k < |table|
      invariant k <= |table| && GroupNumber(table[k..], ga) == GroupNumber(table, ga)
    {
      assert table[k..][1..] == table[k + 1..];
      if ga in table[k].ga { return table[k].grpid; }
      k := k + 1;
    }
    return 0;
  }

  lemma OwnUpdatesOnce(got: seq<Entry>, ga: nat, self: nat, resources: seq<Resource>, from: nat)
    requires from <= |got|
    ensures var i := NextHolder(got, ga, from);
            OwnUpdates(got, ga, self, resources, from)
            == if i == |got| then []
               else
                 (if i != self && Updates(got[i], resources) then [Update(i)] else [])
                 + OwnUpdates(got, ga, self, resources, i + 1)
  {}

  method UpdateOthers(got: array<Entry>, ga: nat, self: nat, resources: seq<Resource>) returns (sent: seq<Sent>)
    ensures sent == OwnUpdates(got[..], ga, self, resources, 0)
  {
    hide NextHolder, OwnUpdates, HasFlag, Names;
    sent := [];
    ghost var g, from := got[..], 0;
    var other := FindIndex(got, ga);
    while other != -1
      invariant 0 <= from <= got.Length && -1 <= other < got.Length
      invariant other == if NextHolder(g, ga, from) < got.Length then NextHolder(g, ga, from) else -1
      invariant sent + OwnUpdates(g, ga, self, resources, from) == OwnUpdates(g, ga, self, resources, 0)
      decreases got.Length - from
    {
      OwnUpdatesOnce(g, ga, self, resources, from);
      ghost var later := OwnUpdates(g, ga, self, resources, other + 1);
      if other != self {
        var resource := Resolve(got[other].href, resources);
        if resource.Some? && HasFlag(got[other].cflags, WRITE) && resource.value.canPut {
          assert sent + ([Update(other)] + later) == sent + [Update(other)] + later;
          sent := sent + [Update(other)];
        }
      }
      assert [] + later == later;
      from := other + 1;
      other := FindNextIndex(got, ga, other);
    }
    OwnUpdatesOnce(g, ga, self, resources, from);
  }

  /** The loop over the addresses of one entry. */
  method SendEntry(got: array<Entry>, i: nat, recipients: seq<Group>, resources: seq<Resource>, scope: nat,
                   report: bool) returns (sent: seq<Sent>)
    requires i < got.Length
    ensures sent == ForAddresses(Sending(got[..], recipients, resources, scope, report), i, |got[i].ga|)
  {
    hide OwnUpdates, GroupNumber;
    ghost var s := Sending(got[..], recipients, resources, scope, report);
    sent := [];
    var j := 0;
    while j < |got[i].ga|
      invariant j <= |got[i].ga| && sent == ForAddresses(s, i, j)
    {
      var ga := got[i].ga[j];
      var updates, message := [], [];
      if report { updates := UpdateOthers(got, ga, i, resources); }
      if j == 0 {
        var number := FindGroupNumber(recipients, ga);
        message := [Multicast(scope, if number > 0 then number else ga, ga)];
      }
      assert updates + message == ForAddress(s, i, j);
      sent := sent + (updates + message);
      j := j + 1;
    }
  }

  /** `oc_core_find_group_object_table_url` and its next form: the first entry from `from` with that href. */
  method FindUrl(got: array<Entry>, url: string, from: nat) returns (i: int)
    requires from <= got.Length
    ensures i == -1 || from <= i < got.Length
    ensures i == -1 ==> forall j | from <= j < got.Length :: got[j].href != url
    ensures i != -1 ==> got[i].href == url && forall j | from <= j < i :: got[j].href != url
  {
    i := from;
    while i < got.Length
      invariant from <= i <= got.Length && forall j | from <= j < i :: got[j].href != url
    {
      if got[i].href == url { return; }
      i := i + 1;
    }
    i := -1;
  }

  lemma {:induction false} NoneSelected(s: Sending, url: string, checked: bool, n: nat, m: nat)
    requires n <= m <= |s.got| && forall j | n <= j < m :: s.got[j].href != url
    ensures ForEntries(s, url, checked, m) == ForEntries(s, url, checked, n)
    decreases m
  {
    if n < m {
      NoneSelected(s, url, checked, n, m - 1);
    }
  }

  /** `oc_do_s_mode_with_scope_and_check`, without the requests to brokers. */
  method Issue(got: array<Entry>, recipients: seq<Group>, resources: seq<Resource>, device: Device,
               scope: nat, url: string, st: string, checked: bool) returns (sent: seq<Sent>)
    ensures sent == Issued(Sending(got[..], recipients, resources, scope, MessageOf(st).Report?), device, url, st,
        checked)
  {
    hide HasFlag, ForAddresses, Names;
    sent := [];
    if MessageOf(st).Unknown? || !InRuntime(device) || Resolve(url, resources).None? { return; }
    ghost var s := Sending(got[..], recipients, resources, scope, MessageOf(st).Report?);
    var index := FindUrl(got, url, 0);
    ghost var from := 0;
    while index != -1
      invariant 0 <= from <= got.Length && (index == -1 || from <= index < got.Length)
      invariant forall j | from <= j < (if index == -1 then got.Length else index) :: got[j].href != url
      invariant index != -1 ==> got[index].href == url
      invariant sent == ForEntries(s, url, checked, from)
      decreases got.Length - from
    {
      NoneSelected(s, url, checked, from, index);
      if HasFlag(got[index].cflags, TRANSMISSION) || !checked {
        var more := SendEntry(got, index, recipients, resources, scope, MessageOf(st).Report?);
        sent := sent + more;
      }
      assert ForEntries(s, url, checked, index + 1) == sent;
      from := index + 1;
      index := FindUrl(got, url, index + 1);
    }
    NoneSelected(s, url, checked, from, got.Length);
  }

  // --- What sending means ---

  lemma {:induction false} OwnUpdatesAre(got: seq<Entry>, ga: nat, self: nat, resources: seq<Resource>, from: nat)
    requires from <= |got|
    ensures forall x :: x in OwnUpdates(got, ga, self, resources, from) <==>
              && x.Update? && from <= x.index < |got| && x.index != self
              && Holds(got[x.index], ga) && Updates(got[x.index], resources)
    decreases |got| - from
  {
    hide NextHolder, OwnUpdates, Updates, Holds;
    var i := NextHolder(got, ga, from);
    OwnUpdatesOnce(got, ga, self, resources, from);
    if i < |got| {
      OwnUpdatesAre(got, ga, self, resources, i + 1);
    }
  }

  /** The message that one entry sends, if it has an address at all: for its first address only. */
  ghost predicate SendsFor(s: Sending, i: nat, x: Sent) {
    i < |s.got| && s.got[i].ga != []
        && x == Multicast(s.scope, SenderNumber(s.recipients, s.got[i].ga[0]), s.got[i].ga[0])
  }

  /** Entry `o` is updated on account of one of the first `n` addresses of entry `i`. */
  ghost predicate UpdatesFor(s: Sending, i: nat, n: nat, x: Sent) {
    && x.Update? && s.report && i < |s.got| && x.index < |s.got| && x.index != i && Updates(s.got[x.index], s.resources)
    && exists j | 0 <= j < n && j < |s.got[i].ga| :: Holds(s.got[x.index], s.got[i].ga[j])
  }

  lemma {:induction false} ForAddressesAre(s: Sending, i: nat, n: nat)
    requires i < |s.got| && n <= |s.got[i].ga|
    ensures forall x :: x in ForAddresses(s, i, n) <==> (n > 0 && SendsFor(s, i, x)) || UpdatesFor(s, i, n, x)
  {
    hide Updates, Holds, OwnUpdates, GroupNumber;
    if n > 0 {
      ForAddressesAre(s, i, n - 1);
      var ga := s.got[i].ga[n - 1];
      OwnUpdatesAre(s.got, ga, i, s.resources, 0);
      forall x ensures x in ForAddresses(s, i, n) <==> SendsFor(s, i, x) || UpdatesFor(s, i, n, x) {
        assert x in ForAddresses(s, i, n) <==> x in ForAddresses(s, i, n - 1) || x in ForAddress(s, i, n - 1);
        assert UpdatesFor(s, i, n, x) <==>
          UpdatesFor(s, i, n - 1, x) || (s.report && x in OwnUpdates(s.got, ga, i, s.resources, 0));
      }
    }
  }

  lemma {:induction false} ForEntriesAre(s: Sending, url: string, checked: bool, n: nat)
    requires n <= |s.got|
    ensures forall x :: x in ForEntries(s, url, checked, n)
                        <==> exists i | 0 <= i < n && Selected(s.got[i], url, checked) ::
                            SendsFor(s, i, x) || UpdatesFor(s, i, |s.got[i].ga|, x)
  {
    hide Selected, SendsFor, UpdatesFor, ForAddresses;
    if n > 0 {
      ForEntriesAre(s, url, checked, n - 1);
      ForAddressesAre(s, n - 1, |s.got[n - 1].ga|);
      FirstAddress(s, n - 1);
    }
  }

  lemma FirstAddress(s: Sending, i: nat)
    requires i < |s.got|
    ensures s.got[i].ga == [] ==> forall x :: !SendsFor(s, i, x)
  {}

  /**
   What is sent is exactly: one message per entry of the resource that may transmit, to the group of
   its first address; and, for a report, an update of every other entry that holds one of the entry's
   addresses and takes writes. A write never updates the device's own objects.
   */
  lemma IssuedIs(s: Sending, device: Device, url: string, st: string, checked: bool)
    requires !MessageOf(st).Unknown? && InRuntime(device) && Resolve(url, s.resources).Some?
    ensures forall x :: x in Issued(s, device, url, st, checked)
                        <==> exists i | 0 <= i < |s.got| && Selected(s.got[i], url, checked) ::
                            SendsFor(s, i, x) || UpdatesFor(s, i, |s.got[i].ga|, x)
  {
    hide ForEntries, Selected, SendsFor, UpdatesFor;
    ForEntriesAre(s, url, checked, |s.got|);
  }

  /** How many messages go out. */
  function MessageCount(sent: seq<Sent>): nat {
    if sent == [] then 0 else (if sent[0].Multicast? then 1 else 0) + MessageCount(sent[1..])
  }

  lemma {:induction false} CountBoth(a: seq<Sent>, b: seq<Sent>)
    ensures MessageCount(a + b) == MessageCount(a) + MessageCount(b)
  {
    if a == [] {
      assert a + b == b;
    } else {
      assert (a + b)[1..] == a[1..] + b;
      CountBoth(a[1..], b);
    }
  }

  lemma {:induction false} NoMessages(sent: seq<Sent>)
    requires forall x | x in sent :: x.Update?
    ensures MessageCount(sent) == 0
  {
    if sent != [] {
      assert sent[0] in sent;
      NoMessages(sent[1..]);
    }
  }

  lemma {:induction false} OneMessagePerEntry(s: Sending, i: nat, n: nat)
    requires i < |s.got| && n <= |s.got[i].ga|
    ensures MessageCount(ForAddresses(s, i, n)) == if n > 0 then 1 else 0
  {
    hide OwnUpdates, GroupNumber, Updates, Holds;
    if n > 0 {
      OneMessagePerEntry(s, i, n - 1);
      OwnUpdatesAre(s.got, s.got[i].ga[n - 1], i, s.resources, 0);
      var updates := if s.report then OwnUpdates(s.got, s.got[i].ga[n - 1], i, s.resources, 0) else [];
      NoMessages(updates);
      CountBoth(ForAddresses(s, i, n - 1), ForAddress(s, i, n - 1));
      CountBoth(updates, if n == 1 then [Multicast(s.scope, SenderNumber(s.recipients, s.got[i].ga[0]), s.got[i].ga[0])]
          else []);
    }
  }

  predicate Transmits(e: Entry, url: string, checked: bool) {
    Selected(e, url, checked) && e.ga != []
  }

  ghost function Senders(got: seq<Entry>, url: string, checked: bool, n: nat): set<nat>
    requires n <= |got|
  {
    set i: nat | i < n && Transmits(got[i], url, checked)
  }

  lemma SendersNext(got: seq<Entry>, url: string, checked: bool, n: nat)
    requires 0 < n <= |got|
    ensures |Senders(got, url, checked, n)|
         == |Senders(got, url, checked, n - 1)| + if Transmits(got[n - 1], url, checked) then 1 else 0
  {
    hide Transmits;
    var fewer, senders := Senders(got, url, checked, n - 1), Senders(got, url, checked, n);
    assert senders == fewer + if Transmits(got[n - 1], url, checked) then {n - 1} else {};
    assert n - 1 !in fewer;
  }

  /** There are exactly as many messages as entries that may transmit and have an address. */
  lemma {:induction false} MessagesAreSenders(s: Sending, url: string, checked: bool, n: nat)
    requires n <= |s.got|
    ensures MessageCount(ForEntries(s, url, checked, n)) == |Senders(s.got, url, checked, n)|
  {
    if n == 0 {
      assert Senders(s.got, url, checked, 0) == {};
    } else {
      var more := if Selected(s.got[n - 1], url, checked) then ForAddresses(s, n - 1, |s.got[n - 1].ga|) else [];
      assert ForEntries(s, url, checked, n) == ForEntries(s, url, checked, n - 1) + more;
      hide Selected, ForAddresses, ForEntries, Senders;
      MessagesAreSenders(s, url, checked, n - 1);
      SendersNext(s.got, url, checked, n);
      OneMessagePerEntry(s, n - 1, |s.got[n - 1].ga|);
      CountBoth(ForEntries(s, url, checked, n - 1), more);
      assert MessageCount([]) == 0;
    }
  }
}
