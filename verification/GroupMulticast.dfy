/**
 The multicast addresses of groups (`oc_knx_fp.c`): which address a group number is sent to, which
 addresses a device listens on, and when a sent message is heard.
 */
module GroupMulticast {

  import opened GroupDispatch
  import opened GroupObjects
  import opened GroupSending
  import opened Options

  // --- Addresses ---

  /** `(uint8_t)(n >> 8 * k)` */
  function Byte(n: int, k: nat): (b: nat)
    ensures b < 0x100
    decreases k
  {
    if k == 0 then n % 0x100 else Byte(n / 0x100, k - 1)
  }

  datatype Endpoint = Endpoint(address: seq<nat>, port: nat)

  const COAP_PORT: nat := 5683

  /** `oc_create_multicast_group_address_with_port` */
  function GroupEndpoint(number: nat, iid: int, scope: nat, port: nat): Endpoint {
    Endpoint([0xff, Byte(0x30 + scope, 0), 0, 0x30,
              0xfd, Byte(iid, 4), Byte(iid, 3), Byte(iid, 2), Byte(iid, 1), Byte(iid, 0), 0, 0,
              Byte(number, 3), Byte(number, 2), Byte(number, 1), Byte(number, 0)], port)
  }

  /** The number that the low `k` bytes spell. */
  function Low(n: int, k: nat): nat
    decreases k
  {
    if k == 0 then 0 else n % 0x100 + 0x100 * Low(n / 0x100, k - 1)
  }

  ghost predicate SameBytes(n: int, m: int, k: nat) {
    forall j | 0 <= j < k :: Byte(n, j) == Byte(m, j)
  }

  lemma SameBytesNext(n: int, m: int, k: nat)
    requires k > 0
    ensures SameBytes(n, m, k) <==> n % 0x100 == m % 0x100 && SameBytes(n / 0x100, m / 0x100, k - 1)
  {
    assert forall j | 0 < j < k :: Byte(n, j) == Byte(n / 0x100, j - 1) && Byte(m, j) == Byte(m / 0x100, j - 1);
    if SameBytes(n, m, k) {
      assert Byte(n, 0) == Byte(m, 0);
      forall j | 0 <= j < k - 1 ensures Byte(n / 0x100, j) == Byte(m / 0x100, j) {
        assert Byte(n, j + 1) == Byte(m, j + 1);
      }
    }
  }

  /** Bytes spell one number only. */
  lemma {:induction false} BytesDetermine(n: int, m: int, k: nat)
    ensures SameBytes(n, m, k) <==> Low(n, k) == Low(m, k)
    decreases k
  {
    if k > 0 {
      SameBytesNext(n, m, k);
      BytesDetermine(n / 0x100, m / 0x100, k - 1);
    }
  }

  lemma LowTwo(n: int)
    ensures Low(n, 2) == n % 0x1_0000
  {
    assert Low(n / 0x100, 1) == n / 0x100 % 0x100 by { assert Low(n / 0x100 / 0x100, 0) == 0; }
  }

  lemma LowSplit(n: int, k: nat)
    requires k >= 2
    ensures Low(n, k) == Low(n, 2) + 0x1_0000 * Low(n / 0x1_0000, k - 2)
  {
    assert n / 0x100 / 0x100 == n / 0x1_0000;
    assert Low(n / 0x100, k - 1) == n / 0x100 % 0x100 + 0x100 * Low(n / 0x100 / 0x100, k - 2);
    assert Low(n / 0x100, 1) == n / 0x100 % 0x100 by { assert Low(n / 0x100 / 0x100, 0) == 0; }
  }

  lemma LowThree(n: int)
    ensures Low(n, 3) == n % 0x1_0000 + 0x1_0000 * (n / 0x1_0000 % 0x100)
  {
    LowTwo(n);
    LowSplit(n, 3);
    assert Low(n / 0x1_0000, 1) == n / 0x1_0000 % 0x100 by { assert Low(n / 0x1_0000 / 0x100, 0) == 0; }
  }

  /** Four bytes spell a 32-bit word, five the low 40 bits. */
  lemma LowIsRemainder(n: int)
    ensures Low(n, 4) == n % 0x1_0000_0000 && Low(n, 5) == n % 0x100_0000_0000
  {
    hide Low;
    LowTwo(n);
    LowTwo(n / 0x1_0000);
    LowThree(n / 0x1_0000);
    LowSplit(n, 4);
    LowSplit(n, 5);
    Remainders(n, n / 0x1_0000);
  }

  lemma Remainders(n: int, q: int)
    requires q == n / 0x1_0000
    ensures n % 0x1_0000_0000 == n % 0x1_0000 + 0x1_0000 * (q % 0x1_0000)
    ensures n % 0x100_0000_0000 == n % 0x1_0000 + 0x1_0000 * (q % 0x1_0000 + 0x1_0000 * (q / 0x1_0000 % 0x100))
  {
    var r, s, t := n % 0x1_0000, q % 0x1_0000, q / 0x1_0000;
    var u, v := t / 0x100, t % 0x100;
    assert n == 0x1_0000 * q + r && q == 0x1_0000 * t + s && t == 0x100 * u + v;
    assert n == 0x1_0000_0000 * t + (0x1_0000 * s + r);
    assert n == 0x100_0000_0000 * u + (0x1_0000 * (0x1_0000 * v + s) + r);
  }

  lemma WordDetermined(n: nat, m: nat)
    requires n < 0x1_0000_0000 && m < 0x1_0000_0000
    ensures SameBytes(n, m, 4) <==> n == m
  {
    hide SameBytes, Low;
    LowIsRemainder(n);
    LowIsRemainder(m);
    BytesDetermine(n, m, 4);
    assert n % 0x1_0000_0000 == n && m % 0x1_0000_0000 == m;
  }

  lemma PrefixDetermined(n: int, m: int)
    ensures SameBytes(n, m, 5) <==> n % 0x100_0000_0000 == m % 0x100_0000_0000
  {
    hide SameBytes, Low;
    LowIsRemainder(n);
    LowIsRemainder(m);
    BytesDetermine(n, m, 5);
  }

  /** Two groups share an address exactly if number, scope and the low 40 bits of the installation agree. */
  lemma AddressIsInjective(number: nat, iid: int, scope: nat, number': nat, iid': int, scope': nat, port: nat,
                           port': nat)
    requires number < 0x1_0000_0000 && number' < 0x1_0000_0000 && scope < 16 && scope' < 16
    ensures GroupEndpoint(number, iid, scope, port) == GroupEndpoint(number', iid', scope', port')
       <==> number == number' && iid % 0x100_0000_0000 == iid' % 0x100_0000_0000 && scope == scope' && port == port'
  {
    hide Byte, Low, SameBytes, GroupEndpoint;
    WordDetermined(number, number');
    PrefixDetermined(iid, iid');
    ScopeByte(scope);
    ScopeByte(scope');
    ByteByByte(number, iid, scope, number', iid', scope', port, port');
  }

  lemma ByteByByte(number: nat, iid: int, scope: nat, number': nat, iid': int, scope': nat, port: nat, port': nat)
    ensures GroupEndpoint(number, iid, scope, port) == GroupEndpoint(number', iid', scope', port')
       <==> && SameBytes(number, number', 4) && SameBytes(iid, iid', 5)
            && Byte(0x30 + scope, 0) == Byte(0x30 + scope', 0) && port == port'
  {
    hide Byte;
    var a, b := GroupEndpoint(number, iid, scope, port).address, GroupEndpoint(number', iid', scope', port').address;
    if a == b {
      assert a[1] == b[1];
      assert a[5] == b[5] && a[6] == b[6] && a[7] == b[7] && a[8] == b[8] && a[9] == b[9];
      assert a[12] == b[12] && a[13] == b[13] && a[14] == b[14] && a[15] == b[15];
    }
  }

  lemma ScopeByte(scope: nat)
    requires scope < 16
    ensures Byte(0x30 + scope, 0) == 0x30 + scope
  {}

  // --- Listening ---

  /** An entry that a message can be meant for. */
  predicate Receives(e: Entry) {
    HasFlag(e.cflags, WRITE) || HasFlag(e.cflags, UPDATE) || HasFlag(e.cflags, READ)
  }

  /** Whether the publisher table has any group number at all. */
  predicate HasGroups(publishers: seq<Group>) {
    exists p | p in publishers :: p.grpid > 0
  }

  /** The two scopes of one number. */
  function Both(number: nat, iid: int, port: nat): seq<Endpoint> {
    [GroupEndpoint(number, iid, 2, port), GroupEndpoint(number, iid, 5, port)]
  }

  /** What a device listens for: its tables, its installation and its multicast port. */
  datatype Listening = Listening(got: seq<Entry>, publishers: seq<Group>, iid: int, port: nat)

  /** The number that an address of an entry is listened for, or nothing. */
  function ReceiverNumber(publishers: seq<Group>, ga: nat): Option<nat> {
    if !HasGroups(publishers) then Some(ga)
    else if GroupNumber(publishers, ga) > 0 then Some(GroupNumber(publishers, ga))
    else None
  }

  /** How far the registration looks into the group object table, by the size of another if that has a group number. */
  function Registered(l: Listening): nat {
    if HasGroups(l.publishers) then |l.publishers| else |l.got|
  }

  /** `oc_register_group_multicasts`; every subscription, in order. */
  method Register(got: array<Entry>, publishers: seq<Group>, iid: int, port: nat) returns (subscribed: seq<Endpoint>)
    requires HasGroups(publishers) ==> |publishers| <= got.Length
    ensures forall x :: x in subscribed <==> Subscribes(Listening(got[..], publishers, iid, port), x)
  {
    hide HasFlag, GroupNumber, GroupEndpoint;
    ghost var l := Listening(got[..], publishers, iid, port);
    var groups := AnyGroup(publishers);
    subscribed := [];
    var index := 0;
    var end := if groups then |publishers| else got.Length;
    while index < end
      invariant 0 <= index <= end
      invariant forall x :: x in subscribed <==> SubscribesUpTo(l, index, x)
    {
      var more := [];
      if Receives(got[index]) {
        more := RegisterEntry(got[index], publishers, groups, iid, port);
      }
      assert forall x :: SubscribesUpTo(l, index + 1, x) <==> SubscribesUpTo(l, index, x) || SubscribesFor(l, index, x);
      assert forall x :: x in more <==> SubscribesFor(l, index, x);
      subscribed := subscribed + more;
      index := index + 1;
    }
  }

  method AnyGroup(publishers: seq<Group>) returns (groups: bool)
    ensures groups == HasGroups(publishers)
  {
    var k := 0;
    while k < |publishers|
      invariant k <= |publishers| && forall j | 0 <= j < k :: publishers[j].grpid == 0
    {
      if publishers[k].grpid > 0 { return true; }
      k := k + 1;
    }
    return false;
  }

  /** The loop over the addresses of one entry. */
  method RegisterEntry(e: Entry, publishers: seq<Group>, groups: bool, iid: int, port: nat)
    returns (subscribed: seq<Endpoint>)
    requires groups == HasGroups(publishers)
    ensures forall x :: x in subscribed <==> exists ga | ga in e.ga :: SubscribesAddress(publishers, ga, iid, port, x)
  {
    hide GroupNumber, GroupEndpoint, HasGroups;
    subscribed := [];
    var i := 0;
    while i < |e.ga|
      invariant i <= |e.ga|
      invariant forall x :: x in subscribed <==>
                  exists ga | ga in e.ga[..i] :: SubscribesAddress(publishers, ga, iid, port, x)
    {
      var more := [];
      if groups {
        var number := FindGroupNumber(publishers, e.ga[i]);
        if number > 0 { more := Both(number, iid, port); }
      } else {
        more := Both(e.ga[i], iid, port);
      }
      assert e.ga[..i + 1] == e.ga[..i] + [e.ga[i]];
      assert forall x :: x in more <==> SubscribesAddress(publishers, e.ga[i], iid, port, x);
      subscribed := subscribed + more;
      i := i + 1;
    }
    assert e.ga[..i] == e.ga;
  }

  ghost predicate SubscribesAddress(publishers: seq<Group>, ga: nat, iid: int, port: nat, x: Endpoint) {
    ReceiverNumber(publishers, ga).Some? && x in Both(ReceiverNumber(publishers, ga).value, iid, port)
  }

  ghost predicate SubscribesFor(l: Listening, i: nat, x: Endpoint)
    requires i < |l.got|
  {
    Receives(l.got[i]) && exists ga | ga in l.got[i].ga :: SubscribesAddress(l.publishers, ga, l.iid, l.port, x)
  }

  ghost predicate SubscribesUpTo(l: Listening, n: nat, x: Endpoint)
    requires n <= |l.got|
  {
    exists i | 0 <= i < n :: SubscribesFor(l, i, x)
  }

  /** The endpoints a device listens on. */
  ghost predicate Subscribes(l: Listening, x: Endpoint)
    requires Registered(l) <= |l.got|
  {
    SubscribesUpTo(l, Registered(l), x)
  }

  // --- Meeting ---

  /** Every number that goes into an address is a 32-bit word. */
  ghost predicate Words32(got: seq<Entry>, groups: seq<Group>) {
    (forall e, ga | e in got && ga in e.ga :: ga < 0x1_0000_0000) && forall g | g in groups :: g.grpid < 0x1_0000_0000
  }

  lemma {:induction false} NumberIsWord(groups: seq<Group>, ga: nat)
    requires forall g | g in groups :: g.grpid < 0x1_0000_0000
    ensures GroupNumber(groups, ga) < 0x1_0000_0000
  {
    if groups != [] {
      assert groups[0] in groups;
      NumberIsWord(groups[1..], ga);
    }
  }

  /** Some receiving entry that registration reaches has an address listened for under `number`. */
  ghost predicate ListensFor(l: Listening, number: nat) {
    exists i, ga | 0 <= i < Registered(l) && i < |l.got| && Receives(l.got[i]) && ga in l.got[i].ga ::
      ReceiverNumber(l.publishers, ga) == Some(number)
  }

  lemma AddressHeard(l: Listening, ga: nat, number: nat, iid: int, scope: nat)
    requires number < 0x1_0000_0000 && (scope == 2 || scope == 5) && ga < 0x1_0000_0000
    requires forall g | g in l.publishers :: g.grpid < 0x1_0000_0000
    ensures SubscribesAddress(l.publishers, ga, l.iid, l.port, GroupEndpoint(number, iid, scope, COAP_PORT))
       <==> && ReceiverNumber(l.publishers, ga) == Some(number) && iid % 0x100_0000_0000 == l.iid % 0x100_0000_0000
            && l.port == COAP_PORT
  {
    hide GroupEndpoint, HasGroups, GroupNumber;
    NumberIsWord(l.publishers, ga);
    if ReceiverNumber(l.publishers, ga).Some? {
      var n := ReceiverNumber(l.publishers, ga).value;
      AddressIsInjective(number, iid, scope, n, l.iid, 2, COAP_PORT, l.port);
      AddressIsInjective(number, iid, scope, n, l.iid, 5, COAP_PORT, l.port);
    }
  }

  /**
   A message sent for `ga` in scope 2 or 5 reaches exactly the devices of the same installation, up to
   40 bits, that use the CoAP port and listen for the number the sender resolves `ga` to.
   */
  lemma SenderMeetsReceiver(recipients: seq<Group>, ga: nat, iid: int, scope: nat, l: Listening)
    requires ga < 0x1_0000_0000 && Words32(l.got, recipients + l.publishers) && Registered(l) <= |l.got|
    requires scope == 2 || scope == 5
    ensures Subscribes(l, GroupEndpoint(SenderNumber(recipients, ga), iid, scope, COAP_PORT))
       <==> && iid % 0x100_0000_0000 == l.iid % 0x100_0000_0000 && l.port == COAP_PORT
            && ListensFor(l, SenderNumber(recipients, ga))
  {
    hide GroupEndpoint, HasGroups, GroupNumber, HasFlag, ReceiverNumber, SubscribesAddress;
    assert forall g | g in recipients :: g in recipients + l.publishers;
    assert forall g | g in l.publishers :: g in recipients + l.publishers;
    NumberIsWord(recipients, ga);
    var number := SenderNumber(recipients, ga);
    var x := GroupEndpoint(number, iid, scope, COAP_PORT);
    var same := iid % 0x100_0000_0000 == l.iid % 0x100_0000_0000 && l.port == COAP_PORT;
    forall i | 0 <= i < |l.got|
      ensures SubscribesFor(l, i, x) <==> same && Receives(l.got[i]) && exists a | a in l.got[i].ga ::
          ReceiverNumber(l.publishers, a) == Some(number)
    {
      assert l.got[i] in l.got;
      forall a | a in l.got[i].ga
        ensures SubscribesAddress(l.publishers, a, l.iid, l.port, x)
            <==> same && ReceiverNumber(l.publishers, a) == Some(number)
      {
        AddressHeard(l, a, number, iid, scope);
      }
    }
  }

  /**
   From one device to another: a write sent for a resource is heard by every device whose entry takes
   writes on the first address, if both resolve that address alike; and the entry's put handler is
   called, unless an earlier entry on that address names no resource.
   */
  lemma WriteArrives(s: Sending, sender: Device, url: string, from: nat, l: Listening, receiver: Device,
                     resources: seq<Resource>, to: nat)
    requires InRuntime(sender) && InRuntime(receiver) && sender.iid % 0x100_0000_0000 == l.iid % 0x100_0000_0000
        && l.port == COAP_PORT
    requires s.scope == 2 || s.scope == 5
    requires Words32(s.got, s.recipients) && Words32(l.got, l.publishers) && Registered(l) <= |l.got|
    requires Resolve(url, s.resources).Some? && from < |s.got| && Selected(s.got[from], url, true)
        && s.got[from].ga != []
    requires to < Registered(l) && Takes(l.got[to], s.got[from].ga[0], Write, resources)
    requires ReceiverNumber(l.publishers, s.got[from].ga[0]) == Some(SenderNumber(s.recipients, s.got[from].ga[0]))
    requires forall j | 0 <= j < to && Holds(l.got[j], s.got[from].ga[0]) :: !Stops(l.got[j], resources)
    ensures var ga := s.got[from].ga[0];
            var number := SenderNumber(s.recipients, ga);
            && Multicast(s.scope, number, ga) in Issued(s, sender, url, "w", true)
            && Subscribes(l, GroupEndpoint(number, sender.iid, s.scope, COAP_PORT))
            && to in Puts(Received(l.got, receiver, "w", ga, resources, false))
  {
    hide HasFlag, GroupEndpoint, Issued, Received, Stops, GroupNumber, HasGroups, Names, Resolve, MessageOf;
    var ga := s.got[from].ga[0];
    WriteIsWrite();
    assert s.got[from] in s.got && ga in s.got[from].ga;
    IssuedIs(s, sender, url, "w", true);
    assert SendsFor(s, from, Multicast(s.scope, SenderNumber(s.recipients, ga), ga));
    SenderMeetsReceiver(s.recipients, ga, sender.iid, s.scope, l);
    ReceivedPuts(l.got, receiver, "w", ga, resources, false);
    TakerDoesNotStop(l.got[to], ga, Write, resources);
    assert ListensFor(l, SenderNumber(s.recipients, ga));
  }

  lemma WriteIsWrite()
    ensures MessageOf("w") == Write
  {}
}
