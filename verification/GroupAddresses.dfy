/** The layout of group addresses, and who hears what, read off the tables and the address bytes. */
module GroupAddresses {
  import opened GroupDispatch
  import opened GroupMessages
  import opened GroupMulticast
  import opened GroupObjects
  import opened GroupSending
  import opened Options

  /** Four octets, the most significant one first. */
  function Word(a: seq<nat>, at: nat): nat
    requires at + 4 <= |a|
  {
    0x100_0000 * a[at] + 0x1_0000 * a[at + 1] + 0x100 * a[at + 2] + a[at + 3]
  }

  /**
   The address of a group: ff3x:30:fd, the low forty bits of the installation, two zero octets and the
   number of the group (section 2 of RFC 3306 for the first octets).
   */
  predicate IsGroupAddress(a: seq<nat>, number: nat, iid: int, scope: nat) {
    && |a| == 16 && (forall b | b in a :: b < 0x100)
    && a[0] == 0xff && a[1] == 0x30 + scope && a[2] == 0 && a[3] == 0x30 && a[4] == 0xfd
    && 0x1_0000_0000 * a[5] + Word(a, 6) == iid % 0x100_0000_0000
    && a[10] == 0 && a[11] == 0 && Word(a, 12) == number
  }

  lemma BytesOfLow(n: int)
    ensures Low(n, 4) == Byte(n, 0) + 0x100 * Byte(n, 1) + 0x1_0000 * Byte(n, 2) + 0x100_0000 * Byte(n, 3)
    ensures Low(n, 5) == Low(n, 4) + 0x1_0000_0000 * Byte(n, 4)
  {
    LowStep(n, 0);
    LowStep(n, 1);
    LowStep(n, 2);
    LowStep(n, 3);
    LowStep(n, 4);
    assert Low(n, 0) == 0;
  }

  function Power(k: nat): nat {
    if k == 0 then 1 else 0x100 * Power(k - 1)
  }

  lemma Regroup(p: nat, b: nat)
    ensures 0x100 * (p * b) == 0x100 * p * b
  {
  }

  lemma {:induction false} LowStep(n: int, k: nat)
    ensures Low(n, k + 1) == Low(n, k) + Power(k) * Byte(n, k)
    decreases k
  {
    if k == 0 {
      assert Low(n / 0x100, 0) == 0 && Power(0) == 1;
    } else {
      LowStep(n / 0x100, k - 1);
      Regroup(Power(k - 1), Byte(n / 0x100, k - 1));
    }
  }

  lemma PrefixBytes(number: nat, iid: int, scope: nat, port: nat)
    requires scope < 16
    ensures
      var a := GroupEndpoint(number, iid, scope, port).address;
      && |a| == 16 && a[0] == 0xff && a[1] == 0x30 + scope && a[2] == 0 && a[3] == 0x30 && a[4] == 0xfd
      && a[10] == 0 && a[11] == 0
  {
    ScopeByte(scope);
    hide Byte;
  }

  lemma NumberBytes(number: nat, iid: int, scope: nat, port: nat)
    ensures
      var a := GroupEndpoint(number, iid, scope, port).address;
      && a[5] == Byte(iid, 4) && a[6] == Byte(iid, 3) && a[7] == Byte(iid, 2) && a[8] == Byte(iid, 1)
      && a[9] == Byte(iid, 0)
      && a[12] == Byte(number, 3) && a[13] == Byte(number, 2) && a[14] == Byte(number, 1) && a[15] == Byte(number, 0)
  {
    hide Byte;
  }

  /** Four bytes, least significant first, in the order of an address. */
  lemma WordOf(a: seq<nat>, at: nat, n: int)
    requires at + 4 <= |a| && a[at] == Byte(n, 3) && a[at + 1] == Byte(n, 2)
    requires a[at + 2] == Byte(n, 1) && a[at + 3] == Byte(n, 0)
    ensures Word(a, at) == Low(n, 4)
  {
    BytesOfLow(n);
    hide Byte, Low;
  }

  lemma InstallationOf(a: seq<nat>, iid: int)
    requires |a| == 16 && a[5] == Byte(iid, 4) && a[6] == Byte(iid, 3) && a[7] == Byte(iid, 2)
    requires a[8] == Byte(iid, 1) && a[9] == Byte(iid, 0)
    ensures 0x1_0000_0000 * a[5] + Word(a, 6) == iid % 0x100_0000_0000
  {
    WordOf(a, 6, iid);
    BytesOfLow(iid);
    LowIsRemainder(iid);
    hide Byte, Low, Word;
  }

  lemma AddressLayout(number: nat, iid: int, scope: nat, port: nat)
    requires number < 0x1_0000_0000 && scope < 16
    ensures var e := GroupEndpoint(number, iid, scope, port);
            IsGroupAddress(e.address, number, iid, scope) && e.port == port
  {
    PrefixBytes(number, iid, scope, port);
    NumberBytes(number, iid, scope, port);
    assert GroupEndpoint(number, iid, scope, port).port == port;
    hide *;
    var a := GroupEndpoint(number, iid, scope, port).address;
    AllOctets(a, number, iid);
    InstallationOf(a, iid);
    NumberOf(a, number);
    LayoutOf(a, number, iid, scope);
  }

  lemma NumberOf(a: seq<nat>, number: nat)
    requires |a| == 16 && number < 0x1_0000_0000 && a[12] == Byte(number, 3) && a[13] == Byte(number, 2)
    requires a[14] == Byte(number, 1) && a[15] == Byte(number, 0)
    ensures Word(a, 12) == number
  {
    hide *;
    WordOf(a, 12, number);
    LowOfWord(number);
  }

  lemma LowOfWord(n: nat)
    requires n < 0x1_0000_0000
    ensures Low(n, 4) == n
  {
    LowIsRemainder(n);
    hide Low;
    SmallRemainder(n);
  }

  lemma SmallRemainder(n: nat)
    requires n < 0x1_0000_0000
    ensures n % 0x1_0000_0000 == n
  {
  }

  lemma LayoutOf(a: seq<nat>, number: nat, iid: int, scope: nat)
    requires |a| == 16 && forall b | b in a :: b < 0x100
    requires a[0] == 0xff && a[1] == 0x30 + scope && a[2] == 0 && a[3] == 0x30 && a[4] == 0xfd && a[10] == 0
        && a[11] == 0
    requires 0x1_0000_0000 * a[5] + Word(a, 6) == iid % 0x100_0000_0000 && Word(a, 12) == number
    ensures IsGroupAddress(a, number, iid, scope)
  {
    hide Word;
  }

  lemma AllOctets(a: seq<nat>, number: nat, iid: int)
    requires |a| == 16 && a[0] == 0xff && a[1] < 0x40 && a[2] == 0 && a[3] == 0x30 && a[4] == 0xfd
    requires a[5] == Byte(iid, 4) && a[6] == Byte(iid, 3) && a[7] == Byte(iid, 2) && a[8] == Byte(iid, 1)
    requires a[9] == Byte(iid, 0) && a[10] == 0 && a[11] == 0
    requires a[12] == Byte(number, 3) && a[13] == Byte(number, 2) && a[14] == Byte(number, 1)
    requires a[15] == Byte(number, 0)
    ensures forall b | b in a :: b < 0x100
  {
    hide Byte;
    forall i | 0 <= i < 16 ensures a[i] < 0x100 {
    }
  }

  // --- Listening ---

  /** The number that a device listens for on account of an address. */
  ghost predicate ListenedAs(publishers: seq<Group>, ga: nat, n: nat) {
    if exists p | p in publishers :: p.grpid > 0 then n > 0 && NumberedAt(publishers, ga, n) else n == ga
  }

  /** Registration looks at entry `i`: it stops at the size of the publisher table if that has a group number. */
  ghost predicate LookedAt(got: seq<Entry>, publishers: seq<Group>, i: nat) {
    && i < |got| && (Bit(got[i].cflags, 8) || Bit(got[i].cflags, 16) || Bit(got[i].cflags, 128))
    && ((exists p | p in publishers :: p.grpid > 0) ==> i < |publishers|)
  }

  /** Some entry that is looked at has an address that is listened for under the number. */
  ghost predicate Hears(got: seq<Entry>, publishers: seq<Group>, n: nat) {
    exists i: nat, ga | i < |got| && LookedAt(got, publishers, i) && ga in got[i].ga :: ListenedAs(publishers, ga, n)
  }

  lemma ReceiverNumberMeans(publishers: seq<Group>, ga: nat, n: nat)
    ensures ReceiverNumber(publishers, ga) == Some(n) <==> ListenedAs(publishers, ga, n)
  {
    hide NumberedAt, GroupNumber;
    if n > 0 { NumberMeans(publishers, ga, n); }
  }

  lemma LookedAtMeans(l: Listening, i: nat)
    requires i < |l.got|
    ensures LookedAt(l.got, l.publishers, i) <==>
              Receives(l.got[i]) && (HasGroups(l.publishers) ==> i < Registered(l))
  {
    FlagsAreBits(l.got[i].cflags);
    hide Bit, HasFlag;
  }

  lemma HearsMeans(l: Listening, n: nat)
    requires Registered(l) <= |l.got|
    ensures ListensFor(l, n) <==> Hears(l.got, l.publishers, n)
  {
    hide LookedAt, Receives, ReceiverNumber, ListenedAs, HasGroups;
    if Hears(l.got, l.publishers, n) {
      var i: nat, ga: nat :| i < |l.got| && LookedAt(l.got, l.publishers, i) && ga in l.got[i].ga
          && ListenedAs(l.publishers, ga, n);
      LookedAtMeans(l, i);
      ReceiverNumberMeans(l.publishers, ga, n);
    }
    if ListensFor(l, n) {
      var i: nat, ga: nat :| 0 <= i < Registered(l) && i < |l.got| && Receives(l.got[i]) && ga in l.got[i].ga
          && ReceiverNumber(l.publishers, ga) == Some(n);
      LookedAtMeans(l, i);
      ReceiverNumberMeans(l.publishers, ga, n);
    }
  }

  /** The endpoints that a device subscribes to: those of the numbers that it listens for, in scopes 2 and 5. */
  lemma SubscribedText(l: Listening, x: Endpoint)
    requires Registered(l) <= |l.got|
    ensures Subscribes(l, x) <==>
              exists n: nat, scope: nat ::
                Hears(l.got, l.publishers, n) && (scope == 2 || scope == 5)
                    && x == GroupEndpoint(n, l.iid, scope, l.port)
  {
    hide GroupEndpoint, Receives, ReceiverNumber, HasGroups, Hears;
    if Subscribes(l, x) {
      var i :| 0 <= i < Registered(l) && SubscribesFor(l, i, x);
      var ga :| ga in l.got[i].ga && SubscribesAddress(l.publishers, ga, l.iid, l.port, x);
      var n := ReceiverNumber(l.publishers, ga).value;
      HearsMeans(l, n);
      var scope := if x == GroupEndpoint(n, l.iid, 2, l.port) then 2 else 5;
      assert x == GroupEndpoint(n, l.iid, scope, l.port);
    }
    if n: nat, scope: nat :|
      Hears(l.got, l.publishers, n) && (scope == 2 || scope == 5) && x == GroupEndpoint(n, l.iid, scope, l.port)
    {
      HearsMeans(l, n);
      var i: nat, ga: nat :| 0 <= i < Registered(l) && i < |l.got| && Receives(l.got[i]) && ga in l.got[i].ga
          && ReceiverNumber(l.publishers, ga) == Some(n);
      assert SubscribesAddress(l.publishers, ga, l.iid, l.port, x);
      assert SubscribesFor(l, i, x);
    }
  }

  /**
   A message for `ga` that goes to number `n` in scope 2 or 5 is heard by exactly the devices of the same
   installation, up to forty bits, that use port 5683 and listen for that number.
   */
  lemma HeardText(recipients: seq<Group>, ga: nat, n: nat, iid: int, scope: nat, l: Listening)
    requires ga < 0x1_0000_0000 && SentTo(recipients, ga, n) && (scope == 2 || scope == 5)
    requires Words32(l.got, recipients + l.publishers) && Registered(l) <= |l.got|
    ensures Subscribes(l, GroupEndpoint(n, iid, scope, 5683)) <==>
              && iid % 0x100_0000_0000 == l.iid % 0x100_0000_0000 && l.port == 5683 && Hears(l.got, l.publishers, n)
  {
    hide GroupEndpoint, SentTo, SenderNumber, Subscribes, Hears, ListensFor, Words32;
    SentToMeans(recipients, ga, n);
    SenderMeetsReceiver(recipients, ga, iid, scope, l);
    HearsMeans(l, n);
  }
}
