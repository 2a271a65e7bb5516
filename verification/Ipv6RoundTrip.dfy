/** Printing an IPv6 endpoint and parsing the text again: exactly when that gives the endpoint back. */
module Ipv6RoundTrip {
  import opened Octets
  import opened Ipv6Text
  import opened Ipv6Printer
  import opened Ipv6Parser

  /** The zero groups of the address form at most one run. */
  predicate AtMostOneRun(a: Address) {
    forall i: nat, j: nat, k: nat | i < j < k < GROUPS && IsZero(a, i) && IsZero(a, k) :: IsZero(a, j)
  }

  function OctetsOf(g: Group): seq<byte> {
    [g.hi, g.lo]
  }

  /** The groups before k that are not zero. */
  function Before(a: Address, k: nat): (o: seq<byte>)
    requires k <= GROUPS
    ensures |o| <= 2 * k && |o| % 2 == 0
  {
    if k == 0 then []
    else if IsZero(a, k - 1) then Before(a, k - 1)
    else Before(a, k - 1) + OctetsOf(GroupAt(a, k - 1))
  }

  /** The groups from k on that are not zero. */
  function After(a: Address, k: nat): (o: seq<byte>)
    requires k <= GROUPS
    ensures |o| <= 2 * (GROUPS - k) && |o| % 2 == 0
    decreases GROUPS - k
  {
    if k == GROUPS then []
    else
      var later := After(a, k + 1);
      if IsZero(a, k) then later else OctetsOf(GroupAt(a, k)) + later
  }

  lemma AfterZero(a: Address, k: nat)
    requires k < GROUPS && IsZero(a, k)
    ensures |After(a, k)| <= 2 * (GROUPS - k) - 2
  {
  }

  /** The address without its other zero groups, the chosen run filling the gap. */
  function Squeezed(a: Address): Address {
    if HasZero(a) && Chosen(a) < GROUPS && IsZero(a, Chosen(a)) then
      AfterZero(a, Chosen(a));
      var pre, post := Before(a, Chosen(a)), After(a, Chosen(a));
      pre + Zeros(16 - |pre| - |post|) + post
    else a
  }

  // ----- reading one group

  lemma TwoDigitsRead(b: byte)
    ensures HexToBin2(TwoDigits(b)[0], TwoDigits(b)[1]) == b
    ensures TwoDigits(b)[0] != COLON && TwoDigits(b)[1] != COLON && TwoDigits(b)[0] != CLOSE && TwoDigits(b)[1] != CLOSE
  {
  }

  lemma OneDigitRead(b: byte)
    requires b <= 0x0F
    ensures HexToBin1(OneDigit(b)[0]) == b && OneDigit(b)[0] != COLON && OneDigit(b)[0] != CLOSE
  {
  }

  lemma GroupRead(g: Group)
    requires g != Group(0, 0)
    ensures 1 <= |HexGroup(g)| <= 4 && Octets2(HexGroup(g)) == OctetsOf(g)
    ensures COLON !in HexGroup(g) && CLOSE !in HexGroup(g)
  {
    TwoDigitsRead(g.hi);
    TwoDigitsRead(g.lo);
    if g.hi <= 0x0F { OneDigitRead(g.hi); }
    if g.lo <= 0x0F { OneDigitRead(g.lo); }
    hide HexToBin1, HexToBin2, HexDigit;
  }

  lemma FirstColonAfter(h: seq<byte>, tail: seq<byte>)
    requires COLON !in h
    requires tail == [] || tail[0] == COLON
    ensures FirstColon(h + tail) == |h|
  {
    assert forall i | 0 <= i < |h| :: (h + tail)[i] == h[i];
    assert tail != [] ==> (h + tail)[|h|] == tail[0];
  }

  /** A printed group is read back as its two octets. */
  lemma ParseGroup(g: Group, tail: seq<byte>, octets: seq<byte>, split: int)
    requires g != Group(0, 0) && |octets| % 2 == 0 && |octets| <= 14 && -1 <= split <= |octets|
    requires tail == [] || tail[0] == COLON
    ensures Parse(HexGroup(g) + tail, octets, split) == Parse(tail, octets + OctetsOf(g), split)
  {
    GroupRead(g);
    var h := HexGroup(g);
    FirstColonAfter(h, tail);
    ParseOnce(h + tail, octets, split);
    hide Parse, FirstColon, HexGroup, Octets2;
    assert (h + tail)[0] == h[0];
    assert (h + tail)[|h|..] == tail && (h + tail)[..|h|] == h;
  }

  /** A single colon is skipped. */
  lemma ParseColon(tail: seq<byte>, octets: seq<byte>, split: int)
    requires |octets| % 2 == 0 && |octets| < 15 && -1 <= split <= |octets|
    requires !DoubleColonAt([COLON] + tail, split)
    ensures Parse([COLON] + tail, octets, split) == Parse(tail, octets, split)
  {
    ParseOnce([COLON] + tail, octets, split);
    assert ([COLON] + tail)[1..] == tail;
  }

  /** The first double colon marks the split, and is otherwise read as its second colon. */
  lemma ParseDoubleColon(tail: seq<byte>, octets: seq<byte>)
    requires |octets| % 2 == 0 && |octets| < 15
    requires tail != [] && tail[0] == COLON
    ensures Parse([COLON] + tail, octets, -1) == Parse(tail, octets, |octets|)
  {
    var s, rest := [COLON] + tail, tail[1..];
    assert s[2..] == rest && tail == [COLON] + rest;
    ParseOnce(s, octets, -1);
    ParseColon(rest, octets, |octets|);
    if rest != [] { ParseOnce(rest, octets, |octets|); }
  }

  /** A colon and a printed group. */
  lemma ParseColonGroup(g: Group, tail: seq<byte>, octets: seq<byte>, split: int)
    requires g != Group(0, 0) && |octets| % 2 == 0 && |octets| <= 14 && -1 <= split <= |octets|
    requires tail == [] || tail[0] == COLON
    ensures Parse([COLON] + HexGroup(g) + tail, octets, split) == Parse(tail, octets + OctetsOf(g), split)
  {
    hide Parse, HexGroup, Octets2, OctetsOf;
    GroupRead(g);
    ParseGroup(g, tail, octets, split);
    var h := HexGroup(g);
    assert [COLON] + h + tail == [COLON] + (h + tail);
    assert ([COLON] + (h + tail))[1] == h[0];
    ParseColon(h + tail, octets, split);
  }

  // ----- reading the text between the brackets

  /** The text and the octets of one more group, at the end. */
  lemma OneMoreBefore(a: Address, k: nat, tail: seq<byte>)
    requires 0 < k <= GROUPS
    ensures
      var g := GroupAt(a, k - 1);
      if IsZero(a, k - 1) then Body(a, k) == Body(a, k - 1) && Before(a, k) == Before(a, k - 1)
      else
        && g != Group(0, 0)
        && Before(a, k) == Before(a, k - 1) + OctetsOf(g)
        && (k > 1 ==> Body(a, k) + tail == Body(a, k - 1) + ([COLON] + HexGroup(g) + tail))
        && (k == 1 ==> Body(a, k) == HexGroup(g))
  {
    hide HexGroup;
  }

  lemma NothingBefore(a: Address)
    ensures Body(a, 0) == [] && Before(a, 0) == []
  {
  }

  lemma {:induction false} ParseBody(a: Address, k: nat, tail: seq<byte>)
    requires k <= GROUPS
    requires tail == [] || tail[0] == COLON
    ensures Parse(Body(a, k) + tail, [], -1) == Parse(tail, Before(a, k), -1)
  {
    hide Parse, Body, Before, HexGroup, IsZero;
    if k == 0 {
      NothingBefore(a);
      assert [] + tail == tail;
    } else {
      OneMoreBefore(a, k, tail);
      if IsZero(a, k - 1) {
        ParseBody(a, k - 1, tail);
      } else {
        BodyStep(a, k, tail);
        if k > 1 { ParseBody(a, k - 1, [COLON] + HexGroup(GroupAt(a, k - 1)) + tail); }
      }
    }
  }

  lemma BodyStep(a: Address, k: nat, tail: seq<byte>)
    requires 0 < k <= GROUPS && !IsZero(a, k - 1)
    requires tail == [] || tail[0] == COLON
    ensures
      var g := GroupAt(a, k - 1);
      if k == 1 then Parse(HexGroup(g) + tail, [], -1) == Parse(tail, Before(a, 1), -1)
      else Parse([COLON] + HexGroup(g) + tail, Before(a, k - 1), -1) == Parse(tail, Before(a, k), -1)
  {
    var g := GroupAt(a, k - 1);
    OneMoreBefore(a, k, tail);
    assert k == 1 ==> [] + OctetsOf(g) == Before(a, k);
    hide Parse, HexGroup, IsZero;
    if k == 1 { ParseGroup(g, tail, [], -1); } else { ParseColonGroup(g, tail, Before(a, k - 1), -1); }
  }

  /** The text and the octets of one more group, at the front. */
  lemma OneMoreAfter(a: Address, k: nat, end: seq<byte>, octets: seq<byte>)
    requires k < GROUPS
    ensures
      var g := GroupAt(a, k);
      if IsZero(a, k) then Tail(a, k) == Tail(a, k + 1) && After(a, k) == After(a, k + 1)
      else
        && g != Group(0, 0)
        && Tail(a, k) + end == [COLON] + HexGroup(g) + (Tail(a, k + 1) + end)
        && octets + After(a, k) == octets + OctetsOf(g) + After(a, k + 1)
  {
    hide HexGroup, Tail, After, OctetsOf;
    var g := GroupAt(a, k);
    TailOnce(a, k);
    AfterOnce(a, k);
    if IsZero(a, k) {
      assert [] + Tail(a, k + 1) == Tail(a, k + 1) && [] + After(a, k + 1) == After(a, k + 1);
    } else {
      assert [COLON] + HexGroup(g) + Tail(a, k + 1) + end == [COLON] + HexGroup(g) + (Tail(a, k + 1) + end);
      assert octets + (OctetsOf(g) + After(a, k + 1)) == octets + OctetsOf(g) + After(a, k + 1);
    }
  }

  lemma NothingAfter(a: Address)
    ensures Tail(a, GROUPS) == [] && After(a, GROUPS) == []
  {
  }

  lemma {:induction false} ParseTail(a: Address, k: nat, end: seq<byte>, octets: seq<byte>, split: int)
    requires k <= GROUPS && |octets| % 2 == 0 && |octets| + 2 <= 2 * k && 0 <= split <= |octets|
    requires |octets + After(a, k)| <= 16 && |octets + After(a, k)| % 2 == 0
    requires end == [] || end[0] == COLON
    ensures Parse(Tail(a, k) + end, octets, split) == Parse(end, octets + After(a, k), split)
    decreases GROUPS - k
  {
    hide Parse, Tail, After, HexGroup, IsZero;
    if k == GROUPS {
      NothingAfter(a);
      assert [] + end == end && octets + [] == octets;
    } else {
      OneMoreAfter(a, k, end, octets);
      TailOrEnd(a, k + 1, end);
      if IsZero(a, k) {
        ParseTail(a, k + 1, end, octets, split);
      } else {
        ParseColonGroup(GroupAt(a, k), Tail(a, k + 1) + end, octets, split);
        ParseTail(a, k + 1, end, octets + OctetsOf(GroupAt(a, k)), split);
      }
    }
  }

  lemma {:induction false} TailOrEnd(a: Address, k: nat, end: seq<byte>)
    requires k <= GROUPS
    requires end == [] || end[0] == COLON
    ensures Tail(a, k) + end == [] || (Tail(a, k) + end)[0] == COLON
    decreases GROUPS - k
  {
    hide HexGroup;
    if k < GROUPS { TailOrEnd(a, k + 1, end); }
  }

  /** The parser ends on every printed text, having read every group that is not zero. */
  lemma ParseCompressed(a: Address)
    ensures HasZero(a) ==> Chosen(a) < GROUPS && IsZero(a, Chosen(a))
    ensures
      Parse(Compressed(a), [], -1) ==
        if HasZero(a) then Done(Before(a, Chosen(a)) + After(a, Chosen(a)), |Before(a, Chosen(a))|)
        else Done(Before(a, GROUPS), -1)
  {
    ChosenIsFirstLongest(a);
    if HasZero(a) {
      var m := Chosen(a);
      CompressedIsDouble(a, m);
      hide Parse, Body, Before, After, Tail, Trailer, IsZero, Compressed, Chosen;
      var pre, rest := Before(a, m), Tail(a, m) + Trailer(a);
      TailStartsWithColon(a, m);
      ParseBody(a, m, [COLON] + rest);
      ParseDoubleColon(rest, pre);
      ParseAfterSplit(a, m);
    } else {
      assert Body(a, GROUPS) + [] == Body(a, GROUPS);
      ParseBody(a, GROUPS, []);
      hide Body, Before;
    }
  }

  lemma CompressedIsDouble(a: Address, m: nat)
    requires HasZero(a) && m == Chosen(a) < GROUPS
    ensures Compressed(a) == Body(a, m) + ([COLON] + (Tail(a, m) + Trailer(a)))
  {
    hide Body, Tail, Trailer, Chosen, IsZero;
  }

  lemma TrailerStarts(a: Address)
    ensures Trailer(a) == [] || Trailer(a)[0] == COLON
  {
  }

  lemma ParseAfterSplit(a: Address, m: nat)
    requires m < GROUPS && IsZero(a, m)
    ensures
      var pre := Before(a, m);
      Parse(Tail(a, m) + Trailer(a), pre, |pre|) == Done(pre + After(a, m), |pre|)
  {
    TrailerStarts(a);
    hide Parse, Tail, After, Before, Trailer, IsZero, HexGroup;
    var pre := Before(a, m);
    OneMoreAfter(a, m, Trailer(a), pre);
    AfterZero(a, m);
    ParseTail(a, m + 1, Trailer(a), pre, |pre|);
    ParseTrailer(a, pre + After(a, m), |pre|);
  }

  lemma ParseTrailer(a: Address, octets: seq<byte>, split: nat)
    requires |octets| % 2 == 0 && |octets| <= 14 && split <= |octets|
    ensures Parse(Trailer(a), octets, split) == Done(octets, split)
  {
    if Trailer(a) != [] {
      assert Trailer(a) == [COLON] + [];
      ParseColon([], octets, split);
    }
  }

  /** For every address: parsing what was printed gives the squeezed address. */
  lemma ParsePrinted(a: Address)
    ensures Parse(Compressed(a), [], -1).Done?
    ensures var r := Parse(Compressed(a), [], -1); Expand(r.octets, r.split) == Squeezed(a)
  {
    ParseCompressed(a);
    hide Parse, Chosen, Compressed, IsZero;
    if HasZero(a) {
      hide Before, After;
      AfterZero(a, Chosen(a));
    } else {
      BeforeIsPrefix(a, GROUPS);
      assert a + Zeros(0) == a;
    }
  }

  lemma {:induction false} BeforeIsPrefix(a: Address, k: nat)
    requires k <= GROUPS
    requires forall j: nat | j < k :: !IsZero(a, j)
    ensures Before(a, k) == a[..2 * k]
  {
    hide IsZero;
    if k > 0 { BeforeIsPrefix(a, k - 1); }
  }

  lemma {:induction false} AfterIsSuffix(a: Address, k: nat, n: nat)
    requires k <= n <= GROUPS
    requires forall j: nat | k <= j < n :: IsZero(a, j)
    requires forall j: nat | n <= j < GROUPS :: !IsZero(a, j)
    ensures After(a, k) == a[2 * n..]
    decreases GROUPS - k
  {
    hide IsZero, After, OctetsOf;
    if k == GROUPS {
      NothingAfter(a);
    } else {
      AfterIsSuffix(a, k + 1, if k < n then n else k + 1);
      AfterOnce(a, k);
      OctetsInFront(a, k);
      assert IsZero(a, k) ==> [] + After(a, k + 1) == After(a, k + 1);
    }
  }

  lemma OctetsInFront(a: Address, k: nat)
    requires k < GROUPS
    ensures a[2 * k..] == OctetsOf(GroupAt(a, k)) + a[2 * (k + 1)..]
  {
  }

  // ----- the domain of the round trip

  /** With one run at most, the groups before it and after it are all there are besides. */
  lemma OneRunSplits(a: Address, m: nat)
    requires AtMostOneRun(a) && m < GROUPS && StartsRun(a, m)
    ensures
      var n := m + RunLength(a, m);
      && (forall j: nat | j < m :: !IsZero(a, j))
      && (forall j: nat | m <= j < n :: IsZero(a, j))
      && (forall j: nat | n <= j < GROUPS :: !IsZero(a, j))
  {
    var n := m + RunLength(a, m);
    assert n > m && IsZero(a, m);
    assert m > 0 ==> !IsZero(a, m - 1);
    assert n < GROUPS ==> !IsZero(a, n);
    hide IsZero, RunLength, StartsRun, AtMostOneRun;
    NoneBefore(a, m);
    NoneBehind(a, m, n);
  }

  lemma NoneBefore(a: Address, m: nat)
    requires AtMostOneRun(a) && m < GROUPS && IsZero(a, m) && (m > 0 ==> !IsZero(a, m - 1))
    ensures forall j: nat | j < m :: !IsZero(a, j)
  {
    hide IsZero;
    forall j: nat | j < m ensures !IsZero(a, j) {
    }
  }

  lemma NoneBehind(a: Address, m: nat, n: nat)
    requires AtMostOneRun(a) && m < n <= GROUPS && IsZero(a, m) && (n < GROUPS ==> !IsZero(a, n))
    ensures forall j: nat | n <= j < GROUPS :: !IsZero(a, j)
  {
    hide IsZero;
    forall j: nat | n <= j < GROUPS ensures !IsZero(a, j) {
    }
  }

  lemma NothingLost(a: Address, m: nat, n: nat)
    requires m <= n <= GROUPS
    requires forall j: nat | j < m :: !IsZero(a, j)
    requires forall j: nat | m <= j < n :: IsZero(a, j)
    requires forall j: nat | n <= j < GROUPS :: !IsZero(a, j)
    ensures |Before(a, m)| == 2 * m && |After(a, m)| == 16 - 2 * n
    ensures Before(a, m) + Zeros(2 * n - 2 * m) + After(a, m) == a
  {
    hide IsZero, Before, After, Zeros;
    BeforeIsPrefix(a, m);
    AfterIsSuffix(a, m, n);
    ZeroOctets(a, m, n);
    SplitAddress(a, m, n);
  }

  /** With one run at most, nothing is squeezed out. */
  lemma OneRunKept(a: Address)
    requires AtMostOneRun(a)
    ensures Squeezed(a) == a
  {
    hide Before, After, RunLength, Chosen, Zeros, HasZero, StartsRun, IsZero, AtMostOneRun;
    if HasZero(a) {
      var m := Chosen(a);
      ChosenStartsRun(a);
      OneRunSplits(a, m);
      NothingLost(a, m, m + RunLength(a, m));
    }
  }

  lemma ChosenStartsRun(a: Address)
    requires HasZero(a)
    ensures Chosen(a) < GROUPS && StartsRun(a, Chosen(a)) && IsZero(a, Chosen(a))
  {
    ChosenIsFirstLongest(a);
  }

  lemma SplitAddress(a: Address, m: nat, n: nat)
    requires m <= n <= GROUPS
    ensures a == a[..2 * m] + a[2 * m..2 * n] + a[2 * n..]
  {
  }

  lemma ZeroOctets(a: Address, m: nat, n: nat)
    requires m <= n <= GROUPS
    requires forall j | m <= j < n :: IsZero(a, j)
    ensures a[2 * m..2 * n] == Zeros(2 * n - 2 * m)
  {
    forall i | 2 * m <= i < 2 * n ensures a[i] == 0 {
      assert IsZero(a, i / 2);
    }
  }

  /** Octets in which no pair is zero. */
  ghost predicate NoZeroPair(o: seq<byte>) {
    forall i: nat | 2 * i + 1 < |o| :: o[2 * i] != 0 || o[2 * i + 1] != 0
  }

  lemma {:induction false} BeforeHasNoZeroPair(a: Address, k: nat)
    requires k <= GROUPS
    ensures NoZeroPair(Before(a, k))
  {
    if k > 0 { BeforeHasNoZeroPair(a, k - 1); }
  }

  lemma NotZeroPair(a: Address, k: nat)
    requires k < GROUPS && !IsZero(a, k)
    ensures var pair := OctetsOf(GroupAt(a, k)); |pair| == 2 && (pair[0] != 0 || pair[1] != 0)
  {
  }

  lemma PairBefore(pair: seq<byte>, o: seq<byte>)
    requires |pair| == 2 && (pair[0] != 0 || pair[1] != 0) && NoZeroPair(o)
    ensures NoZeroPair(pair + o)
  {
    forall i: nat | 2 * i + 1 < |pair + o| ensures (pair + o)[2 * i] != 0 || (pair + o)[2 * i + 1] != 0 {
      if i > 0 { assert o[2 * (i - 1)] != 0 || o[2 * (i - 1) + 1] != 0; }
    }
  }

  lemma AfterOnce(a: Address, k: nat)
    requires k < GROUPS
    ensures After(a, k) == (if IsZero(a, k) then [] else OctetsOf(GroupAt(a, k))) + After(a, k + 1)
  {
    assert [] + After(a, k + 1) == After(a, k + 1);
  }

  lemma TailOnce(a: Address, k: nat)
    requires k < GROUPS
    ensures Tail(a, k) == (if IsZero(a, k) then [] else [COLON] + HexGroup(GroupAt(a, k))) + Tail(a, k + 1)
  {
    hide HexGroup;
  }

  lemma NoPairs()
    ensures NoZeroPair([])
  {
  }

  lemma StillNoZeroPair(a: Address, k: nat)
    requires k < GROUPS && NoZeroPair(After(a, k + 1))
    ensures NoZeroPair(After(a, k))
  {
    hide After, NoZeroPair, OctetsOf;
    AfterOnce(a, k);
    var later := After(a, k + 1);
    if IsZero(a, k) {
      assert [] + later == later;
    } else {
      NotZeroPair(a, k);
      PairBefore(OctetsOf(GroupAt(a, k)), later);
    }
  }

  lemma {:induction false} AfterHasNoZeroPair(a: Address, k: nat)
    requires k <= GROUPS
    ensures NoZeroPair(After(a, k))
    decreases GROUPS - k
  {
    hide After, NoZeroPair;
    if k == GROUPS {
      NoPairs();
      NothingAfter(a);
    } else {
      AfterHasNoZeroPair(a, k + 1);
      StillNoZeroPair(a, k);
    }
  }

  /** A squeezed address has one run at most, whatever was squeezed. */
  lemma SqueezedHasOneRun(a: Address)
    ensures AtMostOneRun(Squeezed(a)) || !HasZero(a)
  {
    ChosenIsFirstLongest(a);
    if HasZero(a) {
      var m, s := Chosen(a), Squeezed(a);
      AfterZero(a, m);
      BeforeHasNoZeroPair(a, m);
      AfterHasNoZeroPair(a, m);
      hide Before, After, Chosen;
      GapIsOneRun(Before(a, m), After(a, m), s);
    }
  }

  lemma GapIsOneRun(pre: seq<byte>, post: seq<byte>, s: Address)
    requires |pre| % 2 == 0 && |post| % 2 == 0 && |pre| + |post| <= 16
    requires NoZeroPair(pre) && NoZeroPair(post)
    requires s == pre + Zeros(16 - |pre| - |post|) + post
    ensures AtMostOneRun(s)
  {
    forall i: nat | i < GROUPS ensures IsZero(s, i) <==> |pre| <= 2 * i < 16 - |post| {
      GapGroup(pre, post, s, i);
    }
    hide IsZero;
  }

  lemma GapGroup(pre: seq<byte>, post: seq<byte>, s: Address, i: nat)
    requires |pre| % 2 == 0 && |post| % 2 == 0 && |pre| + |post| <= 16 && i < GROUPS
    requires NoZeroPair(pre) && NoZeroPair(post)
    requires s == pre + Zeros(16 - |pre| - |post|) + post
    ensures IsZero(s, i) <==> |pre| <= 2 * i < 16 - |post|
  {
    if 2 * i < |pre| {
      assert s[2 * i] == pre[2 * i] && s[2 * i + 1] == pre[2 * i + 1];
    } else if 16 - |post| <= 2 * i {
      var d := i - (16 - |post|) / 2;
      assert s[2 * i] == post[2 * d] && s[2 * i + 1] == post[2 * d + 1];
    }
  }

  /** Printing and parsing an address loses nothing exactly when its zero groups form at most one run. */
  lemma AddressRoundTrip(a: Address)
    ensures Parse(Compressed(a), [], -1).Done?
    ensures var r := Parse(Compressed(a), [], -1); Expand(r.octets, r.split) == a <==> AtMostOneRun(a)
  {
    ParsePrinted(a);
    SqueezedHasOneRun(a);
    if AtMostOneRun(a) { OneRunKept(a); }
  }

  // ----- whole URIs

  predicate IsTextByte(c: byte) {
    c != CLOSE && c != SLASH
  }

  lemma NoDelimiterInGroup(g: Group)
    ensures forall c | c in HexGroup(g) :: IsTextByte(c)
  {
    assert forall n: byte | n < 16 :: IsTextByte(HexDigit(n));
    LowNibbles(g.hi);
    LowNibbles(g.lo);
    hide HexDigit, IsTextByte;
  }

  lemma LowNibbles(b: byte)
    ensures b & 0x0F < 16 && b >> 4 < 16
  {
  }

  lemma {:induction false} NoDelimiterInBody(a: Address, k: nat)
    requires k <= GROUPS
    ensures forall c | c in Body(a, k) :: IsTextByte(c)
  {
    assert IsTextByte(COLON);
    hide HexGroup, IsTextByte;
    if k > 0 {
      NoDelimiterInBody(a, k - 1);
      NoDelimiterInGroup(GroupAt(a, k - 1));
    }
  }

  lemma {:induction false} NoDelimiterInTail(a: Address, k: nat)
    requires k <= GROUPS
    ensures forall c | c in Tail(a, k) :: IsTextByte(c)
    decreases GROUPS - k
  {
    assert IsTextByte(COLON);
    hide HexGroup, IsTextByte;
    if k < GROUPS {
      NoDelimiterInTail(a, k + 1);
      NoDelimiterInGroup(GroupAt(a, k));
    }
  }

  lemma NoDelimiterInCompressed(a: Address)
    ensures forall c | c in Compressed(a) :: IsTextByte(c)
  {
    assert IsTextByte(COLON);
    hide Body, Tail, Chosen, IsTextByte;
    NoDelimiterInBody(a, GROUPS);
    if HasZero(a) && Chosen(a) < GROUPS {
      NoDelimiterInBody(a, Chosen(a));
      NoDelimiterInTail(a, Chosen(a));
    }
  }

  lemma HostPositions(text: seq<byte>, d: seq<byte>)
    requires d != []
    requires forall c | c in text :: IsTextByte(c)
    ensures
      var s, n := [OPEN] + text + [CLOSE, COLON] + d, 1 + |text|;
      && s[0] == OPEN && n + 2 < |s| && s[n] == CLOSE && s[1..n] == text && s[n + 2..] == d
      && IndexOf(s, CLOSE) == n && IndexOf(s[n..|s| - 1], COLON) == 1
  {
    var s, n := [OPEN] + text + [CLOSE, COLON] + d, 1 + |text|;
    forall k | 1 <= k < n ensures s[k] == text[k - 1] != CLOSE {
      assert text[k - 1] in text;
    }
    assert s[n..|s| - 1][0] == CLOSE && s[n..|s| - 1][1] == COLON;
  }

  /** The brackets, the colon of the port and the port are found where they were printed. */
  lemma HostParsed(text: seq<byte>, port: nat, secured: bool)
    requires ValidPort(port)
    requires forall c | c in text :: IsTextByte(c)
    ensures
      ParseHost([OPEN] + text + [CLOSE, COLON] + Decimal(port), secured) ==
        match Parse(text, [], -1)
        case Hangs => Endless
        case Done(octets, split) => Parsed(Endpoint(Expand(octets, split), port, secured))
  {
    hide Parse, Expand, Decimal, IndexOf, ReadDecimal, ParseHost, IsTextByte;
    var d := Decimal(port);
    DecimalNotEmpty(port);
    HostPositions(text, d);
    HostFields([OPEN] + text + [CLOSE, COLON] + d, 1 + |text|, secured);
    ReadPrinted(port, []);
    assert d + [] == d;
    ReadNothing(port);
  }

  lemma UpToBracket(s: seq<byte>, end: nat, port: nat)
    requires 2 <= end <= |s|
    ensures HostUpTo(s, end, port) == if s[end - 1] == CLOSE then Bracketed(s[1..end - 1], port) else NoHost
  {
  }

  /** The host, once the closing bracket and a colon behind it have been found. */
  lemma HostWithColon(s: seq<byte>, n: nat, colon: nat, secured: bool)
    requires s != [] && s[0] == OPEN && n < |s| && IndexOf(s, CLOSE) == n
    requires n + IndexOf(s[n..|s| - 1], COLON) == colon && 2 <= colon < |s| - 1
    ensures HostOf(s, secured) == if s[colon - 1] == CLOSE
                                  then Bracketed(s[1..colon - 1], ReadDecimal(s[colon + 1..], 0) % 0x1_0000)
                                  else NoHost
  {
    hide IndexOf, ReadDecimal, HostUpTo;
    var port := ReadDecimal(s[colon + 1..], 0) % 0x1_0000;
    assert HostOf(s, secured) == HostUpTo(s, colon, port);
    UpToBracket(s, colon, port);
  }

  /** A host whose first closing bracket is followed by a colon, which is not the last character. */
  lemma HostFields(s: seq<byte>, n: nat, secured: bool)
    requires 1 <= n && n + 2 < |s| && s[0] == OPEN && s[n] == CLOSE
    requires IndexOf(s, CLOSE) == n && IndexOf(s[n..|s| - 1], COLON) == 1
    ensures
      ParseHost(s, secured) ==
        match Parse(s[1..n], [], -1)
        case Hangs => Endless
        case Done(octets, split) => Parsed(Endpoint(Expand(octets, split), ReadDecimal(s[n + 2..], 0) % 0x1_0000,
            secured))
  {
    hide Parse, Expand, IndexOf, ReadDecimal, HostOf;
    HostWithColon(s, n, n + 1, secured);
  }

  lemma ReadNothing(value: nat)
    ensures ReadDecimal([], value) == value
  {
  }

  lemma DecimalNotEmpty(n: nat)
    ensures |Decimal(n)| > 0
  {
  }

  /**
   For every endpoint: the parser ends on its text and gives back port and security flag, and the
   address exactly when the zero groups form at most one run.
   */
  lemma EndpointRoundTrip(e: Endpoint)
    requires ValidPort(e.port)
    ensures ParseUri(UriText(e)) == Parsed(e.(address := Squeezed(e.address)))
    ensures ParseUri(UriText(e)) == Parsed(e) <==> AtMostOneRun(e.address)
  {
    var text := Compressed(e.address);
    var host := [OPEN] + text + [CLOSE, COLON] + Decimal(e.port);
    assert UriText(e) == Scheme(e.secured) + host;
    SchemeParsed(e.secured, host);
    hide Parse, ParseHost, Compressed, Decimal, ParseUri, Squeezed;
    NoDelimiterInCompressed(e.address);
    HostParsed(text, e.port, e.secured);
    ParsePrinted(e.address);
    AddressRoundTrip(e.address);
  }

  lemma SchemeParsed(secured: bool, host: seq<byte>)
    requires host != []
    ensures ParseUri(Scheme(secured) + host) == ParseHost(host, secured)
  {
    hide ParseHost;
    var s := Scheme(secured) + host;
    assert s[|Scheme(secured)|..] == host;
    if !secured { assert s[4] == 58 && COAPS[4] == 115; }
  }

  /** 1:0:1:0:1:1:1:1 is printed with one of its zero groups only, and comes back as another address. */
  lemma TwoRunsAreLost()
    ensures
      var e := Endpoint([0, 1, 0, 0, 0, 1, 0, 0, 0, 1, 0, 1, 0, 1, 0, 1], 5683, false);
      ParseUri(UriText(e)) != Parsed(e)
  {
    hide ParseUri, UriText, Squeezed, AtMostOneRun;
    var a: Address := [0, 1, 0, 0, 0, 1, 0, 0, 0, 1, 0, 1, 0, 1, 0, 1];
    EndpointRoundTrip(Endpoint(a, 5683, false));
    GapMakesTwoRuns(a);
  }

  lemma GapMakesTwoRuns(a: Address)
    requires GroupAt(a, 1) == Group(0, 0) && GroupAt(a, 2) == Group(0, 1) && GroupAt(a, 3) == Group(0, 0)
    ensures !AtMostOneRun(a)
  {
    assert IsZero(a, 1) && !IsZero(a, 2) && IsZero(a, 3);
  }
}
