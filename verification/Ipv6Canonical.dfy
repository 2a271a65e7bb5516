/**
 What is printed for an address: a text that denotes it, in lower case and without leading zeros,
 exactly when its zero groups form at most one run.
 */
module Ipv6Canonical {
  import opened Octets
  import opened Ipv6Text
  import opened Ipv6Printer
  import opened Ipv6Parser
  import opened Ipv6RoundTrip
  import opened Ipv6Denotation

  /** Lower case, and no zero in front. */
  ghost predicate Tidy(group: seq<byte>) {
    group != [] && !Shows(group[0], '0')
    && forall i | 0 <= i < |group| :: exists d: nat | d < 16 :: Shows(group[i], LOWER[d])
  }

  ghost predicate AllTidy(groups: seq<seq<byte>>) {
    forall g | g in groups :: Tidy(g)
  }

  /** A tidy text that stands for the eight numbers. */
  ghost predicate TidilyDenotes(text: seq<byte>, values: seq<nat>) {
    || (exists groups :: WrittenInFull(text, groups, values) && AllTidy(groups))
    || (exists left, right :: WrittenWithGap(text, left, right, values) && AllTidy(left) && AllTidy(right))
  }

  function GroupsOf(a: Address): seq<nat> {
    seq(8, k requires 0 <= k < 8 => Number(a, k))
  }

  lemma SameGroups(a: Address, b: Address)
    requires HasGroups(b, GroupsOf(a))
    ensures a == b
  {
    forall i | 0 <= i < 16 ensures a[i] == b[i] {
      var k := i / 2;
      assert Number(b, k) == GroupsOf(a)[k] == Number(a, k);
      NumberParts(a, b, k);
    }
  }

  lemma NumberParts(a: Address, b: Address, k: nat)
    requires k < 8 && Number(a, k) == Number(b, k)
    ensures a[2 * k] == b[2 * k] && a[2 * k + 1] == b[2 * k + 1]
  {
    TwoOctets(a[2 * k], a[2 * k + 1], b[2 * k], b[2 * k + 1]);
  }

  lemma TwoOctets(h: byte, l: byte, h': byte, l': byte)
    requires h as int * 256 + l as int == h' as int * 256 + l' as int
    ensures h == h' && l == l'
  {
    Below(l);
    Below(l');
    var x, y, x', y' := h as int, l as int, h' as int, l' as int;
    assert x == x' && y == y';
    SameByte(h, h');
    SameByte(l, l');
  }

  lemma Below(b: byte)
    ensures b as int < 256
  {
  }

  // ----- one group

  lemma LowDigit(n: byte)
    requires n < 16
    ensures (n as int) < 16 && Shows(HexDigit(n), LOWER[n as int]) && IsHexDigit(HexDigit(n), n as int)
    ensures n != 0 ==> !Shows(HexDigit(n), '0')
  {
    Order(n, 15);
    LettersAre(n as int);
    Sums(n);
    Order(n, 9);
    if n != 0 && n as int == 0 { SameByte(n, 0); }
  }

  function High(b: byte): (d: nat) {
    (b >> 4) as int
  }

  function Low(b: byte): (d: nat) {
    (b & 0x0F) as int
  }

  lemma TwoParts(b: byte)
    ensures b as int == 16 * High(b) + Low(b) && b >> 4 < 16 && b & 0x0F < 16
    ensures b > 0x0F ==> b >> 4 != 0
    ensures b <= 0x0F ==> b & 0x0F == b
  {
  }

  /** Digits that are written as they are worth. */
  ghost predicate Spelt(s: seq<byte>, digits: seq<nat>) {
    |s| == |digits| && forall i | 0 <= i < |s| :: IsHexDigit(s[i], digits[i]) && Shows(s[i], LOWER[digits[i]])
  }

  lemma SpeltIsWritten(s: seq<byte>, digits: seq<nat>)
    requires Spelt(s, digits) && 1 <= |s| <= 4 && !Shows(s[0], '0')
    ensures Written(s, Worth(digits)) && Tidy(s)
  {
    hide Worth;
    forall i | 0 <= i < |s| ensures exists d: nat | d < 16 :: Shows(s[i], LOWER[d]) {
      assert Shows(s[i], LOWER[digits[i]]);
    }
  }

  lemma OneDigitSpelt(b: byte)
    requires b <= 0x0F
    ensures Spelt(OneDigit(b), [b as int])
    ensures b != 0 ==> !Shows(OneDigit(b)[0], '0')
  {
    TwoParts(b);
    Order(b, 15);
    LowDigit(b);
    hide HexDigit, IsHexDigit;
  }

  lemma TwoDigitsSpelt(b: byte)
    ensures Spelt(TwoDigits(b), [High(b), Low(b)])
    ensures b > 0x0F ==> !Shows(TwoDigits(b)[0], '0')
  {
    TwoParts(b);
    LowDigit(b >> 4);
    LowDigit(b & 0x0F);
    hide HexDigit, IsHexDigit;
  }

  lemma SpeltBoth(s: seq<byte>, d: seq<nat>, t: seq<byte>, e: seq<nat>)
    requires Spelt(s, d) && Spelt(t, e)
    ensures Spelt(s + t, d + e)
  {
    hide IsHexDigit, Shows;
  }

  lemma WorthOfTwo(hi: seq<nat>, x: nat, y: nat, lo: nat)
    requires |hi| <= 2 && lo == 16 * x + y
    ensures |hi| == 0 ==> Worth(hi + [x, y]) == lo
    ensures |hi| == 1 ==> Worth(hi + [x, y]) == 256 * hi[0] + lo
    ensures |hi| == 2 ==> Worth(hi + [x, y]) == 256 * (16 * hi[0] + hi[1]) + lo
  {
    WorthOf(hi + [x, y]);
  }

  function GroupNumber(g: Group): nat {
    g.hi as int * 256 + g.lo as int
  }

  lemma GroupIsTidy(g: Group)
    requires g != Group(0, 0)
    ensures Written(HexGroup(g), GroupNumber(g)) && Tidy(HexGroup(g))
  {
    HexGroupIs(g);
    hide HexGroup, OneDigit, TwoDigits, Written, Tidy;
    if g.hi == 0 && g.lo <= 0x0F {
      assert g.lo != 0;
      DigitGroup(g.lo);
    } else if g.hi == 0 {
      OctetGroup(g.lo);
    } else if g.hi <= 0x0F {
      ThreeDigits(g.hi, g.lo);
    } else {
      FourDigits(g.hi, g.lo);
    }
  }

  lemma HexGroupIs(g: Group)
    ensures HexGroup(g) ==
              if g.hi == 0 then if g.lo <= 0x0F then OneDigit(g.lo) else TwoDigits(g.lo)
              else (if g.hi <= 0x0F then OneDigit(g.hi) else TwoDigits(g.hi)) + TwoDigits(g.lo)
    ensures g.hi == 0 ==> GroupNumber(g) == g.lo as int
  {
    hide OneDigit, TwoDigits;
    var low := if g.lo <= 0x0F then OneDigit(g.lo) else TwoDigits(g.lo);
    assert g.hi == 0 ==> [] + low == low;
  }

  lemma DigitGroup(lo: byte)
    requires 0 < lo <= 0x0F
    ensures Written(OneDigit(lo), lo as int) && Tidy(OneDigit(lo))
  {
    OneDigitSpelt(lo);
    hide Spelt, OneDigit, Written, Tidy;
    WorthOf([lo as int]);
    assert |OneDigit(lo)| == 1 by { OneLength(lo); }
    SpeltIsWritten(OneDigit(lo), [lo as int]);
  }

  lemma OneLength(b: byte)
    ensures |OneDigit(b)| == 1 && |TwoDigits(b)| == 2
  {
  }

  lemma OctetGroup(lo: byte)
    requires lo > 0x0F
    ensures Written(TwoDigits(lo), lo as int) && Tidy(TwoDigits(lo))
  {
    TwoDigitsSpelt(lo);
    TwoParts(lo);
    OneLength(lo);
    hide Spelt, TwoDigits, Written, Tidy;
    WorthOfTwo([], High(lo), Low(lo), lo as int);
    assert [] + [High(lo), Low(lo)] == [High(lo), Low(lo)];
    SpeltIsWritten(TwoDigits(lo), [High(lo), Low(lo)]);
  }

  /** The digits of the higher octet, without a zero in front, and two of the lower one. */
  lemma DigitsBoth(s: seq<byte>, d: seq<nat>, t: seq<byte>, x: nat, y: nat, lo: nat)
    requires Spelt(s, d) && Spelt(t, [x, y]) && 1 <= |s| <= 2 && |t| == 2 && |d| == |s| && lo == 16 * x + y
    requires !Shows(s[0], '0')
    ensures Tidy(s + t)
    ensures Written(s + t, 256 * (if |d| == 1 then d[0] else 16 * d[0] + d[1]) + lo)
  {
    hide Spelt, Written, Tidy, Shows, Worth;
    WorthOfTwo(d, x, y, lo);
    SpeltBoth(s, d, t, [x, y]);
    assert (s + t)[0] == s[0];
    SpeltIsWritten(s + t, d + [x, y]);
  }

  lemma ThreeDigits(hi: byte, lo: byte)
    requires 0 < hi <= 0x0F
    ensures Written(OneDigit(hi) + TwoDigits(lo), hi as int * 256 + lo as int) && Tidy(OneDigit(hi) + TwoDigits(lo))
  {
    OneDigitSpelt(hi);
    TwoDigitsSpelt(lo);
    TwoParts(lo);
    OneLength(hi);
    OneLength(lo);
    hide Spelt, OneDigit, TwoDigits, Written, Tidy, Shows, High, Low, Worth;
    DigitsBoth(OneDigit(hi), [hi as int], TwoDigits(lo), High(lo), Low(lo), lo as int);
  }

  lemma FourDigits(hi: byte, lo: byte)
    requires hi > 0x0F
    ensures Written(TwoDigits(hi) + TwoDigits(lo), hi as int * 256 + lo as int) && Tidy(TwoDigits(hi) + TwoDigits(lo))
  {
    TwoDigitsSpelt(hi);
    TwoDigitsSpelt(lo);
    TwoParts(hi);
    TwoParts(lo);
    OneLength(hi);
    OneLength(lo);
    hide Spelt, TwoDigits, Written, Tidy, Shows, High, Low, Worth;
    DigitsBoth(TwoDigits(hi), [High(hi), Low(hi)], TwoDigits(lo), High(lo), Low(lo), lo as int);
  }

  // ----- the groups of an address

  function Texts(a: Address, i: nat, j: nat): (ts: seq<seq<byte>>)
    requires i <= j <= GROUPS
    ensures |ts| == j - i
  {
    seq(j - i, k requires 0 <= k < j - i => HexGroup(GroupAt(a, i + k)))
  }

  lemma TextsAreWritten(a: Address, i: nat, j: nat)
    requires i <= j <= GROUPS && forall k: nat | i <= k < j :: !IsZero(a, k)
    ensures AllWritten(Texts(a, i, j), GroupsOf(a)[i..j]) && AllTidy(Texts(a, i, j))
  {
    hide Written, Tidy, HexGroup;
    var ts := Texts(a, i, j);
    forall k | 0 <= k < j - i ensures Written(ts[k], GroupsOf(a)[i..j][k]) && Tidy(ts[k]) {
      assert !IsZero(a, i + k);
      GroupIsTidy(GroupAt(a, i + k));
    }
  }

  lemma {:induction false} JoinedMore(groups: seq<seq<byte>>, g: seq<byte>)
    ensures Joined(groups + [g]) == Joined(groups) + (if groups == [] then [] else [COLON]) + g
  {
    if groups == [] {
      assert [] + [g] == [g] && [] + [] + g == g;
    } else {
      assert (groups + [g])[1..] == groups[1..] + [g];
      JoinedMore(groups[1..], g);
      if |groups| == 1 {
        assert groups[1..] == [];
      } else {
        assert groups[0] + [COLON] + (Joined(groups[1..]) + [COLON] + g)
            == groups[0] + [COLON] + Joined(groups[1..]) + [COLON] + g;
      }
    }
  }

  lemma {:induction false} BodyIsJoined(a: Address, k: nat)
    requires k <= GROUPS && forall j: nat | j < k :: !IsZero(a, j)
    ensures Body(a, k) == Joined(Texts(a, 0, k))
  {
    hide HexGroup, IsZero, Joined;
    if k == 0 {
      NothingJoined();
    } else {
      BodyIsJoined(a, k - 1);
      JoinedMore(Texts(a, 0, k - 1), HexGroup(GroupAt(a, k - 1)));
      assert Texts(a, 0, k) == Texts(a, 0, k - 1) + [HexGroup(GroupAt(a, k - 1))];
    }
  }

  lemma {:induction false} TailIsJoined(a: Address, n: nat)
    requires n < GROUPS && forall j: nat | n <= j < GROUPS :: !IsZero(a, j)
    ensures Tail(a, n) == [COLON] + Joined(Texts(a, n, GROUPS))
    decreases GROUPS - n
  {
    hide HexGroup, IsZero;
    var h, rest := HexGroup(GroupAt(a, n)), Texts(a, n + 1, GROUPS);
    assert Texts(a, n, GROUPS) == [h] + rest;
    JoinedFirst(h, rest);
    assert !IsZero(a, n);
    TailOnce(a, n);
    hide Tail, Joined, Texts;
    if n + 1 < GROUPS {
      TailIsJoined(a, n + 1);
      ColonInFront(h, Joined(rest));
    } else {
      NothingLeft(a);
      assert [COLON] + h + [] == [COLON] + h;
    }
  }

  lemma ColonInFront(h: seq<byte>, text: seq<byte>)
    ensures [COLON] + h + ([COLON] + text) == [COLON] + (h + [COLON] + text)
  {
  }

  lemma JoinedFirst(h: seq<byte>, rest: seq<seq<byte>>)
    ensures Joined([h] + rest) == if rest == [] then h else h + [COLON] + Joined(rest)
  {
    assert ([h] + rest)[1..] == rest;
  }

  lemma {:induction false} ZerosLeaveNothing(a: Address, m: nat, n: nat)
    requires m <= n <= GROUPS && forall j: nat | m <= j < n :: IsZero(a, j)
    ensures Tail(a, m) == Tail(a, n)
    decreases n - m
  {
    hide HexGroup;
    if m < n { ZerosLeaveNothing(a, m + 1, n); }
  }

  // ----- the whole text

  lemma NoZeroIsTidy(a: Address)
    requires !HasZero(a)
    ensures TidilyDenotes(Compressed(a), GroupsOf(a))
  {
    hide IsZero, Written, Tidy, Body, Joined;
    BodyIsJoined(a, GROUPS);
    TextsAreWritten(a, 0, GROUPS);
    assert GroupsOf(a)[0..8] == GroupsOf(a);
    assert WrittenInFull(Compressed(a), Texts(a, 0, GROUPS), GroupsOf(a));
  }

  lemma GapText(a: Address, m: nat, n: nat)
    requires m < n <= GROUPS && m == Chosen(a) && HasZero(a)
    requires forall j: nat | j < m :: !IsZero(a, j)
    requires forall j: nat | m <= j < n :: IsZero(a, j)
    requires forall j: nat | n <= j < GROUPS :: !IsZero(a, j)
    ensures Compressed(a) == Joined(Texts(a, 0, m)) + [COLON, COLON] + Joined(Texts(a, n, GROUPS))
  {
    hide IsZero, Body, Joined, Tail, Chosen, HexGroup;
    BodyIsJoined(a, m);
    ZerosLeaveNothing(a, m, n);
    if n < GROUPS {
      TailIsJoined(a, n);
      assert !IsZero(a, GROUPS - 1);
    } else {
      NothingLeft(a);
      NothingJoined();
      assert IsZero(a, GROUPS - 1);
      assert Texts(a, n, GROUPS) == [];
    }
  }

  lemma OneRunIsTidy(a: Address)
    requires HasZero(a) && AtMostOneRun(a)
    ensures TidilyDenotes(Compressed(a), GroupsOf(a))
  {
    hide IsZero, Written, Tidy, Joined, Compressed, Chosen, AtMostOneRun, RunLength, StartsRun, AllWritten, AllTidy;
    var m := Chosen(a);
    ChosenStartsRun(a);
    var n := m + RunLength(a, m);
    OneRunSplits(a, m);
    RunNotEmpty(a, m);
    GapIsTidy(a, m, n);
  }

  lemma RunNotEmpty(a: Address, m: nat)
    requires m < GROUPS && IsZero(a, m)
    ensures RunLength(a, m) > 0
  {
  }

  lemma GapIsTidy(a: Address, m: nat, n: nat)
    requires m < n <= GROUPS && m == Chosen(a) && HasZero(a)
    requires forall j: nat | j < m :: !IsZero(a, j)
    requires forall j: nat | m <= j < n :: IsZero(a, j)
    requires forall j: nat | n <= j < GROUPS :: !IsZero(a, j)
    ensures TidilyDenotes(Compressed(a), GroupsOf(a))
  {
    hide IsZero, Written, Tidy, Joined, Compressed, Chosen, AllWritten, AllTidy, HexGroup, Number;
    GapText(a, m, n);
    TextsAreWritten(a, 0, m);
    TextsAreWritten(a, n, GROUPS);
    forall k | m <= k < n ensures GroupsOf(a)[k] == 0 {
      ZeroNumber(a, k);
    }
    var left, right := Texts(a, 0, m), Texts(a, n, GROUPS);
    assert GroupsOf(a)[..m] == GroupsOf(a)[0..m] && GroupsOf(a)[n..] == GroupsOf(a)[n..8];
    assert WrittenWithGap(Compressed(a), left, right, GroupsOf(a));
  }

  lemma ZeroNumber(a: Address, k: nat)
    requires k < GROUPS && IsZero(a, k)
    ensures Number(a, k) == 0
  {
  }

  lemma TidyDenotes(text: seq<byte>, values: seq<nat>)
    requires TidilyDenotes(text, values)
    ensures Denotes(text, values)
  {
    hide WrittenInFull, WrittenWithGap, AllTidy;
  }

  /**
   For every address: the printed text stands for it if and only if its zero groups form at most one run,
   and then the text is tidy, too.
   */
  lemma PrintedTextDenotes(a: Address)
    ensures Denotes(Compressed(a), GroupsOf(a)) <==> AtMostOneRun(a)
    ensures TidilyDenotes(Compressed(a), GroupsOf(a)) <==> AtMostOneRun(a)
  {
    hide Denotes, TidilyDenotes, AtMostOneRun, Compressed, HasGroups, Parse, Expand, HasZero;
    AddressRoundTrip(a);
    if AtMostOneRun(a) {
      if HasZero(a) { OneRunIsTidy(a); } else { NoZeroIsTidy(a); }
    }
    if TidilyDenotes(Compressed(a), GroupsOf(a)) { TidyDenotes(Compressed(a), GroupsOf(a)); }
    if Denotes(Compressed(a), GroupsOf(a)) {
      AddressIsRead(Compressed(a), GroupsOf(a));
      var r := Parse(Compressed(a), [], -1);
      SameGroups(a, Expand(r.octets, r.split));
    }
  }
}
