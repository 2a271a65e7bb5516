/**
 Which endpoint a URI denotes, after the text representation of addresses in section 2.2 of RFC 4291:
 eight groups of one to four hexadecimal digits of either case, or fewer around one double colon that
 stands for zeros. Digits are worth their position in the alphabet and in the group. The parser reads
 every such text as the address it denotes, and takes 5683 or 5684 for a port that is not there.
 */
module Ipv6Denotation {
  import opened Octets
  import opened Ipv6Text
  import opened Ipv6Printer
  import opened Ipv6Parser
  import opened Ipv6RoundTrip

  // ----- what a text denotes

  const LOWER := "0123456789abcdef"
  const UPPER := "0123456789ABCDEF"

  predicate Shows(c: byte, letter: char) {
    c as int == letter as int
  }

  predicate IsHexDigit(c: byte, d: nat) {
    d < 16 && (Shows(c, LOWER[d]) || Shows(c, UPPER[d]))
  }

  function Worth(digits: seq<nat>): nat {
    if digits == [] then 0 else 16 * Worth(digits[..|digits| - 1]) + digits[|digits| - 1]
  }

  /** A group of one to four digits, most significant first. */
  ghost predicate Written(group: seq<byte>, value: nat) {
    exists digits: seq<nat> ::
      && 1 <= |digits| == |group| <= 4 && Worth(digits) == value
      && forall i | 0 <= i < |group| :: IsHexDigit(group[i], digits[i])
  }

  ghost predicate AllWritten(groups: seq<seq<byte>>, values: seq<nat>) {
    |groups| == |values| && forall i | 0 <= i < |groups| :: Written(groups[i], values[i])
  }

  function Joined(groups: seq<seq<byte>>): seq<byte> {
    if groups == [] then []
    else if |groups| == 1 then groups[0]
    else groups[0] + [COLON] + Joined(groups[1..])
  }

  ghost predicate WrittenInFull(text: seq<byte>, groups: seq<seq<byte>>, values: seq<nat>) {
    text == Joined(groups) && |groups| == 8 && AllWritten(groups, values)
  }

  ghost predicate WrittenWithGap(text: seq<byte>, left: seq<seq<byte>>, right: seq<seq<byte>>, values: seq<nat>) {
    && text == Joined(left) + [COLON, COLON] + Joined(right) && |left| + |right| < 8 == |values|
    && AllWritten(left, values[..|left|]) && AllWritten(right, values[8 - |right|..])
    && forall k | |left| <= k < 8 - |right| :: values[k] == 0
  }

  /** The text stands for the eight numbers. */
  ghost predicate Denotes(text: seq<byte>, values: seq<nat>) {
    || (exists groups :: WrittenInFull(text, groups, values))
    || (exists left, right :: WrittenWithGap(text, left, right, values))
  }

  /** Two octets, the more significant one first. */
  function Number(o: seq<byte>, k: nat): nat
    requires 2 * k + 1 < |o|
  {
    o[2 * k] as int * 256 + o[2 * k + 1] as int
  }

  /** The address has these numbers as its groups. */
  predicate HasGroups(a: Address, values: seq<nat>) {
    |values| == 8 && forall k | 0 <= k < 8 :: Number(a, k) == values[k]
  }

  // ----- one group

  lemma LettersAre(d: nat)
    requires d < 16
    ensures LOWER[d] as int == if d < 10 then 48 + d else 87 + d
    ensures UPPER[d] as int == if d < 10 then 48 + d else 55 + d
  {
  }

  lemma Order(a: byte, b: byte)
    ensures a <= b <==> a as int <= b as int
  {
  }

  lemma Sums(r: byte)
    requires r < 16
    ensures (r + 48) as int == r as int + 48 && (r + 55) as int == r as int + 55 && (r + 87) as int == r as int + 87
  {
  }

  lemma Numeral(c: byte, d: nat)
    requires d < 10 && c as int == 48 + d
    ensures 48 <= c <= 57 && (c - 48) as int == d
  {
    Order(48, c);
    Order(c, 57);
    Sums(c - 48);
  }

  lemma LowerLetter(c: byte, d: nat)
    requires 10 <= d < 16 && c as int == 87 + d
    ensures 97 <= c <= 102 && (c - 87) as int == d
  {
    Order(97, c);
    Order(c, 102);
    Sums(c - 87);
  }

  lemma UpperLetter(c: byte, d: nat)
    requires 10 <= d < 16 && c as int == 55 + d
    ensures 65 <= c <= 70 && (c - 55) as int == d
  {
    Order(65, c);
    Order(c, 70);
    Sums(c - 55);
  }

  lemma NibbleIs(c: byte, d: nat)
    requires IsHexDigit(c, d)
    ensures Nibble(c) as int == d && Nibble(c) < 16
    ensures c != COLON && c != CLOSE && c != SLASH && c != OPEN
  {
    LettersAre(d);
    hide IsHexDigit;
    if d < 10 { Numeral(c, d); } else if Shows(c, LOWER[d]) { LowerLetter(c, d); } else { UpperLetter(c, d); }
  }

  lemma TwoNibbles(a: byte, b: byte)
    requires a < 16 && b < 16
    ensures (((0 | a) << 4) | b) as int == 16 * a as int + b as int
  {
  }

  lemma OneNibble(a: byte)
    requires a < 16
    ensures (0 | a) as int == a as int
  {
  }

  /** Two digits are an octet. */
  lemma PairIsNumber(h: byte, l: byte, d: nat, e: nat)
    requires IsHexDigit(h, d) && IsHexDigit(l, e)
    ensures HexToBin2(h, l) as int == 16 * d + e
  {
    NibbleIs(h, d);
    NibbleIs(l, e);
    hide Nibble, IsHexDigit;
    TwoNibbles(Nibble(h), Nibble(l));
  }

  lemma DigitIsNumber(h: byte, d: nat)
    requires IsHexDigit(h, d)
    ensures HexToBin1(h) as int == d
  {
    NibbleIs(h, d);
    hide Nibble, IsHexDigit;
    OneNibble(Nibble(h));
  }

  lemma NoDelimiters(group: seq<byte>, digits: seq<nat>)
    requires |digits| == |group| && forall i | 0 <= i < |group| :: IsHexDigit(group[i], digits[i])
    ensures COLON !in group && CLOSE !in group && SLASH !in group
  {
    hide IsHexDigit;
    forall i | 0 <= i < |group| ensures group[i] != COLON && group[i] != CLOSE && group[i] != SLASH {
      NibbleIs(group[i], digits[i]);
    }
  }

  /** The two octets of a group are the number that it is written as. */
  lemma GroupIsNumber(group: seq<byte>, value: nat)
    requires Written(group, value)
    ensures 1 <= |group| <= 4 && COLON !in group && CLOSE !in group && SLASH !in group
    ensures Number(Octets2(group), 0) == value
  {
    var digits: seq<nat> :|
      && 1 <= |digits| == |group| <= 4 && Worth(digits) == value
      && forall i | 0 <= i < |group| :: IsHexDigit(group[i], digits[i]);
    hide IsHexDigit, HexToBin1, HexToBin2, Worth;
    NoDelimiters(group, digits);
    WorthOf(digits);
    if |group| % 2 == 1 { DigitIsNumber(group[0], digits[0]); } else {
      PairIsNumber(group[0], group[1], digits[0], digits[1]);
    }
    if |group| == 3 { PairIsNumber(group[1], group[2], digits[1], digits[2]); }
    if |group| == 4 { PairIsNumber(group[2], group[3], digits[2], digits[3]); }
  }

  lemma WorthOf(d: seq<nat>)
    requires 1 <= |d| <= 4
    ensures |d| == 1 ==> Worth(d) == d[0]
    ensures |d| == 2 ==> Worth(d) == 16 * d[0] + d[1]
    ensures |d| == 3 ==> Worth(d) == 256 * d[0] + 16 * d[1] + d[2]
    ensures |d| == 4 ==> Worth(d) == 256 * (16 * d[0] + d[1]) + 16 * d[2] + d[3]
  {
    assert Worth([]) == 0;
    assert Worth([d[0]]) == d[0];
    if |d| > 1 {
      assert [d[0], d[1]][..1] == [d[0]];
      assert Worth([d[0], d[1]]) == 16 * d[0] + d[1];
    }
    if |d| > 2 {
      assert [d[0], d[1], d[2]][..2] == [d[0], d[1]];
      assert Worth([d[0], d[1], d[2]]) == 256 * d[0] + 16 * d[1] + d[2];
    }
    if |d| > 3 { assert d[..3] == [d[0], d[1], d[2]]; }
    assert |d| == 1 ==> d == [d[0]];
    assert |d| == 2 ==> d == [d[0], d[1]];
    assert |d| == 3 ==> d == [d[0], d[1], d[2]];
  }

  // ----- several groups

  predicate ShortSegment(h: seq<byte>) {
    1 <= |h| <= 4 && COLON !in h
  }

  function OctetsOfAll(groups: seq<seq<byte>>): (o: seq<byte>)
    requires forall h | h in groups :: ShortSegment(h)
    ensures |o| == 2 * |groups|
  {
    if groups == [] then []
    else
      assert groups[0] in groups && ShortSegment(groups[0]);
      Octets2(groups[0]) + OctetsOfAll(groups[1..])
  }

  lemma ParseShort(h: seq<byte>, tail: seq<byte>, octets: seq<byte>, split: int)
    requires ShortSegment(h) && |octets| % 2 == 0 && |octets| <= 14 && -1 <= split <= |octets|
    requires tail == [] || tail[0] == COLON
    ensures Parse(h + tail, octets, split) == Parse(tail, octets + Octets2(h), split)
  {
    FirstColonAfter(h, tail);
    ParseOnce(h + tail, octets, split);
    hide Parse, FirstColon, Octets2;
    assert (h + tail)[0] == h[0] && h[0] in h;
    assert (h + tail)[|h|..] == tail && (h + tail)[..|h|] == h;
  }

  lemma IsShort(groups: seq<seq<byte>>, i: nat)
    requires i < |groups| && forall h | h in groups :: ShortSegment(h)
    ensures ShortSegment(groups[i]) && 1 <= |groups[i]| <= 4
  {
    assert groups[i] in groups;
  }

  lemma {:induction false} ParseGroups(groups: seq<seq<byte>>, tail: seq<byte>, octets: seq<byte>, split: int)
    requires forall h | h in groups :: ShortSegment(h)
    requires |octets| % 2 == 0 && |octets| + 2 * |groups| <= 16 && -1 <= split <= |octets|
    requires tail == [] || tail[0] == COLON
    ensures |octets + OctetsOfAll(groups)| <= 16
    ensures Parse(Joined(groups) + tail, octets, split) == Parse(tail, octets + OctetsOfAll(groups), split)
    decreases |groups|
  {
    hide Parse, Octets2, ShortSegment;
    assert groups != [] ==> ShortSegment(groups[0]) && 1 <= |groups[0]| <= 4 by {
      if groups != [] { IsShort(groups, 0); }
    }
    if groups == [] {
      assert [] + tail == tail && octets + [] == octets;
    } else {
      var h, rest, more := groups[0], groups[1..], octets + Octets2(groups[0]);
      assert octets + OctetsOfAll(groups) == more + OctetsOfAll(rest);
      if rest == [] {
        ParseShort(h, tail, octets, split);
        assert more + [] == more;
      } else {
        IsShort(groups, 1);
        JoinedStarts(rest, tail);
        ParseNext(h, Joined(rest) + tail, octets, split);
        assert Joined(groups) + tail == h + ([COLON] + (Joined(rest) + tail));
        ParseGroups(rest, tail, more, split);
      }
    }
  }

  /** A group, the colon behind it, and no second colon. */
  lemma ParseNext(h: seq<byte>, later: seq<byte>, octets: seq<byte>, split: int)
    requires ShortSegment(h) && |octets| % 2 == 0 && |octets| <= 12 && -1 <= split <= |octets|
    requires later != [] && later[0] != COLON
    ensures |Octets2(h)| == 2
    ensures Parse(h + ([COLON] + later), octets, split) == Parse(later, octets + Octets2(h), split)
  {
    hide Parse, Octets2;
    ParseShort(h, [COLON] + later, octets, split);
    ParseColon(later, octets + Octets2(h), split);
  }

  lemma JoinedStarts(groups: seq<seq<byte>>, tail: seq<byte>)
    requires groups != [] && ShortSegment(groups[0])
    ensures Joined(groups) != [] && Joined(groups)[0] != COLON && (Joined(groups) + tail)[0] != COLON
  {
    assert groups[0][0] in groups[0];
  }

  lemma WrittenIsShort(groups: seq<seq<byte>>, values: seq<nat>)
    requires AllWritten(groups, values)
    ensures forall h | h in groups :: ShortSegment(h)
  {
    hide Written, Octets2;
    forall h | h in groups ensures ShortSegment(h) {
      var i :| 0 <= i < |groups| && groups[i] == h;
      GroupIsNumber(h, values[i]);
    }
  }

  lemma {:induction false} OctetsAreNumbers(groups: seq<seq<byte>>, values: seq<nat>, k: nat)
    requires AllWritten(groups, values) && k < |values|
    requires forall h | h in groups :: ShortSegment(h)
    ensures Number(OctetsOfAll(groups), k) == values[k]
    decreases k
  {
    hide Written, Octets2, ShortSegment;
    IsShort(groups, 0);
    var h, rest := Octets2(groups[0]), OctetsOfAll(groups[1..]);
    if k == 0 {
      GroupIsNumber(groups[0], values[0]);
    } else {
      OctetsAreNumbers(groups[1..], values[1..], k - 1);
    }
    assert OctetsOfAll(groups) == h + rest;
  }

  // ----- addresses

  lemma FullIsRead(text: seq<byte>, groups: seq<seq<byte>>, values: seq<nat>)
    requires WrittenInFull(text, groups, values)
    ensures var r := Parse(text, [], -1); r.Done? && HasGroups(Expand(r.octets, r.split), values)
  {
    hide Parse, Written, ShortSegment, Joined, OctetsOfAll;
    WrittenIsShort(groups, values);
    ParseGroups(groups, [], [], -1);
    var o := OctetsOfAll(groups);
    assert Joined(groups) + [] == text && [] + o == o;
    ParseEnds([], o, -1);
    assert o + Zeros(0) == o;
    forall k: nat | k < 8 ensures Number(o, k) == values[k] {
      OctetsAreNumbers(groups, values, k);
    }
  }

  lemma LeftIsParsed(left: seq<seq<byte>>, rest: seq<byte>)
    requires |left| < 8 && forall h | h in left :: ShortSegment(h)
    requires rest != [] && rest[0] == COLON
    ensures Parse(Joined(left) + ([COLON] + rest), [], -1) == Parse(rest, OctetsOfAll(left), 2 * |left|)
  {
    hide Parse, ShortSegment, Joined, OctetsOfAll;
    ParseGroups(left, [COLON] + rest, [], -1);
    assert [] + OctetsOfAll(left) == OctetsOfAll(left);
    ParseDoubleColon(rest, OctetsOfAll(left));
  }

  lemma RightIsParsed(right: seq<seq<byte>>, before: seq<byte>, n: nat)
    requires |before| == 2 * n && n + |right| < 8 && forall h | h in right :: ShortSegment(h)
    ensures |before + OctetsOfAll(right)| == 2 * (n + |right|)
    ensures Parse([COLON] + Joined(right), before, |before|) == Done(before + OctetsOfAll(right), |before|)
  {
    hide Parse, ShortSegment, OctetsOfAll, Joined;
    var text, octets := Joined(right), before + OctetsOfAll(right);
    assert text + [] == text;
    assert |octets| == 2 * (n + |right|);
    ParseColon(text, before, |before|);
    ParseGroups(right, [], before, |before|);
    ParseEnds([], octets, |before|);
  }

  lemma GapIsParsed(left: seq<seq<byte>>, right: seq<seq<byte>>)
    requires |left| + |right| < 8 && (forall h | h in left :: ShortSegment(h)) && forall h | h in right ::
        ShortSegment(h)
    ensures Parse(Joined(left) + [COLON, COLON] + Joined(right), [], -1) ==
              Done(OctetsOfAll(left) + OctetsOfAll(right), 2 * |left|)
  {
    hide Parse, ShortSegment, Joined, OctetsOfAll;
    var rest := [COLON] + Joined(right);
    assert Joined(left) + [COLON, COLON] + Joined(right) == Joined(left) + ([COLON] + rest);
    LeftIsParsed(left, rest);
    RightIsParsed(right, OctetsOfAll(left), |left|);
  }

  lemma NothingJoined()
    ensures Joined([]) == []
  {
  }

  lemma GapIsRead(text: seq<byte>, left: seq<seq<byte>>, right: seq<seq<byte>>, values: seq<nat>)
    requires WrittenWithGap(text, left, right, values)
    ensures var r := Parse(text, [], -1); r.Done? && HasGroups(Expand(r.octets, r.split), values)
  {
    hide Parse, AllWritten, ShortSegment, Joined, OctetsOfAll, Zeros, Number;
    var n, m := |left|, |right|;
    WrittenIsShort(left, values[..n]);
    WrittenIsShort(right, values[8 - m..]);
    GapIsParsed(left, right);
    var before, after := OctetsOfAll(left), OctetsOfAll(right);
    GapExpands(before, after);
    forall k: nat | k < 8 ensures Number(before + Zeros(16 - |before| - |after|) + after, k) == values[k] {
      GapOctets(before, after, k);
      if k < n {
        OctetsAreNumbers(left, values[..n], k);
      } else if k >= 8 - m {
        OctetsAreNumbers(right, values[8 - m..], k - (8 - m));
      } else {
        assert values[k] == 0;
      }
    }
  }

  lemma GapOctets(before: seq<byte>, after: seq<byte>, k: nat)
    requires |before| + |after| < 16 && |before| % 2 == 0 && |after| % 2 == 0 && k < 8
    ensures Number(before + Zeros(16 - |before| - |after|) + after, k) ==
              if 2 * k < |before| then Number(before, k)
              else if 2 * k >= 16 - |after| then Number(after, k - (8 - |after| / 2))
              else 0
  {
    var a := before + Zeros(16 - |before| - |after|) + after;
    var j := 2 * k - (16 - |after|);
    if 2 * k < |before| {
      assert a[2 * k] == before[2 * k] && a[2 * k + 1] == before[2 * k + 1];
    } else if j >= 0 {
      assert a[2 * k] == after[j] && a[2 * k + 1] == after[j + 1];
    } else {
      assert a[2 * k] == 0 && a[2 * k + 1] == 0;
    }
  }

  lemma GapExpands(before: seq<byte>, after: seq<byte>)
    requires |before| + |after| < 16
    ensures Expand(before + after, |before|) == before + Zeros(16 - |before| - |after|) + after
  {
    assert (before + after)[..|before|] == before && (before + after)[|before|..] == after;
  }

  /** Every text of an address is read as the address that it denotes. */
  lemma AddressIsRead(text: seq<byte>, values: seq<nat>)
    requires Denotes(text, values)
    ensures var r := Parse(text, [], -1); r.Done? && HasGroups(Expand(r.octets, r.split), values)
  {
    hide Parse, Expand, HasGroups, WrittenInFull, WrittenWithGap;
    if groups :| WrittenInFull(text, groups, values) {
      FullIsRead(text, groups, values);
    } else {
      var left, right :| WrittenWithGap(text, left, right, values);
      GapIsRead(text, left, right, values);
    }
  }

  // ----- URIs

  predicate Spells(s: seq<byte>, letters: string) {
    |s| == |letters| && forall i | 0 <= i < |s| :: Shows(s[i], letters[i])
  }

  /** A scheme, an address between brackets, and a port or a path or both or neither. */
  ghost predicate IsUri(s: seq<byte>, secured: bool, text: seq<byte>, rest: seq<byte>) {
    exists start :: Spells(start, if secured then "coaps://[" else "coap://[") && s == start + (text + [93] + rest)
  }

  /** A path, without a colon except perhaps for its last character. */
  predicate IsPath(rest: seq<byte>) {
    rest != [] && rest[0] == 47 && forall i | 0 <= i < |rest| - 1 :: rest[i] != 58
  }

  function DecimalWorth(digits: seq<nat>): nat {
    if digits == [] then 0 else 10 * DecimalWorth(digits[..|digits| - 1]) + digits[|digits| - 1]
  }

  const NUMERALS := "0123456789"

  predicate IsNumeral(c: byte, d: nat) {
    d < 10 && Shows(c, NUMERALS[d])
  }

  predicate NoNumeral(c: byte) {
    forall d: nat | d < 10 :: !IsNumeral(c, d)
  }

  /** A colon, numerals and anything else after them. */
  predicate IsPort(rest: seq<byte>, digits: seq<nat>) {
    && 0 < |digits| < |rest| && rest[0] == 58
    && (forall i | 0 <= i < |digits| :: IsNumeral(rest[i + 1], digits[i]))
    && (|rest| > |digits| + 1 ==> NoNumeral(rest[|digits| + 1]))
  }

  lemma {:induction false} JoinedBytes(groups: seq<seq<byte>>, values: seq<nat>)
    requires AllWritten(groups, values)
    ensures CLOSE !in Joined(groups) && SLASH !in Joined(groups)
    decreases |groups|
  {
    hide Written;
    if groups != [] {
      GroupIsNumber(groups[0], values[0]);
      JoinedBytes(groups[1..], values[1..]);
    }
  }

  lemma TextBytes(text: seq<byte>, values: seq<nat>)
    requires Denotes(text, values)
    ensures forall c | c in text :: IsTextByte(c)
  {
    hide AllWritten, Joined;
    if groups :| WrittenInFull(text, groups, values) {
      JoinedBytes(groups, values);
    } else {
      var left, right :| WrittenWithGap(text, left, right, values);
      JoinedBytes(left, values[..|left|]);
      JoinedBytes(right, values[8 - |right|..]);
    }
  }

  // ----- the port

  lemma NumeralIs(c: byte, d: nat)
    requires IsNumeral(c, d)
    ensures IsDigit(c) && DigitValue(c) == d
  {
    assert NUMERALS[d] as int == 48 + d;
    Numeral(c, d);
  }

  lemma DigitIsNumeral(c: byte)
    requires IsDigit(c)
    ensures IsNumeral(c, DigitValue(c))
  {
  }

  lemma {:induction false} NumeralsRead(s: seq<byte>, digits: seq<nat>, before: seq<nat>)
    requires |digits| <= |s| && forall i | 0 <= i < |digits| :: IsNumeral(s[i], digits[i])
    requires |s| > |digits| ==> !IsDigit(s[|digits|])
    ensures ReadDecimal(s, DecimalWorth(before)) == DecimalWorth(before + digits)
    decreases |digits|
  {
    hide IsNumeral, IsDigit, DigitValue, ReadDecimal;
    ReadOnce(s, DecimalWorth(before));
    if digits == [] {
      assert before + digits == before;
    } else {
      var d := digits[0];
      NumeralIs(s[0], d);
      NumeralsRead(s[1..], digits[1..], before + [d]);
      assert (before + [d])[..|before|] == before;
      assert before + digits == before + [d] + digits[1..];
    }
  }

  lemma ReadOnce(s: seq<byte>, value: nat)
    ensures ReadDecimal(s, value) ==
              if s == [] || !IsDigit(s[0]) then value else ReadDecimal(s[1..], 10 * value + DigitValue(s[0]))
  {
  }

  lemma PortIsRead(rest: seq<byte>, digits: seq<nat>)
    requires IsPort(rest, digits)
    ensures ReadDecimal(rest[1..], 0) == DecimalWorth(digits)
  {
    var s := rest[1..];
    forall i | 0 <= i < |digits| ensures IsNumeral(s[i], digits[i]) { assert IsNumeral(rest[i + 1], digits[i]); }
    if |s| > |digits| && IsDigit(s[|digits|]) {
      DigitIsNumeral(s[|digits|]);
      assert false;
    }
    hide IsNumeral, IsDigit, DigitValue;
    assert [] + digits == digits;
    NumeralsRead(s, digits, []);
  }

  // ----- the host

  lemma {:induction false} IndexIs(s: seq<byte>, c: byte, n: nat)
    requires n <= |s| && (n < |s| ==> s[n] == c) && forall k | 0 <= k < n :: s[k] != c
    ensures IndexOf(s, c) == n
  {
  }

  /** Where the bracket closes, and the first colon after it that is not the last character. */
  lemma HostIs(text: seq<byte>, rest: seq<byte>, colon: nat)
    requires forall c | c in text :: IsTextByte(c)
    requires colon <= |rest| && forall k | 0 <= k < colon && k < |rest| - 1 :: rest[k] != COLON
    requires colon < |rest| ==> colon < |rest| - 1 && rest[colon] == COLON
    ensures
      var s, n := [OPEN] + text + [CLOSE] + rest, 1 + |text|;
      && s[0] == OPEN && s[n] == CLOSE && s[1..n] == text && s[n + 1..] == rest
      && IndexOf(s, CLOSE) == n
      && IndexOf(s[n..|s| - 1], COLON) == if colon < |rest| then colon + 1 else |rest|
  {
    hide IndexOf;
    var s, n := [OPEN] + text + [CLOSE] + rest, 1 + |text|;
    forall k | 1 <= k < n ensures s[k] != CLOSE {
      assert s[k] == text[k - 1] && text[k - 1] in text;
    }
    IndexIs(s, CLOSE, n);
    assert s[1..n] == text && s[n + 1..] == rest;
    AfterBracket(s, n, rest);
    var after := s[n..|s| - 1];
    if rest == [] {
      IndexIs(after, COLON, 0);
    } else {
      IndexIs(after, COLON, if colon < |rest| then colon + 1 else |rest|);
    }
  }

  lemma AfterBracket(s: seq<byte>, n: nat, rest: seq<byte>)
    requires n < |s| && s[n] == CLOSE && s[n + 1..] == rest
    ensures s[n..|s| - 1] == if rest == [] then [] else [CLOSE] + rest[..|rest| - 1]
  {
  }

  lemma HostWithout(s: seq<byte>, n: nat, end: nat, secured: bool)
    requires s != [] && s[0] == OPEN && n < |s| && IndexOf(s, CLOSE) == n
    requires n + IndexOf(s[n..|s| - 1], COLON) == |s| - 1
    requires IndexOf(s, SLASH) == end && 2 <= end <= |s| && s[end - 1] == CLOSE
    ensures HostOf(s, secured) == Bracketed(s[1..end - 1], if secured then DEFAULT_SECURE_PORT else DEFAULT_PORT)
  {
    hide IndexOf, ReadDecimal, HostUpTo;
    UpToBracket(s, end, if secured then DEFAULT_SECURE_PORT else DEFAULT_PORT);
  }

  lemma NoSlashBefore(text: seq<byte>, rest: seq<byte>)
    requires (forall c | c in text :: IsTextByte(c)) && (rest == [] || rest[0] == SLASH)
    ensures IndexOf([OPEN] + text + [CLOSE] + rest, SLASH) == 2 + |text|
  {
    var s, n := [OPEN] + text + [CLOSE] + rest, 1 + |text|;
    hide IndexOf;
    assert s[0] == OPEN && s[n] == CLOSE && |s| == n + 1 + |rest|;
    forall k | 0 < k < n ensures s[k] != SLASH {
      assert s[k] == text[k - 1] && text[k - 1] in text;
    }
    assert rest != [] ==> s[n + 1] == rest[0];
    IndexIs(s, SLASH, n + 1);
  }

  lemma PlainHost(text: seq<byte>, rest: seq<byte>, secured: bool)
    requires (forall c | c in text :: IsTextByte(c)) && (rest == [] || IsPath(rest))
    ensures HostOf([OPEN] + text + [CLOSE] + rest, secured) == Bracketed(text, if secured then 5684 else 5683)
  {
    var s, n := [OPEN] + text + [CLOSE] + rest, 1 + |text|;
    HostIs(text, rest, |rest|);
    NoSlashBefore(text, rest);
    hide IndexOf, IsTextByte, HostOf, ReadDecimal;
    HostWithout(s, n, n + 1, secured);
  }

  lemma PortHost(text: seq<byte>, rest: seq<byte>, secured: bool, digits: seq<nat>)
    requires (forall c | c in text :: IsTextByte(c)) && IsPort(rest, digits)
    ensures HostOf([OPEN] + text + [CLOSE] + rest, secured) == Bracketed(text, DecimalWorth(digits) % 0x1_0000)
  {
    var s, n := [OPEN] + text + [CLOSE] + rest, 1 + |text|;
    assert rest[0] == COLON && |rest| >= 2;
    hide IndexOf, IsTextByte, ReadDecimal, DecimalWorth, IsPort, HostOf;
    PortIsRead(rest, digits);
    HostIs(text, rest, 0);
    assert s[n + 2..] == rest[1..];
    HostWithColon(s, n, n + 1, secured);
  }

  lemma UriParts(s: seq<byte>, secured: bool, text: seq<byte>, rest: seq<byte>)
    requires IsUri(s, secured, text, rest)
    ensures s == Scheme(secured) + ([OPEN] + text + [CLOSE] + rest)
    ensures UriHost(s) == HostOf([OPEN] + text + [CLOSE] + rest, secured)
    ensures ParseUri(s) == ParseHost([OPEN] + text + [CLOSE] + rest, secured)
  {
    hide HostOf, ParseHost, ParseUri, UriHost, Scheme, Spells;
    var start :| Spells(start, if secured then "coaps://[" else "coap://[") && s == start + (text + [93] + rest);
    SchemeBytes(start, secured);
    SchemeIsCut(secured, [OPEN] + text + [CLOSE] + rest);
    assert s == Scheme(secured) + ([OPEN] + text + [CLOSE] + rest);
  }

  lemma SchemeIsCut(secured: bool, host: seq<byte>)
    requires host != []
    ensures UriHost(Scheme(secured) + host) == HostOf(host, secured)
    ensures ParseUri(Scheme(secured) + host) == ParseHost(host, secured)
  {
    hide HostOf, ParseHost;
    SchemeParsed(secured, host);
    var s := Scheme(secured) + host;
    assert s[|Scheme(secured)|..] == host;
    if !secured { assert s[4] == 58 && COAPS[4] == 115; }
  }

  lemma SchemeBytes(s: seq<byte>, secured: bool)
    requires Spells(s, if secured then "coaps://[" else "coap://[")
    ensures s == Scheme(secured) + [OPEN]
  {
    var b := Scheme(secured) + [OPEN];
    forall i | 0 <= i < |s| ensures s[i] == b[i] {
      assert Shows(b[i], (if secured then "coaps://[" else "coap://[")[i]);
      SameByte(s[i], b[i]);
    }
  }

  lemma SameByte(a: byte, b: byte)
    requires a as int == b as int
    ensures a == b
  {
  }

  /**
   For every URI: the address is the one that is written, and the port the written one modulo 2^16, or
   5684 for "coaps" and 5683 for "coap" if none is written.
   */
  lemma UriIsRead(s: seq<byte>, secured: bool, text: seq<byte>, rest: seq<byte>, values: seq<nat>, digits: seq<nat>)
    requires IsUri(s, secured, text, rest) && Denotes(text, values)
    requires rest == [] || IsPath(rest) || IsPort(rest, digits)
    ensures
      var r := ParseUri(s);
      && r.Parsed? && HasGroups(r.endpoint.address, values) && r.endpoint.secured == secured
      && r.endpoint.port == if rest == [] || IsPath(rest) then (if secured then 5684 else 5683)
                            else DecimalWorth(digits) % 0x1_0000
  {
    hide Parse, Expand, HasGroups, Denotes, HostOf, IsPort, IsPath, IsTextByte, IsUri, ParseUri, DecimalWorth;
    TextBytes(text, values);
    AddressIsRead(text, values);
    UriParts(s, secured, text, rest);
    if rest == [] || IsPath(rest) {
      PlainHost(text, rest, secured);
    } else {
      PortHost(text, rest, secured, digits);
    }
  }

  lemma NothingIsZero()
    ensures forall k | 0 <= k < 16 :: Expand([], -1)[k] == 0
  {
    assert [] + Zeros(16) == Zeros(16);
  }

  /** Nothing between the brackets is read as the unspecified address. */
  lemma NoAddressIsUnspecified(s: seq<byte>, secured: bool, rest: seq<byte>)
    requires IsUri(s, secured, [], rest) && (rest == [] || IsPath(rest))
    ensures
      var r := ParseUri(s);
      && r.Parsed? && (forall k | 0 <= k < 16 :: r.endpoint.address[k] == 0) && r.endpoint.secured == secured
      && r.endpoint.port == if secured then 5684 else 5683
  {
    ParseEnds([], [], -1);
    NothingIsZero();
    hide Parse, HostOf, IsPath, IsUri, ParseUri, Expand;
    UriParts(s, secured, [], rest);
    PlainHost([], rest, secured);
  }

  /**
   A colon in the path is taken for that of a port: unless it comes right after a closing bracket, such a
   URI is refused.
   */
  lemma PathColonIsRefused(s: seq<byte>, secured: bool, text: seq<byte>, rest: seq<byte>, values: seq<nat>, i: nat)
    requires IsUri(s, secured, text, rest) && Denotes(text, values)
    requires 0 < i < |rest| - 1 && rest[0] == 47 && rest[i] == 58 && forall k | 0 <= k < i :: rest[k] != 58
    ensures ParseUri(s) == Malformed <==> rest[i - 1] != 93
  {
    hide Parse, Expand, Denotes, HostOf, IsTextByte, IsUri, ParseUri, ParseHost, ReadDecimal;
    TextBytes(text, values);
    UriParts(s, secured, text, rest);
    UriEndsIff(s);
    ColonHost(text, rest, secured, i);
  }

  lemma ColonHost(text: seq<byte>, rest: seq<byte>, secured: bool, i: nat)
    requires forall c | c in text :: IsTextByte(c)
    requires 0 < i < |rest| - 1 && rest[i] == COLON && forall k | 0 <= k < i :: rest[k] != COLON
    ensures HostOf([OPEN] + text + [CLOSE] + rest, secured) == NoHost <==> rest[i - 1] != CLOSE
  {
    var s, n := [OPEN] + text + [CLOSE] + rest, 1 + |text|;
    hide IndexOf, IsTextByte, ReadDecimal, HostOf;
    HostIs(text, rest, i);
    assert s[n + i] == rest[i - 1];
    HostWithColon(s, n, n + i + 1, secured);
  }
}
