/**
 `oc_parse_ipv6_address` and `oc_parse_endpoint_string`, for a build with neither TCP, IPv4 nor
 name lookup: groups are read into the address from the left, and what came after a double colon
 is moved to the right end afterwards.
 */
module Ipv6Parser {
  import opened Octets
  import opened Ipv6Text
  import opened Ipv6Printer

  // ----- hexadecimal

  /** A character that is no hexadecimal digit is taken as it is. */
  function Nibble(h: byte): byte {
    if 48 <= h <= 57 then h - 48
    else if 97 <= h <= 102 then h - 87
    else if 65 <= h <= 70 then h - 55
    else h
  }

  /** `hex_to_bin` of one character, and of two */
  function HexToBin1(h: byte): byte {
    0 | Nibble(h)
  }

  function HexToBin2(h: byte, l: byte): byte {
    (HexToBin1(h) << 4) | Nibble(l)
  }

  // ----- the parsing loop

  function FirstColon(s: seq<byte>): (n: nat)
    ensures n <= |s|
    ensures n < |s| ==> s[n] == COLON
    ensures forall k | 0 <= k < n :: s[k] != COLON
  {
    if s == [] || s[0] == COLON then 0 else 1 + FirstColon(s[1..])
  }

  /** The octets of a segment of one to four characters. */
  function Octets2(seg: seq<byte>): (o: seq<byte>)
    requires 1 <= |seg| <= 4
    ensures |o| == 2
  {
    if |seg| == 4 then [HexToBin2(seg[0], seg[1]), HexToBin2(seg[2], seg[3])]
    else if |seg| == 3 then [HexToBin1(seg[0]), HexToBin2(seg[1], seg[2])]
    else if |seg| == 2 then [0, HexToBin2(seg[0], seg[1])]
    else [0, HexToBin1(seg[0])]
  }

  /** What the loop ends with: the octets read, and how many of them came before a double colon (-1 for none). */
  datatype Run = Done(octets: seq<byte>, split: int) | Hangs

  predicate DoubleColonAt(s: seq<byte>, split: int) {
    split == -1 && |s| >= 2 && s[0] == COLON && s[1] == COLON
  }

  /**
   The loop, on what is left of the text. A segment of more than four characters is never
   consumed: the C loop then goes round for ever. `LoopEndsIff` says exactly when.
   */
  function Parse(s: seq<byte>, octets: seq<byte>, split: int): (r: Run)
    requires |octets| % 2 == 0 && |octets| <= 16 && -1 <= split <= |octets|
    ensures r.Done? ==> |octets| <= |r.octets| <= 16 && |r.octets| % 2 == 0 && -1 <= r.split <= |r.octets|
    decreases |s|
  {
    if |octets| >= 15 || s == [] then Done(octets, split)
    else
      var split1 := if DoubleColonAt(s, split) then |octets| else split;
      var s1 := if DoubleColonAt(s, split) then s[2..] else s;
      var n := FirstColon(s1);
      if n == 0 then Parse(if s1 == [] then [] else s1[1..], octets, split1)
      else if n <= 4 then Parse(s1[n..], octets + Octets2(s1[..n]), split1)
      else Hangs
  }

  // ----- the texts on which the loop ends

  /** What stands between the colons, without the empty stretches. */
  function Segments(s: seq<byte>): (segs: seq<seq<byte>>)
    ensures forall seg | seg in segs :: seg != [] && COLON !in seg
    decreases |s|
  {
    if s == [] then []
    else if s[0] == COLON then Segments(s[1..])
    else [s[..FirstColon(s)]] + Segments(s[FirstColon(s)..])
  }

  /** None of the first n segments has more than four characters. */
  predicate Short(segs: seq<seq<byte>>, n: nat) {
    forall i | 0 <= i < n && i < |segs| :: |segs[i]| <= 4
  }

  /** Each segment fills two octets of the sixteen; once they are full no more is looked at. */
  predicate ReadableFrom(s: seq<byte>, addrIdx: nat)
    requires addrIdx <= 16
  {
    Short(Segments(s), (16 - addrIdx) / 2)
  }

  /** None of the first eight segments has more than four characters. */
  predicate Readable(text: seq<byte>) {
    ReadableFrom(text, 0)
  }

  lemma NoSegment()
    ensures Segments([]) == []
  {
  }

  lemma SegmentsAfterColon(s: seq<byte>)
    requires s != [] && s[0] == COLON
    ensures Segments(s) == Segments(s[1..])
  {
  }

  lemma SegmentsAfterDouble(s: seq<byte>)
    requires |s| >= 2 && s[0] == COLON && s[1] == COLON
    ensures Segments(s) == Segments(s[2..])
  {
    hide Segments;
    SegmentsAfterColon(s);
    SegmentsAfterColon(s[1..]);
    assert s[1..][1..] == s[2..];
  }

  /** The first segment is read, the rest have one group less to fill. */
  lemma ShortOnce(s: seq<byte>, n: nat)
    requires s != [] && s[0] != COLON && n > 0
    ensures FirstColon(s) > 0
    ensures Short(Segments(s), n) <==> FirstColon(s) <= 4 && Short(Segments(s[FirstColon(s)..]), n - 1)
  {
    hide FirstColon;
    var segs, rest := Segments(s), Segments(s[FirstColon(s)..]);
    assert segs == [s[..FirstColon(s)]] + rest;
    if Short(segs, n) {
      forall i | 0 <= i < n - 1 && i < |rest| ensures |rest[i]| <= 4 {
        assert rest[i] == segs[i + 1];
      }
    }
  }

  /**
   For every text and every state of the loop: it ends if and only if none of the segments it still
   gets to, two octets of the address for each, has more than four characters.
   */
  lemma {:induction false} LoopEndsIff(s: seq<byte>, octets: seq<byte>, split: int)
    requires |octets| % 2 == 0 && |octets| <= 16 && -1 <= split <= |octets|
    ensures Parse(s, octets, split).Done? <==> ReadableFrom(s, |octets|)
    decreases |s|
  {
    hide Parse, Segments, Octets2;
    NoSegment();
    if |octets| >= 15 || s == [] {
      ParseEnds(s, octets, split);
    } else {
      ParseOnce(s, octets, split);
      var split1 := if DoubleColonAt(s, split) then |octets| else split;
      var s1 := if DoubleColonAt(s, split) then s[2..] else s;
      if DoubleColonAt(s, split) { SegmentsAfterDouble(s); }
      if s1 == [] {
        ParseEnds([], octets, split1);
      } else if s1[0] == COLON {
        SegmentsAfterColon(s1);
        LoopEndsIff(s1[1..], octets, split1);
      } else {
        var n := FirstColon(s1);
        ShortOnce(s1, (16 - |octets|) / 2);
        if n <= 4 { LoopEndsIff(s1[n..], octets + Octets2(s1[..n]), split1); }
      }
    }
  }

  /** "12345": the first segment is never consumed. */
  lemma FiveCharactersHang()
    ensures Parse([49, 50, 51, 52, 53], [], -1) == Hangs
  {
    var s: seq<byte> := [49, 50, 51, 52, 53];
    assert FirstColon(s) == 5;
    ParseOnce(s, [], -1);
  }

  // ----- the address


  /** The address made of it; sixteen octets and a double colon leave zeros from the split on. */
  function Expand(octets: seq<byte>, split: int): Address
    requires |octets| <= 16 && -1 <= split <= |octets|
  {
    if split == -1 then octets + Zeros(16 - |octets|)
    else if |octets| == 16 then octets[..split] + Zeros(16 - split)
    else octets[..split] + Zeros(16 - |octets|) + octets[split..]
  }

  /** `oc_parse_ipv6_address`. On any other text the loop does not end. */
  method ParseIpv6(text: seq<byte>, addr: array<byte>)
    requires addr.Length == 16
    requires Readable(text)
    modifies addr
    ensures var r := Parse(text, [], -1); r.Done? && addr[..] == Expand(r.octets, r.split)
  {
    hide Parse, Expand, ReadableFrom;
    LoopEndsIff(text, [], -1);
    forall k | 0 <= k < 16 { addr[k] := 0; }
    var addrIdx, split := ReadSegments(text, addr);
    ghost var r := Parse(text, [], -1);
    if split != -1 {
      ShiftRight(addr, split, addrIdx);
    } else {
      ExpandNoSplit(addr[..], r.octets);
    }
  }

  /** The loop over the segments: the octets read stand at the front, zeros behind them. */
  method ReadSegments(text: seq<byte>, addr: array<byte>) returns (addrIdx: nat, split: int)
    requires addr.Length == 16 && forall k | 0 <= k < 16 :: addr[k] == 0
    requires Readable(text)
    modifies addr
    ensures addrIdx <= 16 && Parse(text, [], -1) == Done(addr[..addrIdx], split)
    ensures forall k | addrIdx <= k < 16 :: addr[k] == 0
  {
    hide Left, Parse, ReadableFrom;
    LeftStart(text);
    LoopEndsIff(text, [], -1);
    var strIdx := 0;
    addrIdx, split := 0, -1;
    ghost var octets: seq<byte> := [];
    while addrIdx < 15 && strIdx < |text|
      invariant addrIdx == |octets| <= 16 && addrIdx % 2 == 0 && -1 <= split <= addrIdx
      invariant Parse(Left(text, strIdx), octets, split) == Parse(text, [], -1)
      invariant addr[..addrIdx] == octets
      invariant forall k | addrIdx <= k < 16 :: addr[k] == 0
      decreases |text| - strIdx
    {
      var o;
      LoopEndsIff(Left(text, strIdx), octets, split);
      strIdx, split, o := ReadSegment(text, strIdx, addrIdx, split, octets);
      addrIdx := StoreSegment(addr, addrIdx, o);
      octets := octets + o;
    }
    LeftEnds(text, strIdx);
    ParseEnds(Left(text, strIdx), octets, split);
  }

  /** Nothing, or the two octets of a segment. */
  method StoreSegment(addr: array<byte>, addrIdx: nat, o: seq<byte>) returns (end: nat)
    requires addr.Length == 16 && |o| in {0, 2} && addrIdx + |o| <= 16
    modifies addr
    ensures end == addrIdx + |o| && addr[..end] == old(addr[..addrIdx]) + o
    ensures forall k | end <= k < 16 :: addr[k] == old(addr[k])
  {
    end := addrIdx;
    if |o| == 2 {
      StoreOctets(addr, addrIdx, o);
      end := addrIdx + 2;
    } else {
      assert addr[..addrIdx] + o == addr[..addrIdx];
    }
  }

  lemma LeftStart(text: seq<byte>)
    ensures Left(text, 0) == text
  {
  }

  lemma ParseEnds(s: seq<byte>, octets: seq<byte>, split: int)
    requires |octets| % 2 == 0 && |octets| <= 16 && -1 <= split <= |octets|
    ensures |octets| >= 15 || s == [] ==> Parse(s, octets, split) == Done(octets, split)
  {
  }

  lemma LeftEnds(text: seq<byte>, at: nat)
    ensures at >= |text| ==> Left(text, at) == []
  {
  }

  lemma ExpandNoSplit(addr: seq<byte>, octets: seq<byte>)
    requires |octets| <= 16 == |addr| && addr[..|octets|] == octets
    requires forall k | |octets| <= k < 16 :: addr[k] == 0
    ensures addr == Expand(octets, -1)
  {
  }

  /** What one round of the loop reads: a first double colon, then a segment, or the colon after one. */
  method ReadSegment(text: seq<byte>, strIdx: nat, addrIdx: nat, split: int, ghost before: seq<byte>)
    returns (strIdx': nat, split': int, o: seq<byte>)
    requires |before| == addrIdx < 15 && addrIdx % 2 == 0 && -1 <= split <= addrIdx && strIdx < |text|
    requires ReadableFrom(Left(text, strIdx), addrIdx)
    ensures |o| in {0, 2} && -1 <= split' <= addrIdx && strIdx < strIdx'
    ensures Parse(Left(text, strIdx'), before + o, split') == Parse(Left(text, strIdx), before, split)
  {
    hide Parse, Octets2, FirstColon, DoubleColonAt, ReadableFrom;
    LoopEndsIff(Left(text, strIdx), before, split);
    var segLen;
    strIdx', split', segLen := NextSegment(text, strIdx, addrIdx, split);
    var s := Left(text, strIdx');
    ParseRound(Left(text, strIdx), s, before, split, split');
    if segLen == 0 {
      LeftMoves(text, strIdx', 1);
      strIdx' := strIdx' + 1;
      o := [];
      assert before + o == before;
    } else {
      LeftMoves(text, strIdx', segLen);
      o := Octets2(s[..segLen]);
      strIdx' := strIdx' + segLen;
    }
  }

  /** One round of the loop, once the double colon has been passed. */
  lemma ParseRound(s: seq<byte>, s1: seq<byte>, octets: seq<byte>, split: int, split1: int)
    requires |octets| % 2 == 0 && |octets| < 15 && -1 <= split <= |octets| && s != []
    requires split1 == if DoubleColonAt(s, split) then |octets| else split
    requires s1 == if DoubleColonAt(s, split) then s[2..] else s
    requires Parse(s, octets, split).Done?
    ensures FirstColon(s1) == 0 ==> Parse(if s1 == [] then [] else s1[1..], octets, split1) == Parse(s, octets, split)
    ensures FirstColon(s1) != 0 ==>
              FirstColon(s1) <= 4 && Parse(s1[FirstColon(s1)..], octets + Octets2(s1[..FirstColon(s1)]), split1)
                  == Parse(s, octets, split)
  {
    ParseOnce(s, octets, split);
  }

  /** Past a first double colon, and the length of the segment there. */
  method NextSegment(text: seq<byte>, strIdx: nat, addrIdx: nat, split: int)
    returns (strIdx': nat, split': int, segLen: nat)
    requires strIdx < |text|
    ensures
      var s := Left(text, strIdx);
      && strIdx <= strIdx'
      && split' == (if DoubleColonAt(s, split) then addrIdx else split)
      && Left(text, strIdx') == (if DoubleColonAt(s, split) then s[2..] else s)
      && segLen == FirstColon(Left(text, strIdx'))
  {
    strIdx', split' := strIdx, split;
    var s := Left(text, strIdx);
    if DoubleColonAt(s, split) {
      LeftMoves(text, strIdx, 2);
      split' := addrIdx;
      strIdx' := strIdx + 2;
    }
    segLen := FirstColon(Left(text, strIdx'));
  }

  method StoreOctets(addr: array<byte>, at: nat, o: seq<byte>)
    requires addr.Length == 16 && at + 2 <= 16 && |o| == 2
    modifies addr
    ensures addr[..at + 2] == old(addr[..at]) + o
    ensures forall k | at + 2 <= k < 16 :: addr[k] == old(addr[k])
  {
    addr[at] := o[0];
    addr[at + 1] := o[1];
  }

  lemma ParseOnce(s: seq<byte>, octets: seq<byte>, split: int)
    requires |octets| % 2 == 0 && |octets| < 15 && -1 <= split <= |octets| && s != []
    ensures
      var split1 := if DoubleColonAt(s, split) then |octets| else split;
      var s1 := if DoubleColonAt(s, split) then s[2..] else s;
      var n := FirstColon(s1);
      Parse(s, octets, split) ==
        if n == 0 then Parse(if s1 == [] then [] else s1[1..], octets, split1)
        else if n <= 4 then Parse(s1[n..], octets + Octets2(s1[..n]), split1)
        else Hangs
  {
    hide Octets2, FirstColon;
  }

  lemma LeftMoves(text: seq<byte>, at: nat, n: nat)
    requires n <= |Left(text, at)| || n == 1
    ensures Left(text, at + n) == if n <= |Left(text, at)| then Left(text, at)[n..] else []
  {
  }

  /** What is left of the text from a position on, which may have passed the end by one. */
  function Left(text: seq<byte>, at: nat): seq<byte> {
    if at <= |text| then text[at..] else []
  }

  /** The octets from the split on stand at the right end, zeros before them. */
  lemma ExpandIsShift(octets: seq<byte>, addr: seq<byte>, split: nat)
    requires split <= |octets| <= 16 == |addr|
    requires forall k | 0 <= k < split :: addr[k] == octets[k]
    requires forall k | split <= k < split + 16 - |octets| :: addr[k] == 0
    requires |octets| < 16 ==> forall k | split + 16 - |octets| <= k < 16 :: addr[k] == octets[k - (16 - |octets|)]
    requires |octets| == 16 ==> forall k | split <= k < 16 :: addr[k] == 0
    ensures addr == Expand(octets, split)
  {
  }

  /** Moves octets split..end to the right end, zeroing where they were, from the right. */
  method ShiftRight(addr: array<byte>, split: nat, end: nat)
    requires addr.Length == 16 && split <= end <= 16
    requires forall k | end <= k < 16 :: addr[k] == 0
    modifies addr
    ensures addr[..] == Expand(old(addr[..end]), split)
  {
    hide Expand;
    ghost var octets := addr[..end];
    var i, to := end - 1, 15;
    while i >= split
      invariant split - 1 <= i < end && to - i == 16 - end
      invariant forall k | 0 <= k <= i :: addr[k] == old(addr[k])
      invariant forall k | i < k <= to :: addr[k] == 0
      invariant end < 16 ==> forall k | to < k < 16 :: addr[k] == old(addr[k - (16 - end)])
      invariant end == 16 ==> forall k | i < k < 16 :: addr[k] == 0
    {
      addr[to] := addr[i];
      addr[i] := 0;
      i := i - 1;
      to := to - 1;
    }
    ExpandIsShift(octets, addr[..], split);
  }

  // ----- the whole URI

  const SLASH: byte := 47
  const DEFAULT_PORT: nat := 5683
  const DEFAULT_SECURE_PORT: nat := 5684

  datatype Result = Malformed | Endless | Parsed(endpoint: Endpoint)

  /** `memchr`; the length for not found. */
  function IndexOf(s: seq<byte>, c: byte): (n: nat)
    ensures n <= |s|
    ensures n < |s| ==> s[n] == c
    ensures forall k | 0 <= k < n :: s[k] != c
  {
    if s == [] || s[0] == c then 0 else 1 + IndexOf(s[1..], c)
  }

  predicate IsLetter(c: byte) {
    65 <= c <= 90 || 97 <= c <= 122
  }

  /** The text between the brackets, and the port. */
  datatype Host = NoHost | Bracketed(text: seq<byte>, port: nat)

  /** The host that ends before `end`, which must be right after a closing bracket. */
  function HostUpTo(s: seq<byte>, end: nat, port: nat): Host
    requires end <= |s|
  {
    if end < 2 || IsLetter(s[end - 1]) || s[end - 1] != CLOSE then NoHost else Bracketed(s[1..end - 1], port)
  }

  function HostOf(s: seq<byte>, secured: bool): Host
    requires s != []
  {
    if s[0] != OPEN then NoHost
    else
      var close := IndexOf(s, CLOSE);
      if close == |s| then NoHost
      else
        var colon := close + IndexOf(s[close..|s| - 1], COLON);
        if colon < |s| - 1 then HostUpTo(s, colon, ReadDecimal(s[colon + 1..], 0) % 0x1_0000)
        else HostUpTo(s, IndexOf(s, SLASH), if secured then DEFAULT_SECURE_PORT else DEFAULT_PORT)
  }

  function ParseHost(s: seq<byte>, secured: bool): Result
    requires s != []
  {
    match HostOf(s, secured)
    case NoHost => Malformed
    case Bracketed(text, port) =>
      match Parse(text, [], -1)
      case Hangs => Endless
      case Done(octets, split) => Parsed(Endpoint(Expand(octets, split), port, secured))
  }

  /** Which scheme the text starts with; nothing may be missing behind it. */
  function UriHost(s: seq<byte>): Host {
    if |s| > |COAPS| && COAPS <= s then HostOf(s[|COAPS|..], true)
    else if |s| > |COAP| && COAP <= s then HostOf(s[|COAP|..], false)
    else NoHost
  }

  /** `oc_parse_endpoint_string` */
  function ParseUri(s: seq<byte>): Result {
    if |s| > |COAPS| && COAPS <= s then ParseHost(s[|COAPS|..], true)
    else if |s| > |COAP| && COAP <= s then ParseHost(s[|COAP|..], false)
    else Malformed
  }

  /** For every URI: the parser ends if and only if there is no address to be read or a readable one. */
  lemma UriEndsIff(s: seq<byte>)
    ensures ParseUri(s) == Endless <==> UriHost(s).Bracketed? && !Readable(UriHost(s).text)
    ensures ParseUri(s) == Malformed <==> UriHost(s) == NoHost
  {
    hide Parse, Expand, HostOf, ReadableFrom;
    if UriHost(s).Bracketed? { LoopEndsIff(UriHost(s).text, [], -1); }
  }

  /** "coap://[12345]" */
  lemma FiveCharactersAreEndless()
    ensures ParseUri(COAP + [OPEN, 49, 50, 51, 52, 53, CLOSE]) == Endless
  {
    var host := [OPEN, 49, 50, 51, 52, 53, CLOSE];
    var s := COAP + host;
    FiveCharactersHang();
    hide Parse, IndexOf, ReadDecimal, Expand;
    assert s[|COAP|..] == host && s[4] != COAPS[4];
    assert host[6] == CLOSE && IndexOf(host, CLOSE) == 6;
    assert host[6..6] == [] && IndexOf(host[6..6], COLON) == 0 && IndexOf(host, SLASH) == 7;
    assert host[1..6] == [49, 50, 51, 52, 53];
  }

  /** `oc_parse_endpoint_string`. On any other text it does not return. */
  method ParseEndpointString(s: seq<byte>) returns (r: Result)
    requires UriHost(s).Bracketed? ==> Readable(UriHost(s).text)
    ensures r == ParseUri(s) && r != Endless
  {
    UriEndsIff(s);
    hide Parse, Expand, IndexOf, ReadDecimal, ReadableFrom;
    var secured, host := false, s;
    if |s| > |COAPS| && COAPS <= s {
      secured, host := true, s[|COAPS|..];
    } else if |s| > |COAP| && COAP <= s {
      host := s[|COAP|..];
    } else {
      return Malformed;
    }
    r := ParseBracketed(host, secured);
  }

  /** The part after the scheme: the bracketed address and the port. */
  method ParseBracketed(host: seq<byte>, secured: bool) returns (r: Result)
    requires host != []
    requires HostOf(host, secured).Bracketed? ==> Readable(HostOf(host, secured).text)
    ensures r == ParseHost(host, secured)
  {
    hide Parse, Expand, IndexOf, ReadDecimal, ReadableFrom;
    var port := if secured then DEFAULT_SECURE_PORT else DEFAULT_PORT;
    if host[0] != OPEN { return Malformed; }
    var close := IndexOf(host, CLOSE);
    if close == |host| { return Malformed; }
    var colon := close + IndexOf(host[close..|host| - 1], COLON);
    var end := 0;
    if colon < |host| - 1 {
      port := ReadDecimal(host[colon + 1..], 0) % 0x1_0000;
      end := colon;
    } else {
      end := IndexOf(host, SLASH);
    }
    if end < 2 || IsLetter(host[end - 1]) || host[end - 1] != CLOSE { return Malformed; }
    var addr := new byte[16];
    ParseIpv6(host[1..end - 1], addr);
    return Parsed(Endpoint(addr[..], port, secured));
  }
}
