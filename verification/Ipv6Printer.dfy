/** `oc_ipv6_endpoint_to_string`: the printing loop over its 54-byte buffer. */
module Ipv6Printer {
  import opened Octets
  import opened Ipv6Text

  /** OC_IPV6_ADDRSTRLEN + 8 */
  const BUFFER: nat := 54

  datatype Endpoint = Endpoint(address: Address, port: nat, secured: bool)

  predicate ValidPort(port: nat) {
    port < 0x1_0000
  }

  /** "coaps://" and "coap://" */
  const COAPS: seq<byte> := [99, 111, 97, 112, 115, 58, 47, 47]
  const COAP: seq<byte> := [99, 111, 97, 112, 58, 47, 47]

  function Scheme(secured: bool): seq<byte> {
    if secured then COAPS else COAP
  }

  /** The whole URI. */
  function UriText(e: Endpoint): seq<byte> {
    Scheme(e.secured) + ([OPEN] + Compressed(e.address)) + [CLOSE, COLON] + Decimal(e.port)
  }

  /** `snprintf(&ip[at], ..., text)`: the text and a NUL. */
  method Store(ip: array<byte>, at: nat, text: seq<byte>) returns (end: nat)
    requires at + |text| < ip.Length
    modifies ip
    ensures end == at + |text|
    ensures ip[..end] == old(ip[..at]) + text
  {
    var k := 0;
    while k < |text|
      invariant k <= |text|
      invariant ip[..at + k] == old(ip[..at]) + text[..k]
    {
      ip[at + k] := text[k];
      k := k + 1;
    }
    ip[at + |text|] := NUL;
    end := at + |text|;
  }

  /** One octet of a group that is not zero. */
  method PrintOctet(ip: array<byte>, strIdx: nat, a: Address, addrIdx: nat) returns (end: nat)
    requires addrIdx < 16 && strIdx + 2 < ip.Length
    modifies ip
    ensures end <= strIdx + 2
    ensures ip[..end] == old(ip[..strIdx]) + OctetText(a, addrIdx)
  {
    if addrIdx % 2 == 0 && a[addrIdx] == 0 {
      end := strIdx;
    } else if (addrIdx % 2 == 0 || (addrIdx > 0 && a[addrIdx - 1] == 0)) && a[addrIdx] <= 0x0F {
      end := Store(ip, strIdx, OneDigit(a[addrIdx]));
    } else {
      end := Store(ip, strIdx, TwoDigits(a[addrIdx]));
    }
  }

  function OctetText(a: Address, i: nat): (s: seq<byte>)
    requires i < 16
    ensures |s| <= 2
  {
    if i % 2 == 0 && a[i] == 0 then []
    else if (i % 2 == 0 || a[i - 1] == 0) && a[i] <= 0x0F then OneDigit(a[i])
    else TwoDigits(a[i])
  }

  lemma GroupIsItsOctets(a: Address, k: nat)
    requires k < GROUPS
    ensures HexGroup(GroupAt(a, k)) == OctetText(a, 2 * k) + OctetText(a, 2 * k + 1)
  {
    hide OneDigit, TwoDigits;
  }

  /** The groups, with the positions and lengths of the zero runs. */
  method PrintGroups(ip: array<byte>, a: Address) returns (strIdx: nat, runs: Runs)
    requires ip.Length == BUFFER
    modifies ip
    ensures strIdx <= 41 && ip[..strIdx] == [OPEN] + Body(a, GROUPS) && runs == RunsAfter(a, GROUPS)
  {
    hide IsZero;
    ip[0] := OPEN;
    strIdx := 1;
    var addrIdx := 0;
    runs := Runs(0, 0, 16, 0, 0);
    ghost var k: nat := 0;
    assert ip[..1] == [OPEN] + [];
    while addrIdx < 16
      invariant addrIdx == 2 * k <= 16
      invariant strIdx <= 1 + 5 * k && ip[..strIdx] == [OPEN] + Body(a, k)
      invariant runs == RunsAfter(a, k)
    {
      strIdx, runs := PrintRound(ip, strIdx, a, addrIdx, runs, k);
      addrIdx := addrIdx + 2;
      k := k + 1;
    }
  }

  /** One round of the loop: a zero group is counted, any other is printed. */
  method PrintRound(ip: array<byte>, strIdx: nat, a: Address, addrIdx: nat, r: Runs, ghost k: nat)
    returns (end: nat, r': Runs)
    requires ip.Length == BUFFER && addrIdx == 2 * k < 16
    requires strIdx <= 1 + 5 * k && ip[..strIdx] == [OPEN] + Body(a, k) && r == RunsAfter(a, k)
    modifies ip
    ensures end <= 1 + 5 * (k + 1) && ip[..end] == [OPEN] + Body(a, k + 1) && r' == RunsAfter(a, k + 1)
  {
    assert addrIdx / 2 == k;
    hide HexGroup, IsZero, Body, RunsAfter, GroupAt;
    NextGroup(a, k);
    var zero := IsZeroGroup(a, addrIdx);
    if zero {
      r' := CountZeros(r, strIdx, addrIdx);
      end := strIdx;
    } else {
      r' := r;
      if r.num > r.maxNum { r' := r.(maxNum := r.num, maxStart := r.start); }
      end := PrintGroup(ip, strIdx, a, addrIdx);
    }
  }

  /** One more zero group in the current run, or in a new one. */
  method CountZeros(r: Runs, strIdx: nat, addrIdx: nat) returns (r': Runs)
    ensures r' == if r.last != addrIdx - 2 then Runs(strIdx, 2, addrIdx, r.maxStart, r.maxNum)
                  else r.(last := addrIdx, num := r.num + 2)
  {
    var startZeros, numZeros := r.start, r.num;
    if r.last != addrIdx - 2 {
      startZeros := strIdx;
      numZeros := 0;
    }
    r' := r.(start := startZeros, num := numZeros + 2, last := addrIdx);
  }

  /** One round: text and counters of one more group. */
  lemma NextGroup(a: Address, k: nat)
    requires k < GROUPS
    ensures
      var r, s := RunsAfter(a, k), Body(a, k);
      if IsZero(a, k) then
        && Body(a, k + 1) == s
        && RunsAfter(a, k + 1) ==
             if r.last != 2 * k - 2 then Runs(1 + |s|, 2, 2 * k, r.maxStart, r.maxNum)
             else r.(last := 2 * k, num := r.num + 2)
      else
        && [OPEN] + Body(a, k + 1) == [OPEN] + s + (if k > 0 then [COLON] else []) + HexGroup(GroupAt(a, k))
        && RunsAfter(a, k + 1) == if r.num > r.maxNum then r.(maxNum := r.num, maxStart := r.start) else r
  {
    hide HexGroup, IsZero;
  }

  method IsZeroGroup(a: Address, addrIdx: nat) returns (zero: bool)
    requires addrIdx % 2 == 0 && addrIdx < 16
    ensures zero == IsZero(a, addrIdx / 2)
  {
    zero := a[addrIdx] == 0 && a[addrIdx + 1] == 0;
  }

  /** A group that is not zero, with the colon in front of it: both rounds of `next_octet`. */
  method PrintGroup(ip: array<byte>, strIdx: nat, a: Address, addrIdx: nat) returns (end: nat)
    requires addrIdx % 2 == 0 && addrIdx < 16 && strIdx + 5 < ip.Length
    modifies ip
    ensures end <= strIdx + 5
    ensures ip[..end] == old(ip[..strIdx]) + (if addrIdx > 0 then [COLON] else []) + HexGroup(GroupAt(a, addrIdx / 2))
  {
    hide HexGroup, OctetText;
    end := strIdx;
    if 0 < addrIdx <= 14 {
      ip[end] := COLON;
      end := end + 1;
    }
    ghost var before := ip[..end];
    end := PrintOctet(ip, end, a, addrIdx);
    end := PrintOctet(ip, end, a, addrIdx + 1);
    GroupIsItsOctets(a, addrIdx / 2);
    assert before + OctetText(a, addrIdx) + OctetText(a, addrIdx + 1)
        == before + (OctetText(a, addrIdx) + OctetText(a, addrIdx + 1));
  }

  /** Everything from position `at` on moves up by one. */
  method MakeRoom(ip: array<byte>, at: nat, end: nat)
    requires at < end < ip.Length
    modifies ip
    ensures ip[..end + 1] == Doubled(old(ip[..end]), at)
  {
    var i := end;
    while i > at
      invariant at <= i <= end
      invariant forall k | 0 <= k < ip.Length :: ip[k] == if i < k <= end then old(ip[k - 1]) else old(ip[k])
    {
      ip[i] := ip[i - 1];
      i := i - 1;
    }
  }

  lemma {:induction false} ShortDecimal(n: nat, digits: nat, limit: nat)
    requires n < limit && 0 < digits
    requires limit <= Power10(digits)
    ensures |Decimal(n)| <= digits
    decreases digits
  {
    hide Digit;
    if n >= 10 { ShortDecimal(n / 10, digits - 1, Power10(digits - 1)); }
  }

  function Power10(n: nat): nat {
    if n == 0 then 1 else 10 * Power10(n - 1)
  }

  /** The address between its brackets, the last one still missing. */
  method PrintAddress(ip: array<byte>, a: Address) returns (strIdx: nat)
    requires ip.Length == BUFFER
    modifies ip
    ensures strIdx <= 43 && ip[..strIdx] == [OPEN] + Compressed(a)
  {
    hide Compressed, Body, Doubled, IsZero, RunsAfter;
    var r: Runs;
    strIdx, r := PrintGroups(ip, a);
    var maxZerosStart := r.maxStart;
    if r.num > r.maxNum { maxZerosStart := r.start; }
    if r.last == 14 {
      ip[strIdx] := COLON;
      strIdx := strIdx + 1;
    }
    assert ip[..strIdx] == Brackets(a);
    InsertionMakesDoubleColon(a);
    if maxZerosStart != 0 {
      MakeRoom(ip, maxZerosStart, strIdx);
      strIdx := strIdx + 1;
    }
  }

  /** `oc_ipv6_endpoint_to_string` */
  method ToText(e: Endpoint) returns (uri: seq<byte>)
    requires ValidPort(e.port)
    ensures uri == UriText(e)
  {
    hide Compressed, Decimal, Scheme;
    var ip := new byte[BUFFER](i => NUL);
    var strIdx := PrintAddress(ip, e.address);
    PortFits(e.port);
    var end := Store(ip, strIdx, [CLOSE, COLON] + Decimal(e.port));
    uri := Scheme(e.secured) + ip[..end];
    assert Scheme(e.secured) + ([OPEN] + Compressed(e.address) + ([CLOSE, COLON] + Decimal(e.port))) == UriText(e);
  }

  lemma PortFits(port: nat)
    requires ValidPort(port)
    ensures |Decimal(port)| <= 5
  {
    assert Power10(1) == 10;
    assert Power10(2) == 100;
    assert Power10(3) == 1000;
    assert Power10(4) == 10000;
    assert Power10(5) == 100000;
    ShortDecimal(port, 5, 0x1_0000);
  }
}
