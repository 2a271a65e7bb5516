/**
 `oc_endpoint.c`: printing an IPv6 endpoint as a URI. Zero groups are left out, and one colon
 inserted afterwards where the longest run of them was (section 2.2 of RFC 4291).
 */
module Ipv6Text {
  import opened Octets

  const OPEN: byte := 91
  const CLOSE: byte := 93
  const GROUPS: nat := 8

  type Address = a: seq<byte> | |a| == 16 witness seq(16, i => 0)

  /** Two octets of an address. */
  datatype Group = Group(hi: byte, lo: byte)

  function GroupAt(a: Address, k: nat): Group
    requires k < GROUPS
  {
    Group(a[2 * k], a[2 * k + 1])
  }

  predicate IsZero(a: Address, k: nat)
    requires k < GROUPS
  {
    GroupAt(a, k) == Group(0, 0)
  }

  function HexDigit(n: byte): byte {
    if n < 10 then n + 48 else n + 87
  }

  /** `%x` of a value below 16 */
  function OneDigit(b: byte): seq<byte> {
    [HexDigit(b & 0x0F)]
  }

  /** `%02x` */
  function TwoDigits(b: byte): seq<byte> {
    [HexDigit(b >> 4), HexDigit(b & 0x0F)]
  }

  /** A group that is not zero, without leading zeros. */
  function HexGroup(g: Group): seq<byte> {
    (if g.hi == 0 then [] else if g.hi <= 0x0F then OneDigit(g.hi) else TwoDigits(g.hi)) +
    (if g.hi == 0 && g.lo <= 0x0F then OneDigit(g.lo) else TwoDigits(g.lo))
  }

  /** The text of the first k groups: nothing at all for a zero group. */
  function Body(a: Address, k: nat): (s: seq<byte>)
    requires k <= GROUPS
    ensures |s| <= 5 * k
  {
    if k == 0 then []
    else if IsZero(a, k - 1) then Body(a, k - 1)
    else Body(a, k - 1) + (if k > 1 then [COLON] else []) + HexGroup(GroupAt(a, k - 1))
  }

  /** The printer's counters: current run, whether it reaches up to here, and the longest run that has ended. */
  datatype Runs = Runs(start: nat, num: nat, last: int, maxStart: nat, maxNum: nat)

  /** `last` is the octet index of the last zero group; 16 stands for none. */
  function RunsAfter(a: Address, k: nat): Runs
    requires k <= GROUPS
  {
    if k == 0 then Runs(0, 0, 16, 0, 0)
    else
      var r := RunsAfter(a, k - 1);
      if IsZero(a, k - 1) then
        if r.last != 2 * (k - 1) - 2 then Runs(1 + |Body(a, k - 1)|, 2, 2 * (k - 1), r.maxStart, r.maxNum)
        else r.(last := 2 * (k - 1), num := r.num + 2)
      else if r.num > r.maxNum then r.(maxNum := r.num, maxStart := r.start)
      else r
  }

  /** Where the colon is inserted; 0 for nowhere. */
  function InsertAt(a: Address): nat {
    var r := RunsAfter(a, GROUPS);
    if r.num > r.maxNum then r.start else r.maxStart
  }

  /** The text up to the closing bracket, before the insertion. */
  function Brackets(a: Address): seq<byte> {
    [OPEN] + Body(a, GROUPS) + if RunsAfter(a, GROUPS).last == 14 then [COLON] else []
  }

  /** The character at position i doubled. */
  function Doubled(s: seq<byte>, i: nat): seq<byte>
    requires i < |s|
  {
    s[..i] + [s[i]] + s[i..]
  }

  // ----- the run that is compressed

  predicate StartsRun(a: Address, m: nat)
    requires m < GROUPS
  {
    IsZero(a, m) && (m == 0 || !IsZero(a, m - 1))
  }

  /** Zero groups in a row from group m on. */
  function RunLength(a: Address, m: nat): (n: nat)
    requires m <= GROUPS
    ensures m + n <= GROUPS
    ensures forall k | m <= k < m + n :: IsZero(a, k)
    ensures m + n < GROUPS ==> !IsZero(a, m + n)
    decreases GROUPS - m
  {
    if m == GROUPS || !IsZero(a, m) then 0 else 1 + RunLength(a, m + 1)
  }

  /** Group m starts a longest run, and the first of those. */
  ghost predicate IsChosen(a: Address, m: nat)
    requires m < GROUPS
  {
    && StartsRun(a, m)
    && forall j: nat | j < GROUPS && StartsRun(a, j) ::
         RunLength(a, j) <= RunLength(a, m) && (j < m ==> RunLength(a, j) < RunLength(a, m))
  }

  /** The groups at which the counters' runs start. */
  datatype Starts = Starts(current: nat, longest: nat)

  function StartsAfter(a: Address, k: nat): Starts
    requires k <= GROUPS
  {
    if k == 0 then Starts(GROUPS, GROUPS)
    else
      var s, r := StartsAfter(a, k - 1), RunsAfter(a, k - 1);
      if IsZero(a, k - 1) then if r.last != 2 * (k - 1) - 2 then s.(current := k - 1) else s
      else if r.num > r.maxNum then s.(longest := s.current)
      else s
  }

  /** The current run: none yet, still going on, or ended and compared. */
  ghost predicate CurrentMeans(a: Address, k: nat)
    requires k <= GROUPS
  {
    var r, c := RunsAfter(a, k), StartsAfter(a, k).current;
    if r.last == 16 then c == GROUPS && r.num == 0 && forall j: nat | j < k :: !IsZero(a, j)
    else
      && c < k && StartsRun(a, c) && r.start == 1 + |Body(a, c)| && r.last == 2 * c + r.num - 2 && r.num > 0
      && (if r.last == 2 * k - 2 then forall j | c <= j < k :: IsZero(a, j)
          else r.last < 2 * k - 2 && r.num == 2 * RunLength(a, c) && r.num <= r.maxNum)
      && forall j: nat | j < k && IsZero(a, j) :: 2 * j <= r.last
  }

  /** The longest run that has ended, the first one of equals. */
  ghost predicate LongestMeans(a: Address, k: nat)
    requires k <= GROUPS
  {
    var r, s := RunsAfter(a, k), StartsAfter(a, k);
    && (if r.maxNum == 0 then r.maxStart == 0
        else
          && s.longest < k && s.longest <= s.current && StartsRun(a, s.longest)
          && r.maxStart == 1 + |Body(a, s.longest)| && r.maxNum == 2 * RunLength(a, s.longest))
    && forall j: nat | j < k && StartsRun(a, j) && j != s.current ::
         2 * RunLength(a, j) <= r.maxNum && j < s.current && (j < s.longest ==> 2 * RunLength(a, j) < r.maxNum)
  }

  lemma {:induction false} CountersAreRight(a: Address, k: nat)
    requires k <= GROUPS
    ensures CurrentMeans(a, k) && LongestMeans(a, k)
  {
    if k > 0 {
      CountersAreRight(a, k - 1);
      CurrentStep(a, k);
      LongestStep(a, k);
    }
  }

  lemma RunEnds(a: Address, c: nat, k: nat)
    requires c < k < GROUPS && !IsZero(a, k)
    requires forall j | c <= j < k :: IsZero(a, j)
    ensures RunLength(a, c) == k - c
  {
    hide IsZero;
    var n := RunLength(a, c);
    if c + n < GROUPS { assert !IsZero(a, c + n); }
  }

  lemma CurrentStep(a: Address, k: nat)
    requires 0 < k <= GROUPS
    requires CurrentMeans(a, k - 1)
    ensures CurrentMeans(a, k)
  {
    hide Body, IsZero, RunLength;
    var r, c := RunsAfter(a, k - 1), StartsAfter(a, k - 1).current;
    if IsZero(a, k - 1) {
      if r.last == 2 * (k - 1) - 2 {
        assert c < k - 1;
      } else {
        assert k > 1 ==> !IsZero(a, k - 2);
      }
    } else if r.last == 2 * (k - 1) - 2 && r.last != 16 {
      RunEnds(a, c, k - 1);
    }
  }

  lemma LongestStep(a: Address, k: nat)
    requires 0 < k <= GROUPS
    requires CurrentMeans(a, k - 1) && LongestMeans(a, k - 1)
    ensures LongestMeans(a, k)
  {
    hide Body, IsZero, RunLength;
    var r, c := RunsAfter(a, k - 1), StartsAfter(a, k - 1).current;
    if !IsZero(a, k - 1) && r.last == 2 * (k - 1) - 2 && r.last != 16 {
      RunEnds(a, c, k - 1);
    }
  }

  predicate HasZero(a: Address) {
    exists k: nat | k < GROUPS :: IsZero(a, k)
  }

  /** The group whose run is compressed. */
  function Chosen(a: Address): nat {
    var r, s := RunsAfter(a, GROUPS), StartsAfter(a, GROUPS);
    if r.num > r.maxNum then s.current else s.longest
  }

  /** The counters pick the first of the longest runs; without a zero group nothing is inserted. */
  lemma ChosenIsFirstLongest(a: Address)
    ensures if HasZero(a) then Chosen(a) < GROUPS && IsChosen(a, Chosen(a)) && InsertAt(a) == 1 + |Body(a, Chosen(a))|
            else InsertAt(a) == 0
    ensures RunsAfter(a, GROUPS).last == 14 <==> IsZero(a, GROUPS - 1)
  {
    CountersAreRight(a, GROUPS);
    hide Body, IsZero;
    var r, s := RunsAfter(a, GROUPS), StartsAfter(a, GROUPS);
    if r.last == 14 {
      var n := RunLength(a, s.current);
    }
  }

  // ----- the shape of the text

  /** The text of the groups from k on, each with its colon. */
  function Tail(a: Address, k: nat): seq<byte>
    requires k <= GROUPS
    decreases GROUPS - k
  {
    if k == GROUPS then []
    else (if IsZero(a, k) then [] else [COLON] + HexGroup(GroupAt(a, k))) + Tail(a, k + 1)
  }

  lemma NothingLeft(a: Address)
    ensures Tail(a, GROUPS) == []
  {
  }

  lemma NextPiece(a: Address, k: nat)
    requires k < GROUPS && (k > 0 || IsZero(a, 0))
    ensures
      var piece := if IsZero(a, k) then [] else [COLON] + HexGroup(GroupAt(a, k));
      Body(a, k + 1) == Body(a, k) + piece && Tail(a, k) == piece + Tail(a, k + 1)
  {
    hide HexGroup;
  }

  lemma {:induction false} BodySplits(a: Address, k: nat)
    requires k <= GROUPS && (k > 0 || IsZero(a, 0))
    ensures Body(a, GROUPS) == Body(a, k) + Tail(a, k)
    decreases GROUPS - k
  {
    hide HexGroup, Body, Tail, IsZero;
    if k == GROUPS {
      NothingLeft(a);
    } else {
      BodySplits(a, k + 1);
      var piece := if IsZero(a, k) then [] else [COLON] + HexGroup(GroupAt(a, k));
      NextPiece(a, k);
      assert Body(a, k) + piece + Tail(a, k + 1) == Body(a, k) + (piece + Tail(a, k + 1));
    }
  }

  function Trailer(a: Address): seq<byte> {
    if IsZero(a, GROUPS - 1) then [COLON] else []
  }

  lemma {:induction false} TailStartsWithColon(a: Address, k: nat)
    requires k <= GROUPS
    requires k < GROUPS ==> IsZero(a, k)
    ensures k < GROUPS ==> Tail(a, k) + Trailer(a) != [] && (Tail(a, k) + Trailer(a))[0] == COLON
    decreases GROUPS - k
  {
    hide HexGroup;
    if k + 1 < GROUPS && IsZero(a, k + 1) { TailStartsWithColon(a, k + 1); }
  }

  /** The text between the brackets. */
  function Compressed(a: Address): seq<byte> {
    if HasZero(a) && Chosen(a) < GROUPS then Body(a, Chosen(a)) + [COLON] + Tail(a, Chosen(a)) + Trailer(a)
    else Body(a, GROUPS)
  }

  lemma DoubledColon(b: seq<byte>, tail: seq<byte>, end: seq<byte>)
    requires tail + end != [] && (tail + end)[0] == COLON
    ensures
      var s := [OPEN] + (b + tail) + end;
      1 + |b| < |s| && Doubled(s, 1 + |b|) == [OPEN] + (b + [COLON] + tail + end)
  {
    var s, head, rest := [OPEN] + (b + tail) + end, [OPEN] + b, tail + end;
    hide Doubled;
    Regrouped([OPEN], b, tail, end);
    RegroupedColon([OPEN], b, tail, end);
    DoubledAt(head, rest);
  }

  lemma Regrouped(o: seq<byte>, b: seq<byte>, tail: seq<byte>, end: seq<byte>)
    ensures o + (b + tail) + end == o + b + (tail + end)
  {
  }

  lemma RegroupedColon(o: seq<byte>, b: seq<byte>, tail: seq<byte>, end: seq<byte>)
    ensures o + b + [COLON] + (tail + end) == o + (b + [COLON] + tail + end)
  {
  }

  lemma DoubledAt(head: seq<byte>, rest: seq<byte>)
    requires rest != []
    ensures Doubled(head + rest, |head|) == head + [rest[0]] + rest
  {
    var s := head + rest;
    assert s[..|head|] == head && s[|head|..] == rest && s[|head|] == rest[0];
  }

  /** Inserting after the fact amounts to a second colon where the chosen run was. */
  lemma InsertionMakesDoubleColon(a: Address)
    ensures
      if InsertAt(a) == 0 then Brackets(a) == [OPEN] + Compressed(a)
      else InsertAt(a) < |Brackets(a)| && Doubled(Brackets(a), InsertAt(a)) == [OPEN] + Compressed(a)
  {
    hide Body, Tail, IsZero, RunsAfter, Chosen, InsertAt, Doubled;
    ChosenIsFirstLongest(a);
    if HasZero(a) {
      var m := Chosen(a);
      BodySplits(a, m);
      TailStartsWithColon(a, m);
      DoubledColon(Body(a, m), Tail(a, m), Trailer(a));
    } else {
      assert [OPEN] + Body(a, GROUPS) + [] == [OPEN] + Body(a, GROUPS);
    }
  }
}
