/**
 `oc_base64.c`: encoding into a caller's buffer and decoding in place, against section 4 of
 RFC 4648, which reads three bytes as one 24-bit group of four 6-bit values.
 */
module Base64 {
  import opened Octets

  const PAD: byte := 61

  // ----- the alphabet

  /** The table at line 30, whose 64 entries are A-Z, a-z, 0-9, + and /. */
  function Symbol(v: byte): byte {
    if v < 26 then v + 65 else if v < 52 then v + 71 else if v < 62 then v - 4 else if v == 62 then 43 else 47
  }

  predicate IsSymbol(c: byte) {
    65 <= c <= 90 || 97 <= c <= 122 || 48 <= c <= 57 || c == 43 || c == 47
  }

  /** The reverse mapping; anything else, padding included, stands for no bits. */
  function Value(c: byte): (v: byte)
    ensures v < 64
  {
    if 65 <= c <= 90 then c - 65
    else if 97 <= c <= 122 then c - 71
    else if 48 <= c <= 57 then c + 4
    else if c == 43 then 62
    else if c == 47 then 63
    else 0
  }

  lemma ValueOfSymbol(v: byte)
    requires v < 64
    ensures IsSymbol(Symbol(v)) && Value(Symbol(v)) == v && Symbol(v) != PAD
  {
  }

  lemma SymbolOfValue(c: byte)
    requires IsSymbol(c)
    ensures Symbol(Value(c)) == c
  {
  }

  // ----- 24-bit groups

  function Group(b0: byte, b1: byte, b2: byte): bv24 {
    (b0 as bv24 << 16) | (b1 as bv24 << 8) | b2 as bv24
  }

  function GroupOfValues(v0: byte, v1: byte, v2: byte, v3: byte): bv24 {
    (v0 as bv24 << 18) | (v1 as bv24 << 12) | (v2 as bv24 << 6) | v3 as bv24
  }

  function Sextet(g: bv24, r: nat): (v: byte)
    requires r < 4
    ensures v < 64
  {
    if r == 0 then ((g >> 18) & 0x3F) as byte
    else if r == 1 then ((g >> 12) & 0x3F) as byte
    else if r == 2 then ((g >> 6) & 0x3F) as byte
    else (g & 0x3F) as byte
  }

  function Octet(g: bv24, r: nat): byte
    requires r < 3
  {
    if r == 0 then ((g >> 16) & 0xFF) as byte
    else if r == 1 then ((g >> 8) & 0xFF) as byte
    else (g & 0xFF) as byte
  }

  lemma RegroupSextets(g: bv24)
    ensures GroupOfValues(Sextet(g, 0), Sextet(g, 1), Sextet(g, 2), Sextet(g, 3)) == g
  {
  }

  lemma OctetsOfGroup(b0: byte, b1: byte, b2: byte)
    ensures Octet(Group(b0, b1, b2), 0) == b0 && Octet(Group(b0, b1, b2), 1) == b1 && Octet(Group(b0, b1, b2), 2) == b2
  {
  }

  // The encoder's steps on its state variable.
  function Take6(x: byte): byte { x >> 2 }
  function Keep2(x: byte): byte { (x << 4) & 0x30 }
  function Add4(val: byte, x: byte): byte { val | (x >> 4) }
  function Keep4(x: byte): byte { (x << 2) & 0x3D }
  function Add2(val: byte, x: byte): byte { val | (x >> 6) }
  function Low6(x: byte): byte { x & 0x3F }

  /** The encoder's steps compute the group's values; the mask 0x3D keeps every bit that can be set. */
  lemma EncoderSteps(b0: byte, b1: byte, b2: byte)
    ensures Sextet(Group(b0, b1, b2), 0) == Take6(b0)
    ensures Sextet(Group(b0, b1, b2), 1) == Add4(Keep2(b0), b1)
    ensures Sextet(Group(b0, b1, b2), 2) == Add2(Keep4(b1), b2)
    ensures Sextet(Group(b0, b1, b2), 3) == Low6(b2)
  {
  }

  lemma NothingLeftToAdd(val: byte)
    ensures Add4(val, 0) == val && Add2(val, 0) == val && Low6(0) == 0 && Add4(Keep2(0), 0) == 0
        && Add2(Keep4(0), 0) == 0
  {
  }

  // The decoder's steps on its state variable.
  function Hold6(v: byte): byte { (v << 2) & 0xFD }
  function Fill2(val: byte, v: byte): byte { val | (v >> 4) }
  function Hold4(v: byte): byte { (v << 4) & 0xF0 }
  function Fill4(val: byte, v: byte): byte { val | (v >> 2) }
  function Hold2(v: byte): byte { (v << 6) & 0xD0 }
  function Fill6(val: byte, v: byte): byte { val | v }

  /** The decoder's steps compute the group's bytes; the masks 0xFD and 0xD0 keep every bit that can be set. */
  lemma DecoderSteps(v0: byte, v1: byte, v2: byte, v3: byte)
    requires v0 < 64 && v1 < 64 && v2 < 64 && v3 < 64
    ensures Octet(GroupOfValues(v0, v1, v2, v3), 0) == Fill2(Hold6(v0), v1)
    ensures Octet(GroupOfValues(v0, v1, v2, v3), 1) == Fill4(Hold4(v1), v2)
    ensures Octet(GroupOfValues(v0, v1, v2, v3), 2) == Fill6(Hold2(v2), v3)
  {
  }

  // ----- encoding

  function At(b: seq<byte>, i: nat): byte {
    if i < |b| then b[i] else 0
  }

  function GroupAt(b: seq<byte>, t: nat): bv24 {
    Group(At(b, 3 * t), At(b, 3 * t + 1), At(b, 3 * t + 2))
  }

  function EncodedLength(n: nat): nat {
    n / 3 * 4 + if n % 3 != 0 then 4 else 0
  }

  /** Output characters produced by the first n input bytes, before what is pending. */
  function SymbolsBefore(n: nat): nat {
    n / 3 * 4 + n % 3
  }

  /** Output characters that carry data. */
  function Symbols(n: nat): nat {
    SymbolsBefore(n) + if n % 3 != 0 then 1 else 0
  }

  function SymbolAt(b: seq<byte>, p: nat): byte {
    Symbol(Sextet(GroupAt(b, p / 4), p % 4))
  }

  function Encoded(b: seq<byte>): (s: seq<byte>)
    ensures |s| == EncodedLength(|b|)
  {
    seq(EncodedLength(|b|), p requires 0 <= p => if p < Symbols(|b|) then SymbolAt(b, p) else PAD)
  }

  /** The bits of the last byte read that wait for the next one. */
  function Pending(b: seq<byte>, i: nat): byte {
    if i % 3 == 1 then Keep2(At(b, i - 1))
    else if i % 3 == 2 then Keep4(At(b, i - 1))
    else 0
  }

  /** What the encoder appends on reading byte i. */
  function Emitted(b: seq<byte>, i: nat): (s: seq<byte>)
    ensures |s| == SymbolsBefore(i + 1) - SymbolsBefore(i)
  {
    if i % 3 == 0 then [Symbol(Take6(At(b, i)))]
    else if i % 3 == 1 then [Symbol(Add4(Pending(b, i), At(b, i)))]
    else [Symbol(Add2(Pending(b, i), At(b, i))), Symbol(Low6(At(b, i)))]
  }

  function EncodedSoFar(b: seq<byte>, i: nat): (s: seq<byte>)
    ensures |s| == SymbolsBefore(i)
  {
    if i == 0 then [] else EncodedSoFar(b, i - 1) + Emitted(b, i - 1)
  }

  lemma EmittedIsRight(b: seq<byte>, i: nat)
    ensures forall k | 0 <= k < |Emitted(b, i)| :: Emitted(b, i)[k] == SymbolAt(b, SymbolsBefore(i) + k)
  {
    hide Take6, Keep2, Add4, Keep4, Add2, Low6, Symbol, Group, Sextet;
    var t := i / 3;
    EncoderSteps(At(b, 3 * t), At(b, 3 * t + 1), At(b, 3 * t + 2));
    var p := SymbolsBefore(i);
    assert p == 4 * t + i % 3 && i == 3 * t + i % 3;
    assert p / 4 == t && p % 4 == i % 3;
    hide SymbolsBefore;
    if i % 3 == 2 { assert (p + 1) / 4 == t && (p + 1) % 4 == 3; }
  }

  lemma {:induction false} EncodedSoFarIsRight(b: seq<byte>, i: nat)
    ensures forall p | 0 <= p < SymbolsBefore(i) :: EncodedSoFar(b, i)[p] == SymbolAt(b, p)
  {
    hide Emitted, SymbolAt;
    if i > 0 {
      EncodedSoFarIsRight(b, i - 1);
      EmittedIsRight(b, i - 1);
    }
  }

  /** The bits left over at the end of the input make one more symbol. */
  lemma LastSymbol(b: seq<byte>)
    requires |b| % 3 != 0
    ensures Symbol(Pending(b, |b|)) == SymbolAt(b, SymbolsBefore(|b|))
  {
    hide Take6, Keep2, Add4, Keep4, Add2, Low6, Symbol, Group, Sextet, SymbolAt;
    EmittedIsRight(b, |b|);
    NothingLeftToAdd(Pending(b, |b|));
    assert Emitted(b, |b|)[0] == SymbolAt(b, SymbolsBefore(|b|) + 0);
  }

  /** What the main loop, the leftover symbol and the padding loop write is the reference encoding. */
  lemma LoopsEncode(b: seq<byte>, p: nat)
    requires p < EncodedLength(|b|)
    ensures Encoded(b)[p] ==
              if p < SymbolsBefore(|b|) then EncodedSoFar(b, |b|)[p]
              else if p < Symbols(|b|) then Symbol(Pending(b, |b|))
              else PAD
  {
    hide SymbolAt, Symbol, Pending, EncodedSoFar;
    EncodedSoFarIsRight(b, |b|);
    if |b| % 3 != 0 { LastSymbol(b); }
  }

  /** The places, from the start of its room on, at which the encoder stores something. */
  predicate StoresAt(input: seq<byte>, room: nat, k: int) {
    EncodedLength(|input|) <= room && (0 <= k < EncodedLength(|input|) || (input == [] && k == 0))
  }

  /** The encoder stays within its room if and only if there is an input or some room: a NUL is stored for no input. */
  lemma RoomIsKept(input: seq<byte>, room: nat)
    ensures (forall k: int | StoresAt(input, room, k) :: 0 <= k < room) <==> input != [] || room > 0
  {
    if input == [] { assert StoresAt(input, room, 0); }
  }

  /**
   `oc_base64_encode`: the output starts at `off` and has room for `room` bytes. For an empty input
   the source stores a NUL even when the room is zero, so there must be a byte in memory for it.
   */
  method Encode(input: seq<byte>, output: array<byte>, off: nat, room: nat) returns (r: int)
    requires off + room <= output.Length
    requires input == [] ==> off < output.Length
    modifies output
    ensures r == if room < EncodedLength(|input|) then -1 else EncodedLength(|input|)
    ensures 0 <= r ==> output[off..off + r] == Encoded(input)
    ensures input == [] ==> output[off] == 0
    ensures forall k | 0 <= k < output.Length && !StoresAt(input, room, k - off) :: output[k] == old(output[k])
  {
    hide Encoded, EncodedLength, SameOutside, StoresAt;
    var outputLen := EncodedLength(|input|);
    if room < outputLen {
      NothingStored(input, room);
      return -1;
    }
    if |input| == 0 { output[off] := NUL; }
    ghost var mem := output[..];
    EncodeWithin(input, output, off);
    StoredOnly(input, room, off, mem, output[..]);
    r := outputLen;
  }

  lemma NothingStored(input: seq<byte>, room: nat)
    requires room < EncodedLength(|input|)
    ensures input != [] && forall k :: !StoresAt(input, room, k)
  {
  }

  /** The encoding and nothing else. */
  method EncodeWithin(input: seq<byte>, output: array<byte>, off: nat)
    requires off + EncodedLength(|input|) <= output.Length
    modifies output
    ensures output[off..off + EncodedLength(|input|)] == Encoded(input)
    ensures SameOutside(old(output[..]), output[..], off, off + EncodedLength(|input|))
  {
    SymbolsFit(|input|);
    hide Encoded, EncodedSoFar, Symbol, Pending, EncodedLength, Symbols, SymbolsBefore, Holds, Written, SameOutside;
    var val, j := EncodeBytes(input, output, off, EncodedLength(|input|));
    ghost var mem := output[..];
    Finish(input, output, off, val, j);
    SameOutsideBoth(old(output[..]), mem, output[..], off, off + j, off + EncodedLength(|input|));
    AllWritten(input, output[..], off, val);
  }

  /** Besides the NUL for an empty input, stores stay within the encoding. */
  lemma StoredOnly(input: seq<byte>, room: nat, off: nat, mem1: seq<byte>, mem2: seq<byte>)
    ensures
      EncodedLength(|input|) <= room && SameOutside(mem1, mem2, off, off + EncodedLength(|input|)) ==>
        && |mem1| == |mem2|
        && (forall k | 0 <= k < |mem1| && !StoresAt(input, room, k - off) :: mem2[k] == mem1[k])
        && (input == [] ==> StoresAt(input, room, 0) && mem1 == mem2)
  {
  }

  /** The symbol left over, if there is one, and the padding. */
  method Finish(input: seq<byte>, output: array<byte>, off: nat, val: byte, n: nat)
    requires n == SymbolsBefore(|input|) && off + EncodedLength(|input|) <= output.Length
    requires output[off..off + n] == EncodedSoFar(input, |input|)
    modifies output
    ensures Written(input, output[..], off, val)
    ensures SameOutside(old(output[..]), output[..], off + n, off + EncodedLength(|input|))
  {
    SymbolsFit(|input|);
    hide EncodedSoFar, Symbol, EncodedLength, Symbols, SymbolsBefore, Written, SameOutside;
    var j := n;
    ghost var mem := output[..];
    if |input| % 3 != 0 {
      output[off + j] := Symbol(val);
      j := j + 1;
    }
    Pad(output, off + j, off + EncodedLength(|input|));
    Finished(input, mem, output[..], off, val, n, j);
  }

  /** Memory in which only the places for the left-over symbol and the padding have changed. */
  lemma Finished(input: seq<byte>, mem: seq<byte>, mem': seq<byte>, off: nat, val: byte, n: nat, j: nat)
    requires n == SymbolsBefore(|input|) && j == Symbols(|input|) && n <= j <= EncodedLength(|input|)
    requires off + EncodedLength(|input|) <= |mem| == |mem'| && mem[off..off + n] == EncodedSoFar(input, |input|)
    requires forall k | 0 <= k < |mem| && !(off + n <= k < off + EncodedLength(|input|)) :: mem'[k] == mem[k]
    requires |input| % 3 != 0 ==> mem'[off + n] == Symbol(val)
    requires forall k | off + j <= k < off + EncodedLength(|input|) :: mem'[k] == PAD
    ensures Written(input, mem', off, val) && SameOutside(mem, mem', off + n, off + EncodedLength(|input|))
  {
    hide EncodedSoFar, Symbol, EncodedLength, Symbols, SymbolsBefore;
    assert mem'[off..off + n] == mem[off..off + n];
  }

  lemma SymbolsFit(n: nat)
    ensures Symbols(n) == SymbolsBefore(n) + (if n % 3 != 0 then 1 else 0) <= EncodedLength(n)
  {
  }

  /** What the loops leave in memory: symbols, the one left over, and padding. */
  ghost predicate Written(input: seq<byte>, mem: seq<byte>, off: nat, val: byte) {
    && off + EncodedLength(|input|) <= |mem|
    && off + SymbolsBefore(|input|) <= off + Symbols(|input|) <= |mem|
    && mem[off..off + SymbolsBefore(|input|)] == EncodedSoFar(input, |input|)
    && (|input| % 3 != 0 ==> mem[off + SymbolsBefore(|input|)] == Symbol(val))
    && (forall k | off + Symbols(|input|) <= k < off + EncodedLength(|input|) :: mem[k] == PAD)
  }

  lemma WrittenAt(input: seq<byte>, mem: seq<byte>, off: nat, val: byte, p: nat)
    requires Written(input, mem, off, val) && Holds(input, |input|, val) && p < EncodedLength(|input|)
    ensures mem[off + p] == Encoded(input)[p]
  {
    LoopsEncode(input, p);
    hide Encoded, EncodedSoFar, Symbol, Pending;
    if p < SymbolsBefore(|input|) { assert mem[off..off + SymbolsBefore(|input|)][p] == mem[off + p]; }
  }

  lemma AllWritten(input: seq<byte>, mem: seq<byte>, off: nat, val: byte)
    requires Written(input, mem, off, val) && Holds(input, |input|, val)
    ensures off + EncodedLength(|input|) <= |mem| && mem[off..off + EncodedLength(|input|)] == Encoded(input)
  {
    hide Encoded, Holds, EncodedLength;
    assert off + EncodedLength(|input|) <= |mem|;
    hide Written;
    forall p | 0 <= p < EncodedLength(|input|) ensures mem[off..off + EncodedLength(|input|)][p] == Encoded(input)[p] {
      WrittenAt(input, mem, off, val, p);
    }
  }

  method Pad(output: array<byte>, from: nat, to: nat)
    requires from <= to <= output.Length
    modifies output
    ensures forall k | 0 <= k < output.Length :: output[k] == if from <= k < to then PAD else old(output[k])
  {
    var j := from;
    while j < to
      invariant from <= j <= to
      invariant forall k | 0 <= k < output.Length :: output[k] == if from <= k < j then PAD else old(output[k])
    {
      output[j] := PAD;
      j := j + 1;
    }
  }

  lemma Growth(i: nat, n: nat)
    requires i < n
    ensures SymbolsBefore(i) <= SymbolsBefore(i + 1) <= SymbolsBefore(n)
  {
  }

  lemma NothingEncoded(input: seq<byte>, mem: seq<byte>, off: nat)
    requires off <= |mem|
    ensures SymbolsBefore(0) == 0 && Holds(input, 0, 0)
    ensures mem[off..off] == EncodedSoFar(input, 0) && SameOutside(mem, mem, off, off)
  {
  }

  lemma OneMoreEmitted(input: seq<byte>, i: nat)
    ensures EncodedSoFar(input, i + 1) == EncodedSoFar(input, i) + Emitted(input, i)
  {
  }

  /** `val` holds the bits that wait, where some do. */
  predicate Holds(input: seq<byte>, i: nat, val: byte) {
    i % 3 != 0 ==> val == Pending(input, i)
  }

  /** One byte of input: the characters it completes, and the bits it leaves in `val`. */
  method EncodeByte(input: seq<byte>, i: nat, val: byte) returns (chars: seq<byte>, val': byte)
    requires i < |input| && Holds(input, i, val)
    ensures chars == Emitted(input, i) && 1 <= |chars| <= 2
    ensures Holds(input, i + 1, val')
  {
    hide Take6, Keep2, Add4, Keep4, Add2, Low6, Symbol;
    var x := input[i];
    if i % 3 == 0 {
      chars, val' := [Symbol(Take6(x))], Keep2(x);
    } else if i % 3 == 1 {
      chars, val' := [Symbol(Add4(val, x))], Keep4(x);
    } else {
      chars, val' := [Symbol(Add2(val, x)), Symbol(Low6(x))], Low6(x);
    }
  }

  /** Stores one or two characters behind `n` others. */
  method Append(output: array<byte>, off: nat, n: nat, chars: seq<byte>)
    requires 1 <= |chars| <= 2 && off + n + |chars| <= output.Length
    modifies output
    ensures output[off..off + n + |chars|] == old(output[off..off + n]) + chars
    ensures forall k | 0 <= k < output.Length && !(off + n <= k < off + n + |chars|) :: output[k] == old(output[k])
  {
    output[off + n] := chars[0];
    if |chars| == 2 { output[off + n + 1] := chars[1]; }
  }

  /** One round of the main loop. */
  method EncodeRound(input: seq<byte>, output: array<byte>, off: nat, i: nat, j: nat, val: byte)
    returns (j': nat, val': byte)
    requires i < |input| && j == SymbolsBefore(i) && off + SymbolsBefore(i + 1) <= output.Length
    requires Holds(input, i, val) && output[off..off + j] == EncodedSoFar(input, i)
    modifies output
    ensures j <= j' == SymbolsBefore(i + 1) && Holds(input, i + 1, val')
    ensures output[off..off + j'] == EncodedSoFar(input, i + 1)
    ensures SameOutside(old(output[..]), output[..], off + j, off + j')
  {
    hide Symbol, Emitted, SymbolsBefore, EncodedSoFar, Holds;
    var chars;
    chars, val' := EncodeByte(input, i, val);
    OneMoreEmitted(input, i);
    j' := j + |chars|;
    Append(output, off, j, chars);
  }

  /** Memory differs at most between two places. */
  ghost predicate SameOutside(mem: seq<byte>, mem': seq<byte>, from: nat, to: nat) {
    |mem| == |mem'| && forall k | 0 <= k < |mem| && !(from <= k < to) :: mem'[k] == mem[k]
  }

  lemma SameOutsideBoth(mem: seq<byte>, mem1: seq<byte>, mem2: seq<byte>, from: nat, mid: nat, to: nat)
    requires from <= mid <= to && SameOutside(mem, mem1, from, mid) && SameOutside(mem1, mem2, mid, to)
    ensures SameOutside(mem, mem2, from, to)
  {
  }

  /** The main loop: three bytes of input make four characters, `val` carries bits over. */
  method EncodeBytes(input: seq<byte>, output: array<byte>, off: nat, room: nat) returns (val: byte, j: nat)
    requires SymbolsBefore(|input|) <= room && off + room <= output.Length
    modifies output
    ensures j == SymbolsBefore(|input|)
    ensures Holds(input, |input|, val)
    ensures output[off..off + j] == EncodedSoFar(input, |input|)
    ensures SameOutside(old(output[..]), output[..], off, off + j)
  {
    hide Symbol, Emitted, SymbolsBefore, EncodedSoFar, Holds, SameOutside;
    NothingEncoded(input, output[..], off);
    assert output[off..off] == output[..][off..off];
    val := 0;
    j := 0;
    var i := 0;
    while i < |input|
      invariant i <= |input| && j == SymbolsBefore(i) <= room
      invariant Holds(input, i, val)
      invariant output[off..off + j] == EncodedSoFar(input, i)
      invariant SameOutside(old(output[..]), output[..], off, off + j)
    {
      Growth(i, |input|);
      ghost var mem, n := output[..], j;
      j, val := EncodeRound(input, output, off, i, j, val);
      SameOutsideBoth(old(output[..]), mem, output[..], off, off + n, off + j);
      i := i + 1;
    }
  }

  // ----- decoding

  /** Trailing padding characters, two at most. */
  function Padding(s: seq<byte>): (n: nat)
    ensures n <= 2 && n <= |s|
  {
    if |s| < 2 || s[|s| - 1] != PAD then 0 else if s[|s| - 2] != PAD then 1 else 2
  }

  /** Length divisible by 4, and nothing but alphabet characters before at most two padding characters. */
  predicate WellFormed(s: seq<byte>) {
    && |s| % 4 == 0
    && forall p | 0 <= p < |s| - Padding(s) :: IsSymbol(s[p])
  }

  function ValueAt(s: seq<byte>, p: nat): (v: byte)
    ensures v < 64
  {
    if p < |s| then Value(s[p]) else 0
  }

  function DecodedAt(s: seq<byte>, q: nat): byte {
    var p := q / 3 * 4;
    Octet(GroupOfValues(ValueAt(s, p), ValueAt(s, p + 1), ValueAt(s, p + 2), ValueAt(s, p + 3)), q % 3)
  }

  /** Output bytes complete after n characters. */
  function BytesBefore(n: nat): nat {
    n / 4 * 3 + if n % 4 == 0 then 0 else n % 4 - 1
  }

  function Decoded(s: seq<byte>): (b: seq<byte>)
    requires WellFormed(s)
    ensures |b| == BytesBefore(|s| - Padding(s))
  {
    seq(BytesBefore(|s| - Padding(s)), q requires 0 <= q => DecodedAt(s, q))
  }

  /** The bits of the last character read that wait for the next one. */
  function Carry(s: seq<byte>, i: nat): byte {
    if i % 4 == 1 then Hold6(ValueAt(s, i - 1))
    else if i % 4 == 2 then Hold4(ValueAt(s, i - 1))
    else if i % 4 == 3 then Hold2(ValueAt(s, i - 1))
    else 0
  }

  /** What the decoder stores on reading character i. */
  function Stored(s: seq<byte>, i: nat): (b: seq<byte>)
    requires i < |s|
    ensures |b| == BytesBefore(i + 1) - BytesBefore(i)
  {
    if i % 4 == 0 then []
    else if i % 4 == 1 then [Fill2(Carry(s, i), Value(s[i]))]
    else if i % 4 == 2 then [Fill4(Carry(s, i), Value(s[i]))]
    else [Fill6(Carry(s, i), Value(s[i]))]
  }

  function DecodedSoFar(s: seq<byte>, i: nat): (b: seq<byte>)
    requires i <= |s|
    ensures |b| == BytesBefore(i)
  {
    if i == 0 then [] else DecodedSoFar(s, i - 1) + Stored(s, i - 1)
  }

  lemma StoredIsRight(s: seq<byte>, i: nat)
    requires i < |s|
    ensures i % 4 != 0 ==> Stored(s, i)[0] == DecodedAt(s, BytesBefore(i))
  {
    hide Hold6, Fill2, Hold4, Fill4, Hold2, Fill6, Value, GroupOfValues, Octet;
    var p := i / 4 * 4;
    DecoderSteps(ValueAt(s, p), ValueAt(s, p + 1), ValueAt(s, p + 2), ValueAt(s, p + 3));
    if i % 4 != 0 {
      assert BytesBefore(i) / 3 * 4 == p && BytesBefore(i) % 3 == i % 4 - 1;
    }
  }

  lemma {:induction false} DecodedSoFarIsRight(s: seq<byte>, i: nat)
    requires i <= |s|
    ensures forall q | 0 <= q < BytesBefore(i) :: DecodedSoFar(s, i)[q] == DecodedAt(s, q)
  {
    hide DecodedAt, Stored;
    if i > 0 {
      DecodedSoFarIsRight(s, i - 1);
      StoredIsRight(s, i - 1);
    }
  }

  /** One character read: its value, or nothing outside the alphabet. */
  method ReadValue(c: byte) returns (v: byte)
    requires IsSymbol(c)
    ensures v == Value(c)
  {
    v := c;
    if 65 <= v <= 90 {
      v := v - 65;
    } else if 97 <= v <= 122 {
      v := v - 71;
    } else if 48 <= v <= 57 {
      v := v + 4;
    } else if v == 43 {
      v := 62;
    } else {
      v := 63;
    }
  }

  lemma BytesGrow(i: nat)
    ensures BytesBefore(i + 1) == BytesBefore(i) + if i % 4 == 0 then 0 else 1
    ensures BytesBefore(i) <= i
  {
  }

  /** `oc_base64_decode`: the text is overwritten by its decoding, and zeros after that. */
  method Decode(str: array<byte>) returns (r: int)
    modifies str
    ensures r == if WellFormed(old(str[..])) then |Decoded(old(str[..]))| else -1
    ensures 0 <= r ==> str[..] == Decoded(old(str[..])) + Zeros(str.Length - r)
    ensures str.Length % 4 != 0 ==> str[..] == old(str[..])
  {
    hide DecodedAt, DecodedSoFar;
    if str.Length % 4 != 0 { return -1; }
    ghost var s := str[..];
    r := DecodeChars(str);
    if r < 0 { return; }
    DecodedSoFarIsRight(s, |s| - Padding(s));
    assert DecodedSoFar(s, |s| - Padding(s)) == Decoded(s);
    ghost var n := r;
    var i := r;
    while i < str.Length
      invariant n <= i <= str.Length
      invariant str[..i] == Decoded(s) + Zeros(i - n)
    {
      str[i] := 0;
      i := i + 1;
    }
    assert str[..] == str[..i];
  }

  /** One character of the alphabet: the byte it completes, if any, and the bits it leaves. */
  method DecodeChar(ghost s: seq<byte>, i: nat, c: byte, val: byte) returns (bytes: seq<byte>, valC: byte)
    requires i < |s| && c == s[i] && IsSymbol(c) && (i % 4 != 0 ==> val == Carry(s, i))
    ensures bytes == Stored(s, i) && |bytes| <= 1
    ensures (i + 1) % 4 != 0 ==> valC == Carry(s, i + 1)
  {
    hide Hold6, Fill2, Hold4, Fill4, Hold2, Fill6, Value, IsSymbol;
    var valS := ReadValue(c);
    if i % 4 == 0 {
      bytes, valC := [], Hold6(valS);
    } else if i % 4 == 1 {
      bytes, valC := [Fill2(val, valS)], Hold4(valS);
    } else if i % 4 == 2 {
      bytes, valC := [Fill4(val, valS)], Hold2(valS);
    } else {
      valC := Fill6(val, valS);
      bytes := [valC];
    }
  }

  /** The completed byte goes into the text, over a character already read. */
  method StoreBits(str: array<byte>, ghost s: seq<byte>, i: nat, j: nat, val: byte) returns (j': nat, valC: byte)
    requires i < str.Length == |s| && str[i] == s[i] && IsSymbol(s[i])
    requires j == BytesBefore(i) <= i && str[..j] == DecodedSoFar(s, i)
    requires i % 4 != 0 ==> val == Carry(s, i)
    modifies str
    ensures j' == BytesBefore(i + 1) <= i + 1 && str[..j'] == DecodedSoFar(s, i + 1)
    ensures (i + 1) % 4 != 0 ==> valC == Carry(s, i + 1)
    ensures forall k | i < k < str.Length :: str[k] == old(str[k])
  {
    hide Carry, Stored, IsSymbol;
    BytesGrow(i);
    BytesGrow(i + 1);
    hide BytesBefore;
    var bytes;
    bytes, valC := DecodeChar(s, i, str[i], val);
    assert DecodedSoFar(s, i + 1) == DecodedSoFar(s, i) + bytes;
    hide DecodedSoFar;
    j' := j;
    if |bytes| == 1 {
      str[j] := bytes[0];
      j' := j + 1;
      assert str[..j'] == str[..j] + bytes;
    }
  }

  /** The main loop: a byte is stored over a character already read, never over one still to come. */
  method DecodeChars(str: array<byte>) returns (r: int)
    requires str.Length % 4 == 0
    modifies str
    ensures 0 <= r <==> WellFormed(old(str[..]))
    ensures 0 <= r ==>
              var s := old(str[..]);
              r == BytesBefore(|s| - Padding(s)) <= |s| && str[..r] == DecodedSoFar(s, |s| - Padding(s))
    ensures r < 0 ==> r == -1
  {
    hide Carry, DecodedSoFar;
    assert DecodedSoFar(str[..], 0) == [];
    var len := str.Length;
    ghost var s := str[..];
    var i, j := 0, 0;
    var valC: byte := 0;
    while i < len
      invariant i <= len && j == BytesBefore(i) <= i
      invariant forall p | 0 <= p < i :: IsSymbol(s[p])
      invariant i % 4 != 0 ==> valC == Carry(s, i)
      invariant str[..j] == DecodedSoFar(s, i)
      invariant forall k | i <= k < len :: str[k] == s[k]
    {
      var valS := str[i];
      if valS == PAD {
        if i < len - 2 { return -1; }
        if i == len - 2 && str[i + 1] != PAD { return -1; }
        break;
      } else if !IsSymbol(valS) {
        return -1;
      }
      j, valC := StoreBits(str, s, i, j, valC);
      i := i + 1;
    }
    assert i == len - Padding(s);
    r := j;
  }

  // ----- round trips

  /** Padding stands for the zero bits that completed the last group. */
  lemma ValueOfEncoded(b: seq<byte>, p: nat)
    requires p < EncodedLength(|b|)
    ensures ValueAt(Encoded(b), p) == Sextet(GroupAt(b, p / 4), p % 4)
  {
    hide Take6, Keep2, Add4, Keep4, Add2, Low6, Symbol, Group, Sextet;
    if p < Symbols(|b|) {
      ValueOfSymbol(Sextet(GroupAt(b, p / 4), p % 4));
    } else {
      var t := p / 4;
      assert 3 * t + 2 >= |b|;
      NothingLeftToAdd(0);
      EncoderSteps(At(b, 3 * t), At(b, 3 * t + 1), At(b, 3 * t + 2));
    }
  }

  lemma EncodedIsWellFormed(b: seq<byte>)
    ensures WellFormed(Encoded(b))
    ensures |Encoded(b)| - Padding(Encoded(b)) == Symbols(|b|)
  {
    hide Sextet, Symbol, IsSymbol, Group;
    var s := Encoded(b);
    forall p | 0 <= p < Symbols(|b|)
      ensures IsSymbol(s[p]) && s[p] != PAD
    {
      ValueOfSymbol(Sextet(GroupAt(b, p / 4), p % 4));
    }
  }

  /** Decoding what was encoded gives every byte back, and no more. */
  lemma DecodeEncode(b: seq<byte>)
    ensures WellFormed(Encoded(b)) && Decoded(Encoded(b)) == b
  {
    EncodedIsWellFormed(b);
    var s := Encoded(b);
    assert BytesBefore(Symbols(|b|)) == |b|;
    forall q | 0 <= q < |b|
      ensures DecodedAt(s, q) == b[q]
    {
      DecodedByte(b, q);
    }
  }

  lemma GroupAgain(b: seq<byte>, t: nat)
    requires 3 * t < |b|
    ensures
      var s := Encoded(b);
      GroupOfValues(ValueAt(s, 4 * t), ValueAt(s, 4 * t + 1), ValueAt(s, 4 * t + 2), ValueAt(s, 4 * t + 3))
          == GroupAt(b, t)
  {
    hide Encoded, Sextet, GroupOfValues, Group, GroupAt, ValueAt;
    ValueOfEncoded(b, 4 * t);
    ValueOfEncoded(b, 4 * t + 1);
    ValueOfEncoded(b, 4 * t + 2);
    ValueOfEncoded(b, 4 * t + 3);
    RegroupSextets(GroupAt(b, t));
  }

  lemma DecodedByte(b: seq<byte>, q: nat)
    requires q < |b|
    ensures DecodedAt(Encoded(b), q) == b[q]
  {
    hide Encoded, GroupOfValues, Octet, Group, ValueAt;
    var t := q / 3;
    GroupAgain(b, t);
    OctetsOfGroup(At(b, 3 * t), At(b, 3 * t + 1), At(b, 3 * t + 2));
    assert q == 3 * t + q % 3;
  }

  // ----- texts that are not the encoding of their decoding

  lemma RegroupOctets(g: bv24)
    ensures Group(Octet(g, 0), Octet(g, 1), Octet(g, 2)) == g
  {
  }

  lemma SextetsOfValues(v0: byte, v1: byte, v2: byte, v3: byte)
    requires v0 < 64 && v1 < 64 && v2 < 64 && v3 < 64
    ensures Sextet(GroupOfValues(v0, v1, v2, v3), 0) == v0 && Sextet(GroupOfValues(v0, v1, v2, v3), 1) == v1
    ensures Sextet(GroupOfValues(v0, v1, v2, v3), 2) == v2 && Sextet(GroupOfValues(v0, v1, v2, v3), 3) == v3
  {
  }

  function Upper4(v: byte): (u: byte)
    ensures v < 64 ==> u < 64
  {
    v & 0x3C
  }

  function Upper2(v: byte): (u: byte)
    ensures v < 64 ==> u < 64
  {
    v & 0x30
  }

  lemma TwoOctets(g: bv24)
    ensures
      var h := Group(Octet(g, 0), Octet(g, 1), 0);
      Sextet(h, 0) == Sextet(g, 0) && Sextet(h, 1) == Sextet(g, 1) && Sextet(h, 2) == Upper4(Sextet(g, 2))
  {
  }

  lemma OneOctet(g: bv24)
    ensures
      var h := Group(Octet(g, 0), 0, 0);
      Sextet(h, 0) == Sextet(g, 0) && Sextet(h, 1) == Upper2(Sextet(g, 1))
  {
  }

  function ValueGroup(s: seq<byte>, t: nat): bv24 {
    GroupOfValues(ValueAt(s, 4 * t), ValueAt(s, 4 * t + 1), ValueAt(s, 4 * t + 2), ValueAt(s, 4 * t + 3))
  }

  /** The bits of the last character that no decoded byte holds. */
  predicate UnusedBitsZero(s: seq<byte>)
    requires WellFormed(s)
  {
    var pad, n := Padding(s), |s|;
    if pad == 0 then true
    else if pad == 1 then Upper4(Value(s[n - 2])) == Value(s[n - 2])
    else n >= 4 && Upper2(Value(s[n - 3])) == Value(s[n - 3])
  }

  /** Each group of four characters against the three bytes decoded from it. */
  lemma GroupOfDecoded(s: seq<byte>, t: nat)
    requires WellFormed(s) && 4 * t < |s|
    ensures
      var g, last := ValueGroup(s, t), 4 * t + 4 == |s|;
      GroupAt(Decoded(s), t) ==
        if last && Padding(s) == 1 then Group(Octet(g, 0), Octet(g, 1), 0)
        else if last && Padding(s) == 2 then Group(Octet(g, 0), 0, 0)
        else g
  {
    hide Octet, Group, GroupOfValues, Value, IsSymbol;
    var b := Decoded(s);
    RegroupOctets(ValueGroup(s, t));
    assert At(b, 3 * t) == Octet(ValueGroup(s, t), 0);
    assert 3 * t + 1 < |b| ==> At(b, 3 * t + 1) == Octet(ValueGroup(s, t), 1);
    assert 3 * t + 2 < |b| ==> At(b, 3 * t + 2) == Octet(ValueGroup(s, t), 2);
  }

  /** A character of the text encoded again. */
  lemma CharAgain(s: seq<byte>, p: nat)
    requires WellFormed(s) && p < |s| - Padding(s)
    ensures
      var v, last := Value(s[p]), p == |s| - Padding(s) - 1;
      SymbolAt(Decoded(s), p) ==
        if last && Padding(s) == 1 then Symbol(Upper4(v))
        else if last && Padding(s) == 2 then Symbol(Upper2(v))
        else s[p]
  {
    hide Sextet, Group, GroupOfValues, Octet, Value, Symbol, Upper4, Upper2, IsSymbol;
    var t := p / 4;
    var g := ValueGroup(s, t);
    GroupOfDecoded(s, t);
    LastInGroup(s, p);
    SextetOfGroup(s, p);
    hide GroupAt, Decoded, ValueGroup, Padding;
    TwoOctets(g);
    OneOctet(g);
    SymbolOfValue(s[p]);
  }

  lemma SextetOfGroup(s: seq<byte>, p: nat)
    ensures Sextet(ValueGroup(s, p / 4), p % 4) == ValueAt(s, p)
  {
    hide Sextet, GroupOfValues, ValueAt;
    var t := p / 4;
    SextetsOfValues(ValueAt(s, 4 * t), ValueAt(s, 4 * t + 1), ValueAt(s, 4 * t + 2), ValueAt(s, 4 * t + 3));
  }

  /** Where the last character before the padding stands in its group. */
  lemma LastInGroup(s: seq<byte>, p: nat)
    requires WellFormed(s) && p < |s| - Padding(s)
    ensures 4 * (p / 4) < |s| && IsSymbol(s[p])
    ensures 4 * (p / 4) + 4 == |s| && Padding(s) == 1 ==> p % 4 <= 2 && (p % 4 == 2 <==> p == |s| - Padding(s) - 1)
    ensures 4 * (p / 4) + 4 == |s| && Padding(s) == 2 ==> p % 4 <= 1 && (p % 4 == 1 <==> p == |s| - Padding(s) - 1)
    ensures 4 * (p / 4) + 4 < |s| && Padding(s) > 0 ==> p != |s| - Padding(s) - 1
  {
    hide IsSymbol;
  }

  /** Encoding what was decoded gives the text back if and only if its unused bits are zero. */
  lemma EncodeDecode(s: seq<byte>)
    requires WellFormed(s)
    ensures Encoded(Decoded(s)) == s <==> UnusedBitsZero(s)
  {
    hide Decoded, Value, IsSymbol, Symbol, Upper4, Upper2, SymbolAt;
    var t, b, m := Encoded(Decoded(s)), Decoded(s), |s| - Padding(s);
    assert |t| == |s| && Symbols(|b|) == m;
    forall p | 0 <= p < m ensures t[p] == SymbolAt(b, p) && (p < m - 1 || Padding(s) == 0 ==> t[p] == s[p]) {
      CharAgain(s, p);
    }
    forall p | m <= p < |s| ensures t[p] == s[p] == PAD {
    }
    if Padding(s) > 0 && m > 0 {
      var v := Value(s[m - 1]);
      CharAgain(s, m - 1);
      SymbolOfValue(s[m - 1]);
      ValueOfSymbol(v);
      ValueOfSymbol(if Padding(s) == 1 then Upper4(v) else Upper2(v));
      assert t[m - 1] == s[m - 1] <==> UnusedBitsZero(s);
    }
  }

  /** "Zh==" decodes to the byte 102, whose encoding is "Zg==". */
  lemma UnusedBitsAreLost()
    ensures
      var s: seq<byte> := [90, 104, PAD, PAD];
      WellFormed(s) && Encoded(Decoded(s)) != s
  {
    var s: seq<byte> := [90, 104, PAD, PAD];
    assert Padding(s) == 2 && WellFormed(s);
    EncodeDecode(s);
    hide Encoded, Decoded;
    assert Value(s[1]) == 33;
  }
}
