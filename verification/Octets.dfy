/** Bytes and decimal numbers, shared by the text formats. */
module Octets {

  /** uint8_t, and char where the library stores text. */
  type byte = bv8

  const NUL: byte := 0
  const QUOTE: byte := 34
  const COMMA: byte := 44
  const COLON: byte := 58

  function Zeros(n: nat): seq<byte> {
    seq(n, i => 0)
  }

  /** The bytes of an ASCII string. */
  function Ascii(s: string): (r: seq<byte>)
    ensures |r| == |s|
  {
    seq(|s|, i requires 0 <= i < |s| => (s[i] as int % 256) as byte)
  }

  // ----- decimal numbers

  function Digit(d: nat): byte
    requires d < 10
  {
    if d == 0 then 48 else if d == 1 then 49 else if d == 2 then 50 else if d == 3 then 51 else if d == 4 then 52
    else if d == 5 then 53 else if d == 6 then 54 else if d == 7 then 55 else if d == 8 then 56 else 57
  }

  predicate IsDigit(c: byte) {
    48 <= c <= 57
  }

  function DigitValue(c: byte): (d: nat)
    ensures d < 10
  {
    if c == 49 then 1 else if c == 50 then 2 else if c == 51 then 3 else if c == 52 then 4 else if c == 53 then 5
    else if c == 54 then 6 else if c == 55 then 7 else if c == 56 then 8 else if c == 57 then 9 else 0
  }

  /** `%u` */
  function Decimal(n: nat): seq<byte> {
    if n < 10 then [Digit(n)] else Decimal(n / 10) + [Digit(n % 10)]
  }

  /** `%d` and `%lld` */
  function SignedDecimal(i: int): seq<byte> {
    if i < 0 then [45] + Decimal(-i) else Decimal(i)
  }

  /** `strtoul(s, NULL, 10)` on text that starts with a digit, continued from the value read so far. */
  function ReadDecimal(s: seq<byte>, value: nat): nat {
    if s == [] || !IsDigit(s[0]) then value else ReadDecimal(s[1..], 10 * value + DigitValue(s[0]))
  }

  lemma DigitRead(d: nat)
    requires d < 10
    ensures IsDigit(Digit(d)) && DigitValue(Digit(d)) == d
  {
  }

  /** Reading a printed number gives it back, whatever follows it. */
  lemma {:induction false} ReadPrinted(n: nat, rest: seq<byte>)
    ensures ReadDecimal(Decimal(n) + rest, 0) == ReadDecimal(rest, n)
    decreases n
  {
    hide Digit, DigitValue, IsDigit;
    DigitRead(n % 10);
    var d := [Digit(n % 10)];
    assert (d + rest)[1..] == rest;
    if n >= 10 {
      ReadPrinted(n / 10, d + rest);
      assert Decimal(n) + rest == Decimal(n / 10) + (d + rest);
    }
  }
}
