/** Numbers and byte arrays as text: the conversions of `oc_helpers.c`. */
module NumberText {
  import opened CStrings

  type Octet = n: nat | n < 0x100

  const NUL := '\0'

  // --- Digits ---

  function Digit(d: nat): char
    requires d < 16
  {
    if d < 10 then (d + 48) as char else (d + 87) as char
  }

  predicate IsHex(c: char) {
    '0' <= c <= '9' || 'a' <= c <= 'f' || 'A' <= c <= 'F'
  }

  function DigitValue(c: char): (d: nat)
    requires IsHex(c)
    ensures d < 16
  {
    if c <= '9' then c as int - 48 else if c <= 'F' then c as int - 55 else c as int - 87
  }

  /** A digit that the printers use. */
  predicate Printed(c: char, base: nat) {
    IsHex(c) && !('A' <= c <= 'F') && DigitValue(c) < base
  }

  lemma DigitsInvert(d: nat, c: char)
    ensures d < 16 ==> Printed(Digit(d), 16) && DigitValue(Digit(d)) == d && (d < 10 ==> Printed(Digit(d), 10))
    ensures Printed(c, 16) ==> Digit(DigitValue(c)) == c
  {}

  const DIGITS := "0123456789abcdef"
  const CAPITAL_DIGITS := "0123456789ABCDEF"

  /** Digits are printed in lower case, and read in either. */
  lemma DigitsAre(d: nat, c: char)
    requires d < 16
    ensures Digit(d) == DIGITS[d]
    ensures IsHex(c) && DigitValue(c) == d <==> c == DIGITS[d] || c == CAPITAL_DIGITS[d]
  {
    assert DIGITS[d] as int == if d < 10 then d + 48 else d + 87;
    assert CAPITAL_DIGITS[d] as int == if d < 10 then d + 48 else d + 55;
  }

  // --- What a text denotes ---

  predicate AllPrinted(s: string, base: nat) {
    forall c | c in s :: Printed(c, base)
  }

  function ValueOf(s: string, base: nat): nat
    requires AllPrinted(s, base)
  {
    if s == "" then 0
    else
      assert s[|s| - 1] in s;
      base * ValueOf(s[..|s| - 1], base) + DigitValue(s[|s| - 1])
  }

  /** `s` is the one way to write `n`: no leading zero, but "0" itself. */
  predicate Denotes(s: string, base: nat, n: nat) {
    s != "" && AllPrinted(s, base) && ValueOf(s, base) == n && (s[0] == '0' ==> s == "0")
  }

  lemma DivideUnique(base: nat, q: nat, d: nat, q': nat, d': nat)
    requires (base == 10 || base == 16) && d < base && d' < base && base * q + d == base * q' + d'
    ensures q == q' && d == d'
  {
    if base == 10 {
      assert 10 * q + d == 10 * q' + d';
    } else {
      assert 16 * q + d == 16 * q' + d';
    }
  }

  /** Nothing but the empty text and texts of zeros denote zero. */
  lemma {:induction false} ZeroValue(s: string, base: nat)
    requires base > 0 && AllPrinted(s, base) && ValueOf(s, base) == 0
    ensures forall c | c in s :: c == '0'
  {
    if s != "" {
      var last := s[|s| - 1];
      assert last in s;
      ZeroTimes(base, ValueOf(s[..|s| - 1], base));
      ZeroValue(s[..|s| - 1], base);
      assert DigitValue(last) == 0 && last == '0';
      assert forall c | c in s :: c == last || c in s[..|s| - 1];
    }
  }

  lemma ZeroTimes(base: nat, q: nat)
    requires base > 0
    ensures base * q == 0 <==> q == 0
  {
    if q > 0 { assert base * q >= base by { assert base * (q - 1) >= 0; } }
  }

  /** Two texts that denote the same number are the same text. */
  lemma {:induction false} DenotesOne(s: string, t: string, base: nat, n: nat)
    requires (base == 10 || base == 16) && Denotes(s, base, n) && Denotes(t, base, n)
    ensures s == t
    decreases |s|
  {
    var sHead, tHead := s[..|s| - 1], t[..|t| - 1];
    var sLast, tLast := s[|s| - 1], t[|t| - 1];
    assert sLast in s && tLast in t;
    DivideUnique(base, ValueOf(sHead, base), DigitValue(sLast), ValueOf(tHead, base), DigitValue(tLast));
    DigitsInvert(0, sLast);
    DigitsInvert(0, tLast);
    assert sLast == tLast;
    HeadDenotes(s, base, n);
    HeadDenotes(t, base, n);
    if sHead != "" && tHead != "" {
      DenotesOne(sHead, tHead, base, ValueOf(sHead, base));
    }
    assert s == sHead + [sLast] && t == tHead + [tLast];
  }

  /** A head is empty if the number has one digit, and denotes what is left otherwise. */
  lemma HeadDenotes(s: string, base: nat, n: nat)
    requires (base == 10 || base == 16) && Denotes(s, base, n)
    ensures var head := s[..|s| - 1];
            if head == "" then ValueOf(head, base) == 0
            else Denotes(head, base, ValueOf(head, base)) && ValueOf(head, base) > 0
  {
    var head := s[..|s| - 1];
    if head != "" {
      assert head[0] == s[0] && head[0] in head;
      if ValueOf(head, base) == 0 {
        ZeroValue(head, base);
        assert false;
      }
    }
  }

  /** The digits of a number, the last one last. */
  function Text(n: nat, base: nat): (s: string)
    requires base == 10 || base == 16
    ensures s != ""
    decreases n
  {
    if n < base then [Digit(n)] else Text(n / base, base) + [Digit(n % base)]
  }

  lemma {:induction false} TextDenotes(n: nat, base: nat)
    requires base == 10 || base == 16
    ensures Denotes(Text(n, base), base, n)
    ensures n > 0 ==> Text(n, base)[0] != '0'
    decreases n
  {
    var s := Text(n, base);
    DigitsInvert(n % base, '0');
    if n < base {
      assert s[..|s| - 1] == "" && ValueOf("", base) == 0;
      assert Digit(n) == '0' ==> n == 0;
    } else {
      TextDenotes(n / base, base);
      assert s[..|s| - 1] == Text(n / base, base);
      assert s[0] == Text(n / base, base)[0];
      assert Printed(Digit(n % base), base);
    }
  }

  /** Every text that denotes a number is the number's digits. */
  lemma TextIsOnly(s: string, n: nat, base: nat)
    requires base == 10 || base == 16
    ensures Denotes(s, base, n) <==> s == Text(n, base)
  {
    TextDenotes(n, base);
    if Denotes(s, base, n) { DenotesOne(s, Text(n, base), base, n); }
  }

  function Pow(base: nat, k: nat): nat {
    if k == 0 then 1 else base * Pow(base, k - 1)
  }

  lemma {:induction false} TextLength(n: nat, base: nat, k: nat)
    requires (base == 10 || base == 16) && k > 0 && n < Pow(base, k)
    ensures |Text(n, base)| <= k
    decreases k
  {
    if n >= base {
      assert k > 1 by { assert Pow(base, 1) == base * Pow(base, 0); }
      assert base == 10 ==> Pow(10, k) == 10 * Pow(10, k - 1);
      assert base == 16 ==> Pow(16, k) == 16 * Pow(16, k - 1);
      TextLength(n / base, base, k - 1);
    }
  }

  /** A 64-bit number has at most twenty decimal and sixteen hexadecimal digits. */
  lemma LengthOf64Bits(n: nat)
    requires n < 0x1_0000_0000_0000_0000
    ensures |Text(n, 10)| <= 20 && |Text(n, 16)| <= 16
  {
    assert Pow(10, 4) == 10000;
    assert Pow(10, 8) == 100000000;
    assert Pow(10, 12) == 1000000000000;
    assert Pow(10, 16) == 10000000000000000;
    assert Pow(10, 20) == 100000000000000000000;
    assert Pow(16, 4) == 0x1_0000;
    assert Pow(16, 8) == 0x1_0000_0000;
    assert Pow(16, 12) == 0x1_0000_0000_0000;
    assert Pow(16, 16) == 0x1_0000_0000_0000_0000;
    TextLength(n, 10, 20);
    TextLength(n, 16, 16);
  }

  lemma {:induction false} CStringIs(s: string, n: nat)
    requires n < |s| && s[n] == NUL && forall i | 0 <= i < n :: s[i] != NUL
    ensures CString(s, NUL) == s[..n]
  {
    if n > 0 {
      CStringIs(s[1..], n - 1);
      assert s[..n] == [s[0]] + s[1..][..n - 1];
    }
  }

  lemma {:induction false} TextHasNoNul(n: nat, base: nat)
    requires base == 10 || base == 16
    ensures NUL !in Text(n, base)
    decreases n
  {
    if n >= base {
      TextHasNoNul(n / base, base);
    }
  }

  // --- Decimal ---

  /** The first loop: how many digits there are. */
  method CountDigits(number: nat) returns (n: nat)
    requires 0 < number
    ensures n == |Text(number, 10)|
  {
    var temp := number;
    n := 0;
    while temp != 0
      invariant n + (if temp == 0 then 0 else |Text(temp, 10)|) == |Text(number, 10)|
      decreases temp
    {
      temp := temp / 10;
      n := n + 1;
    }
  }

  /** `oc_conv_uint64_to_dec_string` */
  method ToDecimal(str: array<char>, number: nat)
    requires number < 0x1_0000_0000_0000_0000 && str.Length >= 21
    modifies str
    ensures CString(str[..], '\0') == Text(number, 10)
  {
    LengthOf64Bits(number);
    TextHasNoNul(number, 10);
    if number == 0 {
      str[0], str[1] := '0', NUL;
      CStringIs(str[..], 1);
      assert str[..][..1] == Text(0, 10);
      return;
    }
    var n := CountDigits(number);
    FillDigits(str, number, n);
    str[n] := NUL;
    assert str[..][..n] == Text(number, 10);
    assert forall i | 0 <= i < n :: str[..][i] == Text(number, 10)[i];
    CStringIs(str[..], n);
  }

  /** The second loop: the digits, from the last one on. */
  method FillDigits(str: array<char>, number: nat, n: nat)
    requires 0 < number && n == |Text(number, 10)| <= str.Length
    modifies str
    ensures str[..n] == Text(number, 10)
  {
    var i, rest := n, number;
    assert str[n..n] == "";
    assert Text(number, 10) + "" == Text(number, 10);
    while i > 0
      invariant 0 <= i <= n && i == (if rest == 0 then 0 else |Text(rest, 10)|)
      invariant (if rest == 0 then "" else Text(rest, 10)) + str[i..n] == Text(number, 10)
      decreases i
    {
      ghost var later := str[i..n];
      i := i - 1;
      str[i] := (48 + rest % 10) as char;
      assert str[i..n] == [Digit(rest % 10)] + later;
      LastDigit(rest, later, Text(number, 10));
      rest := rest / 10;
    }
    assert "" + str[0..n] == str[..n];
  }

  lemma LastDigit(rest: nat, later: string, whole: string)
    requires rest > 0 && Text(rest, 10) + later == whole
    ensures (if rest < 10 then "" else Text(rest / 10, 10)) + ([Digit(rest % 10)] + later) == whole
  {
    assert rest < 10 ==> "" + ([Digit(rest)] + later) == [Digit(rest)] + later;
    assert rest >= 10 ==> Text(rest, 10) + later == Text(rest / 10, 10) + ([Digit(rest % 10)] + later);
  }

  // --- Hexadecimal ---

  /** `number >> 4 * k` */
  function Shifted(n: nat, k: nat): nat
    decreases k
  {
    if k == 0 then n else Shifted(n / 16, k - 1)
  }

  lemma {:induction false} ShiftedMore(n: nat, k: nat)
    ensures Shifted(n, k + 1) == Shifted(n, k) / 16
    decreases k
  {
    if k > 0 {
      ShiftedMore(n / 16, k - 1);
    }
  }

  lemma {:induction false} ShiftedAway(n: nat, k: nat)
    requires n < Pow(16, k)
    ensures Shifted(n, k) == 0
    decreases k
  {
    if k > 0 {
      assert Pow(16, k) == 16 * Pow(16, k - 1);
      ShiftedAway(n / 16, k - 1);
    }
  }

  /** `k` digits, zeros first. */
  function Padded(n: nat, k: nat): (s: string)
    ensures |s| == k
    decreases k
  {
    if k == 0 then "" else Padded(n / 16, k - 1) + [Digit(n % 16)]
  }

  lemma {:induction false} PaddedZero(k: nat)
    ensures forall i | 0 <= i < k :: Padded(0, k)[i] == '0'
  {
    if k > 0 {
      PaddedZero(k - 1);
    }
  }

  /** Padding is zeros before the digits. */
  lemma {:induction false} PaddedIs(n: nat, k: nat)
    requires 0 < n && |Text(n, 16)| <= k
    ensures var z := k - |Text(n, 16)|;
            Padded(n, k)[z..] == Text(n, 16) && forall i | 0 <= i < z :: Padded(n, k)[i] == '0'
    decreases k
  {
    if n < 16 {
      PaddedZero(k - 1);
      assert Padded(n, k) == Padded(0, k - 1) + [Digit(n)];
    } else {
      PaddedIs(n / 16, k - 1);
    }
  }

  /** `oc_conv_uint64_to_hex_string` */
  method ToHex(str: array<char>, number: nat)
    requires number < 0x1_0000_0000_0000_0000 && str.Length >= 17
    modifies str
    ensures CString(str[..], '\0') == Text(number, 16)
  {
    LengthOf64Bits(number);
    TextHasNoNul(number, 16);
    if number == 0 {
      str[0], str[1] := '0', NUL;
      CStringIs(str[..], 1);
      assert str[..][..1] == Text(0, 16);
      return;
    }
    var padded := Nibbles(number);
    PaddedIs(number, 16);
    TextDenotes(number, 16);
    assert padded[16 - |Text(number, 16)|..][0] == padded[16 - |Text(number, 16)|];
    var zeros := 0;
    while zeros < 16 && padded[zeros] == '0'
      invariant zeros <= 16 - |Text(number, 16)|
      decreases 16 - zeros
    {
      zeros := zeros + 1;
    }
    assert padded[zeros..] == Text(number, 16);
    CopyText(str, padded[zeros..]);
  }

  /** `strcpy` */
  method CopyText(str: array<char>, s: string)
    requires |s| < str.Length && NUL !in s
    modifies str
    ensures CString(str[..], NUL) == s
  {
    var i := 0;
    while i < |s|
      invariant i <= |s| && str[..i] == s[..i]
    {
      str[i] := s[i];
      i := i + 1;
    }
    str[i] := NUL;
    assert str[..][..i] == s;
    assert forall j | 0 <= j < i :: str[..][j] == s[j];
    CStringIs(str[..], i);
  }

  /** The sixteen nibbles, the highest first. */
  method Nibbles(number: nat) returns (s: string)
    requires number < 0x1_0000_0000_0000_0000
    ensures s == Padded(number, 16)
  {
    s := "";
    var i := 0;
    while i < 16
      invariant i <= 16 && s == Padded(Shifted(number, 16 - i), i)
    {
      ShiftedMore(number, 15 - i);
      s := s + [Digit(Shifted(number, 15 - i) % 16)];
      i := i + 1;
    }
  }

  // --- Byte arrays ---

  function HexOf(bytes: seq<Octet>): (s: string)
    ensures |s| == 2 * |bytes|
  {
    if bytes == [] then ""
    else HexOf(bytes[..|bytes| - 1]) + [Digit(bytes[|bytes| - 1] / 16), Digit(bytes[|bytes| - 1] % 16)]
  }

  predicate AllHex(s: string) {
    forall c | c in s :: IsHex(c)
  }

  /** Two digits at a time. */
  function PairsOf(s: string): (bytes: seq<Octet>)
    requires AllHex(s) && |s| % 2 == 0
    ensures |bytes| == |s| / 2
  {
    if s == "" then []
    else
      var n := |s|;
      assert s[n - 1] in s && s[n - 2] in s;
      PairsOf(s[..n - 2]) + [16 * DigitValue(s[n - 2]) + DigitValue(s[n - 1])]
  }

  /** An odd text is read as if one zero came before it. */
  function BytesOf(s: string): seq<Octet>
    requires AllHex(s)
  {
    if |s| % 2 == 0 then PairsOf(s) else PairsOf("0" + s)
  }

  /** `oc_conv_byte_array_to_hex_string`; `room` comes in as `*hex_str_len`. */
  method ToHexString(bytes: seq<Octet>, hex: array<char>, room: nat) returns (ok: bool, len: nat)
    requires room <= hex.Length
    modifies hex
    ensures ok == (room > 2 * |bytes|)
    ensures !ok ==> len == room && hex[..] == old(hex[..])
    ensures ok ==> len == 2 * |bytes| && hex[..] == HexOf(bytes) + ['\0'] + old(hex[2 * |bytes| + 1..])
  {
    if room < |bytes| * 2 + 1 { return false, room; }
    len := 0;
    var i := 0;
    ghost var n := 2 * |bytes|;
    while i < |bytes|
      invariant i <= |bytes| && len == 2 * i && hex[..len] == HexOf(bytes[..i])
      invariant hex[n + 1..] == old(hex[n + 1..])
    {
      assert bytes[..i + 1][..i] == bytes[..i];
      hex[len] := Digit(bytes[i] / 16);
      hex[len + 1] := Digit(bytes[i] % 16);
      assert hex[..len + 2] == hex[..len] + [hex[len], hex[len + 1]];
      len := len + 2;
      i := i + 1;
    }
    assert bytes[..i] == bytes;
    hex[len] := NUL;
    assert hex[..] == hex[..n] + [hex[n]] + hex[n + 1..];
    return true, len;
  }

  // --- Text that need not be hexadecimal ---

  /** White space, signs and the x of a prefix, which `sscanf` would skip or read on its own. */
  predicate Special(c: char) {
    c == ' ' || 9 <= c as int <= 13 || c == '+' || c == '-' || c == 'x' || c == 'X'
  }

  predicate Ordinary(s: string) {
    forall c | c in s :: !Special(c)
  }

  /** `sscanf("%2x")` of two characters: it stops before the second if that is no digit. */
  function ScanPair(a: char, b: char): Octet
    requires IsHex(a)
  {
    if IsHex(b) then 16 * DigitValue(a) + DigitValue(b) else DigitValue(a)
  }

  /** Pairs from the front, up to the first that does not begin with a digit. */
  function Scan(s: string): (bytes: seq<Octet>)
    ensures |bytes| <= |s| / 2
    decreases |s|
  {
    if |s| < 2 || !IsHex(s[0]) then [] else [ScanPair(s[0], s[1])] + Scan(s[2..])
  }

  /** An odd text begins with one digit on its own. */
  function Scanned(s: string): (bytes: seq<Octet>)
    ensures |bytes| <= (|s| + 1) / 2
  {
    if |s| % 2 == 0 then Scan(s) else if !IsHex(s[0]) then [] else [DigitValue(s[0])] + Scan(s[1..])
  }

  predicate EvensAreHex(s: string) {
    forall i | 0 <= i < |s| && i % 2 == 0 :: IsHex(s[i])
  }

  /** Every pair, and the single character of an odd text, begins with a digit. */
  predicate FirstsAreHex(s: string) {
    if |s| % 2 == 0 then EvensAreHex(s) else IsHex(s[0]) && EvensAreHex(s[1..])
  }

  lemma {:induction false} ScanIsWhole(s: string)
    requires |s| % 2 == 0
    ensures |Scan(s)| == |s| / 2 <==> EvensAreHex(s)
    decreases |s|
  {
    hide IsHex;
    if |s| >= 2 {
      ScanIsWhole(s[2..]);
      assert forall i | 2 <= i < |s| :: s[i] == s[2..][i - 2];
      assert forall i | 0 <= i < |s| - 2 :: s[2..][i] == s[i + 2];
    }
  }

  /** Everything is read if and only if every pair begins with a digit. */
  lemma ScannedIsWhole(s: string)
    ensures |Scanned(s)| == (|s| + 1) / 2 <==> FirstsAreHex(s)
  {
    hide IsHex;
    if |s| % 2 == 0 { ScanIsWhole(s); } else { ScanIsWhole(s[1..]); }
    hide EvensAreHex;
  }

  lemma {:induction false} ScanIsPairs(s: string)
    requires AllHex(s) && |s| % 2 == 0
    ensures Scan(s) == PairsOf(s)
    decreases |s|
  {
    hide IsHex, DigitValue, Scan, PairsOf;
    if s == "" {
      EmptyPairs();
      ScanNothing(s);
    } else {
      var n := |s|;
      assert forall c | c in s[..n - 2] :: c in s;
      ScanIsPairs(s[..n - 2]);
      NextPair(s, n - 2);
      assert s[..n] == s && s == s[..n - 2] + [s[n - 2], s[n - 1]];
      ScanLast(s[..n - 2], s[n - 2], s[n - 1]);
    }
  }

  lemma {:induction false} ScanLast(s: string, a: char, b: char)
    requires AllHex(s) && |s| % 2 == 0 && IsHex(a) && IsHex(b)
    ensures Scan(s + [a, b]) == Scan(s) + [16 * DigitValue(a) + DigitValue(b)]
    decreases |s|
  {
    hide IsHex, DigitValue;
    if s == "" {
      assert "" + [a, b] == [a, b] && [a, b][2..] == "";
    } else {
      assert s[0] in s && forall c | c in s[2..] :: c in s;
      ScanLast(s[2..], a, b);
      assert (s + [a, b])[2..] == s[2..] + [a, b];
    }
  }

  /** Hexadecimal text is read as it is meant. */
  lemma ScannedIsBytes(s: string)
    requires AllHex(s)
    ensures Scanned(s) == BytesOf(s)
  {
    ZeroDigit();
    hide IsHex, DigitValue;
    if |s| % 2 == 0 {
      ScanIsPairs(s);
    } else {
      var even := "0" + s;
      assert s[0] in s && even[1] == s[0] && even[2..] == s[1..];
      ScanIsPairs(even);
    }
  }

  /** `oc_conv_hex_string_to_byte_array`; `room` comes in as `*array_len`. */
  method ToBytes(hex: string, bytes: array<Octet>, room: nat) returns (ok: bool, len: nat)
    requires Ordinary(hex) && room <= bytes.Length
    modifies bytes
    ensures hex == "" || room < (|hex| + 1) / 2 ==> !ok && len == room && bytes[..] == old(bytes[..])
    ensures hex != "" && room >= (|hex| + 1) / 2 ==>
              && len == (|hex| + 1) / 2 && ok == FirstsAreHex(hex)
              && bytes[..] == Scanned(hex) + old(bytes[|Scanned(hex)|..])
    ensures AllHex(hex) && hex != "" && room >= (|hex| + 1) / 2 ==> ok && bytes[..] == BytesOf(hex) + old(bytes[len..])
  {
    hide IsHex, Scanned, FirstsAreHex, BytesOf;
    if |hex| < 1 { return false, room; }
    len := (|hex| + 1) / 2;
    if room < len { return false, room; }
    if AllHex(hex) {
      ScannedIsBytes(hex);
      AllAreFirsts(hex);
    }
    ScannedIsWhole(hex);
    ok := Convert(hex, bytes);
  }

  /** A digit on its own if there is one, and then pairs. */
  method Convert(hex: string, bytes: array<Octet>) returns (ok: bool)
    requires hex != "" && (|hex| + 1) / 2 <= bytes.Length
    modifies bytes
    ensures ok == (|Scanned(hex)| == (|hex| + 1) / 2)
    ensures bytes[..] == Scanned(hex) + old(bytes[|Scanned(hex)|..])
  {
    hide IsHex, DigitValue, Scan;
    if |hex| % 2 == 0 {
      assert hex[0..] == hex;
      ok := ScanPairs(hex, 0, bytes, 0, |hex| / 2);
      assert old(bytes[..0]) + Scan(hex) == Scan(hex);
    } else {
      if !IsHex(hex[0]) { return false; }
      bytes[0] := DigitValue(hex[0]);
      assert bytes[..1] == [DigitValue(hex[0])];
      ok := ScanPairs(hex, 1, bytes, 1, |hex| / 2);
    }
  }

  lemma AllAreFirsts(s: string)
    requires AllHex(s)
    ensures FirstsAreHex(s)
  {
    hide IsHex;
    if |s| % 2 == 1 { assert s[0] in s && forall c | c in s[1..] :: c in s; }
  }

  lemma ScanOnce(s: string, i: nat)
    requires i + 2 <= |s|
    ensures Scan(s[i..]) == if IsHex(s[i]) then [ScanPair(s[i], s[i + 1])] + Scan(s[i + 2..]) else []
  {
    hide IsHex;
    assert s[i..][2..] == s[i + 2..];
  }

  /** The loop over pairs, from `start` on, into `bytes` from `first` on. */
  method ScanPairs(hex: string, start: nat, bytes: array<Octet>, first: nat, ghost n: nat) returns (ok: bool)
    requires |hex| == start + 2 * n && first + n <= bytes.Length
    modifies bytes
    ensures ok == (|Scan(hex[start..])| == n)
    ensures bytes[..] == old(bytes[..first]) + Scan(hex[start..]) + old(bytes[first + |Scan(hex[start..])|..])
  {
    hide IsHex, DigitValue, Scan, ScanPair;
    ghost var whole, mem, done := Scan(hex[start..]), bytes[..], [];
    var a, i := first, start;
    NoneStored(mem, first);
    assert [] + whole == whole;
    while i < |hex|
      invariant |done| <= n && i == start + 2 * |done| && a == first + |done|
      invariant whole == done + Scan(hex[i..])
      invariant bytes[..] == mem[..first] + done + mem[a..]
    {
      ScanMore(hex, i, whole, done);
      if !IsHex(hex[i]) { return false; }
      var b := ScanPair(hex[i], hex[i + 1]);
      StoreByte(bytes, first, a, b, mem, done);
      done := done + [b];
      a, i := a + 1, i + 2;
    }
    ScanNothing(hex);
    assert done + [] == done;
    return true;
  }

  lemma ScanMore(hex: string, i: nat, whole: seq<Octet>, done: seq<Octet>)
    requires i + 2 <= |hex| && whole == done + Scan(hex[i..])
    ensures if IsHex(hex[i]) then whole == done + [ScanPair(hex[i], hex[i + 1])] + Scan(hex[i + 2..]) else whole == done
  {
    ScanOnce(hex, i);
    hide Scan, IsHex, ScanPair;
    if IsHex(hex[i]) {
      var b, later := ScanPair(hex[i], hex[i + 1]), Scan(hex[i + 2..]);
      assert done + ([b] + later) == done + [b] + later;
    }
  }

  method StoreByte(bytes: array<Octet>, first: nat, a: nat, b: Octet, ghost mem: seq<Octet>, ghost done: seq<Octet>)
    requires |mem| == bytes.Length && a == first + |done| < bytes.Length
    requires bytes[..] == mem[..first] + done + mem[a..]
    modifies bytes
    ensures bytes[..] == mem[..first] + (done + [b]) + mem[a + 1..]
  {
    StoreNext(mem[..first], done, mem[a..], b);
    assert mem[a..][1..] == mem[a + 1..];
    ghost var now := bytes[..];
    bytes[a] := b;
    assert bytes[..] == now[a := b];
  }

  lemma NoneStored(mem: seq<Octet>, first: nat)
    requires first <= |mem|
    ensures mem == mem[..first] + [] + mem[first..]
  {
  }

  lemma StoreNext(before: seq<Octet>, done: seq<Octet>, behind: seq<Octet>, b: Octet)
    requires behind != []
    ensures (before + done + behind)[|before| + |done| := b] == before + (done + [b]) + behind[1..]
  {
  }

  lemma ScanNothing(s: string)
    ensures Scan(s[|s|..]) == []
  {
  }

  lemma EmptyPairs()
    ensures PairsOf("") == []
  {}

  lemma NextPair(even: string, i: nat)
    requires AllHex(even) && i % 2 == 0 && i + 1 < |even|
    ensures even[i] in even && even[i + 1] in even
    ensures PairsOf(even[..i + 2]) == PairsOf(even[..i]) + [16 * DigitValue(even[i]) + DigitValue(even[i + 1])]
  {
    assert even[..i + 2][..i] == even[..i];
  }

  /** Bytes survive the way into text and back. */
  lemma {:induction false} HexRoundTrip(bytes: seq<Octet>)
    ensures AllHex(HexOf(bytes)) && BytesOf(HexOf(bytes)) == bytes
  {
    EmptyHex();
    EmptyPairs();
    if bytes != [] {
      var n := |bytes| - 1;
      HexRoundTrip(bytes[..n]);
      ByteAgain(bytes[..n], bytes[n]);
      assert bytes == bytes[..n] + [bytes[n]];
    }
  }

  /** One more byte at the end survives, too. */
  lemma ByteAgain(head: seq<Octet>, b: Octet)
    requires AllHex(HexOf(head)) && BytesOf(HexOf(head)) == head
    ensures AllHex(HexOf(head + [b])) && BytesOf(HexOf(head + [b])) == head + [b]
  {
    hide IsHex, Printed, Digit, DigitValue, PairsOf, HexOf;
    HexNext(head, b);
    var s, high, low := HexOf(head), Digit(b / 16), Digit(b % 16);
    NibbleAgain(b / 16);
    NibbleAgain(b % 16);
    var t := s + [high, low];
    NextPair(t, |s|);
    assert t[..|s|] == s && t[..|s| + 2] == t;
    assert 16 * (b / 16) + b % 16 == b;
  }

  lemma NibbleAgain(d: nat)
    requires d < 16
    ensures IsHex(Digit(d)) && DigitValue(Digit(d)) == d
  {
  }

  lemma ZeroDigit()
    ensures IsHex('0') && DigitValue('0') == 0
  {}

  lemma PrintedIsHex(s: string)
    requires AllPrinted(s, 16)
    ensures AllHex(s)
  {}

  lemma HexNext(head: seq<Octet>, b: Octet)
    ensures HexOf(head + [b]) == HexOf(head) + [Digit(b / 16), Digit(b % 16)]
  {
    assert (head + [b])[..|head|] == head;
  }

  /** An even text of printed digits survives the way into bytes and back. */
  lemma {:induction false} BytesRoundTrip(s: string)
    requires AllPrinted(s, 16) && |s| % 2 == 0
    ensures AllHex(s) && HexOf(BytesOf(s)) == s
  {
    hide IsHex, Printed, Digit, DigitValue, PairsOf, HexOf;
    PrintedIsHex(s);
    if s == "" {
      EmptyPairs();
      EmptyHex();
    } else {
      var n := |s|;
      assert forall c | c in s[..n - 2] :: c in s;
      BytesRoundTrip(s[..n - 2]);
      NextPair(s, n - 2);
      assert s[..n] == s;
      var high, low := DigitValue(s[n - 2]), DigitValue(s[n - 1]);
      NibblesOf(high, low);
      DigitsInvert(0, s[n - 2]);
      DigitsInvert(0, s[n - 1]);
      HexNext(PairsOf(s[..n - 2]), 16 * high + low);
      assert s == s[..n - 2] + [s[n - 2], s[n - 1]];
    }
  }

  lemma EmptyHex()
    ensures HexOf([]) == ""
  {}

  lemma NibblesOf(high: nat, low: nat)
    requires high < 16 && low < 16
    ensures (16 * high + low) / 16 == high && (16 * high + low) % 16 == low
  {}
}
