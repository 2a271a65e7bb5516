/**
 Base64 by its alphabet (section 4 of RFC 4648): which character stands at each place of an encoding, which
 texts are accepted, and which byte each decoded place holds.
 */
module Base64Text {
  import opened Octets
  import opened Base64

  function Capitals(): string {
    "ABCDEFGHIJKLM" + "NOPQRSTUVWXYZ"
  }

  function Small(): string {
    "abcdefghijklm" + "nopqrstuvwxyz"
  }

  function Signs(): string {
    "0123456789+/"
  }

  function Alphabet(): (s: string)
    ensures |s| == 64
  {
    Capitals() + Small() + Signs()
  }

  predicate Shows(c: byte, letter: char) {
    c as int == letter as int
  }

  /** The character that the alphabet has for six bits. */
  predicate Stands(c: byte, v: byte) {
    v < 64 && Shows(c, Alphabet()[v as int])
  }

  lemma Letters(i: nat)
    requires i < 26
    ensures |Capitals()| == |Small()| == 26 && Capitals()[i] as int == i + 65 && Small()[i] as int == i + 97
  {
    if i < 13 { FirstThirteen(i); } else { LastThirteen(i - 13); }
  }

  lemma FirstThirteen(i: nat)
    requires i < 13
    ensures Capitals()[i] as int == i + 65 && Small()[i] as int == i + 97
  {
    assert Capitals()[i] == "ABCDEFGHIJKLM"[i] && Small()[i] == "abcdefghijklm"[i];
  }

  lemma LastThirteen(i: nat)
    requires i < 13
    ensures Capitals()[i + 13] as int == i + 78 && Small()[i + 13] as int == i + 110
  {
    assert Capitals()[i + 13] == "NOPQRSTUVWXYZ"[i] && Small()[i + 13] == "nopqrstuvwxyz"[i];
  }

  lemma Joined(a: string, b: string, c: string, i: nat)
    requires i < |a + b + c|
    ensures (a + b + c)[i] == if i < |a| then a[i] else if i < |a| + |b| then b[i - |a|] else c[i - |a| - |b|]
  {
  }

  lemma LettersAre(v: nat)
    requires v < 64
    ensures Alphabet()[v] as int == if v < 26 then v + 65 else if v < 52 then v + 71 else if v < 62 then v - 4
                                  else if v == 62 then 43 else 47
  {
    if v < 26 {
      Letters(v);
    } else if v < 52 {
      Letters(v - 26);
    } else {
      Letters(0);
      Others(v - 52);
    }
    assert |Capitals()| == |Small()| == 26;
    hide Capitals, Small, Signs;
    Joined(Capitals(), Small(), Signs(), v);
  }

  lemma Others(i: nat)
    requires i < 12
    ensures |Signs()| == 12 && Signs()[i] as int == if i < 10 then i + 48 else if i == 10 then 43 else 47
  {
  }

  lemma SixBits(v: byte)
    requires v < 64
    ensures v as int < 64
  {
  }

  lemma Order(a: byte, b: byte)
    ensures a <= b <==> a as int <= b as int
  {
  }

  lemma Plus65(v: byte)
    requires v < 26
    ensures (v + 65) as int == v as int + 65
  {
  }

  lemma Plus71(v: byte)
    requires v < 52
    ensures (v + 71) as int == v as int + 71
  {
  }

  lemma Minus4(v: byte)
    requires 52 <= v < 62
    ensures (v - 4) as int == v as int - 4
  {
  }

  /** The table of the encoder is the alphabet. */
  lemma SymbolIs(v: byte)
    requires v < 64
    ensures Stands(Symbol(v), v)
  {
    SixBits(v);
    Order(26, v);
    Order(52, v);
    Order(62, v);
    LettersAre(v as int);
    if v < 26 {
      Plus65(v);
    } else if v < 52 {
      Plus71(v);
    } else {
      if v < 62 { Minus4(v); }
      Order(v, 62);
    }
  }

  lemma SameByte(a: byte, b: byte)
    requires a as int == b as int
    ensures a == b
  {
  }

  ghost predicate InAlphabet(c: byte) {
    exists v :: Stands(c, v)
  }

  /** A character stands for six bits exactly if it is their symbol. */
  lemma StandsIs(c: byte, v: byte)
    requires v < 64
    ensures Stands(c, v) <==> c == Symbol(v)
  {
    SymbolIs(v);
    hide Symbol;
    if Stands(c, v) { SameByte(c, Symbol(v)); }
  }

  /** The alphabet holds exactly the symbols, each once. */
  lemma AlphabetIs(c: byte)
    ensures IsSymbol(c) <==> InAlphabet(c)
    ensures forall v :: Stands(c, v) ==> Value(c) == v
  {
    hide Symbol, Value, IsSymbol;
    if IsSymbol(c) {
      SymbolOfValue(c);
      StandsIs(c, Value(c));
    }
    forall v | Stands(c, v) ensures Value(c) == v && IsSymbol(c) {
      StandsIs(c, v);
      ValueOfSymbol(v);
    }
  }

  /** Byte i of the input, and zero behind its end. */
  function Octet24(b: seq<byte>, i: nat): bv24 {
    if i < |b| then b[i] as bv24 else 0
  }

  /** The r-th six of 24 bits, the most significant ones first. */
  function SixOf(bits: bv24, r: nat): byte {
    if r == 0 then ((bits >> 18) & 63) as byte
    else if r == 1 then ((bits >> 12) & 63) as byte
    else if r == 2 then ((bits >> 6) & 63) as byte
    else (bits & 63) as byte
  }

  /**
   Four characters for each three bytes: six bits after six bits of the 24, and equals signs where there are
   no bits of the input left.
   */
  lemma EncodedText(b: seq<byte>, p: nat)
    requires p < |Encoded(b)|
    ensures |Encoded(b)| == 4 * ((|b| + 2) / 3)
    ensures
      var i, r := p / 4 * 3, p % 4;
      var bits := (Octet24(b, i) << 16) | (Octet24(b, i + 1) << 8) | Octet24(b, i + 2);
      if i + r > |b| then Shows(Encoded(b)[p], '=') else Stands(Encoded(b)[p], SixOf(bits, r))
  {
    PadIs(PAD);
    EncodedAt(b, p);
    GroupIs(b, p / 4);
    SixIsSextet(GroupAt(b, p / 4), p % 4);
    hide *;
    SymbolIs(Sextet(GroupAt(b, p / 4), p % 4));
    SymbolAtIs(b, p);
  }

  lemma SymbolAtIs(b: seq<byte>, p: nat)
    ensures SymbolAt(b, p) == Symbol(Sextet(GroupAt(b, p / 4), p % 4))
  {
  }

  lemma GroupIs(b: seq<byte>, t: nat)
    ensures GroupAt(b, t) == (Octet24(b, 3 * t) << 16) | (Octet24(b, 3 * t + 1) << 8) | Octet24(b, 3 * t + 2)
  {
  }

  lemma SixIsSextet(g: bv24, r: nat)
    requires r < 4
    ensures SixOf(g, r) == Sextet(g, r)
  {
  }

  /** Which characters of a group carry data. */
  lemma SymbolsAre(n: nat, t: nat, r: nat)
    requires r < 4 && 4 * t + r < EncodedLength(n)
    ensures 4 * t + r < Symbols(n) <==> 3 * t + r <= n
  {
    var k, m := n / 3, n % 3;
    assert n == 3 * k + m;
    assert t < k || (t == k && m > 0);
  }

  lemma EncodedAt(b: seq<byte>, p: nat)
    requires p < |Encoded(b)|
    ensures |Encoded(b)| == 4 * ((|b| + 2) / 3)
    ensures Encoded(b)[p] == if p / 4 * 3 + p % 4 > |b| then PAD else SymbolAt(b, p)
  {
    SymbolsAre(|b|, p / 4, p % 4);
    hide SymbolAt, Symbols;
  }

  predicate AllPads(s: seq<byte>) {
    forall c | c in s :: Shows(c, '=')
  }

  ghost predicate AllStand(s: seq<byte>) {
    forall i | 0 <= i < |s| :: InAlphabet(s[i])
  }

  lemma PadIs(c: byte)
    ensures Shows(c, '=') <==> c == PAD
  {
    if Shows(c, '=') { SameByte(c, PAD); }
  }

  /** Accepted are texts of the alphabet with at most two equals signs behind, four characters at a time. */
  lemma AcceptedTexts(s: seq<byte>)
    ensures WellFormed(s) <==>
              |s| % 4 == 0 && exists n | 0 <= n <= |s| && n + 2 >= |s| :: AllStand(s[..n]) && AllPads(s[n..])
  {
    hide IsSymbol, Stands, Shows, InAlphabet, AllStand, AllPads, Padding;
    if WellFormed(s) { PaddedText(s); }
    if n :| 0 <= n <= |s| && n + 2 >= |s| && AllStand(s[..n]) && AllPads(s[n..]) && |s| % 4 == 0 {
      LettersOnly(s, n);
      PaddingIs(s, n);
    }
  }

  lemma PaddedText(s: seq<byte>)
    requires WellFormed(s)
    ensures AllStand(s[..|s| - Padding(s)]) && AllPads(s[|s| - Padding(s)..])
  {
    hide IsSymbol, Stands, Shows, InAlphabet;
    var m := |s| - Padding(s);
    forall i | 0 <= i < m ensures InAlphabet(s[..m][i]) {
      assert s[..m][i] == s[i];
      AlphabetIs(s[i]);
    }
    forall c | c in s[m..] ensures Shows(c, '=') {
      var i :| m <= i < |s| && s[i] == c;
      PadIs(c);
    }
  }

  lemma LettersOnly(s: seq<byte>, n: nat)
    requires n <= |s| && AllStand(s[..n])
    ensures forall i | 0 <= i < n :: IsSymbol(s[i])
  {
    hide IsSymbol, Stands, InAlphabet;
    forall i | 0 <= i < n ensures IsSymbol(s[i]) {
      assert s[..n][i] == s[i];
      AlphabetIs(s[i]);
    }
  }

  lemma PadIsNone()
    ensures !IsSymbol(PAD)
  {
  }

  /** Six bits of a text, and zeros behind its last character of the alphabet. */
  ghost predicate Six(s: seq<byte>, i: nat, v: bv24) {
    if i < |s| && !Shows(s[i], '=') then exists w: byte :: Stands(s[i], w) && v == w as bv24 else v == 0
  }

  lemma SixIs(s: seq<byte>, i: nat, v: bv24)
    requires WellFormed(s) && Six(s, i, v)
    ensures v == ValueAt(s, i) as bv24
  {
    hide Stands;
    if i < |s| {
      PadIs(s[i]);
      if s[i] == PAD {
        assert Value(PAD) == 0;
      } else {
        AlphabetIs(s[i]);
      }
    }
  }

  /** The r-th eight of 24 bits, the most significant ones first. */
  function EightOf(bits: bv24, r: nat): byte {
    if r == 0 then ((bits >> 16) & 0xFF) as byte else if r == 1 then ((bits >> 8) & 0xFF) as byte
        else (bits & 0xFF) as byte
  }

  lemma EightIsOctet(g: bv24, r: nat)
    requires r < 3
    ensures EightOf(g, r) == Octet(g, r)
  {
  }

  lemma ValuesJoin(v0: byte, v1: byte, v2: byte, v3: byte)
    ensures GroupOfValues(v0, v1, v2, v3) == (v0 as bv24 << 18) | (v1 as bv24 << 12) | (v2 as bv24 << 6) | v3 as bv24
  {
  }

  lemma DecodedIs(s: seq<byte>, q: nat)
    requires WellFormed(s) && q < |Decoded(s)|
    ensures
      var i := q / 3 * 4;
      Decoded(s)[q] == Octet(GroupOfValues(ValueAt(s, i), ValueAt(s, i + 1), ValueAt(s, i + 2), ValueAt(s, i + 3)),
          q % 3)
  {
    hide Octet, GroupOfValues, ValueAt;
  }

  /** Three bytes for each four characters, eight bits after eight bits of the 24. */
  lemma DecodedText(s: seq<byte>, q: nat, v0: bv24, v1: bv24, v2: bv24, v3: bv24)
    requires WellFormed(s) && q < |Decoded(s)|
    requires var i := q / 3 * 4; Six(s, i, v0) && Six(s, i + 1, v1) && Six(s, i + 2, v2) && Six(s, i + 3, v3)
    ensures Decoded(s)[q] == EightOf((v0 << 18) | (v1 << 12) | (v2 << 6) | v3, q % 3)
  {
    hide *;
    var i := q / 3 * 4;
    SixIs(s, i, v0);
    SixIs(s, i + 1, v1);
    SixIs(s, i + 2, v2);
    SixIs(s, i + 3, v3);
    DecodedIs(s, q);
    ValuesJoin(ValueAt(s, i), ValueAt(s, i + 1), ValueAt(s, i + 2), ValueAt(s, i + 3));
    EightIsOctet(GroupOfValues(ValueAt(s, i), ValueAt(s, i + 1), ValueAt(s, i + 2), ValueAt(s, i + 3)), q % 3);
  }

  /** Three quarters of the characters before the equals signs. */
  lemma DecodedLength(s: seq<byte>, n: nat)
    requires |s| % 4 == 0 && n <= |s| <= n + 2 && AllStand(s[..n]) && AllPads(s[n..])
    ensures WellFormed(s) && |Decoded(s)| == n * 3 / 4
  {
    AcceptedTexts(s);
    hide AllStand, AllPads;
    PaddingIs(s, n);
    assert n % 4 != 1;
  }

  lemma PaddingIs(s: seq<byte>, n: nat)
    requires |s| % 4 == 0 && n <= |s| <= n + 2 && AllStand(s[..n]) && AllPads(s[n..])
    ensures Padding(s) == |s| - n
  {
    hide Stands, Shows, InAlphabet, IsSymbol;
    PadIsNone();
    forall i | n <= i < |s| ensures s[i] == PAD {
      assert s[n..][i - n] in s[n..];
      PadIs(s[i]);
    }
    if n > 0 {
      assert s[..n][n - 1] == s[n - 1];
      AlphabetIs(s[n - 1]);
    }
  }
}
