/**
 The text of `oc_rep_to_json` against JSON read from the outside in: members and items between
 brackets, with one comma between each two. The compact text is exactly that, and the pretty one
 is that with blanks added outside of strings.
 */
module JsonReference {
  import opened CStrings
  import opened Octets
  import Base64
  import opened JsonText

  function Commas(items: seq<seq<byte>>): seq<byte> {
    if items == [] then [] else if |items| == 1 then items[0] else items[0] + [COMMA] + Commas(items[1..])
  }

  function Braces(members: seq<seq<byte>>): seq<byte> {
    Ascii("{") + Commas(members) + Ascii("}")
  }

  function Brackets(items: seq<seq<byte>>): seq<byte> {
    Ascii("[") + Commas(items) + Ascii("]")
  }

  function Quotes(s: seq<byte>): seq<byte> {
    [QUOTE] + s + [QUOTE]
  }

  /** `"name":`, nothing for an element of an array. */
  function Key(name: seq<byte>, iname: int): seq<byte> {
    if |name| > 0 then [QUOTE] + CString(name, NUL) + Ascii("\":")
    else if iname >= 0 then [QUOTE] + SignedDecimal(iname) + Ascii("\":")
    else []
  }

  function ValueText(v: Value, fmt: FloatFormat): seq<byte> {
    match v
    case Null => Ascii("null")
    case Int(i) => SignedDecimal(i)
    case Float(f) => fmt(f)
    case Double(d) => fmt(d)
    case Bool(b) => BoolText(b)
    case Blob(bytes) => Quotes(Base64.Encoded(bytes))
    case Str(s) => Quotes(CString(s, NUL))
    case Object(members) => Braces(MemberTexts(members, fmt))
    case IntArray(ints) => Brackets(seq(|ints|, i requires 0 <= i < |ints| => SignedDecimal(ints[i])))
    case FloatArray(fs) => Brackets(seq(|fs|, i requires 0 <= i < |fs| => fmt(fs[i])))
    case DoubleArray(ds) => Brackets(seq(|ds|, i requires 0 <= i < |ds| => fmt(ds[i])))
    case BoolArray(bs) => Brackets(seq(|bs|, i requires 0 <= i < |bs| => BoolText(bs[i])))
    case BlobArray(bs) => Brackets(seq(|bs|, i requires 0 <= i < |bs| => Quotes(Base64.Encoded(bs[i]))))
    case StrArray(ss) => Brackets(seq(|ss|, i requires 0 <= i < |ss| => Quotes(CString(ss[i], NUL))))
    case ObjectArray(objects) => Brackets(ObjectTexts(objects, fmt))
    case MixedArray(elements) => Brackets(MemberTexts(elements, fmt))
    case Array => []
  }

  function MemberTexts(rep: Rep, fmt: FloatFormat): seq<seq<byte>> {
    if rep == End then [] else [Key(rep.name, rep.iname) + ValueText(rep.value, fmt)] + MemberTexts(rep.next, fmt)
  }

  function ObjectTexts(os: Objects, fmt: FloatFormat): seq<seq<byte>> {
    [Braces(MemberTexts(os.item, fmt))] + if os.More? then ObjectTexts(os.rest, fmt) else []
  }

  function DocumentText(rep: Rep, fmt: FloatFormat): seq<byte> {
    if IsTopArray(rep) then Brackets(MemberTexts(rep, fmt)) else Braces(MemberTexts(rep, fmt))
  }

  // --- Taking the blanks out ---

  predicate Blank(c: byte) {
    c == 32 || c == 10
  }

  /** The text without its blanks, but for those between quotes. */
  function Strip(s: seq<byte>, inside: bool): seq<byte> {
    if s == [] then []
    else if s[0] == QUOTE then [s[0]] + Strip(s[1..], !inside)
    else if !inside && Blank(s[0]) then Strip(s[1..], inside)
    else [s[0]] + Strip(s[1..], inside)
  }

  /** Whether the end of the text is between quotes. */
  function InsideAfter(s: seq<byte>, inside: bool): bool {
    if s == [] then inside else InsideAfter(s[1..], if s[0] == QUOTE then !inside else inside)
  }

  lemma StripOnce(s: seq<byte>, inside: bool)
    requires s != []
    ensures var next := if s[0] == QUOTE then !inside else inside;
            && Strip(s, inside) == (if s[0] != QUOTE && !inside && Blank(s[0]) then [] else [s[0]])
                + Strip(s[1..], next)
            && InsideAfter(s, inside) == InsideAfter(s[1..], next)
  {
  }

  lemma {:induction false} StripBoth(a: seq<byte>, b: seq<byte>, inside: bool)
    ensures Strip(a + b, inside) == Strip(a, inside) + Strip(b, InsideAfter(a, inside))
    ensures InsideAfter(a + b, inside) == InsideAfter(b, InsideAfter(a, inside))
  {
    hide Strip, InsideAfter, Blank;
    if a == [] {
      StripNone(inside);
      assert a + b == b;
    } else {
      var c, next := a + b, if a[0] == QUOTE then !inside else inside;
      assert c[0] == a[0] && c[1..] == a[1..] + b;
      StripBoth(a[1..], b, next);
      StripOnce(a, inside);
      StripOnce(c, inside);
    }
  }

  lemma StripNone(inside: bool)
    ensures Strip([], inside) == [] && InsideAfter([], inside) == inside
  {
  }

  // --- Texts that are left alone ---

  /** Quotes in pairs, and no blank outside of them. */
  ghost predicate Tight(s: seq<byte>) {
    Strip(s, false) == s && !InsideAfter(s, false)
  }

  /** Text of numbers and literals. */
  predicate Unquoted(s: seq<byte>) {
    forall c | c in s :: c != QUOTE && !Blank(c)
  }

  lemma {:induction false} UnquotedIsTight(s: seq<byte>)
    requires Unquoted(s)
    ensures Tight(s)
  {
    if s != [] {
      assert s[0] in s;
      UnquotedIsTight(s[1..]);
      assert s == [s[0]] + s[1..];
    }
  }

  lemma {:induction false} InsideStays(s: seq<byte>)
    requires QUOTE !in s
    ensures Strip(s, true) == s && InsideAfter(s, true)
  {
    if s != [] {
      InsideStays(s[1..]);
      assert s == [s[0]] + s[1..];
    }
  }

  /** Whatever is between quotes stays, blanks included. */
  lemma QuotedIsTight(s: seq<byte>)
    requires QUOTE !in s
    ensures Tight([QUOTE] + s + [QUOTE])
  {
    InsideStays(s);
    OneChar(QUOTE);
    StripBoth([QUOTE], s, false);
    StripBoth([QUOTE] + s, [QUOTE], false);
    assert Strip([QUOTE], true) == [QUOTE] by { assert [QUOTE][1..] == []; }
  }

  lemma OneChar(c: byte)
    ensures Strip([c], false) == (if c != QUOTE && Blank(c) then [] else [c])
    ensures InsideAfter([c], false) == (c == QUOTE) && InsideAfter([c], true) == (c != QUOTE)
  {
    assert [c][1..] == [];
  }

  lemma {:induction false} DecimalUnquoted(n: nat)
    ensures Unquoted(Decimal(n))
    decreases n
  {
    if n >= 10 { DecimalUnquoted(n / 10); }
  }

  lemma NumberUnquoted(i: int)
    ensures Unquoted(SignedDecimal(i))
  {
    DecimalUnquoted(if i < 0 then -i else i);
  }

  lemma BlobHasNoQuote(bytes: seq<byte>)
    ensures QUOTE !in Base64.Encoded(bytes)
  {
    Base64.EncodedIsWellFormed(bytes);
    hide Base64.Encoded;
    var s := Base64.Encoded(bytes);
    forall p | 0 <= p < |s| ensures s[p] != QUOTE {
      assert p < |s| - Base64.Padding(s) ==> Base64.IsSymbol(s[p]);
    }
  }

  // --- Pieces ---

  function Stripped(ps: seq<Piece>): seq<byte> {
    if ps == [] then [] else Strip(Full(ps[0]), false) + Stripped(ps[1..])
  }

  /** Quotes come in pairs in every piece. */
  ghost predicate Paired(ps: seq<Piece>) {
    forall p | p in ps :: !InsideAfter(Full(p), false)
  }

  lemma {:induction false} StrippedBoth(a: seq<Piece>, b: seq<Piece>)
    ensures Stripped(a + b) == Stripped(a) + Stripped(b)
  {
    hide Strip, Full;
    if a == [] {
      assert a + b == b;
    } else {
      var x, y, z := Strip(Full(a[0]), false), Stripped(a[1..]), Stripped(b);
      assert Stripped(a + b) == x + (y + z) by {
        StrippedBoth(a[1..], b);
        StrippedOnce(a + b);
        assert (a + b)[1..] == a[1..] + b;
      }
      assert x + (y + z) == (x + y) + z;
    }
  }

  lemma StrippedOnce(ps: seq<Piece>)
    requires ps != []
    ensures Stripped(ps) == Strip(Full(ps[0]), false) + Stripped(ps[1..])
  {
  }

  /** Stripping the whole text strips it piece by piece. */
  lemma {:induction false} StripText(ps: seq<Piece>)
    requires Paired(ps)
    ensures Strip(Text(ps), false) == Stripped(ps)
  {
    if ps != [] {
      assert ps[0] in ps;
      StripText(ps[1..]);
      StripBoth(Full(ps[0]), Text(ps[1..]), false);
    }
  }

  /** What counts of the pieces: all of them, or in pretty printing all but the blanks. */
  function Seen(ps: seq<Piece>, pretty: bool): seq<byte> {
    if pretty then Stripped(ps) else Text(ps)
  }

  /** The pieces read as `text`. */
  ghost predicate Reads(ps: seq<Piece>, text: seq<byte>, pretty: bool) {
    Seen(ps, pretty) == text && (pretty ==> Paired(ps))
  }

  lemma ReadsNothing(pretty: bool)
    ensures Reads([], [], pretty)
  {
  }

  lemma ReadsBoth(a: seq<Piece>, x: seq<byte>, b: seq<Piece>, y: seq<byte>, pretty: bool)
    requires Reads(a, x, pretty) && Reads(b, y, pretty)
    ensures Reads(a + b, x + y, pretty)
  {
    hide Strip, InsideAfter, Full;
    StrippedBoth(a, b);
    TextOfBoth(a, b);
  }

  lemma ReadsThree(a: seq<Piece>, x: seq<byte>, b: seq<Piece>, y: seq<byte>, c: seq<Piece>, z: seq<byte>, pretty: bool)
    requires Reads(a, x, pretty) && Reads(b, y, pretty) && Reads(c, z, pretty)
    ensures Reads(a + b + c, x + y + z, pretty)
  {
    hide Reads;
    ReadsBoth(a, x, b, y, pretty);
    ReadsBoth(a + b, x + y, c, z, pretty);
  }

  /** Four in a row, of which the third is blank. */
  lemma ReadsAround(a: seq<Piece>, x: seq<byte>, b: seq<Piece>, y: seq<byte>, c: seq<Piece>, d: seq<Piece>,
                    z: seq<byte>, pretty: bool)
    requires Reads(a, x, pretty) && Reads(b, y, pretty) && Reads(c, [], pretty) && Reads(d, z, pretty)
    ensures Reads(a + b + c + d, x + y + z, pretty)
  {
    hide Reads;
    ReadsThree(a, x, b, y, c, [], pretty);
    ReadsBoth(a + b + c, x + y + [], d, z, pretty);
    assert x + y + [] + z == x + y + z;
  }

  /** A piece without blanks outside quotes. */
  lemma ReadsPiece(p: Piece, pretty: bool)
    requires pretty ==> Tight(Full(p))
    ensures Reads([p], Full(p), pretty)
  {
    assert [p][1..] == [];
    assert Full(p) + [] == Full(p);
    if pretty {
      StrippedOnce([p]);
      assert Stripped([p]) == Full(p) + Stripped([]);
      assert Paired([p]);
    } else {
      assert Text([p]) == Full(p) + Text([]);
    }
  }

  lemma ReadsBlanks(s: seq<byte>)
    requires forall c | c in s :: Blank(c)
    ensures Reads([Plain(s)], [], true)
  {
    BlanksVanish(s);
    StrippedOnce([Plain(s)]);
    assert [Plain(s)][1..] == [] && Stripped([]) == [];
  }

  lemma {:induction false} BlanksVanish(s: seq<byte>)
    requires forall c | c in s :: Blank(c)
    ensures Strip(s, false) == [] && !InsideAfter(s, false)
  {
    if s != [] {
      assert s[0] in s;
      BlanksVanish(s[1..]);
    }
  }

  predicate Visible(c: char) {
    c as int < 256 && c != '"' && c != ' ' && c != '\n'
  }

  lemma AsciiUnquoted(s: string)
    requires forall c | c in s :: Visible(c)
    ensures Unquoted(Ascii(s))
  {
    forall i | 0 <= i < |s| ensures Ascii(s)[i] != QUOTE && !Blank(Ascii(s)[i]) {
      assert s[i] in s;
      ByteOf(s[i]);
    }
  }

  lemma ByteOf(c: char)
    requires c as int < 256
    ensures ((c as int % 256) as byte) as int == c as int
  {
  }

  lemma LongerByOne(long: string, short: string, c: char)
    requires long == short + [c] && (c == ' ' || c == '\n')
    ensures Ascii(long) == Ascii(short) + [if c == ' ' then 32 else 10]
  {
    ByteOf(c);
    assert long[|short|] == c && forall i | 0 <= i < |short| :: long[i] == short[i];
    assert Ascii(long)[|short|] == if c == ' ' then 32 else 10;
    assert forall i | 0 <= i < |short| :: Ascii(long)[i] == Ascii(short)[i];
  }

  /** A literal and its form with one blank at the end. */
  lemma ReadsEither(long: string, short: string, c: char, pretty: bool)
    requires long == short + [c] && (c == ' ' || c == '\n') && forall x | x in short :: Visible(x)
    ensures Reads([Either(pretty, long, short)], Ascii(short), pretty)
  {
    var t, blank: byte := Ascii(short), if c == ' ' then 32 else 10;
    AsciiUnquoted(short);
    UnquotedIsTight(t);
    if pretty {
      LongerByOne(long, short, c);
      hide Ascii, Visible, Unquoted;
      StripBoth(t, [blank], false);
      OneChar(blank);
      hide Strip, InsideAfter;
      assert Strip(t + [blank], false) == t;
      assert [Lit(long)][1..] == [];
      assert Stripped([Lit(long)]) == t + [];
    } else {
      ReadsPiece(Lit(short), false);
    }
  }

  lemma ReadsLiteral(s: string, pretty: bool)
    requires forall c | c in s :: Visible(c)
    ensures Reads([Lit(s)], Ascii(s), pretty)
  {
    AsciiUnquoted(s);
    UnquotedIsTight(Ascii(s));
    ReadsPiece(Lit(s), pretty);
  }

  lemma {:induction false} ReadsTabs(n: nat)
    ensures Reads(Tabs(n), [], true)
  {
    hide Reads, Lit;
    if n == 0 {
      ReadsNothing(true);
    } else {
      ReadsTabs(n - 1);
      OneTab();
      ReadsBoth(Tabs(n - 1), [], [Lit("  ")], [], true);
      var none: seq<byte> := [];
      assert none + none == none;
    }
  }

  lemma OneTab()
    ensures Reads([Lit("  ")], [], true)
  {
    ByteOf(' ');
    ReadsBlanks(Ascii("  "));
  }

  lemma ReadsIndent(n: nat, pretty: bool)
    ensures Reads(Indent(pretty, n), [], pretty) && Reads(NewLine(pretty), [], pretty)
  {
    ReadsNothing(false);
    ReadsTabs(n);
    ByteOf('\n');
    ReadsBlanks(Ascii("\n"));
    hide Reads;
  }

  // --- Keys and arrays ---

  lemma ReadsKey(name: seq<byte>, iname: int, pretty: bool)
    requires pretty ==> QUOTE !in CString(name, NUL)
    ensures Reads(KeyPieces(name, iname, pretty), Key(name, iname), pretty)
  {
    hide Ascii, Reads;
    if |name| > 0 {
      ReadsColon(CString(name, NUL), pretty);
    } else if iname >= 0 {
      NumberUnquoted(iname);
      ReadsColon(SignedDecimal(iname), pretty);
    } else {
      ReadsNothing(pretty);
    }
  }

  lemma ReadsColon(name: seq<byte>, pretty: bool)
    requires pretty ==> QUOTE !in name
    ensures Reads([Plain([QUOTE] + name + Ascii(if pretty then "\" : " else "\":"))], [QUOTE] + name + Ascii("\":"),
        pretty)
  {
    if pretty {
      var key := [QUOTE] + name + [QUOTE];
      QuotedIsTight(name);
      ColonTexts();
      assert [QUOTE] + name + Ascii("\" : ") == key + [32, 58, 32] && [QUOTE] + name + Ascii("\":") == key + [58];
      StripBoth(key, [32, 58, 32], false);
      ColonStripped();
      hide Strip, InsideAfter, Ascii;
      var p := Plain(key + [32, 58, 32]);
      assert [p][1..] == [];
      assert Stripped([p]) == key + [58] + [];
    } else {
      ReadsPiece(Plain([QUOTE] + name + Ascii("\":")), false);
    }
  }

  lemma ColonStripped()
    ensures Strip([32, 58, 32], false) == Strip([58], false) == [58]
    ensures !InsideAfter([32, 58, 32], false) && !InsideAfter([58], false)
  {
    assert [32, 58, 32][1..] == [58, 32] && [58, 32][1..] == [32] && [32][1..] == [] && [58][1..] == [];
  }

  lemma ColonTexts()
    ensures Ascii("\" : ") == [QUOTE, 32, 58, 32] && Ascii("\":") == [QUOTE, 58]
  {
    ByteOf('"');
    ByteOf(' ');
    ByteOf(':');
  }

  lemma CommasFrom(items: seq<seq<byte>>, n: nat)
    requires n < |items|
    ensures Commas(items[n..]) == items[n] + if n + 1 < |items| then [COMMA] + Commas(items[n + 1..]) else []
  {
    assert items[n..][1..] == items[n + 1..];
    assert n + 1 == |items| ==> items[n] + [] == items[n];
  }

  lemma Reassociate(a: seq<byte>, b: seq<byte>, c: seq<byte>, d: seq<byte>)
    ensures a + b + c + d == a + (b + (c + d))
  {
  }

  /** The items printed so far, with the comma after them, and the rest. */
  lemma {:induction false} RowReads(items: seq<seq<byte>>, n: nat, pretty: bool) returns (text: seq<byte>)
    requires n <= |items| && (pretty ==> forall x | x in items :: Unquoted(x))
    ensures Reads(RowPieces(items, n, pretty), text, pretty) && text + Commas(items[n..]) == Commas(items)
  {
    hide Reads, Either, Commas;
    if n == 0 {
      ReadsNothing(pretty);
      text := [];
      assert items[0..] == items && [] + Commas(items) == Commas(items);
    } else {
      var item := items[n - 1];
      var before := RowReads(items, n - 1, pretty);
      if pretty { UnquotedIsTight(item); }
      ReadsPiece(Plain(item), pretty);
      CommaOrNothing(", ", ' ', n < |items|, pretty);
      var comma := if n < |items| then [COMMA] else [];
      ReadsThree(RowPieces(items, n - 1, pretty), before, [Plain(item)], item,
          if n < |items| then [Either(pretty, ", ", ",")] else [], comma, pretty);
      text := before + item + comma;
      CommasFrom(items, n - 1);
      NoCommas();
      Reassociate(before, item, comma, Commas(items[n..]));
      assert n == |items| ==> items[n..] == [];
    }
  }

  lemma NoCommas()
    ensures Commas([]) == []
  {
  }

  lemma CommaOrNothing(long: string, c: char, more: bool, pretty: bool)
    requires long == "," + [c] && (c == ' ' || c == '\n')
    ensures Reads(if more then [Either(pretty, long, ",")] else [], if more then [COMMA] else [], pretty)
  {
    ReadsNothing(pretty);
    ReadsEither(long, ",", c, pretty);
    CommaByte();
  }

  lemma WholeRowReads(items: seq<seq<byte>>, pretty: bool)
    requires pretty ==> forall x | x in items :: Unquoted(x)
    ensures Reads(Row(items, pretty), Brackets(items), pretty)
  {
    hide Reads, RowPieces, Commas;
    var text := RowReads(items, |items|, pretty);
    NoCommas();
    assert items[|items|..] == [] && text + [] == text;
    ReadsLiteral("[", pretty);
    ReadsLiteral("]", pretty);
    ReadsThree([Lit("[")], Ascii("["), RowPieces(items, |items|, pretty), text, [Lit("]")], Ascii("]"), pretty);
  }

  /** In a column every item is a piece of its own; `texts` are their texts. */
  lemma {:induction false} ColumnReads(items: seq<Piece>, texts: seq<seq<byte>>, n: nat, depth: nat, pretty: bool)
    returns (text: seq<byte>)
    requires n <= |items| == |texts| && forall i | 0 <= i < |items| ::
        Full(items[i]) == texts[i] && (pretty ==> Tight(texts[i]))
    ensures Reads(ColumnPieces(items, n, depth, pretty), text, pretty) && text + Commas(texts[n..]) == Commas(texts)
  {
    hide Reads, Either, Commas, Indent, NewLine, Tight, Full;
    if n == 0 {
      ReadsNothing(pretty);
      text := [];
      assert texts[0..] == texts && [] + Commas(texts) == Commas(texts);
    } else {
      var item, last, more := items[n - 1], texts[n - 1], n < |items|;
      var before := ColumnReads(items, texts, n - 1, depth, pretty);
      ReadsPiece(item, pretty);
      CommaOrNothing(",\n", '\n', more, pretty);
      ReadsIndent(depth + 2, pretty);
      var comma := if more then [COMMA] else [];
      ReadsThree(ColumnPieces(items, n - 1, depth, pretty), before, Indent(pretty, depth + 2), [], [item], last,
          pretty);
      ReadsBoth(ColumnPieces(items, n - 1, depth, pretty) + Indent(pretty, depth + 2) + [item], before + [] + last,
                if more then [Either(pretty, ",\n", ",")] else NewLine(pretty), comma, pretty);
      text := before + [] + last + comma;
      assert before + [] == before;
      CommasFrom(texts, n - 1);
      NoCommas();
      Reassociate(before, last, comma, Commas(texts[n..]));
      assert n == |items| ==> texts[n..] == [];
    }
  }

  lemma WholeColumnReads(items: seq<Piece>, texts: seq<seq<byte>>, depth: nat, pretty: bool)
    requires |items| == |texts| && forall i | 0 <= i < |items| ::
        Full(items[i]) == texts[i] && (pretty ==> Tight(texts[i]))
    ensures Reads(Column(items, depth, pretty), Brackets(texts), pretty)
  {
    hide Reads, ColumnPieces, Commas, Indent, Either, Tight, Full;
    var text := ColumnReads(items, texts, |items|, depth, pretty);
    NoCommas();
    assert texts[|items|..] == [] && text + [] == text;
    ReadsEither("[\n", "[", '\n', pretty);
    ReadsIndent(depth + 1, pretty);
    ReadsLiteral("]", pretty);
    ReadsAround([Either(pretty, "[\n", "[")], Ascii("["), ColumnPieces(items, |items|, depth, pretty), text,
        Indent(pretty, depth + 1),
                [Lit("]")], Ascii("]"), pretty);
  }

  // --- Representations ---

  /** Floating point numbers are printed without blanks and quotes. */
  ghost predicate PlainNumbers(fmt: FloatFormat) {
    forall f :: Unquoted(fmt(f))
  }

  function NumberTexts(fs: seq<real>, fmt: FloatFormat): seq<seq<byte>> {
    seq(|fs|, i requires 0 <= i < |fs| => fmt(fs[i]))
  }

  lemma NumbersUnquoted(fs: seq<real>, fmt: FloatFormat)
    requires PlainNumbers(fmt)
    ensures forall x | x in NumberTexts(fs, fmt) :: Unquoted(x)
  {
    hide Unquoted;
    var items := NumberTexts(fs, fmt);
    forall x | x in items ensures Unquoted(x) {
      var i :| 0 <= i < |items| && items[i] == x;
      var f := fs[i];
      assert items[i] == fmt(f) && Unquoted(fmt(f));
    }
  }

  lemma ReadsWord(s: seq<byte>, pretty: bool)
    requires pretty ==> Unquoted(s)
    ensures Reads([Plain(s)], s, pretty)
  {
    if pretty { UnquotedIsTight(s); }
    ReadsPiece(Plain(s), pretty);
  }

  lemma BoolUnquoted(b: bool)
    ensures Unquoted(BoolText(b))
  {
    AsciiUnquoted("true");
    AsciiUnquoted("false");
  }

  lemma ScalarReads(v: Value, depth: nat, pretty: bool, fmt: FloatFormat)
    requires pretty ==> ValueLacks(v, QUOTE) && PlainNumbers(fmt)
    requires v.Null? || v.Int? || v.Float? || v.Double? || v.Bool? || v.Blob? || v.Str? || v.Array?
    ensures Reads(ValuePieces(v, depth, pretty, fmt), ValueText(v, fmt), pretty)
  {
    hide Reads, Row, Column, Tight, Unquoted, CString, Brackets;
    match v
    case Null => ReadsLiteral("null", pretty);
    case Int(i) =>
      NumberUnquoted(i);
      ReadsWord(SignedDecimal(i), pretty);
    case Float(f) => ReadsWord(fmt(f), pretty);
    case Double(d) => ReadsWord(fmt(d), pretty);
    case Bool(b) =>
      BoolUnquoted(b);
      ReadsWord(BoolText(b), pretty);
    case Blob(bytes) =>
      BlobTight(bytes);
      ReadsPiece(BlobPiece(bytes), pretty);
    case Str(s) =>
      if pretty { QuotedIsTight(CString(s, NUL)); }
      ReadsPiece(StrPiece(s), pretty);
    case Array => ReadsNothing(pretty);
  }

  lemma RowValueReads(v: Value, depth: nat, pretty: bool, fmt: FloatFormat)
    requires pretty ==> PlainNumbers(fmt)
    requires v.IntArray? || v.FloatArray? || v.DoubleArray? || v.BoolArray?
    ensures Reads(ValuePieces(v, depth, pretty, fmt), ValueText(v, fmt), pretty)
  {
    hide Reads, Row, Unquoted, Brackets, PlainNumbers;
    match v
    case IntArray(ints) =>
      forall i | 0 <= i < |ints| ensures Unquoted(SignedDecimal(ints[i])) { NumberUnquoted(ints[i]); }
      WholeRowReads(seq(|ints|, i requires 0 <= i < |ints| => SignedDecimal(ints[i])), pretty);
    case FloatArray(fs) =>
      if pretty { NumbersUnquoted(fs, fmt); }
      WholeRowReads(NumberTexts(fs, fmt), pretty);
    case DoubleArray(ds) =>
      if pretty { NumbersUnquoted(ds, fmt); }
      WholeRowReads(NumberTexts(ds, fmt), pretty);
    case BoolArray(bs) =>
      BoolUnquoted(true);
      BoolUnquoted(false);
      WholeRowReads(seq(|bs|, i requires 0 <= i < |bs| => BoolText(bs[i])), pretty);
  }

  lemma BlobArrayReads(bs: seq<seq<byte>>, depth: nat, pretty: bool, fmt: FloatFormat)
    ensures Reads(ValuePieces(BlobArray(bs), depth, pretty, fmt), ValueText(BlobArray(bs), fmt), pretty)
  {
    hide Reads, Column, Tight, Brackets, Base64.Encoded;
    forall i | 0 <= i < |bs| ensures Tight(Quotes(Base64.Encoded(bs[i]))) { BlobTight(bs[i]); }
    WholeColumnReads(seq(|bs|, i requires 0 <= i < |bs| => BlobPiece(bs[i])),
                     seq(|bs|, i requires 0 <= i < |bs| => Quotes(Base64.Encoded(bs[i]))), depth, pretty);
  }

  lemma StrArrayReads(ss: seq<seq<byte>>, depth: nat, pretty: bool, fmt: FloatFormat)
    requires pretty ==> ValueLacks(StrArray(ss), QUOTE)
    ensures Reads(ValuePieces(StrArray(ss), depth, pretty, fmt), ValueText(StrArray(ss), fmt), pretty)
  {
    hide Reads, Column, Tight, CString, Brackets;
    if pretty {
      forall i | 0 <= i < |ss| ensures Tight(Quotes(CString(ss[i], NUL))) {
        assert ss[i] in ss;
        QuotedIsTight(CString(ss[i], NUL));
      }
    }
    WholeColumnReads(seq(|ss|, i requires 0 <= i < |ss| => StrPiece(ss[i])),
                     seq(|ss|, i requires 0 <= i < |ss| => Quotes(CString(ss[i], NUL))), depth, pretty);
  }

  lemma BlobTight(bytes: seq<byte>)
    ensures Tight(Quotes(Base64.Encoded(bytes)))
  {
    hide Tight;
    BlobHasNoQuote(bytes);
    QuotedIsTight(Base64.Encoded(bytes));
  }

  lemma {:induction false} ValueReads(v: Value, depth: nat, pretty: bool, fmt: FloatFormat)
    requires pretty ==> ValueLacks(v, QUOTE) && PlainNumbers(fmt)
    ensures Reads(ValuePieces(v, depth, pretty, fmt), ValueText(v, fmt), pretty)
    decreases v, 0
  {
    hide Reads, Either, Indent, NewLine, PlainNumbers, Commas, Ascii;
    ReadsNothing(pretty);
    ReadsIndent(depth + 1, pretty);
    ReadsIndent(depth + 2, pretty);
    match v
    case Object(members) =>
      RepReads(members, depth + 1, pretty, fmt);
      ReadsEither("{\n", "{", '\n', pretty);
      ReadsLiteral("}", pretty);
      ReadsAround([Either(pretty, "{\n", "{")], Ascii("{"), Pieces(members, depth + 1, pretty, fmt),
          Commas(MemberTexts(members, fmt)),
                  Indent(pretty, depth + 1), [Lit("}")], Ascii("}"), pretty);
    case MixedArray(elements) =>
      RepReads(elements, depth + 2, pretty, fmt);
      var line := NewLine(pretty && elements != End);
      BlankLine(pretty, elements != End);
      Opened(line, pretty);
      ReadsLiteral("]", pretty);
      ReadsAround([Lit("[")] + line, Ascii("["), Pieces(elements, depth + 2, pretty, fmt),
          Commas(MemberTexts(elements, fmt)),
                  Indent(pretty, depth + 2), [Lit("]")], Ascii("]"), pretty);
    case ObjectArray(objects) =>
      var text := ObjectsRead(objects, depth, pretty, fmt);
      Opened(NewLine(pretty), pretty);
      ReadsLiteral("}]", pretty);
      ReadsAround([Lit("[")] + NewLine(pretty), Ascii("["), ObjectsPieces(objects, depth, pretty, fmt), text,
                  Indent(pretty, depth + 2), [Lit("}]")], Ascii("}]"), pretty);
      TwoBrackets();
      assert Ascii("[") + text + (Ascii("}") + Ascii("]")) == Ascii("[") + (text + Ascii("}")) + Ascii("]");
    case IntArray(_) => RowValueReads(v, depth, pretty, fmt);
    case FloatArray(_) => RowValueReads(v, depth, pretty, fmt);
    case DoubleArray(_) => RowValueReads(v, depth, pretty, fmt);
    case BoolArray(_) => RowValueReads(v, depth, pretty, fmt);
    case BlobArray(bs) => BlobArrayReads(bs, depth, pretty, fmt);
    case StrArray(ss) => StrArrayReads(ss, depth, pretty, fmt);
    case _ => ScalarReads(v, depth, pretty, fmt);
  }

  lemma BlankLine(pretty: bool, more: bool)
    ensures Reads(NewLine(pretty && more), [], pretty)
  {
    ReadsNothing(pretty);
    ReadsIndent(0, pretty);
    hide Reads;
  }

  lemma Opened(line: seq<Piece>, pretty: bool)
    requires Reads(line, [], pretty)
    ensures Reads([Lit("[")] + line, Ascii("["), pretty)
  {
    hide Reads, Ascii;
    ReadsLiteral("[", pretty);
    ReadsBoth([Lit("[")], Ascii("["), line, [], pretty);
    assert Ascii("[") + [] == Ascii("[");
  }

  lemma AsciiBoth(s: string, t: string)
    ensures Ascii(s + t) == Ascii(s) + Ascii(t)
  {
  }

  lemma CommaByte()
    ensures Ascii(",") == [COMMA]
  {
    ByteOf(',');
    assert |Ascii(",")| == 1 && Ascii(",")[0] as int == 44;
  }

  lemma TwoBrackets()
    ensures Ascii("}]") == Ascii("}") + Ascii("]") && Ascii("},") == Ascii("}") + [COMMA]
  {
    AsciiBoth("}", "]");
    AsciiBoth("}", ",");
    assert "}" + "]" == "}]" && "}" + "," == "},";
    hide Ascii;
    CommaByte();
  }

  lemma OneItem(item: seq<byte>)
    ensures Commas([item] + []) == item
  {
  }

  lemma MoreItems(item: seq<byte>, items: seq<seq<byte>>)
    requires items != []
    ensures Commas([item] + items) == item + [COMMA] + Commas(items)
  {
    assert ([item] + items)[1..] == items;
  }

  /** The last closing brace is left to the caller. */
  lemma {:induction false} ObjectsRead(os: Objects, depth: nat, pretty: bool, fmt: FloatFormat)
    returns (text: seq<byte>)
    requires pretty ==> ObjectsLack(os, QUOTE) && PlainNumbers(fmt)
    ensures Reads(ObjectsPieces(os, depth, pretty, fmt), text, pretty)
        && text + Ascii("}") == Commas(ObjectTexts(os, fmt))
    decreases os, 0
  {
    hide Reads, Either, Indent, PlainNumbers, Commas, Ascii, MemberTexts, Pieces;
    ReadsIndent(depth + 2, pretty);
    ReadsEither("{\n", "{", '\n', pretty);
    RepReads(os.item, depth + 2, pretty, fmt);
    var tabs, open, members := Indent(pretty, depth + 2), [Either(pretty, "{\n", "{")],
        Pieces(os.item, depth + 2, pretty, fmt);
    var one := Ascii("{") + Commas(MemberTexts(os.item, fmt));
    ReadsThree(tabs, [], open, Ascii("{"), members, Commas(MemberTexts(os.item, fmt)), pretty);
    assert [] + Ascii("{") + Commas(MemberTexts(os.item, fmt)) == one;
    if os.Last? {
      text := one;
      OneItem(one + Ascii("}"));
    } else {
      var later := ObjectsRead(os.rest, depth, pretty, fmt);
      ReadsEither("},\n", "},", '\n', pretty);
      ReadsThree(tabs + open + members, one, tabs, [], [Either(pretty, "},\n", "},")], Ascii("},"), pretty);
      ReadsBoth(tabs + open + members + tabs + [Either(pretty, "},\n", "},")], one + [] + Ascii("},"),
                ObjectsPieces(os.rest, depth, pretty, fmt), later, pretty);
      text := one + [] + Ascii("},") + later;
      TwoBrackets();
      MoreItems(one + Ascii("}"), ObjectTexts(os.rest, fmt));
      assert one + [] + (Ascii("}") + [COMMA]) + later + Ascii("}")
          == one + Ascii("}") + [COMMA] + (later + Ascii("}"));
    }
  }

  lemma {:induction false} RepReads(rep: Rep, depth: nat, pretty: bool, fmt: FloatFormat)
    requires pretty ==> Lacks(rep, QUOTE) && PlainNumbers(fmt)
    ensures Reads(Pieces(rep, depth, pretty, fmt), Commas(MemberTexts(rep, fmt)), pretty)
    decreases rep, 1
  {
    hide Reads, PlainNumbers, MemberPieces, Key, ValueText, Commas;
    if rep == End {
      ReadsNothing(pretty);
      NoCommas();
    } else {
      var text, texts := Key(rep.name, rep.iname) + ValueText(rep.value, fmt), MemberTexts(rep.next, fmt);
      var comma := if rep.next == End then [] else [COMMA];
      MemberReads(rep, depth, pretty, fmt);
      RepReads(rep.next, depth, pretty, fmt);
      ReadsBoth(MemberPieces(rep, depth, pretty, fmt), text + comma, Pieces(rep.next, depth, pretty, fmt),
          Commas(texts), pretty);
      if rep.next == End {
        OneItem(text);
        NoCommas();
        assert text + [] + [] == text;
      } else {
        MoreItems(text, texts);
      }
    }
  }

  lemma {:induction false} MemberReads(rep: Rep, depth: nat, pretty: bool, fmt: FloatFormat)
    requires rep.Member? && (pretty ==> Lacks(rep, QUOTE) && PlainNumbers(fmt))
    ensures Reads(MemberPieces(rep, depth, pretty, fmt),
                  Key(rep.name, rep.iname) + ValueText(rep.value, fmt) +
                  if rep.next == End then [] else [COMMA], pretty)
    decreases rep, 0
  {
    hide Reads, Indent, NewLine, KeyPieces, ValuePieces, PlainNumbers, Key, ValueText, CString;
    ReadsNothing(pretty);
    ReadsLiteral(",", pretty);
    ReadsIndent(depth + 1, pretty);
    ReadsKey(rep.name, rep.iname, pretty);
    ValueReads(rep.value, depth, pretty, fmt);
    CommaByte();
    var tabs, key, value := Indent(pretty, depth + 1), KeyPieces(rep.name, rep.iname, pretty),
        ValuePieces(rep.value, depth, pretty, fmt);
    var x, y, z := Key(rep.name, rep.iname), ValueText(rep.value, fmt), if rep.next == End then [] else [COMMA];
    var comma := if rep.next == End then [] else [Lit(",")];
    ReadsThree(tabs, [], key, x, value, y, pretty);
    ReadsThree(tabs + key + value, [] + x + y, comma, z, NewLine(pretty), [], pretty);
    assert [] + x + y + z + [] == x + y + z;
  }

  lemma {:induction false} DocumentReads(rep: Rep, pretty: bool, fmt: FloatFormat)
    requires pretty ==> Lacks(rep, QUOTE) && PlainNumbers(fmt)
    ensures Reads(Document(rep, pretty, fmt), DocumentText(rep, fmt), pretty)
  {
    hide Reads, Either, Pieces, PlainNumbers, Lacks, Commas, Ascii, MemberTexts;
    RepReads(rep, 0, pretty, fmt);
    var a, x := Pieces(rep, 0, pretty, fmt), Commas(MemberTexts(rep, fmt));
    ReadsEither("[\n", "[", '\n', pretty);
    ReadsEither("]\n", "]", '\n', pretty);
    ReadsEither("{\n", "{", '\n', pretty);
    ReadsEither("}\n", "}", '\n', pretty);
    if IsTopArray(rep) {
      ReadsThree([Either(pretty, "[\n", "[")], Ascii("["), a, x, [Either(pretty, "]\n", "]")], Ascii("]"), pretty);
    } else {
      ReadsThree([Either(pretty, "{\n", "{")], Ascii("{"), a, x, [Either(pretty, "}\n", "}")], Ascii("}"), pretty);
    }
  }

  /** For every representation the compact text is its members between brackets, separated by commas. */
  lemma CompactReads(rep: Rep, fmt: FloatFormat)
    ensures Text(Document(rep, false, fmt)) == DocumentText(rep, fmt)
  {
    hide Document, DocumentText, Text;
    DocumentReads(rep, false, fmt);
  }

  /**
   For every representation without quotes in its names and strings, the pretty text without its
   blanks outside of strings is the compact text.
   */
  lemma PrettyAddsOnlyBlanks(rep: Rep, fmt: FloatFormat)
    requires Lacks(rep, QUOTE) && PlainNumbers(fmt)
    ensures Strip(Text(Document(rep, true, fmt)), false) == Text(Document(rep, false, fmt))
  {
    hide Document, DocumentText, Text, Strip, Lacks, PlainNumbers;
    DocumentReads(rep, true, fmt);
    StripText(Document(rep, true, fmt));
    CompactReads(rep, fmt);
  }
}
