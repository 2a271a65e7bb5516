/**
 The texts of `oc_rep_to_json`: what is printed for a representation, cut into the pieces
 that the writer handles one at a time, and what a piece leaves in a buffer too small for it.
 */
module JsonText {
  import opened CStrings
  import opened Octets
  import Base64

  // ----- representations

  /** `oc_rep_t`: a list of members; `iname` is the integer key, negative for an array element. */
  datatype Rep = End | Member(name: seq<byte>, iname: int, value: Value, next: Rep)

  datatype Value =
    | Null
    | Int(i: int)
    | Float(f: real)
    | Double(d: real)
    | Bool(b: bool)
    | Blob(bytes: seq<byte>)
    | Str(s: seq<byte>)
    | Object(members: Rep)
    | IntArray(ints: seq<int>)
    | FloatArray(floats: seq<real>)
    | DoubleArray(doubles: seq<real>)
    | BoolArray(bools: seq<bool>)
    | BlobArray(blobs: seq<seq<byte>>)
    | StrArray(strs: seq<seq<byte>>)
    | ObjectArray(objects: Objects)
    | MixedArray(elements: Rep)
    | Array

  /** The items of an object array, of which there is always one. */
  datatype Objects = Last(item: Rep) | More(item: Rep, rest: Objects)

  /** No name and no string holds the byte. */
  ghost predicate Lacks(rep: Rep, b: byte) {
    rep == End || (b !in CString(rep.name, NUL) && ValueLacks(rep.value, b) && Lacks(rep.next, b))
  }

  ghost predicate ValueLacks(v: Value, b: byte) {
    match v
    case Str(s) => b !in CString(s, NUL)
    case StrArray(ss) => forall s | s in ss :: b !in CString(s, NUL)
    case Object(members) => Lacks(members, b)
    case MixedArray(elements) => Lacks(elements, b)
    case ObjectArray(objects) => ObjectsLack(objects, b)
    case _ => true
  }

  ghost predicate ObjectsLack(os: Objects, b: byte) {
    Lacks(os.item, b) && (os.More? ==> ObjectsLack(os.rest, b))
  }

  /** What `%f` prints. */
  type FloatFormat = real -> seq<byte>

  // ----- pieces

  /**
   One printed piece: text that is cut where the buffer ends, or base64 between quotes, written whole or not
   at all.
   */
  datatype Piece = Plain(text: seq<byte>) | Quoted(base64: seq<byte>)

  function Full(p: Piece): seq<byte> {
    match p
    case Plain(text) => text
    case Quoted(base64) => [QUOTE] + base64 + [QUOTE]
  }

  function Text(ps: seq<Piece>): seq<byte> {
    if ps == [] then [] else Full(ps[0]) + Text(ps[1..])
  }

  lemma TextOfOne(p: Piece)
    ensures Text([p]) == Full(p)
  {
    assert [p][1..] == [] && Full(p) + [] == Full(p);
  }

  lemma {:induction false} TextOfBoth(a: seq<Piece>, b: seq<Piece>)
    ensures Text(a + b) == Text(a) + Text(b)
  {
    hide Full;
    if a == [] {
      assert a + b == b;
    } else {
      var x, y, z := Full(a[0]), Text(a[1..]), Text(b);
      assert Text(a + b) == x + (y + z) by {
        TextOfBoth(a[1..], b);
        assert (a + b)[1..] == a[1..] + b;
      }
      assert x + (y + z) == (x + y) + z;
    }
  }

  function Lit(s: string): Piece {
    Plain(Ascii(s))
  }

  function Either(pretty: bool, long: string, short: string): Piece {
    if pretty then Lit(long) else Lit(short)
  }

  function Tabs(n: nat): seq<Piece> {
    if n == 0 then [] else Tabs(n - 1) + [Lit("  ")]
  }

  function Indent(pretty: bool, n: nat): seq<Piece> {
    if pretty then Tabs(n) else []
  }

  function NewLine(pretty: bool): seq<Piece> {
    if pretty then [Lit("\n")] else []
  }

  /** The key of a member: its name, or else its integer key unless that is negative. */
  function KeyPieces(name: seq<byte>, iname: int, pretty: bool): seq<Piece> {
    var colon := Ascii(if pretty then "\" : " else "\":");
    if |name| > 0 then [Plain([QUOTE] + CString(name, NUL) + colon)]
    else if iname >= 0 then [Plain([QUOTE] + SignedDecimal(iname) + colon)]
    else []
  }

  function BoolText(b: bool): seq<byte> {
    Ascii(if b then "true" else "false")
  }

  /** The first n items of a one-line array. */
  function RowPieces(items: seq<seq<byte>>, n: nat, pretty: bool): seq<Piece>
    requires n <= |items|
  {
    if n == 0 then []
    else
      RowPieces(items, n - 1, pretty) + [Plain(items[n - 1])] +
      if n < |items| then [Either(pretty, ", ", ",")] else []
  }

  function StrPiece(s: seq<byte>): Piece {
    Plain([QUOTE] + CString(s, NUL) + [QUOTE])
  }

  function BlobPiece(bytes: seq<byte>): Piece {
    Quoted(Base64.Encoded(bytes))
  }

  /** The first n items of an array with one item a line. */
  function ColumnPieces(items: seq<Piece>, n: nat, depth: nat, pretty: bool): seq<Piece>
    requires n <= |items|
  {
    if n == 0 then []
    else
      ColumnPieces(items, n - 1, depth, pretty) + Indent(pretty, depth + 2) + [items[n - 1]] +
      if n < |items| then [Either(pretty, ",\n", ",")] else NewLine(pretty)
  }

  function Row(items: seq<seq<byte>>, pretty: bool): seq<Piece> {
    [Lit("[")] + RowPieces(items, |items|, pretty) + [Lit("]")]
  }

  function Column(items: seq<Piece>, depth: nat, pretty: bool): seq<Piece> {
    [Either(pretty, "[\n", "[")] + ColumnPieces(items, |items|, depth, pretty) + Indent(pretty, depth + 1) + [Lit("]")]
  }

  function ValuePieces(v: Value, depth: nat, pretty: bool, fmt: FloatFormat): seq<Piece> {
    match v
    case Null => [Lit("null")]
    case Int(i) => [Plain(SignedDecimal(i))]
    case Float(f) => [Plain(fmt(f))]
    case Double(d) => [Plain(fmt(d))]
    case Bool(b) => [Plain(BoolText(b))]
    case Blob(bytes) => [BlobPiece(bytes)]
    case Str(s) => [StrPiece(s)]
    case Object(members) =>
      [Either(pretty, "{\n", "{")] + Pieces(members, depth + 1, pretty, fmt) + Indent(pretty, depth + 1) + [Lit("}")]
    case IntArray(ints) => Row(seq(|ints|, i requires 0 <= i < |ints| => SignedDecimal(ints[i])), pretty)
    case FloatArray(fs) => Row(seq(|fs|, i requires 0 <= i < |fs| => fmt(fs[i])), pretty)
    case DoubleArray(ds) => Row(seq(|ds|, i requires 0 <= i < |ds| => fmt(ds[i])), pretty)
    case BoolArray(bs) => Row(seq(|bs|, i requires 0 <= i < |bs| => BoolText(bs[i])), pretty)
    case BlobArray(bs) => Column(seq(|bs|, i requires 0 <= i < |bs| => BlobPiece(bs[i])), depth, pretty)
    case StrArray(ss) => Column(seq(|ss|, i requires 0 <= i < |ss| => StrPiece(ss[i])), depth, pretty)
    case ObjectArray(objects) =>
      [Lit("[")] + NewLine(pretty) + ObjectsPieces(objects, depth, pretty, fmt) + Indent(pretty, depth + 2)
          + [Lit("}]")]
    case MixedArray(elements) =>
      [Lit("[")] + NewLine(pretty && elements != End) + Pieces(elements, depth + 2, pretty, fmt) +
      Indent(pretty, depth + 2) + [Lit("]")]
    case Array => []
  }

  function ObjectsPieces(os: Objects, depth: nat, pretty: bool, fmt: FloatFormat): seq<Piece> {
    var one := Indent(pretty, depth + 2) + [Either(pretty, "{\n", "{")] + Pieces(os.item, depth + 2, pretty, fmt);
    match os
    case Last(_) => one
    case More(_, rest) =>
      one + Indent(pretty, depth + 2) + [Either(pretty, "},\n", "},")] + ObjectsPieces(rest, depth, pretty, fmt)
  }

  /** One member, with what separates it from the next. */
  function MemberPieces(rep: Rep, depth: nat, pretty: bool, fmt: FloatFormat): seq<Piece>
    requires rep.Member?
    decreases rep, 0
  {
    Indent(pretty, depth + 1) + KeyPieces(rep.name, rep.iname, pretty) + ValuePieces(rep.value, depth, pretty, fmt) +
    (if rep.next == End then [] else [Lit(",")]) + NewLine(pretty)
  }

  function Pieces(rep: Rep, depth: nat, pretty: bool, fmt: FloatFormat): seq<Piece>
    decreases rep, 1
  {
    if rep == End then [] else MemberPieces(rep, depth, pretty, fmt) + Pieces(rep.next, depth, pretty, fmt)
  }

  predicate IsTopArray(rep: Rep) {
    rep.Member? && rep.value.Object? && |rep.name| == 0
  }

  /** The whole document. */
  function Document(rep: Rep, pretty: bool, fmt: FloatFormat): seq<Piece> {
    (if IsTopArray(rep) then [Either(pretty, "[\n", "[")] else [Either(pretty, "{\n", "{")]) +
    Pieces(rep, 0, pretty, fmt) +
    (if IsTopArray(rep) then [Either(pretty, "]\n", "]")] else [Either(pretty, "}\n", "}")])
  }
}
