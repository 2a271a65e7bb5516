/**
 When the text of `oc_rep_to_json` is JSON: the automaton of RFC 8259 is run over the pieces that
 are printed, in the compact and in the pretty style. It accepts exactly the representations whose
 members have keys in objects and none in arrays, and a value each.
 */
module JsonValidity {
  import opened CStrings
  import opened JsonGrammar
  import opened JsonText
  import opened Octets
  import Base64
  import JsonReference

  // ----- the representations that are JSON

  predicate Keyed(rep: Rep)
    requires rep.Member?
  {
    |rep.name| > 0 || rep.iname >= 0
  }

  /** A single element without key and value prints nothing at all. */
  predicate Lone(rep: Rep) {
    rep.Member? && !Keyed(rep) && rep.value.Array? && rep.next == End
  }

  /** A key in an object and none in an array, and a value. */
  predicate GoodMember(rep: Rep, keys: bool)
    requires rep.Member?
    decreases rep, 0
  {
    Keyed(rep) == keys && NoControl(CString(rep.name, NUL)) && HasValue(rep.value)
  }

  predicate Framed(rep: Rep, keys: bool)
    decreases rep, 1
  {
    rep == End || (GoodMember(rep, keys) && Framed(rep.next, keys))
  }

  predicate Framable(rep: Rep, keys: bool)
    decreases rep, 2
  {
    Lone(rep) || Framed(rep, keys)
  }

  /** A value that is printed, with well-formed values in it and no control characters. */
  predicate HasValue(v: Value) {
    match v
    case Array => false
    case Str(s) => NoControl(CString(s, NUL))
    case StrArray(ss) => forall s | s in ss :: NoControl(CString(s, NUL))
    case Object(members) => Framable(members, true)
    case MixedArray(elements) => Framable(elements, false)
    case ObjectArray(objects) => AllFramable(objects)
    case _ => true
  }

  predicate AllFramable(os: Objects) {
    Framable(os.item, true) && (os.More? ==> AllFramable(os.rest))
  }

  /** Nothing in names and strings would end or escape a JSON string: the writer prints them as they are. */
  ghost predicate Verbatim(rep: Rep) {
    Lacks(rep, QUOTE) && Lacks(rep, BACKSLASH)
  }

  ghost predicate VerbatimValue(v: Value) {
    ValueLacks(v, QUOTE) && ValueLacks(v, BACKSLASH)
  }

  ghost predicate VerbatimObjects(os: Objects) {
    ObjectsLack(os, QUOTE) && ObjectsLack(os, BACKSLASH)
  }

  ghost predicate FixedPoints(fmt: FloatFormat) {
    forall f :: IsFixedPoint(fmt(f))
  }

  // ----- running over pieces

  function Go(st: State, ps: seq<Piece>): State {
    Settle(Run(st, Text(ps)))
  }

  /** Text that ends a number in front of it. */
  predicate Loose(ps: seq<Piece>) {
    Text(ps) != [] ==>
      IsSpace(Text(ps)[0]) || Text(ps)[0] == COMMA || Text(ps)[0] == CLOSE_SQUARE || Text(ps)[0] == CLOSE_CURLY
  }

  lemma GoBoth(st: State, a: seq<Piece>, b: seq<Piece>)
    requires Loose(b) || Go(st, a) == Failed || !Go(st, a).mode.HaveValue?
    ensures Go(st, a + b) == Go(Go(st, a), b)
  {
    TextOfBoth(a, b);
    RunBoth(st, Text(a), Text(b));
    hide Text, Step, Run;
    if Loose(b) { SettledRun(Run(st, Text(a)), Text(b)); }
  }

  lemma GoNone(st: State)
    requires Calm(st)
    ensures Go(st, []) == st
  {
    RunNone(st);
    hide Run;
  }

  lemma GoPiece(st: State, p: Piece)
    ensures Go(st, [p]) == Settle(Run(st, Full(p)))
  {
    TextOfOne(p);
  }

  lemma GoFailed(ps: seq<Piece>)
    ensures Go(Failed, ps) == Failed
  {
    RunFailed(Text(ps));
    hide Run;
  }

  /** Text that starts with a byte on which the automaton fails. */
  lemma GoWrong(st: State, ps: seq<Piece>)
    requires Text(ps) != [] && Step(st, Text(ps)[0]) == Failed
    ensures Go(st, ps) == Failed
  {
    var s := Text(ps);
    RunFirst(st, s[0], s[1..]);
    RunFailed(s[1..]);
    assert s == [s[0]] + s[1..];
    hide Run, Step, Text;
  }

  predicate Spaces(ps: seq<Piece>) {
    forall c | c in Text(ps) :: IsSpace(c)
  }

  lemma GoSpaces(st: State, ps: seq<Piece>)
    requires Spaces(ps) && Calm(st)
    ensures Go(st, ps) == st && Loose(ps)
  {
    SpacesRun(st, Text(ps));
    hide Run;
    assert Text(ps) != [] ==> Text(ps)[0] in Text(ps);
  }

  lemma SameByte(a: byte, b: byte)
    requires a as int == b as int
    ensures a == b
  {
  }

  lemma AsciiAt(s: string, i: nat, c: byte)
    requires i < |s| && s[i] as int < 256 && c as int == s[i] as int
    ensures Ascii(s)[i] == c
  {
    JsonReference.ByteOf(s[i]);
    SameByte((s[i] as int % 256) as byte, c);
  }

  lemma LitIs(s: string, c: byte)
    requires |s| == 1 && s[0] as int < 256 && c as int == s[0] as int
    ensures Text([Lit(s)]) == Ascii(s) == [c]
  {
    TextOfOne(Lit(s));
    AsciiAt(s, 0, c);
    hide Ascii, Text;
  }

  lemma LongIs(long: string, c: byte, blank: byte)
    requires |long| == 2 && long[0] as int < 256 && c as int == long[0] as int
    requires long[1] as int < 256 && blank as int == long[1] as int
    ensures Text([Lit(long)]) == Ascii(long) == [c, blank]
  {
    TextOfOne(Lit(long));
    hide Ascii, Text;
    AsciiAt(long, 0, c);
    AsciiAt(long, 1, blank);
  }

  lemma TwoBlanks()
    ensures Spaces([Lit("  ")])
  {
    LongIs("  ", 32, 32);
    hide Ascii, Text;
  }

  lemma SpacesBoth(a: seq<Piece>, b: seq<Piece>)
    requires Spaces(a) && Spaces(b)
    ensures Spaces(a + b)
  {
    TextOfBoth(a, b);
    hide Text, IsSpace;
  }

  lemma NoSpaces()
    ensures Spaces([])
  {
  }

  lemma {:induction false} TabsAreSpaces(n: nat)
    ensures Spaces(Tabs(n))
  {
    hide Spaces;
    if n == 0 {
      NoSpaces();
    } else {
      TabsAreSpaces(n - 1);
      TwoBlanks();
      SpacesBoth(Tabs(n - 1), [Lit("  ")]);
    }
  }

  lemma IndentIsSpaces(pretty: bool, n: nat)
    ensures Spaces(Indent(pretty, n)) && Spaces(NewLine(pretty))
  {
    TabsAreSpaces(n);
    LitIs("\n", 10);
    hide Ascii;
  }

  // ----- brackets and commas

  predicate IsBracket(c: byte) {
    c == COMMA || c == OPEN_CURLY || c == CLOSE_CURLY || c == OPEN_SQUARE || c == CLOSE_SQUARE
  }

  lemma BracketStep(st: State, c: byte)
    requires Calm(st) && IsBracket(c)
    ensures Calm(Step(st, c)) && Settle(Step(st, c)) == Step(st, c)
  {
  }

  lemma GoLit(st: State, s: string, c: byte)
    requires |s| == 1 && s[0] as int < 256 && c as int == s[0] as int
    requires Calm(st) && IsBracket(c)
    ensures Go(st, [Lit(s)]) == Step(st, c) && Text([Lit(s)]) == [c]
  {
    LitIs(s, c);
    RunOne(st, c);
    BracketStep(st, c);
    hide Run, Step, Text;
  }

  lemma GoLong(st: State, long: string, c: byte, blank: byte)
    requires |long| == 2 && long[0] as int < 256 && c as int == long[0] as int
    requires long[1] as int < 256 && blank as int == long[1] as int
    requires Calm(st) && IsBracket(c) && IsSpace(blank)
    ensures Go(st, [Lit(long)]) == Step(st, c) && Text([Lit(long)]) == [c, blank]
  {
    LongIs(long, c, blank);
    BracketStep(st, c);
    RunFirst(st, c, [blank]);
    hide Run, Step, Text;
    SpacesRun(Step(st, c), [blank]);
  }

  /** A bracket or a comma, perhaps with a blank after it. */
  lemma GoEither(st: State, pretty: bool, long: string, short: string, c: byte, blank: byte)
    requires |short| == 1 && |long| == 2 && long[0] == short[0] && short[0] as int < 256 && c as int == short[0] as int
    requires long[1] as int < 256 && blank as int == long[1] as int
    requires Calm(st) && IsBracket(c) && IsSpace(blank)
    ensures Go(st, [Either(pretty, long, short)]) == Step(st, c)
    ensures Text([Either(pretty, long, short)]) != [] && Text([Either(pretty, long, short)])[0] == c
  {
    if pretty { GoLong(st, long, c, blank); } else { GoLit(st, short, c); }
    hide Go, Step, Text, Lit;
  }

  // ----- items of arrays

  predicate Ready(st: State) {
    st.At? && (st.mode.WantValue? || st.mode.WantFirst?)
  }

  /** Text that is a value wherever one may stand. */
  ghost predicate Valid(s: seq<byte>) {
    forall st: State | Ready(st) :: Settle(Run(st, s)) == At(HaveValue, st.nesting)
  }

  /** Text that is none anywhere. */
  ghost predicate Invalid(s: seq<byte>) {
    forall st: State | Ready(st) :: Settle(Run(st, s)) == Failed
  }

  lemma NumberValid(i: int)
    ensures Valid(SignedDecimal(i))
  {
    forall st: State | Ready(st) ensures Settle(Run(st, SignedDecimal(i))) == At(HaveValue, st.nesting) {
      SignedRuns(st, i);
    }
    hide Run, SignedDecimal;
  }

  lemma FloatValid(s: seq<byte>)
    requires IsFixedPoint(s)
    ensures Valid(s)
  {
    hide Run, IsFixedPoint;
    forall st: State | Ready(st) ensures Settle(Run(st, s)) == At(HaveValue, st.nesting) {
      FixedPointRuns(st, s);
    }
  }

  lemma WordValid(c: byte, rest: seq<byte>)
    requires (c, rest) in {(116, [114, 117, 101]), (102, [97, 108, 115, 101]), (110, [117, 108, 108])}
    ensures Valid([c] + rest)
  {
    forall st: State | Ready(st) ensures Settle(Run(st, [c] + rest)) == At(HaveValue, st.nesting) {
      RunFirst(st, c, rest);
      assert Step(st, c) == At(Word(rest), st.nesting);
      WordRuns(rest, st.nesting);
      hide Run;
    }
  }

  lemma WordsValid()
    ensures Valid(Ascii("null")) && Valid(BoolText(true)) && Valid(BoolText(false))
  {
    WordIs("null", 110, [117, 108, 108]);
    WordIs("true", 116, [114, 117, 101]);
    WordIs("false", 102, [97, 108, 115, 101]);
    hide Valid, Ascii;
    WordValid(110, [117, 108, 108]);
    WordValid(116, [114, 117, 101]);
    WordValid(102, [97, 108, 115, 101]);
  }

  lemma WordIs(s: string, c: byte, rest: seq<byte>)
    requires |s| == 1 + |rest| && forall i | 0 <= i < |s| :: s[i] as int < 256 && ([c] + rest)[i] as int == s[i] as int
    ensures Ascii(s) == [c] + rest
  {
    forall i | 0 <= i < |s| ensures Ascii(s)[i] == ([c] + rest)[i] {
      AsciiAt(s, i, ([c] + rest)[i]);
    }
  }

  lemma StringJudged(s: seq<byte>)
    requires Unescaped(s)
    ensures if NoControl(s) then Valid([QUOTE] + s + [QUOTE]) else Invalid([QUOTE] + s + [QUOTE])
  {
    hide Run, Unescaped, NoControl;
    forall st: State | Ready(st)
      ensures Run(st, [QUOTE] + s + [QUOTE]) == if NoControl(s) then At(HaveValue, st.nesting) else Failed
    {
      StringRuns(st, false, s);
    }
  }

  lemma BlobSafe(bytes: seq<byte>)
    ensures Unescaped(Base64.Encoded(bytes)) && NoControl(Base64.Encoded(bytes))
  {
    Base64.EncodedIsWellFormed(bytes);
    hide Base64.Encoded;
    var s := Base64.Encoded(bytes);
    forall p | 0 <= p < |s| ensures s[p] != QUOTE && s[p] != BACKSLASH && !IsControl(s[p]) {
      assert p < |s| - Base64.Padding(s) ==> Base64.IsSymbol(s[p]);
    }
  }

  lemma BlobValid(bytes: seq<byte>)
    ensures Valid([QUOTE] + Base64.Encoded(bytes) + [QUOTE])
  {
    hide Valid, Invalid, Unescaped, NoControl, Base64.Encoded;
    BlobSafe(bytes);
    StringJudged(Base64.Encoded(bytes));
  }

  /** Where the array is after n items of it. */
  function InRow(n: nat, count: nat, k: Nesting): State
    requires n <= count
  {
    At(if n == 0 then WantFirst else if n < count then WantValue else HaveValue, InArray(k))
  }

  lemma {:induction false} RowGo(items: seq<seq<byte>>, n: nat, pretty: bool, k: Nesting)
    requires n <= |items| && forall x | x in items :: Valid(x)
    ensures Go(At(WantFirst, InArray(k)), RowPieces(items, n, pretty)) == InRow(n, |items|, k)
  {
    hide Go, Valid, Either, Loose;
    var st := At(WantFirst, InArray(k));
    if n == 0 {
      GoNone(st);
    } else {
      var before, item := RowPieces(items, n - 1, pretty), [Plain(items[n - 1])];
      RowGo(items, n - 1, pretty, k);
      assert items[n - 1] in items;
      ValidGo(InRow(n - 1, |items|, k), Plain(items[n - 1]));
      GoBoth(st, before, item);
      if n < |items| {
        CommaGo(pretty, ", ", 32, k);
        GoBoth(st, before + item, [Either(pretty, ", ", ",")]);
      } else {
        assert before + item + [] == before + item;
      }
    }
  }

  lemma ValidGo(st: State, p: Piece)
    requires Ready(st)
    ensures Valid(Full(p)) ==> Go(st, [p]) == At(HaveValue, st.nesting)
    ensures Invalid(Full(p)) ==> Go(st, [p]) == Failed
  {
    GoPiece(st, p);
    hide Go, Full, Run;
  }

  /** The comma between two items. */
  lemma CommaGo(pretty: bool, long: string, blank: byte, k: Nesting)
    requires (long == ", " && blank == 32) || (long == ",\n" && blank == 10)
    ensures Go(At(HaveValue, InArray(k)), [Either(pretty, long, ",")]) == At(WantValue, InArray(k))
    ensures Go(At(HaveValue, InObject(k)), [Either(pretty, long, ",")]) == At(WantKey, InObject(k))
    ensures Loose([Either(pretty, long, ",")])
  {
    hide Go, Either;
    GoEither(At(HaveValue, InArray(k)), pretty, long, ",", COMMA, blank);
    GoEither(At(HaveValue, InObject(k)), pretty, long, ",", COMMA, blank);
  }

  lemma WholeRowGo(items: seq<seq<byte>>, pretty: bool, st: State)
    requires Ready(st) && forall x | x in items :: Valid(x)
    ensures Go(st, Row(items, pretty)) == At(HaveValue, st.nesting)
  {
    hide Go, Valid, RowPieces, Loose, Text;
    var n := |items|;
    var body, end := RowPieces(items, n, pretty), [Lit("]")];
    GoLit(st, "[", OPEN_SQUARE);
    RowGo(items, n, pretty, st.nesting);
    GoLit(InRow(n, n, st.nesting), "]", CLOSE_SQUARE);
    GoBoth(st, [Lit("[")], body);
    LooseLit("]", CLOSE_SQUARE);
    GoBoth(st, [Lit("[")] + body, end);
  }

  lemma LooseLit(s: string, c: byte)
    requires |s| == 1 && s[0] as int < 256 && c as int == s[0] as int
    requires c == COMMA || c == CLOSE_SQUARE || c == CLOSE_CURLY
    ensures Loose([Lit(s)])
  {
    LitIs(s, c);
  }

  // ----- arrays with one item a line

  /** The first n items are valid. */
  predicate AllTrue(good: seq<bool>, n: nat)
    requires n <= |good|
  {
    forall i | 0 <= i < n :: good[i]
  }

  lemma {:induction false} ColumnGo(items: seq<Piece>, good: seq<bool>, n: nat, depth: nat, pretty: bool, k: Nesting)
    requires n <= |items| == |good|
    requires forall i | 0 <= i < |items| :: if good[i] then Valid(Full(items[i])) else Invalid(Full(items[i]))
    ensures Go(At(WantFirst, InArray(k)), ColumnPieces(items, n, depth, pretty)) ==
              if AllTrue(good, n) then InRow(n, |items|, k) else Failed
  {
    hide Go, Valid, Invalid, Either, Loose, Indent, NewLine, Full;
    var st := At(WantFirst, InArray(k));
    if n == 0 {
      GoNone(st);
    } else {
      var before, tabs, item := ColumnPieces(items, n - 1, depth, pretty), Indent(pretty, depth + 2), [items[n - 1]];
      var end := if n < |items| then [Either(pretty, ",\n", ",")] else NewLine(pretty);
      ColumnGo(items, good, n - 1, depth, pretty, k);
      var st1 := InRow(n - 1, |items|, k);
      IndentGo(if AllTrue(good, n - 1) then st1 else Failed, pretty, depth + 2);
      GoBoth(st, before, tabs);
      ValidGo(st1, items[n - 1]);
      GoFailed(item);
      GoFailed(end);
      GoBoth(st, before + tabs, item);
      if n < |items| { CommaGo(pretty, ",\n", 10, k); } else { IndentGo(At(HaveValue, InArray(k)), pretty, 0); }
      GoBoth(st, before + tabs + item, end);
    }
  }

  lemma IndentGo(st: State, pretty: bool, n: nat)
    requires Calm(st)
    ensures Go(st, Indent(pretty, n)) == st && Go(st, NewLine(pretty)) == st
    ensures Loose(Indent(pretty, n)) && Loose(NewLine(pretty))
  {
    IndentIsSpaces(pretty, n);
    hide Go, Indent, NewLine, Spaces;
    GoSpaces(st, Indent(pretty, n));
    GoSpaces(st, NewLine(pretty));
  }

  lemma WholeColumnGo(items: seq<Piece>, good: seq<bool>, depth: nat, pretty: bool, st: State)
    requires Ready(st) && |items| == |good|
    requires forall i | 0 <= i < |items| :: if good[i] then Valid(Full(items[i])) else Invalid(Full(items[i]))
    ensures Go(st, Column(items, depth, pretty)) == if AllTrue(good, |good|) then At(HaveValue, st.nesting) else Failed
  {
    hide Go, Valid, Invalid, ColumnPieces, Either, Indent, Loose, Text, Full;
    var n, k := |items|, st.nesting;
    var open, body, tabs, end := [Either(pretty, "[\n", "[")], ColumnPieces(items, n, depth, pretty),
        Indent(pretty, depth + 1), [Lit("]")];
    GoEither(st, pretty, "[\n", "[", OPEN_SQUARE, 10);
    ColumnGo(items, good, n, depth, pretty, k);
    GoBoth(st, open, body);
    var st1 := if AllTrue(good, n) then InRow(n, n, k) else Failed;
    IndentGo(st1, pretty, depth + 1);
    GoBoth(st, open + body, tabs);
    GoLit(st1, "]", CLOSE_SQUARE);
    LooseLit("]", CLOSE_SQUARE);
    GoBoth(st, open + body + tabs, end);
  }

  // ----- values without members

  predicate Flat(v: Value) {
    !v.Object? && !v.MixedArray? && !v.ObjectArray?
  }

  lemma ScalarGo(v: Value, depth: nat, pretty: bool, fmt: FloatFormat, st: State)
    requires Ready(st) && VerbatimValue(v) && FixedPoints(fmt)
    requires v.Null? || v.Int? || v.Float? || v.Double? || v.Bool? || v.Blob? || v.Str?
    ensures Go(st, ValuePieces(v, depth, pretty, fmt)) == if HasValue(v) then At(HaveValue, st.nesting) else Failed
  {
    hide Go, Valid, Invalid, Unescaped, NoControl, CString, IsFixedPoint, Base64.Encoded;
    var p := ValuePieces(v, depth, pretty, fmt)[0];
    ValidGo(st, p);
    WordsValid();
    match v
    case Null =>
    case Int(i) => NumberValid(i);
    case Float(f) => FloatValid(fmt(f));
    case Double(d) => FloatValid(fmt(d));
    case Bool(b) =>
    case Blob(bytes) => BlobValid(bytes);
    case Str(s) =>
      VerbatimUnescaped(s);
      StringJudged(CString(s, NUL));
  }

  lemma VerbatimUnescaped(s: seq<byte>)
    requires QUOTE !in CString(s, NUL) && BACKSLASH !in CString(s, NUL)
    ensures Unescaped(CString(s, NUL))
  {
  }

  lemma NumbersValid(fs: seq<real>, fmt: FloatFormat)
    requires FixedPoints(fmt)
    ensures forall x | x in JsonReference.NumberTexts(fs, fmt) :: Valid(x)
  {
    hide Valid, IsFixedPoint;
    var items := JsonReference.NumberTexts(fs, fmt);
    forall x | x in items ensures Valid(x) {
      var i :| 0 <= i < |items| && items[i] == x;
      var f := fs[i];
      assert x == fmt(f) && IsFixedPoint(fmt(f));
      FloatValid(x);
    }
  }

  lemma RowValueGo(v: Value, depth: nat, pretty: bool, fmt: FloatFormat, st: State)
    requires Ready(st) && FixedPoints(fmt)
    requires v.IntArray? || v.FloatArray? || v.DoubleArray? || v.BoolArray?
    ensures Go(st, ValuePieces(v, depth, pretty, fmt)) == At(HaveValue, st.nesting)
  {
    hide Go, Valid, Row, FixedPoints;
    match v
    case IntArray(ints) =>
      forall i | 0 <= i < |ints| ensures Valid(SignedDecimal(ints[i])) { NumberValid(ints[i]); }
      WholeRowGo(seq(|ints|, i requires 0 <= i < |ints| => SignedDecimal(ints[i])), pretty, st);
    case FloatArray(fs) =>
      NumbersValid(fs, fmt);
      WholeRowGo(JsonReference.NumberTexts(fs, fmt), pretty, st);
    case DoubleArray(ds) =>
      NumbersValid(ds, fmt);
      WholeRowGo(JsonReference.NumberTexts(ds, fmt), pretty, st);
    case BoolArray(bs) =>
      WordsValid();
      WholeRowGo(seq(|bs|, i requires 0 <= i < |bs| => BoolText(bs[i])), pretty, st);
  }

  lemma BlobArrayGo(bs: seq<seq<byte>>, depth: nat, pretty: bool, fmt: FloatFormat, st: State)
    requires Ready(st)
    ensures Go(st, ValuePieces(BlobArray(bs), depth, pretty, fmt)) == At(HaveValue, st.nesting)
  {
    hide Go, Valid, Invalid, Column, Base64.Encoded;
    var items := seq(|bs|, i requires 0 <= i < |bs| => BlobPiece(bs[i]));
    forall i | 0 <= i < |bs| ensures Valid(Full(items[i])) { BlobValid(bs[i]); }
    WholeColumnGo(items, seq(|bs|, i => true), depth, pretty, st);
  }

  lemma StrArrayGo(ss: seq<seq<byte>>, depth: nat, pretty: bool, fmt: FloatFormat, st: State)
    requires Ready(st) && VerbatimValue(StrArray(ss))
    ensures Go(st, ValuePieces(StrArray(ss), depth, pretty, fmt)) ==
              if HasValue(StrArray(ss)) then At(HaveValue, st.nesting) else Failed
  {
    hide Go, Valid, Invalid, Column, CString, Unescaped, NoControl;
    var items := seq(|ss|, i requires 0 <= i < |ss| => StrPiece(ss[i]));
    var good := seq(|ss|, i requires 0 <= i < |ss| => NoControl(CString(ss[i], NUL)));
    forall i | 0 <= i < |ss| ensures if good[i] then Valid(Full(items[i])) else Invalid(Full(items[i])) {
      assert ss[i] in ss;
      VerbatimUnescaped(ss[i]);
      StringJudged(CString(ss[i], NUL));
    }
    WholeColumnGo(items, good, depth, pretty, st);
    assert AllTrue(good, |good|) <==> HasValue(StrArray(ss)) by {
      forall i | 0 <= i < |ss| ensures good[i] == NoControl(CString(ss[i], NUL)) && ss[i] in ss {}
      forall s | s in ss ensures exists i :: 0 <= i < |ss| && ss[i] == s {}
    }
  }

  lemma FlatGo(v: Value, depth: nat, pretty: bool, fmt: FloatFormat, st: State)
    requires Ready(st) && Flat(v) && VerbatimValue(v) && FixedPoints(fmt)
    ensures Go(st, ValuePieces(v, depth, pretty, fmt)) ==
              if v.Array? then st else if HasValue(v) then At(HaveValue, st.nesting) else Failed
  {
    hide Go, ValuePieces, FixedPoints, VerbatimValue;
    match v
    case Array =>
      GoNone(st);
      NoPieces(depth, pretty, fmt);
    case IntArray(_) => RowValueGo(v, depth, pretty, fmt, st);
    case FloatArray(_) => RowValueGo(v, depth, pretty, fmt, st);
    case DoubleArray(_) => RowValueGo(v, depth, pretty, fmt, st);
    case BoolArray(_) => RowValueGo(v, depth, pretty, fmt, st);
    case BlobArray(bs) => BlobArrayGo(bs, depth, pretty, fmt, st);
    case StrArray(ss) => StrArrayGo(ss, depth, pretty, fmt, st);
    case _ => ScalarGo(v, depth, pretty, fmt, st);
  }

  lemma NoPieces(depth: nat, pretty: bool, fmt: FloatFormat)
    ensures ValuePieces(Array, depth, pretty, fmt) == []
  {
  }

  // ----- keys, and values where a key should be

  /** Where commas and closing brackets are out of place. */
  predicate Stuck(st: State) {
    st.At? ==> st.mode.WantValue? || st.mode.WantKey? || st.mode.WantColon?
  }

  /** Inside of an array or an object, before its first or another member. */
  function Begin(keys: bool, first: bool, k: Nesting): State {
    if keys then At(if first then WantFirstKey else WantKey, InObject(k))
    else At(if first then WantFirst else WantValue, InArray(k))
  }

  /** What `"name":` does with the state: the rest of a key after the string. */
  lemma ColonRuns(k: Nesting, pretty: bool)
    ensures var colon := Ascii(if pretty then "\" : " else "\":");
            colon[0] == QUOTE && Run(At(WantColon, k), colon[1..]) == At(WantValue, k)
                && Run(At(HaveValue, k), colon[1..]) == Failed
  {
    JsonReference.ColonTexts();
    hide Ascii;
    if pretty {
      assert [QUOTE, 32, 58, 32][1..] == [32] + ([58] + [32]);
      RunFirst(At(WantColon, k), 32, [58] + [32]);
      RunFirst(At(WantColon, k), 58, [32]);
      RunFirst(At(HaveValue, k), 32, [58] + [32]);
      RunFirst(At(HaveValue, k), 58, [32]);
      RunOne(At(WantValue, k), 32);
      RunFailed([32]);
    } else {
      assert [QUOTE, 58][1..] == [58];
      RunOne(At(WantColon, k), 58);
      RunOne(At(HaveValue, k), 58);
    }
    hide Run;
  }

  lemma KeyTextGo(keys: bool, first: bool, k: Nesting, x: seq<byte>, pretty: bool)
    requires Unescaped(x)
    ensures var st := Begin(keys, first, k);
            Go(st, [Plain([QUOTE] + x + Ascii(if pretty then "\" : " else "\":"))]) ==
              if keys && NoControl(x) then At(WantValue, st.nesting) else Failed
  {
    hide Run, Step, Unescaped, NoControl, Ascii;
    var st, colon := Begin(keys, first, k), Ascii(if pretty then "\" : " else "\":");
    ColonRuns(st.nesting, pretty);
    StringRuns(st, keys, x);
    assert [QUOTE] + x + colon == ([QUOTE] + x + [QUOTE]) + colon[1..];
    RunBoth(st, [QUOTE] + x + [QUOTE], colon[1..]);
    RunFailed(colon[1..]);
    GoPiece(st, Plain([QUOTE] + x + colon));
  }

  lemma {:induction false} DecimalSafe(n: nat)
    ensures Unescaped(Decimal(n)) && NoControl(Decimal(n)) && Decimal(n) != [] && IsDigit(Decimal(n)[0])
    decreases n
  {
    if n >= 10 { DecimalSafe(n / 10); }
  }

  lemma KeyGo(rep: Rep, keys: bool, first: bool, k: Nesting, pretty: bool)
    requires rep.Member? && Unescaped(CString(rep.name, NUL))
    ensures var st := Begin(keys, first, k);
            Go(st, KeyPieces(rep.name, rep.iname, pretty)) ==
              if !Keyed(rep) then st
              else if keys && NoControl(CString(rep.name, NUL)) then At(WantValue, st.nesting)
              else Failed
  {
    hide Go, Unescaped, NoControl, Ascii, Decimal;
    if |rep.name| > 0 {
      KeyTextGo(keys, first, k, CString(rep.name, NUL), pretty);
    } else if rep.iname >= 0 {
      DecimalSafe(rep.iname);
      KeyTextGo(keys, first, k, Decimal(rep.iname), pretty);
      NothingControlled();
    } else {
      GoNone(Begin(keys, first, k));
    }
  }

  lemma NothingControlled()
    ensures NoControl([]) && CString<byte>([], NUL) == []
  {
  }

  /** Bytes that may not stand where a key or a closing brace should be. */
  predicate Wrong(s: seq<byte>) {
    s != [] && !IsSpace(s[0]) && s[0] != QUOTE && s[0] != CLOSE_CURLY
  }

  lemma WordStarts(v: Value, depth: nat, pretty: bool, fmt: FloatFormat)
    requires FixedPoints(fmt) && (v.Null? || v.Int? || v.Float? || v.Double? || v.Bool?)
    ensures Wrong(Text(ValuePieces(v, depth, pretty, fmt)))
  {
    TextOfOne(ValuePieces(v, depth, pretty, fmt)[0]);
    NullStarts();
    BoolStarts();
    hide Ascii, SignedDecimal, IsFixedPoint, BoolText, Wrong, Text;
    match v
    case Null =>
    case Int(i) => NumberStarts(i);
    case Float(f) => FixedPointStarts(fmt(f));
    case Double(f) => FixedPointStarts(fmt(f));
    case Bool(_) =>
  }

  lemma NullStarts()
    ensures Wrong(Ascii("null"))
  {
    WordIs("null", 110, [117, 108, 108]);
    hide Ascii;
  }

  lemma DigitStarts(c: byte, s: seq<byte>)
    requires IsDigit(c) || c == MINUS
    ensures s != [] && s[0] == c ==> Wrong(s)
  {
  }

  lemma NumberStarts(i: int)
    ensures Wrong(SignedDecimal(i))
  {
    DecimalSafe(if i < 0 then -i else i);
    hide Decimal, Wrong, IsDigit;
    DigitStarts(SignedDecimal(i)[0], SignedDecimal(i));
  }

  /** A value that is no string, where a key should be. */
  lemma WrongStart(v: Value, depth: nat, pretty: bool, fmt: FloatFormat)
    requires FixedPoints(fmt) && !v.Str? && !v.Blob? && !v.Array?
    ensures Wrong(Text(ValuePieces(v, depth, pretty, fmt)))
  {
    hide RowPieces, ColumnPieces, Pieces, ObjectsPieces, Indent, NewLine, Text;
    match v
    case Object(_) => OpensWith(ValuePieces(v, depth, pretty, fmt), pretty, "{\n", "{", OPEN_CURLY);
    case BlobArray(_) => OpensWith(ValuePieces(v, depth, pretty, fmt), pretty, "[\n", "[", OPEN_SQUARE);
    case StrArray(_) => OpensWith(ValuePieces(v, depth, pretty, fmt), pretty, "[\n", "[", OPEN_SQUARE);
    case IntArray(_) => OpensWith(ValuePieces(v, depth, pretty, fmt), false, "[\n", "[", OPEN_SQUARE);
    case FloatArray(_) => OpensWith(ValuePieces(v, depth, pretty, fmt), false, "[\n", "[", OPEN_SQUARE);
    case DoubleArray(_) => OpensWith(ValuePieces(v, depth, pretty, fmt), false, "[\n", "[", OPEN_SQUARE);
    case BoolArray(_) => OpensWith(ValuePieces(v, depth, pretty, fmt), false, "[\n", "[", OPEN_SQUARE);
    case ObjectArray(_) => OpensWith(ValuePieces(v, depth, pretty, fmt), false, "[\n", "[", OPEN_SQUARE);
    case MixedArray(_) => OpensWith(ValuePieces(v, depth, pretty, fmt), false, "[\n", "[", OPEN_SQUARE);
    case _ => WordStarts(v, depth, pretty, fmt);
  }

  lemma BoolStarts()
    ensures Wrong(BoolText(true)) && Wrong(BoolText(false))
  {
    WordIs("true", 116, [114, 117, 101]);
    WordIs("false", 102, [97, 108, 115, 101]);
    hide Ascii;
  }

  lemma FixedPointStarts(s: seq<byte>)
    requires IsFixedPoint(s)
    ensures Wrong(s)
  {
    var negative: bool, whole: nat, decimals: seq<byte> :|
      decimals != [] && (forall c | c in decimals :: IsDigit(c)) && s == FixedPoint(negative, whole, decimals);
    DecimalSafe(whole);
    hide Decimal, Wrong, IsDigit;
    DigitStarts(s[0], s);
  }

  lemma OpensWith(ps: seq<Piece>, pretty: bool, long: string, short: string, c: byte)
    requires ps != [] && ps[0] == Either(pretty, long, short)
    requires (long, short, c) in {("{\n", "{", OPEN_CURLY), ("[\n", "[", OPEN_SQUARE)}
    ensures Text(ps) != [] && Text(ps)[0] == c
  {
    GoEither(At(WantValue, Bottom), pretty, long, short, c, 10);
    TextOfOne(ps[0]);
    hide Go, Either, Full;
  }

  lemma MisplacedGo(v: Value, depth: nat, pretty: bool, fmt: FloatFormat, first: bool, k: Nesting)
    requires !v.Array? && VerbatimValue(v) && FixedPoints(fmt)
    ensures Stuck(Go(Begin(true, first, k), ValuePieces(v, depth, pretty, fmt)))
  {
    hide Go, ValuePieces, Text, FixedPoints, CString, Unescaped, NoControl, Base64.Encoded;
    var st := Begin(true, first, k);
    match v
    case Str(s) =>
      VerbatimUnescaped(s);
      MisplacedString(CString(s, NUL), first, k);
      StringPieces(v, depth, pretty, fmt);
    case Blob(bytes) =>
      BlobSafe(bytes);
      MisplacedString(Base64.Encoded(bytes), first, k);
      StringPieces(v, depth, pretty, fmt);
    case _ =>
      WrongStart(v, depth, pretty, fmt);
      GoWrong(st, ValuePieces(v, depth, pretty, fmt));
  }

  lemma StringPieces(v: Value, depth: nat, pretty: bool, fmt: FloatFormat)
    requires v.Str? || v.Blob?
    ensures ValuePieces(v, depth, pretty, fmt) == [if v.Str? then StrPiece(v.s) else BlobPiece(v.bytes)]
  {
  }

  lemma MisplacedString(s: seq<byte>, first: bool, k: Nesting)
    requires Unescaped(s)
    ensures forall p: Piece :: Full(p) == [QUOTE] + s + [QUOTE] ==> Stuck(Go(Begin(true, first, k), [p]))
  {
    hide Run, Step, Unescaped, NoControl;
    var st := Begin(true, first, k);
    StringRuns(st, true, s);
    forall p: Piece | Full(p) == [QUOTE] + s + [QUOTE] ensures Stuck(Go(st, [p])) {
      GoPiece(st, p);
    }
  }

  // ----- representations

  lemma StuckStep(st: State, c: byte)
    requires Stuck(st) && (c == COMMA || c == CLOSE_CURLY || c == CLOSE_SQUARE)
    ensures Step(st, c) == Failed && Calm(st)
  {
  }

  /** One member, before the comma that may follow. */
  lemma {:induction false} MemberGo(rep: Rep, keys: bool, first: bool, k: Nesting, depth: nat, pretty: bool,
                                    fmt: FloatFormat)
    requires rep.Member? && Verbatim(rep) && FixedPoints(fmt)
    ensures
      var st := Begin(keys, first, k);
      var ps := Indent(pretty, depth + 1) + KeyPieces(rep.name, rep.iname, pretty)
          + ValuePieces(rep.value, depth, pretty, fmt);
      if GoodMember(rep, keys) then Go(st, ps) == At(HaveValue, st.nesting)
      else if !Keyed(rep) && rep.value.Array? then Go(st, ps) == st
      else Stuck(Go(st, ps))
    decreases rep, 0
  {
    hide Go, Indent, KeyPieces, ValuePieces, Loose, FixedPoints, CString, NoControl;
    var st := Begin(keys, first, k);
    var tabs, key, value := Indent(pretty, depth + 1), KeyPieces(rep.name, rep.iname, pretty),
        ValuePieces(rep.value, depth, pretty, fmt);
    assert GoodMember(rep, keys) <==>
        Keyed(rep) == keys && NoControl(CString(rep.name, NUL)) && HasValue(rep.value);
    VerbatimUnescaped(rep.name);
    NothingControlled();
    IndentGo(st, pretty, depth + 1);
    KeyGo(rep, keys, first, k, pretty);
    GoBoth(st, tabs, key);
    GoBoth(st, tabs + key, value);
    var st1 := Go(st, key);
    if st1 == Failed {
      GoFailed(value);
    } else if Ready(st1) {
      ValueGo(rep.value, depth, pretty, fmt, st1);
    } else if rep.value.Array? {
      NoPieces(depth, pretty, fmt);
      GoNone(st1);
    } else {
      MisplacedGo(rep.value, depth, pretty, fmt, first, k);
    }
  }

  /** The comma after a member, and the new line. */
  lemma SeparatorGo(st: State, more: bool, pretty: bool)
    requires Calm(st)
    ensures var comma := if more then [Lit(",")] else [];
            Loose(comma) && Loose(NewLine(pretty)) && Calm(Go(st, comma))
            && Go(Go(st, comma), NewLine(pretty)) == if more then Step(st, COMMA) else st
  {
    hide Go, NewLine, Indent, Step, Lit;
    GoNone(st);
    NothingIsLoose();
    GoLit(st, ",", COMMA);
    LooseLit(",", COMMA);
    BracketStep(st, COMMA);
    IndentGo(if more then Step(st, COMMA) else st, pretty, 0);
  }

  lemma NothingIsLoose()
    ensures Loose([])
  {
  }

  /** One member with its separator. */
  lemma {:induction false} HeadGo(rep: Rep, keys: bool, first: bool, k: Nesting, depth: nat, pretty: bool,
                                  fmt: FloatFormat)
    requires rep.Member? && Verbatim(rep) && FixedPoints(fmt)
    ensures
      var st := Begin(keys, first, k);
      var st1 := Go(st, MemberPieces(rep, depth, pretty, fmt));
      if rep.next != End then st1 == if GoodMember(rep, keys) then Begin(keys, false, k) else Failed
      else if GoodMember(rep, keys) then st1 == At(HaveValue, st.nesting)
      else if Lone(rep) then st1 == st
      else Stuck(st1)
    decreases rep, 1
  {
    hide Go, Indent, KeyPieces, ValuePieces, NewLine, Loose, FixedPoints, CString, NoControl, HasValue, Lit;
    var st := Begin(keys, first, k);
    var ps := Indent(pretty, depth + 1) + KeyPieces(rep.name, rep.iname, pretty)
        + ValuePieces(rep.value, depth, pretty, fmt);
    var comma := if rep.next == End then [] else [Lit(",")];
    MemberGo(rep, keys, first, k, depth, pretty, fmt);
    SeparatorGo(Go(st, ps), rep.next != End, pretty);
    GoBoth(st, ps, comma);
    GoBoth(st, ps + comma, NewLine(pretty));
    assert MemberPieces(rep, depth, pretty, fmt) == ps + comma + NewLine(pretty);
  }

  lemma FramedEnd(keys: bool)
    ensures Framed(End, keys)
  {
  }

  lemma FramedOnce(rep: Rep, keys: bool)
    requires rep.Member?
    ensures Framed(rep, keys) <==> GoodMember(rep, keys) && Framed(rep.next, keys)
  {
  }

  lemma LoneIsBad(rep: Rep, keys: bool)
    requires rep.Member?
    ensures Lone(rep) ==> rep.next == End && !GoodMember(rep, keys)
  {
  }

  lemma {:induction false} RepGo(rep: Rep, keys: bool, first: bool, k: Nesting, depth: nat, pretty: bool,
                                 fmt: FloatFormat)
    requires Verbatim(rep) && FixedPoints(fmt)
    ensures
      var st := Begin(keys, first, k);
      var st1 := Go(st, Pieces(rep, depth, pretty, fmt));
      if rep == End || Lone(rep) then st1 == st
      else if Framed(rep, keys) then st1 == At(HaveValue, st.nesting)
      else Stuck(st1)
    decreases rep, 2
  {
    hide Go, MemberPieces, Loose, FixedPoints, CString, GoodMember, Lone, Framed;
    var st := Begin(keys, first, k);
    if rep == End {
      GoNone(st);
    } else {
      LoneIsBad(rep, keys);
      FramedEnd(keys);
      FramedOnce(rep, keys);
      var head, rest := MemberPieces(rep, depth, pretty, fmt), Pieces(rep.next, depth, pretty, fmt);
      HeadGo(rep, keys, first, k, depth, pretty, fmt);
      if rep.next == End {
        assert head + [] == head;
      } else {
        GoBoth(st, head, rest);
        GoFailed(rest);
        if GoodMember(rep, keys) {
          LoneIsBad(rep.next, keys);
          FramedOnce(rep.next, keys);
          RepGo(rep.next, keys, false, k, depth, pretty, fmt);
        }
      }
    }
  }

  /** Members between brackets: the opening one has been read, and the closing one will be. */
  lemma {:induction false} InsideGo(rep: Rep, keys: bool, k: Nesting, depth: nat, pretty: bool, fmt: FloatFormat)
    requires Verbatim(rep) && FixedPoints(fmt)
    ensures
      var st := Go(Begin(keys, true, k), Pieces(rep, depth, pretty, fmt));
      var c := if keys then CLOSE_CURLY else CLOSE_SQUARE;
      Calm(st) && Step(st, c) == if Framable(rep, keys) then At(HaveValue, k) else Failed
    decreases rep, 3
  {
    hide Go, FixedPoints, CString, NoControl, HasValue;
    RepGo(rep, keys, true, k, depth, pretty, fmt);
    var st := Go(Begin(keys, true, k), Pieces(rep, depth, pretty, fmt));
    hide Framed;
    FramedEnd(keys);
    if Stuck(st) { StuckStep(st, if keys then CLOSE_CURLY else CLOSE_SQUARE); }
  }


  lemma {:induction false} ObjectGo(members: Rep, depth: nat, pretty: bool, fmt: FloatFormat, st: State)
    requires Ready(st) && Verbatim(members) && FixedPoints(fmt)
    ensures Go(st, ValuePieces(Object(members), depth, pretty, fmt)) ==
              if Framable(members, true) then At(HaveValue, st.nesting) else Failed
    decreases members, 4
  {
    hide Go, Pieces, Indent, Either, Loose, FixedPoints, Framable, Text;
    var open, body, tabs, end :=
      [Either(pretty, "{\n", "{")], Pieces(members, depth + 1, pretty, fmt), Indent(pretty, depth + 1), [Lit("}")];
    GoEither(st, pretty, "{\n", "{", OPEN_CURLY, 10);
    InsideGo(members, true, st.nesting, depth + 1, pretty, fmt);
    GoBoth(st, open, body);
    var st1 := Go(Begin(true, true, st.nesting), body);
    IndentGo(st1, pretty, depth + 1);
    GoBoth(st, open + body, tabs);
    GoLit(st1, "}", CLOSE_CURLY);
    LooseLit("}", CLOSE_CURLY);
    GoBoth(st, open + body + tabs, end);
  }

  lemma {:induction false} MixedGo(elements: Rep, depth: nat, pretty: bool, fmt: FloatFormat, st: State)
    requires Ready(st) && Verbatim(elements) && FixedPoints(fmt)
    ensures Go(st, ValuePieces(MixedArray(elements), depth, pretty, fmt)) ==
              if Framable(elements, false) then At(HaveValue, st.nesting) else Failed
    decreases elements, 4
  {
    hide Go, Pieces, Indent, NewLine, Loose, FixedPoints, Framable, Text;
    var open, line, body, tabs, end :=
      [Lit("[")], NewLine(pretty && elements != End), Pieces(elements, depth + 2, pretty, fmt),
          Indent(pretty, depth + 2), [Lit("]")];
    GoLit(st, "[", OPEN_SQUARE);
    IndentGo(Begin(false, true, st.nesting), pretty && elements != End, 0);
    GoBoth(st, open, line);
    InsideGo(elements, false, st.nesting, depth + 2, pretty, fmt);
    GoBoth(st, open + line, body);
    var st1 := Go(Begin(false, true, st.nesting), body);
    IndentGo(st1, pretty, depth + 2);
    GoBoth(st, open + line + body, tabs);
    GoLit(st1, "]", CLOSE_SQUARE);
    LooseLit("]", CLOSE_SQUARE);
    GoBoth(st, open + line + body + tabs, end);
  }

  /** "}," and "}]" */
  lemma GoClosing(st: State, pretty: bool)
    requires Calm(st)
    ensures Go(st, [Either(pretty, "},\n", "},")]) == Step(Step(st, CLOSE_CURLY), COMMA)
    ensures Go(st, [Lit("}]")]) == Step(Step(st, CLOSE_CURLY), CLOSE_SQUARE)
    ensures Loose([Either(pretty, "},\n", "},")]) && Loose([Lit("}]")])
  {
    hide Step, Run, Text;
    WordIs("},", CLOSE_CURLY, [COMMA]);
    WordIs("},\n", CLOSE_CURLY, [COMMA, 10]);
    WordIs("}]", CLOSE_CURLY, [CLOSE_SQUARE]);
    hide Ascii;
    TextOfOne(Either(pretty, "},\n", "},"));
    TextOfOne(Lit("}]"));
    BracketStep(st, CLOSE_CURLY);
    var st1 := Step(st, CLOSE_CURLY);
    BracketStep(st1, COMMA);
    BracketStep(st1, CLOSE_SQUARE);
    RunFirst(st, CLOSE_CURLY, [COMMA]);
    assert [CLOSE_CURLY] + [COMMA, 10] == [CLOSE_CURLY] + ([COMMA] + [10]);
    RunFirst(st, CLOSE_CURLY, [COMMA] + [10]);
    RunFirst(st, CLOSE_CURLY, [CLOSE_SQUARE]);
    RunFirst(st1, COMMA, [10]);
    RunOne(st1, COMMA);
    RunOne(st1, CLOSE_SQUARE);
    SpacesRun(Step(st1, COMMA), [10]);
  }

  /** The objects of an array, without the last closing brace. */
  lemma {:induction false} ObjectsGo(os: Objects, depth: nat, pretty: bool, fmt: FloatFormat, st: State, k: Nesting)
    requires st == At(WantFirst, InArray(k)) || st == At(WantValue, InArray(k))
    requires VerbatimObjects(os) && FixedPoints(fmt)
    ensures
      var st1 := Go(st, ObjectsPieces(os, depth, pretty, fmt));
      Calm(st1) && Step(st1, CLOSE_CURLY) == if AllFramable(os) then At(HaveValue, InArray(k)) else Failed
    decreases os, 4
  {
    hide Go, Pieces, Indent, Either, Loose, FixedPoints, Framable, Text;
    var tabs, open, body := Indent(pretty, depth + 2), [Either(pretty, "{\n", "{")],
        Pieces(os.item, depth + 2, pretty, fmt);
    IndentGo(st, pretty, depth + 2);
    GoEither(st, pretty, "{\n", "{", OPEN_CURLY, 10);
    GoBoth(st, tabs, open);
    InsideGo(os.item, true, st.nesting, depth + 2, pretty, fmt);
    GoBoth(st, tabs + open, body);
    if os.More? {
      var st1, end := Go(Begin(true, true, st.nesting), body), [Either(pretty, "},\n", "},")];
      var rest := ObjectsPieces(os.rest, depth, pretty, fmt);
      IndentGo(st1, pretty, depth + 2);
      GoBoth(st, tabs + open + body, tabs);
      GoClosing(st1, pretty);
      GoBoth(st, tabs + open + body + tabs, end);
      GoBoth(st, tabs + open + body + tabs + end, rest);
      GoFailed(rest);
      if Framable(os.item, true) { ObjectsGo(os.rest, depth, pretty, fmt, At(WantValue, InArray(k)), k); }
    }
  }

  lemma {:induction false} ObjectArrayGo(os: Objects, depth: nat, pretty: bool, fmt: FloatFormat, st: State)
    requires Ready(st) && VerbatimObjects(os) && FixedPoints(fmt)
    ensures Go(st, ValuePieces(ObjectArray(os), depth, pretty, fmt)) ==
              if AllFramable(os) then At(HaveValue, st.nesting) else Failed
    decreases os, 5
  {
    hide Go, ObjectsPieces, Indent, NewLine, Loose, FixedPoints, AllFramable, Text;
    var open, line, body, tabs, end :=
      [Lit("[")], NewLine(pretty), ObjectsPieces(os, depth, pretty, fmt), Indent(pretty, depth + 2), [Lit("}]")];
    var st1 := At(WantFirst, InArray(st.nesting));
    GoLit(st, "[", OPEN_SQUARE);
    IndentGo(st1, pretty, 0);
    GoBoth(st, open, line);
    ObjectsGo(os, depth, pretty, fmt, st1, st.nesting);
    GoBoth(st, open + line, body);
    var st2 := Go(st1, body);
    IndentGo(st2, pretty, depth + 2);
    GoBoth(st, open + line + body, tabs);
    GoClosing(st2, pretty);
    GoBoth(st, open + line + body + tabs, end);
  }

  lemma {:induction false} ValueGo(v: Value, depth: nat, pretty: bool, fmt: FloatFormat, st: State)
    requires Ready(st) && VerbatimValue(v) && FixedPoints(fmt)
    ensures Go(st, ValuePieces(v, depth, pretty, fmt)) ==
              if v.Array? then st else if HasValue(v) then At(HaveValue, st.nesting) else Failed
    decreases v, 6
  {
    hide Go, ValuePieces, FixedPoints, Framable, AllFramable, Ready;
    match v
    case Object(members) => ObjectGo(members, depth, pretty, fmt, st);
    case MixedArray(elements) => MixedGo(elements, depth, pretty, fmt, st);
    case ObjectArray(objects) => ObjectArrayGo(objects, depth, pretty, fmt, st);
    case _ => FlatGo(v, depth, pretty, fmt, st);
  }

  // ----- documents

  /**
   For every representation whose names and strings need no escape, in both styles: the text is JSON if
   and only if the members of objects, and they alone, have keys, every member has a value, and no name
   and no string has a control character. The outermost brackets are square if the first member is an
   object without a name.
   */
  lemma DocumentIsJson(rep: Rep, pretty: bool, fmt: FloatFormat)
    requires Verbatim(rep) && FixedPoints(fmt)
    ensures IsJson(Text(Document(rep, pretty, fmt))) <==> Framable(rep, !IsTopArray(rep))
  {
    hide Go, Pieces, Either, Loose, FixedPoints, Framable, Text;
    var keys, st := !IsTopArray(rep), At(WantValue, Bottom);
    var body := Pieces(rep, 0, pretty, fmt);
    var open := if keys then [Either(pretty, "{\n", "{")] else [Either(pretty, "[\n", "[")];
    var end := if keys then [Either(pretty, "}\n", "}")] else [Either(pretty, "]\n", "]")];
    GoEither(st, pretty, "{\n", "{", OPEN_CURLY, 10);
    GoEither(st, pretty, "[\n", "[", OPEN_SQUARE, 10);
    InsideGo(rep, keys, Bottom, 0, pretty, fmt);
    GoBoth(st, open, body);
    var st1 := Go(Begin(keys, true, Bottom), body);
    GoEither(st1, pretty, "}\n", "}", CLOSE_CURLY, 10);
    GoEither(st1, pretty, "]\n", "]", CLOSE_SQUARE, 10);
    assert Loose(end) by { LooseEnd(end, keys, pretty); }
    GoBoth(st, open + body, end);
    assert Document(rep, pretty, fmt) == open + body + end;
    GoIsJson(open + body + end);
  }

  lemma LooseEnd(end: seq<Piece>, keys: bool, pretty: bool)
    requires end == if keys then [Either(pretty, "}\n", "}")] else [Either(pretty, "]\n", "]")]
    ensures Loose(end)
  {
    hide Go, Either, Text;
    GoEither(Failed, pretty, "}\n", "}", CLOSE_CURLY, 10);
    GoEither(Failed, pretty, "]\n", "]", CLOSE_SQUARE, 10);
  }

  lemma GoIsJson(ps: seq<Piece>)
    ensures IsJson(Text(ps)) <==> Go(At(WantValue, Bottom), ps) == At(HaveValue, Bottom)
  {
  }

  /** The payload `[1,2]`, which comes out of the parser as one array without a key, is printed as `{[1,2]}`. */
  lemma TopArrayIsNoJson(fmt: FloatFormat)
    requires FixedPoints(fmt)
    ensures
      var rep := Member([], -1, IntArray([1, 2]), End);
      && Text(Document(rep, false, fmt)) == [OPEN_CURLY, OPEN_SQUARE, 49, COMMA, 50, CLOSE_SQUARE, CLOSE_CURLY]
      && !IsJson(Text(Document(rep, false, fmt)))
  {
    hide FixedPoints, Document, IsJson, Text, JsonReference.DocumentText, Verbatim, Framable;
    var rep := Member([], -1, IntArray([1, 2]), End);
    UnkeyedFails(rep);
    VerbatimArray(rep);
    DocumentIsJson(rep, false, fmt);
    JsonReference.CompactReads(rep, fmt);
    OneArrayText(rep, fmt);
  }

  /** Members of an object cannot do without keys, unless nothing at all is printed. */
  lemma UnkeyedFails(rep: Rep)
    requires rep.Member? && !Keyed(rep) && !Lone(rep)
    ensures !Framable(rep, true)
  {
    hide NoControl, HasValue, Lone;
    assert !GoodMember(rep, true);
  }

  lemma VerbatimArray(rep: Rep)
    requires rep.Member? && rep.name == [] && rep.value.IntArray? && rep.next == End
    ensures Verbatim(rep)
  {
    hide CString;
    NothingControlled();
    assert CString(rep.name, NUL) == [];
    assert ValueLacks(rep.value, QUOTE) && ValueLacks(rep.value, BACKSLASH);
    assert Lacks(rep.next, QUOTE) && Lacks(rep.next, BACKSLASH);
  }

  lemma OneArrayText(rep: Rep, fmt: FloatFormat)
    requires rep == Member([], -1, IntArray([1, 2]), End)
    ensures JsonReference.DocumentText(rep, fmt) == [OPEN_CURLY, OPEN_SQUARE, 49, COMMA, 50, CLOSE_SQUARE, CLOSE_CURLY]
  {
    WordIs("{", OPEN_CURLY, []);
    WordIs("}", CLOSE_CURLY, []);
    hide Ascii;
    OneRowText(fmt);
    var row := JsonReference.ValueText(rep.value, fmt);
    hide JsonReference.ValueText, JsonReference.Commas;
    assert [] + row == row;
    assert JsonReference.MemberTexts(rep, fmt) == [row] + [];
    JsonReference.OneItem(row);
  }

  lemma OneRowText(fmt: FloatFormat)
    ensures JsonReference.ValueText(IntArray([1, 2]), fmt) == [OPEN_SQUARE, 49, COMMA, 50, CLOSE_SQUARE]
  {
    WordIs("[", OPEN_SQUARE, []);
    WordIs("]", CLOSE_SQUARE, []);
    hide Ascii;
    var items: seq<seq<byte>> := [[49], [50]];
    assert SignedDecimal(1) == [49] && SignedDecimal(2) == [50];
    hide SignedDecimal;
    assert seq(2, i requires 0 <= i < 2 => SignedDecimal([1, 2][i])) == items;
    JsonReference.MoreItems([49], [[50]]);
    JsonReference.OneItem([50]);
    assert [[50]] + [] == [[50]] && [[49]] + [[50]] == items;
    hide JsonReference.Commas;
    assert JsonReference.Commas(items) == [49] + [COMMA] + [50];
  }

  /** The payload `{3: {1: 2}}` is printed as `["3":{"1":2}]`. */
  lemma NumberedObjectIsNoJson(fmt: FloatFormat)
    requires FixedPoints(fmt)
    ensures
      var rep := Member([], 3, Object(Member([], 1, Int(2), End)), End);
      IsTopArray(rep) && !IsJson(Text(Document(rep, false, fmt)))
  {
    hide FixedPoints, Document, IsJson, Text;
    var rep := Member([], 3, Object(Member([], 1, Int(2), End)), End);
    DocumentIsJson(rep, false, fmt);
  }

  /**
   Why names and strings are taken to need no escape: the one member named `a":1,"b` with the value 2 is
   printed like the members a and b with the values 1 and 2, which is JSON.
   */
  lemma BareQuoteMisleads(fmt: FloatFormat)
    requires FixedPoints(fmt)
    ensures
      var one := Member([97, 34, 58, 49, 44, 34, 98], -1, Int(2), End);
      var two := Member([97], -1, Int(1), Member([98], -1, Int(2), End));
      && Text(Document(one, false, fmt)) == Text(Document(two, false, fmt))
      && IsJson(Text(Document(two, false, fmt)))
  {
    hide FixedPoints, Document, IsJson, Text, Verbatim, Framable, JsonReference.MemberTexts, JsonReference.Commas,
        Ascii;
    var one := Member([97, 34, 58, 49, 44, 34, 98], -1, Int(2), End);
    var two := Member([97], -1, Int(1), Member([98], -1, Int(2), End));
    TwoFramed(two);
    DocumentIsJson(two, false, fmt);
    JsonReference.CompactReads(one, fmt);
    JsonReference.CompactReads(two, fmt);
    SameMembers([97], 1, [98], 2, fmt);
    assert [97] + [QUOTE, COLON, Digit(1), COMMA, QUOTE] + [98] == one.name;
  }

  /** Quote, colon, digit, comma and quote in a name look like the end of a member and the start of another. */
  lemma SameMembers(x: seq<byte>, i: nat, y: seq<byte>, j: nat, fmt: FloatFormat)
    requires x != [] && NUL !in x && i < 10 && y != [] && NUL !in y && j < 10
    ensures
      var one := Member(x + [QUOTE, COLON, Digit(i), COMMA, QUOTE] + y, -1, Int(j), End);
      var two := Member(x, -1, Int(i), Member(y, -1, Int(j), End));
      JsonReference.Commas(JsonReference.MemberTexts(one, fmt))
          == JsonReference.Commas(JsonReference.MemberTexts(two, fmt))
  {
    hide Digit, JsonReference.MemberTexts, JsonReference.Commas;
    DigitRead(i);
    var a, b, c := [QUOTE, COLON, Digit(i), COMMA, QUOTE], [QUOTE, COLON, Digit(i)], [QUOTE, COLON, Digit(j)];
    var name := x + a + y;
    assert NUL !in a;
    NumberMembers(name, j, End, fmt);
    NumberMembers(y, j, End, fmt);
    NumberMembers(x, i, Member(y, -1, Int(j), End), fmt);
    SameBytes(x, a, b, y, c);
  }

  lemma SameBytes(x: seq<byte>, a: seq<byte>, b: seq<byte>, y: seq<byte>, c: seq<byte>)
    requires a == b + [COMMA, QUOTE]
    ensures [QUOTE] + (x + a + y) + c + [] == [QUOTE] + x + b + ([COMMA] + ([QUOTE] + y + c + []))
  {
  }

  /** A member with a digit for a value, and those after it. */
  lemma NumberMembers(name: seq<byte>, i: nat, next: Rep, fmt: FloatFormat)
    requires name != [] && NUL !in name && i < 10
    ensures
      JsonReference.Commas(JsonReference.MemberTexts(Member(name, -1, Int(i), next), fmt)) ==
        [QUOTE] + name + [QUOTE, COLON, Digit(i)] +
        if next == End then [] else [COMMA] + JsonReference.Commas(JsonReference.MemberTexts(next, fmt))
  {
    NumberMember(name, i, fmt);
    hide JsonReference.Key, JsonReference.ValueText, JsonReference.Commas, Digit, CString;
    var x, rest := JsonReference.Key(name, -1) + [Digit(i)], JsonReference.MemberTexts(next, fmt);
    assert JsonReference.MemberTexts(Member(name, -1, Int(i), next), fmt) == [x] + rest;
    assert x == [QUOTE] + name + [QUOTE, COLON, Digit(i)];
    if next == End { JsonReference.OneItem(x); } else { JsonReference.MoreItems(x, rest); }
  }

  lemma NumberMember(name: seq<byte>, i: nat, fmt: FloatFormat)
    requires name != [] && NUL !in name && i < 10
    ensures JsonReference.Key(name, -1) == [QUOTE] + name + [QUOTE, COLON]
    ensures JsonReference.ValueText(Int(i), fmt) == [Digit(i)]
  {
    JsonReference.ColonTexts();
    hide Ascii, CString;
  }

  lemma TwoFramed(two: Rep)
    requires two == Member([97], -1, Int(1), Member([98], -1, Int(2), End))
    ensures Verbatim(two) && !IsTopArray(two) && Framable(two, true)
  {
    hide CString;
    FramedEnd(true);
    assert GoodMember(two.next, true) && GoodMember(two, true);
  }
}
