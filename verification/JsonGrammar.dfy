/**
 JSON texts: the grammar of RFC 8259 as an automaton that reads one byte at a time and keeps the
 brackets that are open. It knows nothing of who wrote the text. Bytes above 127 are taken as parts
 of characters.
 */
module JsonGrammar {
  import opened Octets

  datatype Nesting = Bottom | InArray(outer: Nesting) | InObject(outer: Nesting)

  /** How much of a number has been read. */
  datatype Part = Minus | Zero | Whole | Point | Fraction | Exponent | Sign | Power

  /** What has been read last, or what has to come next. */
  datatype Mode =
    | WantValue
    | WantFirst      // after "[": a value or "]"
    | WantFirstKey   // after "{": a key or "}"
    | WantKey        // after a comma in an object
    | WantColon
    | HaveValue
    | Chars(key: bool)
    | Escape(key: bool)
    | Hex(key: bool, left: nat)
    | Word(rest: seq<byte>)
    | Number(part: Part)

  datatype State = Failed | At(mode: Mode, nesting: Nesting)

  const BACKSLASH: byte := 92
  const OPEN_CURLY: byte := 123
  const CLOSE_CURLY: byte := 125
  const OPEN_SQUARE: byte := 91
  const CLOSE_SQUARE: byte := 93
  const POINT: byte := 46
  const MINUS: byte := 45

  /** White space between tokens */
  predicate IsSpace(c: byte) {
    c == 32 || c == 9 || c == 10 || c == 13
  }

  predicate IsControl(c: byte) {
    c < 32
  }

  predicate IsExponent(c: byte) {
    c == 69 || c == 101
  }

  /** The first character of a value. */
  function BeginValue(c: byte, k: Nesting): State {
    if c == QUOTE then At(Chars(false), k)
    else if c == OPEN_CURLY then At(WantFirstKey, InObject(k))
    else if c == OPEN_SQUARE then At(WantFirst, InArray(k))
    else if c == 116 then At(Word([114, 117, 101]), k)
    else if c == 102 then At(Word([97, 108, 115, 101]), k)
    else if c == 110 then At(Word([117, 108, 108]), k)
    else if c == MINUS then At(Number(Minus), k)
    else if c == 48 then At(Number(Zero), k)
    else if IsDigit(c) then At(Number(Whole), k)
    else Failed
  }

  /** The character after a value. */
  function EndValue(c: byte, k: Nesting): State {
    if IsSpace(c) then At(HaveValue, k)
    else if c == COMMA && k.InArray? then At(WantValue, k)
    else if c == COMMA && k.InObject? then At(WantKey, k)
    else if c == CLOSE_SQUARE && k.InArray? then At(HaveValue, k.outer)
    else if c == CLOSE_CURLY && k.InObject? then At(HaveValue, k.outer)
    else Failed
  }

  /** A number may end after these. */
  predicate Complete(p: Part) {
    p == Zero || p == Whole || p == Fraction || p == Power
  }

  function NextPart(p: Part, c: byte, k: Nesting): State {
    if p == Minus && c == 48 then At(Number(Zero), k)
    else if (p == Minus || p == Whole) && IsDigit(c) then At(Number(Whole), k)
    else if (p == Zero || p == Whole) && c == POINT then At(Number(Point), k)
    else if (p == Point || p == Fraction) && IsDigit(c) then At(Number(Fraction), k)
    else if (p == Zero || p == Whole || p == Fraction) && IsExponent(c) then At(Number(Exponent), k)
    else if p == Exponent && (c == 43 || c == MINUS) then At(Number(Sign), k)
    else if (p == Exponent || p == Sign || p == Power) && IsDigit(c) then At(Number(Power), k)
    else if Complete(p) then EndValue(c, k)
    else Failed
  }

  function NextChar(key: bool, c: byte, k: Nesting): State {
    if c == QUOTE then At(if key then WantColon else HaveValue, k)
    else if c == BACKSLASH then At(Escape(key), k)
    else if IsControl(c) then Failed
    else At(Chars(key), k)
  }

  function AfterBackslash(key: bool, c: byte, k: Nesting): State {
    if c in [QUOTE, BACKSLASH, 47, 98, 102, 110, 114, 116] then At(Chars(key), k)
    else if c == 117 then At(Hex(key, 4), k)
    else Failed
  }

  predicate IsHexDigit(c: byte) {
    IsDigit(c) || 65 <= c <= 70 || 97 <= c <= 102
  }

  function Step(st: State, c: byte): State {
    match st
    case Failed => Failed
    case At(mode, k) =>
      match mode
      case WantValue => if IsSpace(c) then st else BeginValue(c, k)
      case WantFirst =>
        if IsSpace(c) then st
        else if c == CLOSE_SQUARE then EndValue(c, k)
        else BeginValue(c, k)
      case WantFirstKey =>
        if IsSpace(c) then st
        else if c == QUOTE then At(Chars(true), k)
        else if c == CLOSE_CURLY then EndValue(c, k)
        else Failed
      case WantKey => if IsSpace(c) then st else if c == QUOTE then At(Chars(true), k) else Failed
      case WantColon => if IsSpace(c) then st else if c == COLON then At(WantValue, k) else Failed
      case HaveValue => EndValue(c, k)
      case Chars(key) => NextChar(key, c, k)
      case Escape(key) => AfterBackslash(key, c, k)
      case Hex(key, left) =>
        if !IsHexDigit(c) then Failed
        else At(if left > 1 then Hex(key, left - 1) else Chars(key), k)
      case Word(rest) =>
        if rest == [] || rest[0] != c then Failed
        else At(if |rest| > 1 then Word(rest[1..]) else HaveValue, k)
      case Number(part) => NextPart(part, c, k)
  }

  function Run(st: State, s: seq<byte>): State
    decreases |s|
  {
    if s == [] then st else Run(Step(st, s[0]), s[1..])
  }

  /** The end of the text is the end of a number, too. */
  function Settle(st: State): State {
    if st.At? && st.mode.Number? && Complete(st.mode.part) then At(HaveValue, st.nesting) else st
  }

  /** One value, with white space around it. */
  predicate IsJson(s: seq<byte>) {
    Settle(Run(At(WantValue, Bottom), s)) == At(HaveValue, Bottom)
  }

  // ----- reading in parts

  lemma {:induction false} RunBoth(st: State, a: seq<byte>, b: seq<byte>)
    ensures Run(st, a + b) == Run(Run(st, a), b)
    decreases |a|
  {
    hide Step;
    if a == [] {
      assert a + b == b;
    } else {
      assert (a + b)[1..] == a[1..] + b;
      RunBoth(Step(st, a[0]), a[1..], b);
    }
  }

  lemma RunOne(st: State, c: byte)
    ensures Run(st, [c]) == Step(st, c)
  {
    hide Step;
    assert [c][1..] == [];
  }

  lemma RunNone(st: State)
    ensures Run(st, []) == st
  {
  }

  lemma RunFirst(st: State, c: byte, s: seq<byte>)
    ensures Run(st, [c] + s) == Run(Step(st, c), s)
  {
    hide Step;
    assert ([c] + s)[1..] == s;
  }

  lemma {:induction false} RunFailed(s: seq<byte>)
    ensures Run(Failed, s) == Failed
  {
    if s != [] { RunFailed(s[1..]); }
  }

  /** What ends a number is read as after any other value. */
  lemma SettledStep(st: State, c: byte)
    requires IsSpace(c) || c == COMMA || c == CLOSE_SQUARE || c == CLOSE_CURLY
    ensures Step(Settle(st), c) == Step(st, c)
  {
  }

  lemma SettledRun(st: State, s: seq<byte>)
    requires s != [] ==> IsSpace(s[0]) || s[0] == COMMA || s[0] == CLOSE_SQUARE || s[0] == CLOSE_CURLY
    ensures Settle(Run(Settle(st), s)) == Settle(Run(st, s))
  {
    hide Step;
    if s != [] { SettledStep(st, s[0]); }
  }

  // ----- tokens

  /** Between tokens, or after a failure. */
  predicate Calm(st: State) {
    st.At? ==> st.mode.WantValue? || st.mode.WantFirst? || st.mode.WantFirstKey? || st.mode.WantKey?
               || st.mode.WantColon? || st.mode.HaveValue?
  }

  lemma {:induction false} SpacesRun(st: State, s: seq<byte>)
    requires Calm(st) && forall c | c in s :: IsSpace(c)
    ensures Run(st, s) == st
  {
    if s != [] {
      assert s[0] in s;
      SpacesRun(st, s[1..]);
    }
  }

  lemma {:induction false} WordRuns(rest: seq<byte>, k: Nesting)
    requires rest != []
    ensures Run(At(Word(rest), k), rest) == At(HaveValue, k)
  {
    if |rest| > 1 {
      WordRuns(rest[1..], k);
    } else {
      assert rest[1..] == [];
    }
  }

  /** Nothing that would end or escape the string. */
  predicate Unescaped(s: seq<byte>) {
    QUOTE !in s && BACKSLASH !in s
  }

  predicate NoControl(s: seq<byte>) {
    forall c | c in s :: !IsControl(c)
  }

  lemma {:induction false} CharsRun(key: bool, s: seq<byte>, k: Nesting)
    requires Unescaped(s)
    ensures Run(At(Chars(key), k), s) == if NoControl(s) then At(Chars(key), k) else Failed
  {
    if s != [] {
      assert s[0] in s && forall c | c in s :: c == s[0] || c in s[1..];
      if IsControl(s[0]) { RunFailed(s[1..]); } else { CharsRun(key, s[1..], k); }
    }
  }

  /** From where a string may start. */
  lemma StringRuns(st: State, key: bool, s: seq<byte>)
    requires Unescaped(s) && st.At?
    requires if key then st.mode.WantFirstKey? || st.mode.WantKey? else st.mode.WantValue? || st.mode.WantFirst?
    ensures Run(st, [QUOTE] + s + [QUOTE]) ==
              if NoControl(s) then At(if key then WantColon else HaveValue, st.nesting) else Failed
  {
    RunBoth(st, [QUOTE] + s, [QUOTE]);
    RunFirst(st, QUOTE, s);
    CharsRun(key, s, st.nesting);
    RunOne(Run(Step(st, QUOTE), s), QUOTE);
    hide Run;
  }

  /** A natural number, at its start or after a minus sign. */
  lemma {:induction false} DecimalRuns(st: State, n: nat)
    requires st.At? && (st.mode.WantValue? || st.mode.WantFirst? || st.mode == Number(Minus))
    ensures Run(st, Decimal(n)) == At(Number(if n == 0 then Zero else Whole), st.nesting)
    decreases n
  {
    DigitRead(n % 10);
    if n < 10 {
      RunOne(st, Digit(n));
    } else {
      DecimalRuns(st, n / 10);
      RunBoth(st, Decimal(n / 10), [Digit(n % 10)]);
      RunOne(Run(st, Decimal(n / 10)), Digit(n % 10));
    }
  }

  lemma MinusStep(st: State)
    requires st.At? && (st.mode.WantValue? || st.mode.WantFirst?)
    ensures Step(st, MINUS) == At(Number(Minus), st.nesting)
  {
  }

  lemma PointStep(p: Part, k: Nesting)
    requires p == Zero || p == Whole
    ensures Step(At(Number(p), k), POINT) == At(Number(Point), k)
  {
  }

  lemma SignedRuns(st: State, i: int)
    requires st.At? && (st.mode.WantValue? || st.mode.WantFirst?)
    ensures Settle(Run(st, SignedDecimal(i))) == At(HaveValue, st.nesting)
  {
    hide Run, Decimal, Step;
    if i < 0 {
      RunFirst(st, MINUS, Decimal(-i));
      MinusStep(st);
      DecimalRuns(At(Number(Minus), st.nesting), -i);
    } else {
      DecimalRuns(st, i);
    }
  }

  /** Digits around a point, as `%f` prints a number that is neither infinite nor undefined. */
  function FixedPoint(negative: bool, whole: nat, decimals: seq<byte>): seq<byte> {
    (if negative then [MINUS] else []) + (Decimal(whole) + ([POINT] + decimals))
  }

  ghost predicate IsFixedPoint(s: seq<byte>) {
    exists negative: bool, whole: nat, decimals: seq<byte> ::
      decimals != [] && (forall c | c in decimals :: IsDigit(c)) && s == FixedPoint(negative, whole, decimals)
  }

  lemma {:induction false} DecimalsRun(p: Part, s: seq<byte>, k: Nesting)
    requires s != [] && (forall c | c in s :: IsDigit(c)) && (p == Point || p == Fraction)
    ensures Run(At(Number(p), k), s) == At(Number(Fraction), k)
    decreases |s|
  {
    assert s[0] in s;
    if |s| > 1 {
      DecimalsRun(Fraction, s[1..], k);
    } else {
      assert s[1..] == [];
    }
  }

  lemma FixedPointRuns(st: State, s: seq<byte>)
    requires st.At? && (st.mode.WantValue? || st.mode.WantFirst?) && IsFixedPoint(s)
    ensures Settle(Run(st, s)) == At(HaveValue, st.nesting)
  {
    var negative: bool, whole: nat, decimals: seq<byte> :|
      decimals != [] && (forall c | c in decimals :: IsDigit(c)) && s == FixedPoint(negative, whole, decimals);
    hide Run, Decimal, Step;
    var st1 := if negative then Step(st, MINUS) else st;
    var rest := Decimal(whole) + ([POINT] + decimals);
    if negative { RunFirst(st, MINUS, rest); } else { assert [] + rest == rest; }
    MinusStep(st);
    DecimalRuns(st1, whole);
    RunBoth(st1, Decimal(whole), [POINT] + decimals);
    RunFirst(Run(st1, Decimal(whole)), POINT, decimals);
    PointStep(if whole == 0 then Zero else Whole, st.nesting);
    DecimalsRun(Point, decimals, st.nesting);
  }
}
