/**
 What the texts of `oc_rep_to_json` say: a reader of JSON that shares nothing with the writer gets
 the keys and values back for every representation whose names and strings need no escape.
 */
module JsonMeaning {
  import opened CStrings
  import opened JsonGrammar
  import opened JsonReader
  import opened JsonText
  import opened JsonValidity
  import opened Octets
  import Base64
  import L = JsonLookup
  import R = JsonReference

  // ----- what a representation is as JSON

  /** Integer keys are strings in JSON: the number as `%d` prints it. */
  function KeyOf(name: seq<byte>, iname: int): seq<byte> {
    if |name| > 0 then CString(name, NUL) else SignedDecimal(iname)
  }

  /** Byte strings are in base64, and strings end at their first NUL. */
  function Meaning(v: Value, fmt: FloatFormat): Json {
    match v
    case Null => JNull
    case Int(i) => JInteger(i)
    case Float(f) => JFraction(fmt(f))
    case Double(d) => JFraction(fmt(d))
    case Bool(b) => JBool(b)
    case Blob(bytes) => JString(Base64.Encoded(bytes))
    case Str(s) => JString(CString(s, NUL))
    case Object(members) => JObject(FieldsOf(members, fmt))
    case IntArray(ints) => JArray(seq(|ints|, i requires 0 <= i < |ints| => JInteger(ints[i])))
    case FloatArray(fs) => JArray(seq(|fs|, i requires 0 <= i < |fs| => JFraction(fmt(fs[i]))))
    case DoubleArray(ds) => JArray(seq(|ds|, i requires 0 <= i < |ds| => JFraction(fmt(ds[i]))))
    case BoolArray(bs) => JArray(seq(|bs|, i requires 0 <= i < |bs| => JBool(bs[i])))
    case BlobArray(bs) => JArray(seq(|bs|, i requires 0 <= i < |bs| => JString(Base64.Encoded(bs[i]))))
    case StrArray(ss) => JArray(seq(|ss|, i requires 0 <= i < |ss| => JString(CString(ss[i], NUL))))
    case ObjectArray(objects) => JArray(ObjectsOf(objects, fmt))
    case MixedArray(elements) => JArray(ItemsOf(elements, fmt))
    case Array => JNull
  }

  function FieldsOf(rep: Rep, fmt: FloatFormat): seq<Field> {
    if rep == End || Lone(rep) then []
    else [Field(KeyOf(rep.name, rep.iname), Meaning(rep.value, fmt))] + FieldsOf(rep.next, fmt)
  }

  function ItemsOf(rep: Rep, fmt: FloatFormat): seq<Json> {
    if rep == End || Lone(rep) then [] else [Meaning(rep.value, fmt)] + ItemsOf(rep.next, fmt)
  }

  function ObjectsOf(os: Objects, fmt: FloatFormat): seq<Json> {
    [JObject(FieldsOf(os.item, fmt))] + if os.More? then ObjectsOf(os.rest, fmt) else []
  }

  function DocumentOf(rep: Rep, fmt: FloatFormat): Json {
    if IsTopArray(rep) then JArray(ItemsOf(rep, fmt)) else JObject(FieldsOf(rep, fmt))
  }

  // ----- texts that are read as one value, whatever may come after it

  /** What may come after a value: nothing, a comma or a closing bracket. */
  predicate Ends(r: seq<byte>) {
    r == [] || r[0] == 44 || r[0] == 93 || r[0] == 125
  }

  ghost predicate Means(s: seq<byte>, j: Json) {
    forall r | Ends(r) :: ReadValue(s + r) == Got(j, r)
  }

  ghost predicate FieldMeans(s: seq<byte>, f: Field) {
    forall r | Ends(r) :: ReadField(s + r) == Got(f, r)
  }

  /** A value does not start like the end of an array. */
  lemma MeansStarts(s: seq<byte>, j: Json)
    requires Means(s, j)
    ensures s != [] && s[0] != 93
  {
    assert s + [] == s;
    assert ReadValue(s + []) == Got(j, []);
    if s != [] && s[0] == 93 {
      NotANumber(s);
    }
  }

  lemma NotANumber(s: seq<byte>)
    requires s != [] && s[0] == 93
    ensures ReadValue(s).Bad?
  {
    assert NumeralRun(s[0..]) == 0;
  }

  lemma FieldStarts(s: seq<byte>, f: Field)
    requires FieldMeans(s, f)
    ensures s != [] && s[0] == 34
  {
    hide ReadValue, ReadString;
    assert s + [] == s;
    assert ReadField(s + []) == Got(f, []);
  }

  // ----- words and numbers

  lemma WordMeans(s: seq<byte>, j: Json)
    requires (s, j) in {([110, 117, 108, 108], JNull), ([116, 114, 117, 101], JBool(true)),
                        ([102, 97, 108, 115, 101], JBool(false))}
    ensures Means(s, j)
  {
    forall r | Ends(r) ensures ReadValue(s + r) == Got(j, r) {
      assert (s + r)[|s|..] == r && s <= s + r;
      assert (s + r)[0] == s[0];
    }
  }

  lemma WordTexts()
    ensures Ascii("null") == [110, 117, 108, 108]
    ensures BoolText(true) == [116, 114, 117, 101] && BoolText(false) == [102, 97, 108, 115, 101]
  {
    WordIs("null", 110, [117, 108, 108]);
    WordIs("true", 116, [114, 117, 101]);
    WordIs("false", 102, [97, 108, 115, 101]);
    hide Ascii;
  }

  lemma WordsMean()
    ensures Means(Ascii("null"), JNull) && Means(BoolText(true), JBool(true)) && Means(BoolText(false), JBool(false))
  {
    hide *;
    WordTexts();
    WordMeans([110, 117, 108, 108], JNull);
    WordMeans([116, 114, 117, 101], JBool(true));
    WordMeans([102, 97, 108, 115, 101], JBool(false));
  }

  ghost predicate AllNumerals(s: seq<byte>) {
    forall c | c in s :: Numeral(c)
  }

  lemma {:induction false} RunIs(s: seq<byte>, r: seq<byte>)
    requires AllNumerals(s) && (r == [] || !Numeral(r[0]))
    ensures NumeralRun(s + r) == |s|
  {
    if s == [] {
      assert s + r == r;
    } else {
      assert s[0] in s && (s + r)[1..] == s[1..] + r && forall c | c in s[1..] :: c in s;
      RunIs(s[1..], r);
    }
  }

  lemma DigitWorth(d: nat)
    requires d < 10
    ensures Numeral(Digit(d)) && Digit(d) as int - 48 == d
  {
  }

  lemma {:induction false} DecimalWorth(n: nat)
    ensures AllNumerals(Decimal(n)) && Worth(Decimal(n)) == n && Decimal(n) != []
    decreases n
  {
    hide Digit;
    var s := Decimal(n);
    DigitWorth(n % 10);
    if n < 10 {
      assert s[..|s| - 1] == [];
      assert Worth([]) == 0;
    } else {
      DecimalWorth(n / 10);
      assert s[..|s| - 1] == Decimal(n / 10) && s[|s| - 1] == Digit(n % 10);
    }
  }

  /** What does not start like a word, a string or a bracket is read as a number. */
  lemma NumberIsRead(s: seq<byte>)
    requires s != [] && (s[0] == 45 || Numeral(s[0]))
    ensures ReadValue(s) == ReadNumber(s, if s[0] == 45 then 1 else 0)
  {
    hide ReadNumber;
  }

  lemma IntegerMeans(i: int)
    ensures Means(SignedDecimal(i), JInteger(i))
  {
    hide Decimal, ReadNumber, ReadValue;
    var digits, sign := Decimal(if i < 0 then -i else i), if i < 0 then 1 else 0;
    DecimalWorth(if i < 0 then -i else i);
    assert digits[0] in digits;
    var s := SignedDecimal(i);
    assert s[sign..] == digits;
    forall r | Ends(r) ensures ReadValue(s + r) == Got(JInteger(i), r) {
      assert (s + r)[0] == if i < 0 then 45 else digits[0];
      NumberIsRead(s + r);
      IntegerIsRead(s, sign, digits, r);
    }
  }

  lemma IntegerIsRead(s: seq<byte>, sign: nat, digits: seq<byte>, r: seq<byte>)
    requires sign <= 1 && sign <= |s| && s[sign..] == digits && Ends(r) && AllNumerals(digits) && digits != []
    ensures ReadNumber(s + r, sign) == Got(JInteger(if sign == 1 then -Worth(digits) else Worth(digits)), r)
  {
    var t, n := s + r, |digits|;
    assert t[sign..] == digits + r;
    RunIs(digits, r);
    hide Worth, NumeralRun, Numeral, AllNumerals;
    assert sign + n == |s| && t[sign..sign + n] == digits && t[|s|..] == r;
  }

  lemma FractionMeans(s: seq<byte>)
    requires IsFixedPoint(s)
    ensures Means(s, JFraction(s))
  {
    var negative: bool, whole: nat, decimals: seq<byte> :|
      decimals != [] && (forall c | c in decimals :: IsDigit(c)) && s == FixedPoint(negative, whole, decimals);
    hide Decimal, ReadNumber, ReadValue;
    DecimalWorth(whole);
    var digits, sign := Decimal(whole), if negative then 1 else 0;
    assert digits[0] in digits;
    assert s[sign..] == digits + [46] + decimals;
    forall r | Ends(r) ensures ReadValue(s + r) == Got(JFraction(s), r) {
      assert (s + r)[0] == if negative then 45 else digits[0];
      NumberIsRead(s + r);
      FractionIsRead(s, sign, digits, decimals, r);
    }
  }

  lemma FractionIsRead(s: seq<byte>, sign: nat, digits: seq<byte>, decimals: seq<byte>, r: seq<byte>)
    requires sign <= 1 && sign <= |s| && s[sign..] == digits + [46] + decimals && Ends(r)
    requires AllNumerals(digits) && digits != [] && AllNumerals(decimals) && decimals != []
    ensures ReadNumber(s + r, sign) == Got(JFraction(s), r)
  {
    var t, n := s + r, |digits|;
    assert t[sign..] == digits + ([46] + decimals + r);
    assert !Numeral(([46] + decimals + r)[0]);
    RunIs(digits, [46] + decimals + r);
    assert t[sign + n] == 46 && t[sign + n + 1..] == decimals + r;
    RunIs(decimals, r);
    hide Worth, NumeralRun, Numeral, AllNumerals;
    assert sign + n + 1 + |decimals| == |s| && t[..|s|] == s && t[|s|..] == r;
  }

  // ----- strings

  lemma {:induction false} CharRunIs(s: seq<byte>, r: seq<byte>)
    requires Unescaped(s) && NoControl(s)
    ensures CharRun(s + [34] + r) == |s|
  {
    if s == [] {
      assert s + [34] + r == [34] + r;
    } else {
      assert s[0] in s && (s + [34] + r)[1..] == s[1..] + [34] + r && forall c | c in s[1..] :: c in s;
      CharRunIs(s[1..], r);
    }
  }

  lemma StringIsRead(s: seq<byte>, r: seq<byte>)
    requires Unescaped(s) && NoControl(s)
    ensures ReadString(s + [34] + r) == Got(s, r)
  {
    hide CharRun, Unescaped, NoControl;
    CharRunIs(s, r);
    var t := s + [34] + r;
    assert t[|s|] == 34 && t[..|s|] == s && t[|s| + 1..] == r;
  }

  lemma StringMeans(s: seq<byte>)
    requires Unescaped(s) && NoControl(s)
    ensures Means(R.Quotes(s), JString(s))
  {
    hide ReadString, Unescaped, NoControl, ReadValue;
    forall r | Ends(r) ensures ReadValue(R.Quotes(s) + r) == Got(JString(s), r) {
      StringIsRead(s, r);
      assert R.Quotes(s) + r == [34] + (s + [34] + r);
      QuoteIsRead(s + [34] + r);
    }
  }

  lemma QuoteIsRead(s: seq<byte>)
    ensures ReadValue([34] + s) ==
              var a := ReadString(s);
              if a.Bad? then Bad else Got(JString(a.value), a.rest)
  {
    hide ReadString;
    var t := [34] + s;
    assert t[0] == 34 && t[1..] == s;
  }

  lemma FieldIsRead(key: seq<byte>, text: seq<byte>, j: Json)
    requires Unescaped(key) && NoControl(key) && Means(text, j)
    ensures FieldMeans([34] + key + [34, 58] + text, Field(key, j))
  {
    hide ReadString, Unescaped, NoControl, ReadValue;
    var s := [34] + key + [34, 58] + text;
    forall r | Ends(r) ensures ReadField(s + r) == Got(Field(key, j), r) {
      StringIsRead(key, [58] + (text + r));
      assert (s + r)[1..] == key + [34] + ([58] + (text + r));
      assert ([58] + (text + r))[1..] == text + r;
    }
  }

  // ----- between brackets

  lemma BracketsAre()
    ensures Ascii("[") == [91] && Ascii("]") == [93] && Ascii("{") == [123] && Ascii("}") == [125]
  {
    WordIs("[", 91, []);
    WordIs("]", 93, []);
    WordIs("{", 123, []);
    WordIs("}", 125, []);
  }

  ghost predicate ItemsMean(texts: seq<seq<byte>>, items: seq<Json>) {
    |texts| == |items| && forall i | 0 <= i < |items| :: Means(texts[i], items[i])
  }

  ghost predicate FieldsMean(texts: seq<seq<byte>>, fields: seq<Field>) {
    |texts| == |fields| && forall i | 0 <= i < |fields| :: FieldMeans(texts[i], fields[i])
  }

  lemma LastItemIsRead(s: seq<byte>, j: Json, r: seq<byte>)
    requires Means(s, j)
    ensures ReadItems(s + ([93] + r)) == Got([j], r)
  {
    hide ReadValue;
    assert Ends([93] + r) && ([93] + r)[1..] == r;
  }

  lemma NextItemIsRead(s: seq<byte>, j: Json, rest: seq<byte>)
    requires Means(s, j)
    ensures ReadItems(s + ([44] + rest)) ==
              var more := ReadItems(rest);
              if more.Bad? then Bad else Got([j] + more.value, more.rest)
  {
    hide ReadValue;
    assert Ends([44] + rest) && ([44] + rest)[1..] == rest;
  }

  lemma {:induction false} ItemsAreRead(texts: seq<seq<byte>>, items: seq<Json>, r: seq<byte>)
    requires ItemsMean(texts, items) && items != []
    ensures ReadItems(R.Commas(texts) + [93] + r) == Got(items, r)
    decreases |items|
  {
    hide ReadValue, ReadItems, Means;
    var s, first := R.Commas(texts) + [93] + r, texts[0];
    if |items| == 1 {
      assert s == first + ([93] + r);
      assert [items[0]] == items;
      LastItemIsRead(first, items[0], r);
    } else {
      var rest := R.Commas(texts[1..]) + [93] + r;
      assert s == first + ([44] + rest);
      assert items == [items[0]] + items[1..];
      ItemsAreRead(texts[1..], items[1..], r);
      NextItemIsRead(first, items[0], rest);
    }
  }

  lemma LastFieldIsRead(s: seq<byte>, f: Field, r: seq<byte>)
    requires FieldMeans(s, f)
    ensures ReadFields(s + ([125] + r)) == Got([f], r)
  {
    hide ReadField;
    assert Ends([125] + r) && ([125] + r)[1..] == r;
  }

  lemma NextFieldIsRead(s: seq<byte>, f: Field, rest: seq<byte>)
    requires FieldMeans(s, f)
    ensures ReadFields(s + ([44] + rest)) ==
              var more := ReadFields(rest);
              if more.Bad? then Bad else Got([f] + more.value, more.rest)
  {
    hide ReadField;
    assert Ends([44] + rest) && ([44] + rest)[1..] == rest;
  }

  lemma {:induction false} FieldsAreRead(texts: seq<seq<byte>>, fields: seq<Field>, r: seq<byte>)
    requires FieldsMean(texts, fields) && fields != []
    ensures ReadFields(R.Commas(texts) + [125] + r) == Got(fields, r)
    decreases |fields|
  {
    hide ReadField, ReadFields, FieldMeans;
    var s, first := R.Commas(texts) + [125] + r, texts[0];
    if |fields| == 1 {
      assert s == first + ([125] + r);
      assert [fields[0]] == fields;
      LastFieldIsRead(first, fields[0], r);
    } else {
      var rest := R.Commas(texts[1..]) + [125] + r;
      assert s == first + ([44] + rest);
      assert fields == [fields[0]] + fields[1..];
      FieldsAreRead(texts[1..], fields[1..], r);
      NextFieldIsRead(first, fields[0], rest);
    }
  }

  lemma CommasStart(texts: seq<seq<byte>>)
    requires texts != [] && texts[0] != []
    ensures R.Commas(texts) != [] && R.Commas(texts)[0] == texts[0][0]
  {
  }

  lemma ArrayMeans(texts: seq<seq<byte>>, items: seq<Json>)
    requires ItemsMean(texts, items) || (texts == [[]] && items == [])
    ensures Means(R.Brackets(texts), JArray(items))
  {
    hide ReadItems, ReadValue, R.Commas, Ascii, Means;
    BracketsAre();
    var body := R.Commas(texts);
    if items == [] {
      R.NoCommas();
      R.OneItem([]);
      assert texts == [[]] + [] || texts == [];
    } else {
      MeansStarts(texts[0], items[0]);
      CommasStart(texts);
    }
    assert Means([91] + body + [93], JArray(items)) by {
      forall r | Ends(r) ensures ReadValue([91] + body + [93] + r) == Got(JArray(items), r) {
        if items != [] { ItemsAreRead(texts, items, r); }
        SquareIsRead(body, items, r);
      }
      EachMeans([91] + body + [93], JArray(items));
    }
  }

  lemma EachMeans(s: seq<byte>, j: Json)
    requires forall r | Ends(r) :: ReadValue(s + r) == Got(j, r)
    ensures Means(s, j)
  {
  }

  lemma SquareIsRead(body: seq<byte>, items: seq<Json>, r: seq<byte>)
    requires if items == [] then body == [] else body != [] && body[0] != 93
    requires items != [] ==> ReadItems(body + [93] + r) == Got(items, r)
    ensures ReadValue([91] + body + [93] + r) == Got(JArray(items), r)
  {
    hide ReadItems;
    var s := [91] + body + [93] + r;
    assert s[0] == 91 && s[1..] == body + [93] + r;
    if items == [] {
      assert [91, 93] <= s && s[2..] == r;
    } else {
      assert s[1] == body[0];
    }
  }

  lemma CurlyIsRead(body: seq<byte>, fields: seq<Field>, r: seq<byte>)
    requires if fields == [] then body == [] else body != [] && body[0] != 125
    requires fields != [] ==> ReadFields(body + [125] + r) == Got(fields, r)
    ensures ReadValue([123] + body + [125] + r) == Got(JObject(fields), r)
  {
    hide ReadFields;
    var s := [123] + body + [125] + r;
    assert s[0] == 123 && s[1..] == body + [125] + r;
    if fields == [] {
      assert [123, 125] <= s && s[2..] == r;
    } else {
      assert s[1] == body[0];
    }
  }

  lemma ObjectMeans(texts: seq<seq<byte>>, fields: seq<Field>)
    requires FieldsMean(texts, fields) || (texts == [[]] && fields == [])
    ensures Means(R.Braces(texts), JObject(fields))
  {
    hide ReadFields, ReadValue, R.Commas, Ascii, Means, FieldMeans;
    BracketsAre();
    var body := R.Commas(texts);
    if fields == [] {
      R.NoCommas();
      R.OneItem([]);
      assert texts == [[]] + [] || texts == [];
    } else {
      FieldStarts(texts[0], fields[0]);
      CommasStart(texts);
    }
    assert Means([123] + body + [125], JObject(fields)) by {
      forall r | Ends(r) ensures ReadValue([123] + body + [125] + r) == Got(JObject(fields), r) {
        if fields != [] { FieldsAreRead(texts, fields, r); }
        CurlyIsRead(body, fields, r);
      }
      EachMeans([123] + body + [125], JObject(fields));
    }
  }

  // ----- representations

  lemma ScalarMeans(v: Value, fmt: FloatFormat)
    requires v.Null? || v.Int? || v.Float? || v.Double? || v.Bool? || v.Blob? || v.Str?
    requires HasValue(v) && VerbatimValue(v) && FixedPoints(fmt)
    ensures Means(R.ValueText(v, fmt), Meaning(v, fmt))
  {
    hide Means, IsFixedPoint, SignedDecimal, BoolText, CString, Base64.Encoded, R.Quotes, Ascii, NoControl, Unescaped;
    match v
    case Null => WordsMean();
    case Int(i) => IntegerMeans(i);
    case Float(f) => FractionMeans(fmt(f));
    case Double(d) => FractionMeans(fmt(d));
    case Bool(_) => WordsMean();
    case Blob(bytes) =>
      BlobSafe(bytes);
      StringMeans(Base64.Encoded(bytes));
    case Str(s) =>
      VerbatimUnescaped(s);
      StringMeans(CString(s, NUL));
  }

  lemma NumbersMean(fs: seq<real>, fmt: FloatFormat)
    requires FixedPoints(fmt)
    ensures forall i | 0 <= i < |fs| :: Means(fmt(fs[i]), JFraction(fmt(fs[i])))
  {
    hide Means, IsFixedPoint;
    forall i | 0 <= i < |fs| ensures Means(fmt(fs[i]), JFraction(fmt(fs[i]))) {
      var f := fs[i];
      assert IsFixedPoint(fmt(f));
      FractionMeans(fmt(fs[i]));
    }
  }

  lemma RowMeans(v: Value, fmt: FloatFormat)
    requires v.IntArray? || v.FloatArray? || v.DoubleArray? || v.BoolArray?
    requires FixedPoints(fmt)
    ensures Means(R.ValueText(v, fmt), Meaning(v, fmt))
  {
    hide Means, FixedPoints, SignedDecimal, BoolText, R.Brackets;
    match v
    case IntArray(ints) =>
      forall i | 0 <= i < |ints| ensures Means(SignedDecimal(ints[i]), JInteger(ints[i])) { IntegerMeans(ints[i]); }
      ArrayMeans(seq(|ints|, i requires 0 <= i < |ints| => SignedDecimal(ints[i])),
                 seq(|ints|, i requires 0 <= i < |ints| => JInteger(ints[i])));
    case FloatArray(fs) =>
      NumbersMean(fs, fmt);
      ArrayMeans(R.NumberTexts(fs, fmt), seq(|fs|, i requires 0 <= i < |fs| => JFraction(fmt(fs[i]))));
    case DoubleArray(ds) =>
      NumbersMean(ds, fmt);
      ArrayMeans(R.NumberTexts(ds, fmt), seq(|ds|, i requires 0 <= i < |ds| => JFraction(fmt(ds[i]))));
    case BoolArray(bs) =>
      WordsMean();
      ArrayMeans(seq(|bs|, i requires 0 <= i < |bs| => BoolText(bs[i])),
                 seq(|bs|, i requires 0 <= i < |bs| => JBool(bs[i])));
  }

  lemma ColumnMeans(v: Value, fmt: FloatFormat)
    requires v.BlobArray? || v.StrArray?
    requires HasValue(v) && VerbatimValue(v)
    ensures Means(R.ValueText(v, fmt), Meaning(v, fmt))
  {
    hide Means, CString, Base64.Encoded, R.Quotes, NoControl, Unescaped, R.Brackets;
    match v
    case BlobArray(bs) =>
      forall i | 0 <= i < |bs| ensures Means(R.Quotes(Base64.Encoded(bs[i])), JString(Base64.Encoded(bs[i]))) {
        BlobSafe(bs[i]);
        StringMeans(Base64.Encoded(bs[i]));
      }
      ArrayMeans(seq(|bs|, i requires 0 <= i < |bs| => R.Quotes(Base64.Encoded(bs[i]))),
                 seq(|bs|, i requires 0 <= i < |bs| => JString(Base64.Encoded(bs[i]))));
    case StrArray(ss) =>
      forall i | 0 <= i < |ss| ensures Means(R.Quotes(CString(ss[i], NUL)), JString(CString(ss[i], NUL))) {
        assert ss[i] in ss;
        VerbatimUnescaped(ss[i]);
        StringMeans(CString(ss[i], NUL));
      }
      ArrayMeans(seq(|ss|, i requires 0 <= i < |ss| => R.Quotes(CString(ss[i], NUL))),
                 seq(|ss|, i requires 0 <= i < |ss| => JString(CString(ss[i], NUL))));
  }

  lemma LoneText(rep: Rep, fmt: FloatFormat)
    requires Lone(rep)
    ensures R.MemberTexts(rep, fmt) == [[]]
  {
    assert R.MemberTexts(rep.next, fmt) == [];
    var none := R.Key(rep.name, rep.iname);
    assert none == [] && R.ValueText(rep.value, fmt) == [] && none + [] == none;
  }

  lemma {:induction false} ValueMeans(v: Value, fmt: FloatFormat)
    requires HasValue(v) && VerbatimValue(v) && FixedPoints(fmt)
    ensures Means(R.ValueText(v, fmt), Meaning(v, fmt))
    decreases v, 0
  {
    hide Means, FixedPoints, R.Brackets, R.Braces;
    match v
    case Object(members) =>
      InsideObjectMeans(members, fmt);
      ObjectMeans(R.MemberTexts(members, fmt), FieldsOf(members, fmt));
    case MixedArray(elements) =>
      InsideArrayMeans(elements, fmt);
      ArrayMeans(R.MemberTexts(elements, fmt), ItemsOf(elements, fmt));
    case ObjectArray(objects) =>
      ObjectsMean(objects, fmt);
      ArrayMeans(R.ObjectTexts(objects, fmt), ObjectsOf(objects, fmt));
    case IntArray(_) => RowMeans(v, fmt);
    case FloatArray(_) => RowMeans(v, fmt);
    case DoubleArray(_) => RowMeans(v, fmt);
    case BoolArray(_) => RowMeans(v, fmt);
    case BlobArray(_) => ColumnMeans(v, fmt);
    case StrArray(_) => ColumnMeans(v, fmt);
    case _ => ScalarMeans(v, fmt);
  }

  lemma {:induction false} InsideObjectMeans(rep: Rep, fmt: FloatFormat)
    requires Framable(rep, true) && Verbatim(rep) && FixedPoints(fmt)
    ensures var texts, fields := R.MemberTexts(rep, fmt), FieldsOf(rep, fmt);
            FieldsMean(texts, fields) || (texts == [[]] && fields == [])
    decreases rep, 3
  {
    if Lone(rep) { LoneText(rep, fmt); } else { MembersMean(rep, fmt); }
  }

  lemma {:induction false} InsideArrayMeans(rep: Rep, fmt: FloatFormat)
    requires Framable(rep, false) && Verbatim(rep) && FixedPoints(fmt)
    ensures var texts, items := R.MemberTexts(rep, fmt), ItemsOf(rep, fmt);
            ItemsMean(texts, items) || (texts == [[]] && items == [])
    decreases rep, 3
  {
    if Lone(rep) { LoneText(rep, fmt); } else { ElementsMean(rep, fmt); }
  }

  lemma KeyText(rep: Rep)
    requires rep.Member? && Verbatim(rep) && NoControl(CString(rep.name, NUL)) && Keyed(rep)
    ensures R.Key(rep.name, rep.iname) == [34] + KeyOf(rep.name, rep.iname) + [34, 58]
    ensures Unescaped(KeyOf(rep.name, rep.iname)) && NoControl(KeyOf(rep.name, rep.iname))
  {
    hide CString, SignedDecimal, NoControl, Unescaped;
    R.ColonTexts();
    if |rep.name| > 0 {
      VerbatimUnescaped(rep.name);
    } else {
      NumberKey(rep.iname);
    }
  }

  lemma NumberKey(i: nat)
    ensures Unescaped(SignedDecimal(i)) && NoControl(SignedDecimal(i))
  {
    DecimalSafe(i);
  }

  lemma {:induction false} MembersMean(rep: Rep, fmt: FloatFormat)
    requires Framed(rep, true) && Verbatim(rep) && FixedPoints(fmt)
    ensures FieldsMean(R.MemberTexts(rep, fmt), FieldsOf(rep, fmt))
    decreases rep, 2
  {
    hide Means, FieldMeans, FixedPoints, R.Key, KeyOf, NoControl, Unescaped, CString, R.ValueText, Meaning, HasValue;
    if rep != End {
      var text, key := R.ValueText(rep.value, fmt), KeyOf(rep.name, rep.iname);
      ValueMeans(rep.value, fmt);
      KeyText(rep);
      FieldIsRead(key, text, Meaning(rep.value, fmt));
      MembersMean(rep.next, fmt);
    }
  }

  lemma {:induction false} ElementsMean(rep: Rep, fmt: FloatFormat)
    requires Framed(rep, false) && Verbatim(rep) && FixedPoints(fmt)
    ensures ItemsMean(R.MemberTexts(rep, fmt), ItemsOf(rep, fmt))
    decreases rep, 2
  {
    hide Means, FixedPoints, NoControl, CString, R.ValueText, Meaning, ItemsMean;
    if rep == End {
      NothingMeans();
    } else {
      ValueMeans(rep.value, fmt);
      ElementsMean(rep.next, fmt);
      UnkeyedText(rep, fmt);
      MoreMean(R.ValueText(rep.value, fmt), Meaning(rep.value, fmt), R.MemberTexts(rep.next, fmt),
               ItemsOf(rep.next, fmt));
    }
  }

  lemma NothingMeans()
    ensures ItemsMean([], [])
  {
  }

  lemma MoreMean(text: seq<byte>, item: Json, texts: seq<seq<byte>>, items: seq<Json>)
    requires Means(text, item) && ItemsMean(texts, items)
    ensures ItemsMean([text] + texts, [item] + items)
  {
    hide Means;
  }

  lemma UnkeyedText(rep: Rep, fmt: FloatFormat)
    requires rep.Member? && !Keyed(rep) && !rep.value.Array?
    ensures R.MemberTexts(rep, fmt) == [R.ValueText(rep.value, fmt)] + R.MemberTexts(rep.next, fmt)
    ensures ItemsOf(rep, fmt) == [Meaning(rep.value, fmt)] + ItemsOf(rep.next, fmt)
  {
    hide R.ValueText, Meaning;
    var text := R.ValueText(rep.value, fmt);
    assert R.Key(rep.name, rep.iname) == [] && [] + text == text;
  }

  lemma {:induction false} ObjectsMean(os: Objects, fmt: FloatFormat)
    requires AllFramable(os) && VerbatimObjects(os) && FixedPoints(fmt)
    ensures ItemsMean(R.ObjectTexts(os, fmt), ObjectsOf(os, fmt))
    decreases os, 4
  {
    hide Means, FieldsMean, FixedPoints, R.Braces, Framable, R.MemberTexts, FieldsOf;
    InsideObjectMeans(os.item, fmt);
    ObjectMeans(R.MemberTexts(os.item, fmt), FieldsOf(os.item, fmt));
    if os.More? { ObjectsMean(os.rest, fmt); }
  }

  lemma DocumentMeans(rep: Rep, fmt: FloatFormat)
    requires Verbatim(rep) && FixedPoints(fmt) && Framable(rep, !IsTopArray(rep))
    ensures Means(R.DocumentText(rep, fmt), DocumentOf(rep, fmt))
  {
    hide Means, FixedPoints, R.Brackets, R.Braces, Framable, Verbatim, ItemsMean, FieldsMean;
    hide R.MemberTexts, ItemsOf, FieldsOf;
    if IsTopArray(rep) {
      InsideArrayMeans(rep, fmt);
      ArrayMeans(R.MemberTexts(rep, fmt), ItemsOf(rep, fmt));
    } else {
      InsideObjectMeans(rep, fmt);
      ObjectMeans(R.MemberTexts(rep, fmt), FieldsOf(rep, fmt));
    }
  }

  lemma FixedPointPlain(s: seq<byte>)
    requires IsFixedPoint(s)
    ensures R.Unquoted(s)
  {
    var negative: bool, whole: nat, decimals: seq<byte> :|
      decimals != [] && (forall c | c in decimals :: IsDigit(c)) && s == FixedPoint(negative, whole, decimals);
    hide Decimal, Worth;
    DecimalWorth(whole);
  }

  lemma FixedPointsPlain(fmt: FloatFormat)
    requires FixedPoints(fmt)
    ensures R.PlainNumbers(fmt)
  {
    hide IsFixedPoint, R.Unquoted;
    forall f ensures R.Unquoted(fmt(f)) { FixedPointPlain(fmt(f)); }
  }

  /**
   Reading what is printed for a representation gives its keys and values back, for every representation
   whose text is JSON and whose names and strings need no escape. The pretty text is read without the
   blanks outside of its strings.
   */
  lemma DocumentReadsBack(rep: Rep, fmt: FloatFormat)
    requires Verbatim(rep) && FixedPoints(fmt) && Framable(rep, !IsTopArray(rep))
    ensures ReadJson(Text(Document(rep, false, fmt))) == Got(DocumentOf(rep, fmt), [])
    ensures ReadJson(R.Strip(Text(Document(rep, true, fmt)), false)) == Got(DocumentOf(rep, fmt), [])
  {
    hide Means, FixedPoints, Framable, Document, Text, ReadJson, R.DocumentText, DocumentOf, R.Strip, R.PlainNumbers;
    R.CompactReads(rep, fmt);
    FixedPointsPlain(fmt);
    R.PrettyAddsOnlyBlanks(rep, fmt);
    DocumentMeans(rep, fmt);
    MeansAlone(R.DocumentText(rep, fmt), DocumentOf(rep, fmt));
  }

  lemma MeansAlone(s: seq<byte>, j: Json)
    requires Means(s, j)
    ensures ReadJson(s) == Got(j, [])
  {
    hide ReadValue;
    assert s + [] == s && Ends([]);
  }

  /** An array that is looked up in vain is printed as the empty array. */
  lemma NotFoundIsEmpty(v: Value, fmt: FloatFormat)
    requires L.LookedUp(v) && !v.Blob?
    ensures Meaning(L.Emptied(v), fmt) == JArray([])
  {
  }
}
