/**
 A reader of compact JSON texts after RFC 8259, by recursive descent. It shares nothing with the
 writer: words, brackets and digits are bytes, and a number is what its digits are worth by position.
 Strings with escapes are not read, and the text of a number with a fraction is kept as it is.
 */
module JsonReader {
  import opened Octets

  datatype Json =
    | JNull
    | JBool(b: bool)
    | JInteger(i: int)
    | JFraction(text: seq<byte>)
    | JString(s: seq<byte>)
    | JArray(items: seq<Json>)
    | JObject(fields: seq<Field>)

  datatype Field = Field(key: seq<byte>, value: Json)

  datatype Answer<T> = Bad | Got(value: T, rest: seq<byte>)

  predicate Numeral(c: byte) {
    48 <= c <= 57
  }

  /** How many numerals the text begins with. */
  function NumeralRun(s: seq<byte>): (n: nat)
    ensures n <= |s|
  {
    if s == [] || !Numeral(s[0]) then 0 else 1 + NumeralRun(s[1..])
  }

  function Worth(s: seq<byte>): int {
    if s == [] then 0 else 10 * Worth(s[..|s| - 1]) + (s[|s| - 1] as int - 48)
  }

  /** Numerals, and perhaps a point and more of them, behind a sign of the given length. */
  function ReadNumber(s: seq<byte>, sign: nat): (a: Answer<Json>)
    requires sign <= 1 && sign <= |s|
    ensures a.Got? ==> |a.rest| < |s|
  {
    var n := NumeralRun(s[sign..]);
    if n == 0 then Bad
    else if sign + n < |s| && s[sign + n] == 46 then
      var m := NumeralRun(s[sign + n + 1..]);
      if m == 0 then Bad else Got(JFraction(s[..sign + n + 1 + m]), s[sign + n + 1 + m..])
    else
      var i := Worth(s[sign..sign + n]);
      Got(JInteger(if sign == 1 then -i else i), s[sign + n..])
  }

  /** How many characters there are before the first that ends or escapes a string or may not be in one. */
  function CharRun(s: seq<byte>): (n: nat)
    ensures n <= |s|
  {
    if s == [] || s[0] == 34 || s[0] == 92 || s[0] < 32 then 0 else 1 + CharRun(s[1..])
  }

  /** The string behind an opening quote. */
  function ReadString(s: seq<byte>): (a: Answer<seq<byte>>)
    ensures a.Got? ==> |a.rest| < |s|
  {
    var n := CharRun(s);
    if n < |s| && s[n] == 34 then Got(s[..n], s[n + 1..]) else Bad
  }

  function ReadValue(s: seq<byte>): (a: Answer<Json>)
    ensures a.Got? ==> |a.rest| < |s|
    decreases |s|, 0
  {
    if s == [] then Bad
    else if [110, 117, 108, 108] <= s then Got(JNull, s[4..])
    else if [116, 114, 117, 101] <= s then Got(JBool(true), s[4..])
    else if [102, 97, 108, 115, 101] <= s then Got(JBool(false), s[5..])
    else if s[0] == 34 then
      var a := ReadString(s[1..]);
      if a.Bad? then Bad else Got(JString(a.value), a.rest)
    else if [91, 93] <= s then Got(JArray([]), s[2..])
    else if s[0] == 91 then
      var a := ReadItems(s[1..]);
      if a.Bad? then Bad else Got(JArray(a.value), a.rest)
    else if [123, 125] <= s then Got(JObject([]), s[2..])
    else if s[0] == 123 then
      var a := ReadFields(s[1..]);
      if a.Bad? then Bad else Got(JObject(a.value), a.rest)
    else ReadNumber(s, if s[0] == 45 then 1 else 0)
  }

  /** Values up to the closing square bracket, with commas between them. */
  function ReadItems(s: seq<byte>): (a: Answer<seq<Json>>)
    ensures a.Got? ==> |a.rest| < |s|
    decreases |s|, 1
  {
    var a := ReadValue(s);
    if a.Bad? || a.rest == [] then Bad
    else if a.rest[0] == 93 then Got([a.value], a.rest[1..])
    else if a.rest[0] != 44 then Bad
    else
      var more := ReadItems(a.rest[1..]);
      if more.Bad? then Bad else Got([a.value] + more.value, more.rest)
  }

  /** A key, a colon and a value. */
  function ReadField(s: seq<byte>): (a: Answer<Field>)
    ensures a.Got? ==> |a.rest| < |s|
    decreases |s|, 1
  {
    if s == [] || s[0] != 34 then Bad
    else
      var key := ReadString(s[1..]);
      if key.Bad? || key.rest == [] || key.rest[0] != 58 then Bad
      else
        var a := ReadValue(key.rest[1..]);
        if a.Bad? then Bad else Got(Field(key.value, a.value), a.rest)
  }

  /** Fields up to the closing curly bracket, with commas between them. */
  function ReadFields(s: seq<byte>): (a: Answer<seq<Field>>)
    ensures a.Got? ==> |a.rest| < |s|
    decreases |s|, 2
  {
    var a := ReadField(s);
    if a.Bad? || a.rest == [] then Bad
    else if a.rest[0] == 125 then Got([a.value], a.rest[1..])
    else if a.rest[0] != 44 then Bad
    else
      var more := ReadFields(a.rest[1..]);
      if more.Bad? then Bad else Got([a.value] + more.value, more.rest)
  }

  /** The one value that the whole text is. */
  function ReadJson(s: seq<byte>): (a: Answer<Json>) {
    var a := ReadValue(s);
    if a.Got? && a.rest == [] then a else Bad
  }
}
