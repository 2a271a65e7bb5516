/** What `oc_client_api.c` reads out of a link-format payload, and that it is what was framed. */
module LinkReading {

  import opened LinkFormat
  import opened Options

  // --- Lines ---

  lemma {:induction false} CountBoth(a: string, b: string)
    ensures Count(a + b, COMMA) == Count(a, COMMA) + Count(b, COMMA)
  {
    if b == "" {
      assert a + b == a;
    } else {
      var n := |b| - 1;
      assert (a + b)[..|a + b| - 1] == a + b[..n];
      CountBoth(a, b[..n]);
    }
  }

  lemma CountPrefix(s: string, i: nat, j: nat)
    requires i <= j <= |s|
    ensures Count(s[..i], COMMA) <= Count(s[..j], COMMA)
  {
    CountBoth(s[..i], s[i..j]);
    assert s[..i] + s[i..j] == s[..j];
  }

  lemma {:induction false} NoCommas(s: string)
    requires COMMA !in s
    ensures Count(s, COMMA) == 0
  {
    if s != "" {
      NoCommas(s[..|s| - 1]);
    }
  }

  /** A line as the server frames it: it begins with its uri and has no comma. */
  predicate Clean(line: string) {
    line != "" && line[0] == '<' && COMMA !in line
  }

  lemma OneComma()
    ensures Count(",\n", COMMA) == 1 && Count(",", COMMA) == 1
  {
    assert ",\n"[..1] == "," && ","[..0] == "";
  }

  lemma {:induction false} JoinedCommas(lines: seq<string>)
    requires lines != [] && forall l | l in lines :: Clean(l)
    ensures Count(Joined(lines), COMMA) == |lines| - 1
    ensures Joined(lines) != "" && Joined(lines)[0] == '<' && Joined(lines)[|Joined(lines)| - 1] != COMMA
  {
    hide Count;
    var n := |lines| - 1;
    assert Clean(lines[n]);
    NoCommas(lines[n]);
    if n > 0 {
      var before := Joined(lines[..n]);
      JoinedCommas(lines[..n]);
      OneComma();
      CountBoth(before, ",\n" + lines[n]);
      CountBoth(",\n", lines[n]);
      assert Joined(lines) == before + (",\n" + lines[n]);
    }
  }

  /** Where the first `e` lines end, the next one begins after a comma and a newline. */
  lemma {:induction false} JoinedSplit(lines: seq<string>, e: nat)
    requires 0 < e < |lines|
    ensures Joined(lines) == Joined(lines[..e]) + ",\n" + Joined(lines[e..])
  {
    var n := |lines| - 1;
    if e == n {
      assert lines[e..] == [lines[n]];
    } else {
      JoinedSplit(lines[..n], e);
      assert lines[..n][..e] == lines[..e];
      assert lines[e..][..n - e] == lines[..n][e..];
      assert Joined(lines[e..]) == Joined(lines[..n][e..]) + ",\n" + lines[n];
    }
  }

  /** After exactly `e` commas comes the newline before line `e`. */
  lemma CommaBefore(lines: seq<string>, e: nat)
    requires 0 < e < |lines| && forall l | l in lines :: Clean(l)
    ensures AfterCommas(Joined(lines), e, 0) == |Joined(lines[..e])| + 1 < |Joined(lines)|
    ensures Joined(lines)[|Joined(lines[..e])|..|Joined(lines[..e])| + 2] == ",\n"
  {
    var payload, before, after := Joined(lines), Joined(lines[..e]), Joined(lines[e..]);
    JoinedSplit(lines, e);
    JoinedCommas(lines[..e]);
    JoinedCommas(lines[e..]);
    var i := |before| + 1;
    assert payload[..i] == before + ",";
    CountBoth(before, ",");
    OneComma();
    forall j | 0 <= j < i ensures Count(payload[..j], COMMA) != e {
      CountPrefix(payload, j, |before|);
      assert payload[..|before|] == before;
    }
    AfterIs(payload, e, 0, i);
  }

  lemma NoCommaAfter(lines: seq<string>)
    requires lines != [] && forall l | l in lines :: Clean(l)
    ensures Joined(lines) != ""
    ensures AfterCommas(Joined(lines), |lines|, 0) == |Joined(lines)|
  {
    var payload := Joined(lines);
    JoinedCommas(lines);
    forall j | 0 <= j < |payload| ensures Count(payload[..j], COMMA) != |lines| {
      CountPrefix(payload, j, |payload|);
      assert payload[..|payload|] == payload;
    }
    AfterIs(payload, |lines|, 0, |payload| - 1);
  }

  /** The number of commas decides how many entries there are; fewer than five characters are none. */
  lemma NumberIsRight(lines: seq<string>)
    requires forall l | l in lines :: Clean(l)
    ensures NumberSpec(Joined(lines)) == |lines| <==> lines == [] || |Joined(lines)| >= 5
  {
    if lines != [] {
      JoinedCommas(lines);
    }
  }

  function Before(lines: seq<string>, e: nat): string
    requires e <= |lines|
  {
    if e == 0 then "" else Joined(lines[..e]) + ",\n"
  }

  lemma LineLies(lines: seq<string>, e: nat)
    requires e < |lines|
    ensures Joined(lines[..e + 1]) == Before(lines, e) + lines[e]
  {
    if e > 0 { assert lines[..e + 1][..e] == lines[..e]; }
  }

  /** Every line comes back as it was framed. */
  lemma LineIsRight(lines: seq<string>, e: nat)
    requires e < |lines| && |Joined(lines)| >= 5 && forall l | l in lines :: Clean(l)
    ensures LineSlice(Joined(lines), e) == Slice(|Before(lines, e)|, |lines[e]|)
    ensures Before(lines, e) + lines[e] <= Joined(lines)
    ensures LineText(Joined(lines), e) == lines[e]
  {
    hide AfterCommas, Count, Joined, LineBegin, LineEnd, LineSlice, Clean;
    LineLies(lines, e);
    LineStarts(lines, e);
    LineStops(lines, e);
    var payload, before := Joined(lines), Before(lines, e);
    assert |before| == if e == 0 then 0 else |Joined(lines[..e])| + 2;
    hide Before;
    SliceFrom(payload, e, |before|, |lines[e]|);
    PartOf(payload, before, lines[e]);
  }

  lemma PartOf(whole: string, before: string, part: string)
    requires before + part <= whole
    ensures whole[|before|..|before| + |part|] == part
  {
    assert whole[..|before + part|][|before|..] == part;
  }

  lemma SliceFrom(payload: string, e: nat, before: nat, len: nat)
    requires |payload| >= 5
    requires before == LineBegin(payload, e) + if payload[LineBegin(payload, e)] == '\n' then 1 else 0
    requires before + len == LineEnd(payload, e) - if payload[LineEnd(payload, e) - 1] == COMMA then 1 else 0
    ensures LineSlice(payload, e) == Slice(before, len)
  {}

  lemma LineStarts(lines: seq<string>, e: nat)
    requires e < |lines| && |Joined(lines)| >= 5 && forall l | l in lines :: Clean(l)
    ensures var begin := LineBegin(Joined(lines), e);
            && begin == (if e == 0 then 0 else |Joined(lines[..e])| + 1)
            && (Joined(lines)[begin] == '\n' <==> e > 0)
  {
    hide AfterCommas, Count, Joined;
    JoinedCommas(lines);
    var payload := Joined(lines);
    if e == 0 {
      FirstIsZero(payload);
    } else {
      CommaBefore(lines, e);
      var i := |Joined(lines[..e])|;
      assert payload[i..i + 2][1] == payload[i + 1];
    }
  }

  /** The first `e + 1` lines are the beginning of the payload, and line `e` is read to their end. */
  lemma LineStops(lines: seq<string>, e: nat)
    requires e < |lines| && |Joined(lines)| >= 5 && forall l | l in lines :: Clean(l)
    ensures var payload, upto, end := Joined(lines), Joined(lines[..e + 1]), LineEnd(Joined(lines), e);
            && upto <= payload
            && |upto| == if payload[end - 1] == COMMA then end - 1 else end
    ensures e + 1 < |lines| ==> Joined(lines[..e + 1]) + ",\n" <= Joined(lines)
  {
    hide AfterCommas, Count, Joined;
    JoinedCommas(lines);
    var payload, upto := Joined(lines), Joined(lines[..e + 1]);
    if e + 1 == |lines| {
      NoCommaAfter(lines);
      assert lines[..e + 1] == lines;
    } else {
      CommaBefore(lines, e + 1);
      JoinedSplit(lines, e + 1);
      assert payload[|upto|..|upto| + 2][0] == payload[|upto|];
    }
  }

  lemma FirstIsZero(payload: string)
    requires |payload| >= 5
    ensures AfterCommas(payload, 0, 0) == 0
  {
    assert payload[..0] == "";
  }

  // --- Line text ---

  /** A line is always a part of the payload. */
  lemma LineWithin(payload: string, entry: nat)
    ensures var line := LineSlice(payload, entry);
            0 <= line.len && line.begin + line.len <= |payload|
  {
    hide Count;
    if |payload| >= 5 {
      AfterBound(payload, entry, 0);
      AfterBound(payload, entry + 1, 0);
      var end := AfterCommas(payload, entry + 1, 0);
      if 0 < end < |payload| {
        AfterLeast(payload, entry + 1, 0);
        CountNext(payload, end - 1);
        AfterNotBeyond(payload, entry, 0, end - 1);
      }
    }
  }

  lemma {:induction false} AfterLeast(payload: string, k: nat, from: nat)
    requires from < |payload|
    ensures var i := AfterCommas(payload, k, from);
            i < |payload| ==> from <= i && Count(payload[..i], COMMA) == k && forall j | from <= j < i ::
                Count(payload[..j], COMMA) != k
    decreases |payload| - from
  {
    hide Count;
    if from < |payload| - 1 && Count(payload[..from], COMMA) != k {
      AfterLeast(payload, k, from + 1);
    }
  }

  lemma {:induction false} AfterNotBeyond(payload: string, k: nat, from: nat, i: nat)
    requires from <= i < |payload| - 1 && Count(payload[..i], COMMA) == k
    ensures AfterCommas(payload, k, from) <= i
    decreases i - from
  {
    if from < i {
      AfterNotBeyond(payload, k, from + 1, i);
    }
  }

  function LineText(payload: string, entry: nat): string {
    LineWithin(payload, entry);
    var line := LineSlice(payload, entry);
    payload[line.begin..line.begin + line.len]
  }

  // --- Uris ---

  function FirstOf(s: string, c: char, from: nat): (i: nat)
    requires from <= |s|
    ensures from <= i <= |s| && (i < |s| ==> s[i] == c)
    ensures forall j | from <= j < i :: s[j] != c
    decreases |s| - from
  {
    if from == |s| || s[from] == c then from else FirstOf(s, c, from + 1)
  }

  /** One after the last `<`, or 0. */
  function AfterLastOpen(s: string): nat {
    if s == "" then 0 else if s[|s| - 1] == '<' then |s| else AfterLastOpen(s[..|s| - 1])
  }

  /** From after the last `<` to the first `>`; relative to the line. */
  function UriSlice(line: string): Slice {
    var end := FirstOf(line, '>', 0);
    Slice(AfterLastOpen(line[..end]), (if end == |line| then 0 else end) - AfterLastOpen(line[..end]))
  }

  /** `oc_lf_get_entry_uri` */
  method EntryUri(payload: string, entry: nat) returns (uri: Slice)
    ensures uri == UriSlice(LineText(payload, entry))
  {
    hide LineSlice, UriSlice;
    var ok, slice := GetLine(payload, entry);
    LineWithin(payload, entry);
    uri := FindUri(payload[slice.begin..slice.begin + slice.len]);
  }

  method FindUri(line: string) returns (uri: Slice)
    ensures uri == UriSlice(line)
  {
    hide FirstOf, AfterLastOpen;
    assert AfterLastOpen(line[..0]) == 0 by { NothingOpen(); }
    var begin, end, i := 0, 0, 0;
    while i < |line|
      invariant i <= |line| && begin == AfterLastOpen(line[..i])
      invariant forall j | 0 <= j < i :: line[j] != '>'
    {
      OpenNext(line, i);
      if line[i] == '<' { begin := i + 1; }
      if line[i] == '>' {
        FirstOfIs(line, '>', 0, i);
        return Slice(begin, i - begin);
      }
      i := i + 1;
    }
    FirstOfIs(line, '>', 0, i);
    return Slice(begin, end - begin);
  }

  lemma NothingOpen()
    ensures AfterLastOpen("") == 0
  {}

  lemma OpenNext(line: string, i: nat)
    requires i < |line|
    ensures AfterLastOpen(line[..i + 1]) == if line[i] == '<' then i + 1 else AfterLastOpen(line[..i])
  {
    assert line[..i + 1][..i] == line[..i];
  }

  lemma {:induction false} NoOpen(s: string)
    requires '<' !in s
    ensures AfterLastOpen("<" + s) == 1
  {
    if s == "" {
      assert "<" + s == "<";
    } else {
      assert ("<" + s)[..|s|] == "<" + s[..|s| - 1];
      NoOpen(s[..|s| - 1]);
    }
  }

  /** The uri of a framed line comes back. */
  lemma UriIsRight(uri: string, attributes: seq<string>)
    requires '<' !in uri && '>' !in uri
    ensures UriSlice(Line(uri, attributes)) == Slice(1, |uri|)
    ensures Line(uri, attributes)[1..1 + |uri|] == uri
  {
    hide Tail;
    var line := Line(uri, attributes);
    NoOpen(uri);
    assert line == "<" + uri + ">" + Tail(attributes);
    assert line[|uri| + 1] == '>';
    assert forall j | 0 < j <= |uri| :: line[j] == uri[j - 1];
    assert line[..|uri| + 1] == "<" + uri;
  }

  /** The slice is a part of the text. */
  predicate Within(s: string, slice: Slice) {
    0 <= slice.begin && 0 <= slice.len && slice.begin + slice.len <= |s|
  }

  lemma {:induction false} AfterOpenBounds(s: string)
    ensures AfterLastOpen(s) <= |s| && (AfterLastOpen(s) == 0 <==> '<' !in s)
  {
    if s != "" && s[|s| - 1] != '<' {
      AfterOpenBounds(s[..|s| - 1]);
      assert forall c | c in s :: c in s[..|s| - 1] || c == s[|s| - 1];
    }
  }

  /** On every line: the uri is a part of it if and only if no `<` is left without a `>`. */
  lemma UriWithinIff(line: string)
    ensures Within(line, UriSlice(line)) <==> '>' in line || '<' !in line
  {
    var end := FirstOf(line, '>', 0);
    AfterOpenBounds(line[..end]);
    if end == |line| { assert line[..end] == line; }
  }

  /** "<a" has a uri of length -1. */
  lemma NoClosingBracket()
    ensures UriSlice("<a") == Slice(1, -1)
  {
    FirstOfIs("<a", '>', 0, 2);
    NoOpen("a");
    assert "<a"[..2] == "<" + "a";
  }

  // --- Attributes ---

  /** A semicolon, within the bound of the loop, that the attribute's name follows. */
  predicate Hit(line: string, param: string, i: nat) {
    i + |param| + 1 < |line| && line[i] == SEMICOLON && line[i + 1..i + 1 + |param|] == param
  }

  function FirstHit(line: string, param: string, from: nat): (i: nat)
    requires from <= |line|
    ensures from <= i <= |line| && (i < |line| ==> Hit(line, param, i))
    ensures forall j | from <= j < i :: !Hit(line, param, j)
    decreases |line| - from
  {
    if from == |line| || Hit(line, param, from) then from else FirstHit(line, param, from + 1)
  }

  lemma {:induction false} FirstHitIs(line: string, param: string, from: nat, i: nat)
    requires from <= i <= |line| && (i < |line| ==> Hit(line, param, i))
    requires forall j | from <= j < i :: !Hit(line, param, j)
    ensures FirstHit(line, param, from) == i
    decreases i - from
  {
    if from < i {
      FirstHitIs(line, param, from + 1, i);
    }
  }

  lemma {:induction false} FirstOfIs(s: string, c: char, from: nat, i: nat)
    requires from <= i <= |s| && (i < |s| ==> s[i] == c)
    requires forall j | from <= j < i :: s[j] != c
    ensures FirstOf(s, c, from) == i
    decreases i - from
  {
    if from < i {
      FirstOfIs(s, c, from + 1, i);
    }
  }

  /** The next semicolon, unless it is the last character. */
  function ValueEnd(line: string, from: nat): nat
    requires from <= |line|
  {
    if |line| > 0 && from < |line| - 1 && FirstOf(line, SEMICOLON, from) < |line| - 1
    then FirstOf(line, SEMICOLON, from) else |line|
  }

  /** The attribute's value, relative to the line; the whole line if there is none. */
  function ParamSlice(line: string, param: string): (bool, Slice) {
    var i := FirstHit(line, param, 0);
    if i == |line| then (false, Slice(0, |line|))
    else
      var begin := i + 1 + |param| + 1;
      (true, Slice(begin, ValueEnd(line, i + 2) - begin))
  }

  lemma ValueEndIs(line: string, from: nat)
    requires from <= |line|
    ensures var end := ValueEnd(line, from);
            && from <= end <= |line|
            && (forall j | from <= j < end && j < |line| - 1 :: line[j] != SEMICOLON)
            && (end < |line| ==> line[end] == SEMICOLON && end < |line| - 1)
  {
  }

  /**
   On every line: the value is a part of it if and only if no semicolon, but for the line's last character,
   comes within the name or where the equals sign should be; the search for its end starts inside the name.
   */
  lemma ParamWithinIff(line: string, param: string)
    ensures
      var i := FirstHit(line, param, 0);
      Within(line, ParamSlice(line, param).1) <==>
        i == |line| || forall j | i + 2 <= j < i + 2 + |param| && j < |line| - 1 :: line[j] != SEMICOLON
  {
    var i := FirstHit(line, param, 0);
    if i < |line| { ValueEndIs(line, i + 2); }
    hide ValueEnd;
  }

  /** "<a>;ct;x" has a value of length -1 for "ct". */
  lemma NoEqualsSign()
    ensures ParamSlice("<a>;ct;x", "ct") == (true, Slice(7, -1))
  {
    var line := "<a>;ct;x";
    assert Hit(line, "ct", 3) by { assert line[4..6] == "ct"; }
    FirstHitIs(line, "ct", 0, 3);
    FirstOfIs(line, SEMICOLON, 5, 6);
  }

  /** `oc_lf_get_entry_param` */
  method EntryParam(payload: string, entry: nat, param: string) returns (found: bool, value: Slice)
    ensures (found, value) == ParamSlice(LineText(payload, entry), param)
  {
    hide LineSlice, FirstHit, ValueEnd;
    var ok, slice := GetLine(payload, entry);
    LineWithin(payload, entry);
    var line := payload[slice.begin..slice.begin + slice.len];
    var i := FindHit(line, param);
    if i == |line| { return false, Slice(0, |line|); }
    var begin := i + 1;
    var end := FindValueEnd(line, begin + 1);
    return true, Slice(begin + |param| + 1, end - (begin + |param| + 1));
  }

  /** The first loop: the semicolon before the attribute. */
  method FindHit(line: string, param: string) returns (i: nat)
    ensures i == FirstHit(line, param, 0)
  {
    hide FirstHit;
    i := 0;
    while i < |line| - |param| - 1
      invariant i <= |line|
      invariant forall j | 0 <= j < i :: !Hit(line, param, j)
    {
      if line[i] == SEMICOLON && line[i + 1..i + 1 + |param|] == param {
        FirstHitIs(line, param, 0, i);
        return;
      }
      i := i + 1;
    }
    FirstHitIs(line, param, 0, |line|);
    i := |line|;
  }

  /** The second loop: the semicolon after the value. */
  method FindValueEnd(line: string, from: nat) returns (end: nat)
    requires 0 < from <= |line|
    ensures end == ValueEnd(line, from)
  {
    hide FirstOf;
    end := 0;
    var i := from;
    while i < |line| - 1
      invariant from <= i <= |line|
      invariant forall j | from <= j < i :: line[j] != SEMICOLON
    {
      if line[i] == SEMICOLON {
        FirstOfIs(line, SEMICOLON, from, i);
        return i;
      }
      i := i + 1;
    }
    return |line|;
  }

  /** The attributes from some point of a line on hold the name for the first time at attribute `k`. */
  lemma {:induction false} HitAt(before: string, attributes: seq<string>, k: nat, param: string)
    requires param != "" && SEMICOLON !in param && forall a | a in attributes :: SEMICOLON !in a
    requires k <= |attributes| && forall j | 0 <= j < k :: !(param <= attributes[j])
    requires k < |attributes| ==> param < attributes[k]
    ensures var line := before + Tail(attributes);
            FirstHit(line, param, |before|) == if k == |attributes| then |line| else |before| + |Tail(attributes[..k])|
    decreases |attributes|
  {
    var line := before + Tail(attributes);
    if attributes != [] {
      var here := before + ";" + attributes[0];
      assert line == here + Tail(attributes[1..]);
      assert line[|before|] == SEMICOLON;
      assert forall j | 0 <= j < |attributes[0]| :: line[|before| + 1 + j] == attributes[0][j];
      if k == 0 {
        assert line[|before| + 1..|before| + 1 + |param|] == attributes[0][..|param|];
      } else {
        NotHere(before, attributes, param);
        HitAt(here, attributes[1..], k - 1, param);
        assert attributes[..k][1..] == attributes[1..][..k - 1];
        SkipTo(line, param, |before|, |here|);
      }
    }
  }

  lemma {:induction false} SkipTo(line: string, param: string, from: nat, next: nat)
    requires from <= next <= |line| && forall j | from <= j < next :: !Hit(line, param, j)
    ensures FirstHit(line, param, from) == FirstHit(line, param, next)
    decreases next - from
  {
    if from < next {
      SkipTo(line, param, from + 1, next);
    }
  }

  lemma PrefixStopsAtSemicolon(a: string, rest: string, param: string)
    requires (rest == "" || rest[0] == SEMICOLON) && SEMICOLON !in param && param <= a + rest
    ensures param <= a
  {
    forall i | 0 <= i < |param| ensures (a + rest)[i] != SEMICOLON {
      assert param[i] == (a + rest)[i] && param[i] in param;
    }
    assert |a| < |a + rest| ==> (a + rest)[|a|] == SEMICOLON;
    assert |param| <= |a|;
    assert (a + rest)[..|param|] == a[..|param|];
  }

  lemma NotHere(before: string, attributes: seq<string>, param: string)
    requires attributes != [] && SEMICOLON !in attributes[0] && param != "" && SEMICOLON !in param
        && !(param <= attributes[0])
    ensures forall j | |before| <= j <= |before| + |attributes[0]| :: !Hit(before + Tail(attributes), param, j)
  {
    var a, rest := attributes[0], Tail(attributes[1..]);
    assert before + Tail(attributes) == before + ";" + (a + rest);
    assert rest == "" || rest[0] == SEMICOLON;
    hide Tail;
    NotInText(before, a, rest, param);
  }

  lemma NotInText(before: string, a: string, rest: string, param: string)
    requires (rest == "" || rest[0] == SEMICOLON) && SEMICOLON !in a && SEMICOLON !in param && !(param <= a)
    ensures forall j | |before| <= j <= |before| + |a| :: !Hit(before + ";" + (a + rest), param, j)
  {
    var line, b := before + ";" + (a + rest), |before|;
    assert line[b + 1..] == a + rest;
    if Hit(line, param, b) {
      assert param == line[b + 1..][..|param|];
      PrefixStopsAtSemicolon(a, rest, param);
    }
    forall j | b < j <= b + |a| ensures line[j] != SEMICOLON {
      assert line[b + 1..][j - b - 1] == a[j - b - 1];
    }
  }

  /** Where a value ends: at the next attribute; but a semicolon that ends the line is taken with it. */
  lemma EndsAt(open: string, a: string, rest: string)
    requires a != "" && SEMICOLON !in a && (rest == "" || rest[0] == SEMICOLON)
    ensures ValueEnd(open + ";" + a + rest, |open| + 2) == |open| + 1 + |a| + if |rest| == 1 then 1 else 0
  {
    var line, here := open + ";" + a + rest, |open|;
    assert line[here + 1..] == a + rest;
    forall j | here + 2 <= j < here + 1 + |a| ensures line[j] != SEMICOLON {
      assert line[j] == line[here + 1..][j - here - 1] == a[j - here - 1];
    }
    assert rest != "" ==> line[here + 1 + |a|] == SEMICOLON;
    FirstOfIs(line, SEMICOLON, here + 2, here + 1 + |a|);
  }

  /** The value, cut out of its line. */
  lemma CutsOut(open: string, a: string, rest: string, n: nat)
    requires n < |a|
    ensures var line, begin := open + ";" + a + rest, |open| + 1 + n + 1;
            var end := |open| + 1 + |a| + if |rest| == 1 then 1 else 0;
            line[begin..end] == a[n + 1..] + if |rest| == 1 then rest else ""
  {
    var line := open + ";" + a + rest;
    if |rest| == 1 {
      assert line == open + ";" + (a + rest);
      assert line[|open| + 1 + n + 1..] == (a + rest)[n + 1..];
    } else {
      assert line[..|open| + 1 + |a|] == open + ";" + a;
      assert (open + ";" + a)[|open| + 1 + n + 1..] == a[n + 1..];
    }
  }

  lemma LongTail(attributes: seq<string>)
    ensures attributes != [] && attributes != [""] ==> |Tail(attributes)| > 1
  {
    if |attributes| == 1 { assert attributes == [attributes[0]]; }
    if |attributes| > 1 { assert Tail(attributes[1..]) != ""; }
  }

  lemma {:induction false} TailSplit(attributes: seq<string>, k: nat)
    requires k < |attributes|
    ensures Tail(attributes) == Tail(attributes[..k]) + ";" + attributes[k] + Tail(attributes[k + 1..])
  {
    if k > 0 {
      TailSplit(attributes[1..], k - 1);
      assert attributes[..k][1..] == attributes[1..][..k - 1];
    }
  }

  // --- A whole response ---

  /** The text that is read for an attribute, if it is found. */
  function ParamText(line: string, param: string): Option<string> {
    var (found, value) := ParamSlice(line, param);
    if found && 0 <= value.len && value.begin + value.len <= |line|
    then Some(line[value.begin..value.begin + value.len]) else None
  }

  predicate PlainText(s: string) {
    COMMA !in s && SEMICOLON !in s && '<' !in s && '>' !in s
  }

  /** Attribute `k`, the first with the name, is read from the character after its `=` on. */
  lemma ValueIsRight(uri: string, attributes: seq<string>, k: nat, param: string)
    requires PlainText(uri) && param != "" && SEMICOLON !in param && forall a | a in attributes :: SEMICOLON !in a
    requires k < |attributes| && param < attributes[k] && forall j | 0 <= j < k :: !(param <= attributes[j])
    ensures ParamText(Line(uri, attributes), param)
         == Some(attributes[k][|param| + 1..] + if attributes[k + 1..] == [""] then ";" else "")
  {
    hide Tail, FirstHit, ValueEnd, Hit;
    FirstHitInLine(uri, attributes, k, param);
    var before, a, rest := Opened(uri) + Tail(attributes[..k]), attributes[k], Tail(attributes[k + 1..]);
    TailSplit(attributes, k);
    RestOf(attributes[k + 1..]);
    assert Line(uri, attributes) == before + ";" + a + rest;
    EndsAt(before, a, rest);
    CutsOut(before, a, rest, |param|);
  }

  /** The uri does not hold the name; the search ends at attribute `k`. */
  lemma FirstHitInLine(uri: string, attributes: seq<string>, k: nat, param: string)
    requires PlainText(uri) && param != "" && SEMICOLON !in param && forall a | a in attributes :: SEMICOLON !in a
    requires k <= |attributes| && forall j | 0 <= j < k :: !(param <= attributes[j])
    requires k < |attributes| ==> param < attributes[k]
    ensures var line := Line(uri, attributes);
            FirstHit(line, param, 0) == if k == |attributes| then |line| else |Opened(uri)| + |Tail(attributes[..k])|
  {
    hide Tail, FirstHit;
    var line, open := Line(uri, attributes), Opened(uri);
    HitAt(open, attributes, k, param);
    assert forall j | 0 <= j < |open| :: !Hit(line, param, j)
        by { assert forall j | 0 <= j < |open| :: line[j] == open[j]; }
    SkipTo(line, param, 0, |open|);
  }

  lemma RestOf(attributes: seq<string>)
    ensures var rest := Tail(attributes);
            && (rest == "" || rest[0] == SEMICOLON)
            && (|rest| == 1 <==> attributes == [""])
            && (attributes == [""] ==> rest == ";")
  {
    LongTail(attributes);
    assert [""][1..] == [];
  }

  /** A name that no attribute begins with is not found. */
  lemma NotFoundIsRight(uri: string, attributes: seq<string>, param: string)
    requires PlainText(uri) && param != "" && SEMICOLON !in param && forall a | a in attributes :: SEMICOLON !in a
    requires forall a | a in attributes :: !(param <= a)
    ensures !ParamSlice(Line(uri, attributes), param).0
  {
    assert forall j | 0 <= j < |attributes| :: attributes[j] in attributes;
    FirstHitInLine(uri, attributes, |attributes|, param);
  }

  // --- Links ---

  predicate PlainLink(link: Link, truncate: int) {
    && link.uri != "" && PlainText(link.uri)
    && PlainText(TypesText(link.types, truncate, |link.types|))
    && (link.interfaces.Some? ==> PlainText(link.interfaces.value))
    && (link.contentType.Some? ==> PlainText(link.contentType.value))
  }

  lemma AttributesPlain(link: Link, truncate: int)
    requires PlainLink(link, truncate)
    ensures forall a | a in Attributes(link, truncate) :: PlainText(a)
  {
    hide TypesText;
    assert PlainText(RtText(link.types, truncate));
    assert link.interfaces.Some? ==> PlainText(IfText(link.interfaces.value));
    assert link.contentType.Some? ==> PlainText(CtText(link.contentType.value));
  }

  lemma {:induction false} TailPlain(attributes: seq<string>)
    requires forall a | a in attributes :: COMMA !in a
    ensures COMMA !in Tail(attributes)
  {
    if attributes != [] {
      TailPlain(attributes[1..]);
    }
  }

  lemma FramedIsClean(link: Link, truncate: int)
    requires PlainLink(link, truncate)
    ensures Clean(Framed(link, truncate)) && |Framed(link, truncate)| >= 4
  {
    hide Tail, Attributes, TypesText;
    AttributesPlain(link, truncate);
    TailPlain(Attributes(link, truncate));
    assert Attributes(link, truncate) != [] by { SomeAttribute(link, truncate); }
    assert Tail(Attributes(link, truncate)) != ""
        by { RestOf(Attributes(link, truncate)); TailNotEmpty(Attributes(link, truncate)); }
  }

  lemma SomeAttribute(link: Link, truncate: int)
    ensures Attributes(link, truncate) != []
  {}

  lemma TailNotEmpty(attributes: seq<string>)
    requires attributes != []
    ensures Tail(attributes) != ""
  {}

  lemma {:induction false} FramedOne(links: seq<Link>, truncate: int)
    requires forall l | l in links :: l.uri != ""
    ensures |FramedAll(links, truncate)| == |links|
    ensures forall e | 0 <= e < |links| :: FramedAll(links, truncate)[e] == Framed(links[e], truncate)
  {
    hide Framed;
    if links != [] {
      FramedOne(links[..|links| - 1], truncate);
    }
  }

  /** Texts with one space between each two. */
  function Spaced(texts: seq<string>): string {
    if texts == [] then ""
    else if |texts| == 1 then texts[0]
    else Spaced(texts[..|texts| - 1]) + " " + texts[|texts| - 1]
  }

  function TypeTexts(types: seq<string>, truncate: int, n: nat): seq<string>
    requires n <= |types|
  {
    seq(n, i requires 0 <= i < n => TypeText(types[i], truncate))
  }

  lemma SpacedNext(texts: seq<string>, t: string)
    ensures Spaced(texts + [t]) == (if texts == [] then "" else Spaced(texts) + " ") + t
  {
    assert (texts + [t])[..|texts|] == texts;
    assert texts == [] ==> "" + t == t;
  }

  lemma TypesTextNext(types: seq<string>, truncate: int, n: nat)
    requires 0 < n <= |types| && types[n - 1] != ""
    ensures TypesText(types, truncate, n) ==
              TypesText(types, truncate, n - 1) + ((if n > 1 then " " else "") + TypeText(types[n - 1], truncate))
  {
    hide TypeText;
  }

  lemma TypeTextsNext(types: seq<string>, truncate: int, n: nat)
    requires 0 < n <= |types|
    ensures TypeTexts(types, truncate, n) == TypeTexts(types, truncate, n - 1) + [TypeText(types[n - 1], truncate)]
    ensures |TypeTexts(types, truncate, n - 1)| == n - 1
  {
    hide TypeText;
  }

  lemma NoTypes(types: seq<string>, truncate: int)
    ensures TypesText(types, truncate, 0) == Spaced(TypeTexts(types, truncate, 0)) == ""
  {
  }

  /** Resource types, none of them empty, are framed whole or without their urn, one space between each two. */
  lemma {:induction false} TypesAreSpaced(types: seq<string>, truncate: int, n: nat)
    requires n <= |types| && forall t | t in types :: t != ""
    ensures TypesText(types, truncate, n) == Spaced(TypeTexts(types, truncate, n))
  {
    hide Spaced, TypeText, TypeTexts, TypesText;
    NoTypes(types, truncate);
    if n > 0 {
      TypesAreSpaced(types, truncate, n - 1);
      assert types[n - 1] in types;
      var before, t := TypesText(types, truncate, n - 1), TypeText(types[n - 1], truncate);
      TypesTextNext(types, truncate, n);
      TypeTextsNext(types, truncate, n);
      SpacedNext(TypeTexts(types, truncate, n - 1), t);
      Apart(before, t, n > 1);
    }
  }

  lemma Apart(before: string, t: string, more: bool)
    requires !more ==> before == ""
    ensures before + ((if more then " " else "") + t) == (if more then before + " " else "") + t
  {}

  /** A value that ends its line is read with the semicolon after it. */
  function Read(value: string, last: bool): Option<string> {
    Some(value + if last then ";" else "")
  }

  lemma RtHead(types: seq<string>, truncate: int)
    ensures var a := RtText(types, truncate);
            "rt" < a && !("if" <= a) && !("ct" <= a) && a[3..] == "\"" + TypesText(types, truncate, |types|) + "\""
  {
    hide TypesText;
    assert RtText(types, truncate)[0] == 'r';
  }

  lemma IfHead(interfaces: string)
    ensures var a := IfText(interfaces);
            "if" < a && !("rt" <= a) && !("ct" <= a) && a[3..] == interfaces
  {
    assert IfText(interfaces)[0] == 'i';
  }

  lemma CtHead(contentType: string)
    ensures var a := CtText(contentType);
            "ct" < a && !("rt" <= a) && !("if" <= a) && a[3..] == contentType
  {
    assert CtText(contentType)[0] == 'c';
  }

  lemma Heads(link: Link, truncate: int)
    ensures var rt := RtText(link.types, truncate);
            var ct := if link.contentType.None? then "" else CtText(link.contentType.value);
            && "rt" < rt && !("if" <= rt) && !("ct" <= rt)
            && !("rt" <= ct) && !("if" <= ct) && (link.contentType.Some? ==> "ct" < ct)
            && (link.contentType.None? ==> !("ct" <= ct))
            && (link.interfaces.Some? ==>
                  var i := IfText(link.interfaces.value); "if" < i && !("rt" <= i) && !("ct" <= i))
  {
    hide RtText, IfText, CtText;
    RtHead(link.types, truncate);
    if link.interfaces.Some? { IfHead(link.interfaces.value); }
    if link.contentType.Some? { CtHead(link.contentType.value); }
  }

  /** The position of an attribute with the name, or how many attributes there are. */
  lemma ReadAt(link: Link, truncate: int, k: nat, param: string, rest: string)
    requires PlainLink(link, truncate) && param in ["rt", "if", "ct"]
    requires k <= |Attributes(link, truncate)|
    requires forall j | 0 <= j < |Attributes(link, truncate)| && j != k :: !(param <= Attributes(link, truncate)[j])
    requires k < |Attributes(link, truncate)|
        ==> param < Attributes(link, truncate)[k] && Attributes(link, truncate)[k][3..] == rest
    ensures ParamText(Framed(link, truncate), param)
         == if k == |Attributes(link, truncate)| then None else Read(rest, Attributes(link, truncate)[k + 1..] == [""])
  {
    var attributes := Attributes(link, truncate);
    AttributesPlain(link, truncate);
    assert |param| == 2 && SEMICOLON !in param;
    hide Attributes, TypesText, ParamSlice, ParamText, Tail, Line, RtText, IfText, CtText;
    ReadsAttribute(link.uri, attributes, k, param, rest);
  }

  lemma ReadsAttribute(uri: string, attributes: seq<string>, k: nat, param: string, rest: string)
    requires PlainText(uri) && |param| == 2 && SEMICOLON !in param && forall a | a in attributes :: PlainText(a)
    requires k <= |attributes| && forall j | 0 <= j < |attributes| && j != k :: !(param <= attributes[j])
    requires k < |attributes| ==> param < attributes[k] && attributes[k][3..] == rest
    ensures ParamText(Line(uri, attributes), param) == if k == |attributes| then None
        else Read(rest, attributes[k + 1..] == [""])
  {
    hide ParamSlice, ParamText, Tail, Line;
    if k == |attributes| {
      forall a | a in attributes ensures !(param <= a) {
        var j :| 0 <= j < |attributes| && attributes[j] == a;
      }
      NotFoundIsRight(uri, attributes, param);
      NotFoundNone(Line(uri, attributes), param);
    } else {
      ValueIsRight(uri, attributes, k, param);
    }
  }

  lemma NotFoundNone(line: string, param: string)
    requires !ParamSlice(line, param).0
    ensures ParamText(line, param) == None
  {}

  lemma RtReads(link: Link, truncate: int)
    requires PlainLink(link, truncate)
    ensures ParamText(Framed(link, truncate), "rt") == if link.types == [] then None
              else Read("\"" + TypesText(link.types, truncate, |link.types|) + "\"",
                        link.interfaces.None? && link.contentType.None?)
  {
    hide RtText, IfText, CtText, TypesText, ParamText, Framed, Read, PlainLink;
    Heads(link, truncate);
    RtHead(link.types, truncate);
    LastIs(link, truncate);
    var rest := "\"" + TypesText(link.types, truncate, |link.types|) + "\"";
    if link.types == [] {
      ReadAt(link, truncate, |Attributes(link, truncate)|, "rt", rest);
    } else {
      ReadAt(link, truncate, 0, "rt", rest);
    }
  }

  lemma IfReads(link: Link, truncate: int)
    requires PlainLink(link, truncate)
    ensures ParamText(Framed(link, truncate), "if")
         == if link.interfaces.None? then None else Read(link.interfaces.value, link.contentType.None?)
  {
    hide RtText, IfText, CtText, TypesText, ParamText, Framed, Read, PlainLink;
    Heads(link, truncate);
    if link.interfaces.Some? { IfHead(link.interfaces.value); }
    var k := if link.interfaces.None? then |Attributes(link, truncate)| else if link.types == [] then 0 else 1;
    ReadAt(link, truncate, k, "if", if link.interfaces.None? then "" else link.interfaces.value);
    LastIs(link, truncate);
  }

  lemma CtReads(link: Link, truncate: int)
    requires PlainLink(link, truncate)
    ensures ParamText(Framed(link, truncate), "ct") == link.contentType
  {
    Heads(link, truncate);
    if link.contentType.Some? { CtHead(link.contentType.value); }
    hide RtText, IfText, CtText, TypesText, ParamText, Framed, PlainLink;
    var n := |Attributes(link, truncate)|;
    ReadAt(link, truncate, if link.contentType.None? then n else n - 1, "ct",
           if link.contentType.None? then "" else link.contentType.value);
    if link.contentType.Some? { assert link.contentType.value + "" == link.contentType.value; }
  }

  /** The last attribute is empty exactly if there is no content type. */
  lemma LastIs(link: Link, truncate: int)
    ensures var n := |Attributes(link, truncate)|;
            && n == (if link.types == [] then 0 else 1) + (if link.interfaces.None? then 0 else 1) + 1
            && (Attributes(link, truncate)[n - 1..] == [""] <==> link.contentType.None?)
  {
    hide RtText, IfText;
    if link.contentType.Some? { CtHead(link.contentType.value); }
    hide CtText;
    var attributes := Attributes(link, truncate);
    assert attributes[|attributes| - 1..] == [attributes[|attributes| - 1]];
  }

  /** What is read of one framed link: its uri and content type as they were, the others up to the last semicolon. */
  lemma LinkReadsBack(link: Link, truncate: int)
    requires PlainLink(link, truncate)
    ensures var line := Framed(link, truncate);
            && UriSlice(line) == Slice(1, |link.uri|) && link.uri == line[1..1 + |link.uri|]
            && ParamText(line, "rt") == (if link.types == [] then None
                 else Read("\"" + TypesText(link.types, truncate, |link.types|) + "\"",
                           link.interfaces.None? && link.contentType.None?))
            && ParamText(line, "if") == (if link.interfaces.None? then None
                else Read(link.interfaces.value, link.contentType.None?))
            && ParamText(line, "ct") == link.contentType
  {
    hide Attributes, TypesText, ParamText, Tail, UriSlice, Read;
    UriIsRight(link.uri, Attributes(link, truncate));
    RtReads(link, truncate);
    IfReads(link, truncate);
    CtReads(link, truncate);
  }

  /**
   A whole response reads back: as many entries as links, and each line as framed. Only a response of
   fewer than five characters, a lone link whose uri is one character and which has nothing else, does not.
   */
  lemma ResponseReadsBack(links: seq<Link>, truncate: int)
    requires links != [] && forall l | l in links :: PlainLink(l, truncate)
    ensures var payload := Joined(FramedAll(links, truncate));
            && (NumberSpec(payload) == |links| <==> |payload| >= 5)
            && (|payload| >= 5 ==> forall e | 0 <= e < |links| :: LineText(payload, e) == Framed(links[e], truncate))
            && (|payload| < 5 ==>
                  |links| == 1 && Framed(links[0], truncate) == "<" + links[0].uri + ">;" && |links[0].uri| == 1)
  {
    hide Framed, LineText, Joined, NumberSpec, PlainLink, FramedAll, Clean;
    var lines := FramedAll(links, truncate);
    assert forall l | l in links :: l.uri != ""
        by { forall l | l in links ensures l.uri != "" { PlainHasUri(l, truncate); } }
    FramedOne(links, truncate);
    forall l | l in lines ensures Clean(l) {
      var e :| 0 <= e < |lines| && lines[e] == l;
      FramedIsClean(links[e], truncate);
    }
    NumberIsRight(lines);
    if |Joined(lines)| >= 5 {
      forall e | 0 <= e < |links| ensures LineText(Joined(lines), e) == Framed(links[e], truncate) {
        LineIsRight(lines, e);
      }
    } else {
      FramedIsClean(links[|links| - 1], truncate);
      ShortIsLone(lines);
      PlainHasUri(links[0], truncate);
      LoneIsBare(links[0], truncate);
    }
  }

  lemma PlainHasUri(link: Link, truncate: int)
    requires PlainLink(link, truncate)
    ensures link.uri != ""
  {}

  /** Lines of at least four characters make a short text only if there is one. */
  lemma ShortIsLone(lines: seq<string>)
    requires lines != [] && |lines[|lines| - 1]| >= 4 && |Joined(lines)| < 5
    ensures |lines| == 1 && |lines[0]| == 4
  {}

  lemma LoneIsBare(link: Link, truncate: int)
    requires link.uri != "" && |Framed(link, truncate)| < 5
    ensures Framed(link, truncate) == "<" + link.uri + ">;" && |link.uri| == 1
  {
    var attributes := Attributes(link, truncate);
    SomeAttribute(link, truncate);
    hide Attributes;
    assert |Tail(attributes)| >= 1;
    assert |Opened(link.uri)| == |link.uri| + 2;
    assert |Tail(attributes)| == 1;
    RestOf(attributes);
  }
}
