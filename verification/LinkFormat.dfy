/**
 Link-format responses of RFC 6690: the framing of `oc_discovery.c` and the reading of
 `oc_client_api.c`, which undoes it.
 */
module LinkFormat {
  import opened Options

  /** What a resource contributes; `interfaces` is the text of a non-zero mask, `contentType` of a non-zero number. */
  datatype Link = Link(uri: string, types: seq<string>, interfaces: Option<string>, contentType: Option<string>)

  const COMMA := ','
  const SEMICOLON := ';'

  // --- Framing ---

  /** One resource type: whole for 0, without its urn for 1, and nothing otherwise. */
  function TypeText(t: string, truncate: int): string {
    if truncate == 0 then t
    else if truncate == 1 then (if "urn:knx" <= t then t[7..] else t)
    else ""
  }

  function TypesText(types: seq<string>, truncate: int, n: nat): string
    requires n <= |types|
  {
    if n == 0 then ""
    else
      TypesText(types, truncate, n - 1) + Separated(types[n - 1], n > 1, truncate)
  }

  /** A type with the space before it, if it is not the first; an empty one is left out. */
  function Separated(t: string, more: bool, truncate: int): string {
    if t == "" then "" else (if more then " " else "") + TypeText(t, truncate)
  }

  function RtText(types: seq<string>, truncate: int): string {
    "rt=\"" + TypesText(types, truncate, |types|) + "\""
  }

  function IfText(interfaces: string): string {
    "if=" + interfaces
  }

  function CtText(contentType: string): string {
    "ct=" + contentType
  }

  /** The attributes of a link; the last one is not terminated, and is empty without a content type. */
  function Attributes(link: Link, truncate: int): seq<string> {
    (if link.types == [] then [] else [RtText(link.types, truncate)])
    + (if link.interfaces.None? then [] else [IfText(link.interfaces.value)])
    + [if link.contentType.None? then "" else CtText(link.contentType.value)]
  }

  function Tail(attributes: seq<string>): string {
    if attributes == [] then "" else ";" + attributes[0] + Tail(attributes[1..])
  }

  function Opened(uri: string): string {
    "<" + uri + ">"
  }

  function Line(uri: string, attributes: seq<string>): string {
    Opened(uri) + Tail(attributes)
  }

  function Framed(link: Link, truncate: int): string {
    Line(link.uri, Attributes(link, truncate))
  }

  /** The lines of a response, joined by a comma and a newline. */
  function Joined(lines: seq<string>): string {
    if lines == [] then ""
    else if |lines| == 1 then lines[0]
    else Joined(lines[..|lines| - 1]) + ",\n" + lines[|lines| - 1]
  }

  function FramedAll(links: seq<Link>, truncate: int): seq<string> {
    if links == [] then []
    else FramedAll(links[..|links| - 1], truncate)
         + if links[|links| - 1].uri == "" then [] else [Framed(links[|links| - 1], truncate)]
  }

  lemma {:induction false} TailLast(attributes: seq<string>, last: string)
    ensures Tail(attributes + [last]) == Tail(attributes) + (";" + last)
  {
    hide Tail;
    NoTail();
    if attributes == [] {
      TailOnce([last]);
      assert [last][1..] == [] && ";" + last + "" == ";" + last && attributes + [last] == [last];
    } else {
      TailLast(attributes[1..], last);
      TailOnce(attributes);
      TailOnce(attributes + [last]);
      assert (attributes + [last])[1..] == attributes[1..] + [last];
      var head, rest := ";" + attributes[0], Tail(attributes[1..]);
      assert head + (rest + (";" + last)) == head + rest + (";" + last);
    }
  }

  lemma NoTail()
    ensures Tail([]) == ""
  {
  }

  lemma TailOnce(attributes: seq<string>)
    requires attributes != []
    ensures Tail(attributes) == ";" + attributes[0] + Tail(attributes[1..])
  {
  }

  /** The response being encoded. */
  class Response {
    var text: string

    constructor ()
      ensures text == ""
    {
      text := "";
    }

    /** `oc_rep_add_line_to_buffer` and `oc_rep_add_line_size_to_buffer` */
    method Add(line: string)
      modifies this
      ensures text == old(text) + line
    {
      text := text + line;
    }

    method AddType(t: string, more: bool, truncate: int)
      modifies this
      ensures text == old(text) + Separated(t, more, truncate)
    {
      if t != "" {
        if more { Add(" "); }
        if truncate == 0 {
          Add(t);
        } else if truncate == 1 {
          if "urn:knx" <= t { Add(t[7..]); } else { Add(t); }
        }
      }
    }

    method AddRt(types: seq<string>, truncate: int)
      modifies this
      ensures text == old(text) + (RtText(types, truncate) + ";")
    {
      hide Separated;
      Add("rt=\"");
      ghost var start := text;
      var i := 0;
      while i < |types|
        invariant i <= |types| && text == start + TypesText(types, truncate, i)
      {
        assert start + TypesText(types, truncate, i) + Separated(types[i], i > 0, truncate)
            == start + (TypesText(types, truncate, i) + Separated(types[i], i > 0, truncate));
        AddType(types[i], i > 0, truncate);
        i := i + 1;
      }
      hide TypesText;
      Add("\";");
    }

    method AddIf(interfaces: string)
      modifies this
      ensures text == old(text) + (IfText(interfaces) + ";")
    {
      Add("if=");
      Add(interfaces);
      Add(";");
    }

    /** `oc_add_resource_to_wk` */
    method AddResource(link: Link, truncate: int) returns (added: bool)
      modifies this
      ensures added == (link.uri != "")
      ensures !added ==> text == old(text)
      ensures added ==> text == old(text) + (if old(text) == "" then "" else ",\n") + Framed(link, truncate)
    {
      hide Framed;
      if link.uri == "" { return false; }
      if |text| > 0 { Add(",\n"); }
      AddLink(link, truncate);
      return true;
    }

    /** The uri and then the attributes, each in its turn. */
    method AddLink(link: Link, truncate: int)
      modifies this
      ensures text == old(text) + Framed(link, truncate)
    {
      hide RtText, IfText, CtText, Tail, Opened, Framed;
      ghost var start, open := text, Opened(link.uri);
      ghost var rt, if_ := if link.types == [] then [] else [RtText(link.types, truncate)],
                           if link.interfaces.None? then [] else [IfText(link.interfaces.value)];
      ghost var ct := if link.contentType.None? then "" else CtText(link.contentType.value);
      AddUri(link.uri);
      ghost var first := start + open + Tail([]) + ";";
      AddTypes(link, truncate);
      ghost var second := first + if rt == [] then "" else rt[0] + ";";
      assert text == second;
      AddInterfaces(link);
      ghost var third := second + if if_ == [] then "" else if_[0] + ";";
      assert text == third;
      AddContentType(link);
      assert text == third + ct;
      Assembled(start, open, rt, if_, ct);
      FramedIs(link, truncate, rt, if_, ct);
    }

    method AddTypes(link: Link, truncate: int)
      modifies this
      ensures text == old(text) + if link.types == [] then "" else RtText(link.types, truncate) + ";"
    {
      hide RtText;
      if |link.types| > 0 { AddRt(link.types, truncate); }
    }

    method AddInterfaces(link: Link)
      modifies this
      ensures text == old(text) + if link.interfaces.None? then "" else IfText(link.interfaces.value) + ";"
    {
      hide IfText;
      if link.interfaces.Some? { AddIf(link.interfaces.value); }
    }

    method AddContentType(link: Link)
      modifies this
      ensures text == old(text) + if link.contentType.None? then "" else CtText(link.contentType.value)
    {
      hide CtText;
      if link.contentType.Some? { AddCt(link.contentType.value); }
    }

    method AddUri(uri: string)
      modifies this
      ensures text == old(text) + Opened(uri) + Tail([]) + ";"
    {
      Add("<");
      Add(uri);
      Add(">;");
    }

    method AddCt(contentType: string)
      modifies this
      ensures text == old(text) + CtText(contentType)
    {
      Add("ct=");
      Add(contentType);
    }
  }

  /** What the text becomes when at most one more terminated attribute is added. */
  lemma Terminated(start: string, open: string, attributes: seq<string>, more: seq<string>)
    requires |more| <= 1
    ensures start + open + Tail(attributes) + ";" + (if more == [] then "" else more[0] + ";")
         == start + open + Tail(attributes + more) + ";"
  {
    hide Tail;
    if more == [] {
      assert attributes + more == attributes;
    } else {
      TailLast(attributes, more[0]);
      assert more == [more[0]];
    }
  }

  /** All pieces of one link, in order. */
  lemma Assembled(start: string, open: string, rt: seq<string>, if_: seq<string>, ct: string)
    requires |rt| <= 1 && |if_| <= 1
    ensures start + open + Tail([]) + ";" + (if rt == [] then "" else rt[0] + ";")
        + (if if_ == [] then "" else if_[0] + ";") + ct
         == start + (open + Tail(rt + if_ + [ct]))
  {
    hide Tail;
    Terminated(start, open, [], rt);
    assert [] + rt == rt;
    Terminated(start, open, rt, if_);
    TailLast(rt + if_, ct);
    assert start + open + Tail(rt + if_) + ";" + ct == start + (open + (Tail(rt + if_) + (";" + ct)));
  }

  lemma FramedIs(link: Link, truncate: int, rt: seq<string>, if_: seq<string>, ct: string)
    requires rt == if link.types == [] then [] else [RtText(link.types, truncate)]
    requires if_ == if link.interfaces.None? then [] else [IfText(link.interfaces.value)]
    requires ct == if link.contentType.None? then "" else CtText(link.contentType.value)
    ensures Framed(link, truncate) == Opened(link.uri) + Tail(rt + if_ + [ct])
  {
    hide RtText, IfText, CtText, Tail, Opened;
  }

  /** A whole response: every resource with a uri, in order. */
  method Respond(links: seq<Link>, truncate: int) returns (payload: string)
    ensures payload == Joined(FramedAll(links, truncate))
  {
    hide Framed, Joined;
    var response := new Response();
    var i := 0;
    JoinedNext([], "");
    while i < |links|
      invariant i <= |links| && response.text == Joined(FramedAll(links[..i], truncate))
    {
      FramedNonempty(links[..i], truncate);
      JoinedEmpty(FramedAll(links[..i], truncate));
      ghost var before := FramedAll(links[..i], truncate);
      assert links[..i + 1][..i] == links[..i];
      JoinedNext(before, Framed(links[i], truncate));
      assert FramedAll(links[..i + 1], truncate) == before + if links[i].uri == "" then []
          else [Framed(links[i], truncate)];
      assert before + [] == before;
      var added := response.AddResource(links[i], truncate);
      i := i + 1;
    }
    assert links[..i] == links;
    return response.text;
  }

  lemma JoinedNext(lines: seq<string>, line: string)
    ensures Joined(lines + [line]) == Joined(lines) + (if lines == [] then "" else ",\n") + line
    ensures Joined([]) == ""
  {
    assert (lines + [line])[..|lines|] == lines;
  }

  lemma {:induction false} FramedNonempty(links: seq<Link>, truncate: int)
    ensures forall l | l in FramedAll(links, truncate) :: l != ""
  {
    hide Attributes, Tail;
    if links != [] {
      FramedNonempty(links[..|links| - 1], truncate);
    }
  }

  lemma JoinedEmpty(lines: seq<string>)
    requires forall l | l in lines :: l != ""
    ensures Joined(lines) == "" <==> lines == []
  {
    if |lines| > 0 { assert lines[0] in lines; }
  }

  // --- Reading ---

  function Count(s: string, c: char): nat {
    if s == "" then 0 else Count(s[..|s| - 1], c) + if s[|s| - 1] == c then 1 else 0
  }

  /** The least position, not the last one, that comes after exactly `k` commas; else the length. */
  function AfterCommas(payload: string, k: nat, from: nat): (i: nat)
    requires from < |payload|
    decreases |payload| - from
  {
    if from == |payload| - 1 then |payload|
    else if Count(payload[..from], COMMA) == k then from
    else AfterCommas(payload, k, from + 1)
  }

  /** A part of the payload: where it begins and how long it is. */
  datatype Slice = Slice(begin: nat, len: int)

  function NumberSpec(payload: string): nat {
    if |payload| < 5 then 0
    else if Count(payload, COMMA) > 0 then Count(payload, COMMA) + 1
    else if payload[0] == '<' then 1 else 0
  }

  /** `oc_lf_number_of_entries` */
  method NumberOfEntries(payload: string) returns (n: nat)
    ensures n == NumberSpec(payload)
  {
    n := 0;
    if |payload| < 5 { return; }
    var i := 0;
    while i < |payload|
      invariant i <= |payload| && n == Count(payload[..i], COMMA)
    {
      assert payload[..i + 1][..i] == payload[..i];
      if payload[i] == COMMA { n := n + 1; }
      i := i + 1;
    }
    assert payload[..i] == payload;
    if n > 0 { n := n + 1; }
    if n == 0 {
      if payload[0] == '<' { n := 1; }
    }
  }

  function LineBegin(payload: string, entry: nat): (i: nat)
    requires |payload| >= 5
    ensures i < |payload|
  {
    AfterBound(payload, entry, 0);
    var i := AfterCommas(payload, entry, 0);
    if i == |payload| then 0 else i
  }

  lemma {:induction false} AfterBound(payload: string, k: nat, from: nat)
    requires from < |payload|
    ensures from <= AfterCommas(payload, k, from) <= |payload|
    ensures AfterCommas(payload, k, from) != |payload| - 1
    decreases |payload| - from
  {
    if from < |payload| - 1 && Count(payload[..from], COMMA) != k {
      AfterBound(payload, k, from + 1);
    }
  }

  function LineEnd(payload: string, entry: nat): (i: nat)
    requires |payload| >= 5
    ensures 0 < i <= |payload|
  {
    AfterBound(payload, entry + 1, 0);
    var i := AfterCommas(payload, entry + 1, 0);
    if i == 0 then |payload| else i
  }

  /** The line without the newline it may begin with and the comma it may end with. */
  function LineSlice(payload: string, entry: nat): Slice {
    if |payload| < 5 then Slice(0, 0)
    else
      var begin, end := LineBegin(payload, entry), LineEnd(payload, entry);
      var first := if payload[begin] == '\n' then begin + 1 else begin;
      Slice(first, (if payload[end - 1] == COMMA then end - 1 else end) - first)
  }

  lemma {:induction false} AfterIs(payload: string, k: nat, from: nat, i: nat)
    requires from <= i < |payload| && (i < |payload| - 1 ==> Count(payload[..i], COMMA) == k)
    requires forall j | from <= j < i :: Count(payload[..j], COMMA) != k
    ensures AfterCommas(payload, k, from) == if i == |payload| - 1 then |payload| else i
    decreases i - from
  {
    if from < i {
      AfterIs(payload, k, from + 1, i);
    }
  }

  /** Before position i: the first place after exactly k commas, if there has been one. */
  ghost predicate FirstPlace(payload: string, k: nat, i: nat, seen: bool, at: nat)
    requires i <= |payload|
  {
    if seen then at < i && Count(payload[..at], COMMA) == k && forall j | 0 <= j < at :: Count(payload[..j], COMMA) != k
    else at == 0 && forall j | 0 <= j < i :: Count(payload[..j], COMMA) != k
  }

  lemma FirstPlaceNext(payload: string, k: nat, i: nat, seen: bool, at: nat)
    requires i < |payload| && FirstPlace(payload, k, i, seen, at)
    ensures if Count(payload[..i], COMMA) == k && !seen then FirstPlace(payload, k, i + 1, true, i)
            else FirstPlace(payload, k, i + 1, seen, at)
  {
    hide Count;
  }

  lemma FirstPlaceIs(payload: string, k: nat, seen: bool, at: nat)
    requires payload != "" && FirstPlace(payload, k, |payload| - 1, seen, at)
    ensures AfterCommas(payload, k, 0) == if seen then at else |payload|
    ensures at < |payload| && (!seen ==> at == 0)
  {
    hide Count;
    AfterIs(payload, k, 0, if seen then at else |payload| - 1);
  }

  lemma NoPlaceYet(payload: string, k: nat)
    ensures FirstPlace(payload, k, 0, false, 0) && Count(payload[..0], COMMA) == 0
  {
    assert payload[..0] == "";
  }

  /** `oc_lf_get_line` */
  method GetLine(payload: string, entry: nat) returns (ok: bool, line: Slice)
    ensures ok == (|payload| >= 5) && line == LineSlice(payload, entry)
  {
    hide Count, FirstPlace;
    if |payload| < 5 { return false, Slice(0, 0); }
    var n, begin, end, beginSet, endSet := 0, 0, 0, false, false;
    var i := 0;
    NoPlaceYet(payload, entry);
    NoPlaceYet(payload, entry + 1);
    while i < |payload| - 1
      invariant 0 <= i <= |payload| - 1 && n == Count(payload[..i], COMMA)
      invariant FirstPlace(payload, entry, i, beginSet, begin)
      invariant FirstPlace(payload, entry + 1, i, endSet, end)
    {
      FirstPlaceNext(payload, entry, i, beginSet, begin);
      FirstPlaceNext(payload, entry + 1, i, endSet, end);
      if entry == n && !beginSet { begin, beginSet := i, true; }
      if entry + 1 == n && !endSet { end, endSet := i, true; }
      CountNext(payload, i);
      if payload[i] == COMMA { n := n + 1; }
      i := i + 1;
    }
    FirstPlaceIs(payload, entry, beginSet, begin);
    FirstPlaceIs(payload, entry + 1, endSet, end);
    if end == 0 { end := |payload|; }
    if payload[begin] == '\n' { begin := begin + 1; }
    if payload[end - 1] == COMMA { end := end - 1; }
    return true, Slice(begin, end - begin);
  }

  lemma CountNext(s: string, i: nat)
    requires i < |s|
    ensures Count(s[..i + 1], COMMA) == Count(s[..i], COMMA) + if s[i] == COMMA then 1 else 0
  {
    assert s[..i + 1][..i] == s[..i];
  }
}
