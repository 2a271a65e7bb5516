/**
 The text of a link-format response, written out after section 2 of RFC 6690, and what is read for entries
 that it does not have.
 */
module LinkText {
  import opened LinkFormat
  import opened LinkReading
  import opened Options

  /** What is shown of a type: all of it, or what comes after "urn:knx", or nothing. */
  predicate Shown(t: string, truncate: int, x: string) {
    if truncate == 0 then x == t
    else if truncate == 1 then t == "urn:knx" + x || (x == t && !("urn:knx" <= t))
    else x == ""
  }

  /** A link: its uri between angle brackets, and each attribute after a semicolon. */
  function LinkTextOf(link: Link, texts: seq<string>): string {
    "<" + link.uri + ">"
    + (if link.types == [] then "" else ";rt=\"" + Spaced(texts) + "\"")
    + (if link.interfaces.None? then "" else ";if=" + link.interfaces.value)
    + ";" + (if link.contentType.None? then "" else "ct=" + link.contentType.value)
  }

  ghost predicate AllShown(types: seq<string>, truncate: int, texts: seq<string>) {
    |texts| == |types| && forall i | 0 <= i < |types| :: Shown(types[i], truncate, texts[i])
  }

  lemma TypeIsShown(t: string, truncate: int)
    ensures Shown(t, truncate, TypeText(t, truncate))
  {
    if truncate == 1 && "urn:knx" <= t { assert t == "urn:knx" + t[7..]; }
  }

  lemma TypesAreShown(types: seq<string>, truncate: int)
    ensures AllShown(types, truncate, TypeTexts(types, truncate, |types|))
  {
    hide TypeText, Shown;
    forall i | 0 <= i < |types| ensures Shown(types[i], truncate, TypeText(types[i], truncate)) {
      TypeIsShown(types[i], truncate);
    }
  }

  /** No type shows in two ways. */
  lemma ShownOnce(t: string, truncate: int, x: string, y: string)
    requires Shown(t, truncate, x) && Shown(t, truncate, y)
    ensures x == y
  {
    if truncate == 1 && "urn:knx" <= t {
      assert ("urn:knx" + x)[7..] == x && ("urn:knx" + y)[7..] == y;
    }
  }

  lemma TailsAre(a: seq<string>, b: seq<string>, last: string)
    requires |a| <= 1 && |b| <= 1
    ensures Tail(a + b + [last]) ==
              (if a == [] then "" else ";" + a[0]) + (if b == [] then "" else ";" + b[0]) + ";" + last
  {
    hide Tail;
    NoTail();
    assert a + [] == a;
    TailLast(a + b, last);
    if a != [] {
      assert a == [] + [a[0]];
      TailLast([], a[0]);
    }
    if b != [] {
      assert b == [b[0]];
      TailLast(a, b[0]);
    }
  }

  /** What is framed for a link is its text, for every link whose types are not empty. */
  lemma FramedIsText(link: Link, truncate: int, texts: seq<string>)
    requires (forall t | t in link.types :: t != "") && AllShown(link.types, truncate, texts)
    ensures Framed(link, truncate) == LinkTextOf(link, texts)
  {
    TypesAreShown(link.types, truncate);
    TypesAreSpaced(link.types, truncate, |link.types|);
    SameTexts(link.types, truncate, texts, TypeTexts(link.types, truncate, |link.types|));
    hide Tail, Spaced, TypesText, TypeTexts, AllShown;
    var rt := if link.types == [] then [] else [RtText(link.types, truncate)];
    var if_ := if link.interfaces.None? then [] else [IfText(link.interfaces.value)];
    var ct := if link.contentType.None? then "" else CtText(link.contentType.value);
    TailsAre(rt, if_, ct);
    assert Attributes(link, truncate) == rt + if_ + [ct];
    Assembled(link, texts, rt, if_, ct);
  }

  lemma Assembled(link: Link, texts: seq<string>, rt: seq<string>, if_: seq<string>, ct: string)
    requires rt == if link.types == [] then [] else ["rt=\"" + Spaced(texts) + "\""]
    requires if_ == if link.interfaces.None? then [] else ["if=" + link.interfaces.value]
    requires ct == if link.contentType.None? then "" else "ct=" + link.contentType.value
    ensures "<" + link.uri + ">"
            + ((if rt == [] then "" else ";" + rt[0]) + (if if_ == [] then "" else ";" + if_[0]) + ";" + ct)
         == LinkTextOf(link, texts)
  {
    hide Spaced;
    var a := if link.types == [] then "" else ";rt=\"" + Spaced(texts) + "\"";
    var b := if link.interfaces.None? then "" else ";if=" + link.interfaces.value;
    if link.types != [] { RtSeparated(Spaced(texts)); }
    if link.interfaces.Some? { IfSeparated(link.interfaces.value); }
    Regrouped("<" + link.uri + ">", a, b, ct);
  }

  lemma RtSeparated(s: string)
    ensures ";" + ("rt=\"" + s + "\"") == ";rt=\"" + s + "\""
  {
  }

  lemma IfSeparated(s: string)
    ensures ";" + ("if=" + s) == ";if=" + s
  {
  }

  lemma Regrouped(u: string, a: string, b: string, c: string)
    ensures u + (a + b + ";" + c) == u + a + b + ";" + c
  {
  }

  lemma SameTexts(types: seq<string>, truncate: int, a: seq<string>, b: seq<string>)
    requires AllShown(types, truncate, a) && AllShown(types, truncate, b)
    ensures a == b
  {
    hide Shown;
    forall i | 0 <= i < |a| ensures a[i] == b[i] { ShownOnce(types[i], truncate, a[i], b[i]); }
  }

  // --- Entries that are not there ---

  lemma {:induction false} NeverAfter(payload: string, k: nat, from: nat)
    requires from < |payload| && forall j | from <= j < |payload| - 1 :: Count(payload[..j], COMMA) != k
    ensures AfterCommas(payload, k, from) == |payload|
    decreases |payload| - from
  {
    hide Count;
    if from < |payload| - 1 { NeverAfter(payload, k, from + 1); }
  }

  /**
   For an entry beyond those that the payload has, the whole payload is read, without a newline in front and
   a comma at the end.
   */
  lemma BeyondIsWhole(payload: string, entry: nat)
    requires |payload| >= 5 && Count(payload, COMMA) < entry
    ensures LineText(payload, entry) ==
              payload[(if payload[0] == '\n' then 1 else 0)..
                      (if payload[|payload| - 1] == ',' then |payload| - 1 else |payload|)]
  {
    hide Count;
    forall j | 0 <= j < |payload| - 1 ensures Count(payload[..j], COMMA) < entry {
      CountPrefix(payload, j, |payload|);
      assert payload[..|payload|] == payload;
    }
    NeverAfter(payload, entry, 0);
    NeverAfter(payload, entry + 1, 0);
  }
}
