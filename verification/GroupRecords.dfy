/**
 The records of the group object table as CBOR (RFC 8949): what is written for an entry, a decoder that
 shares nothing with the writer, and that a record that was cut short is none.
 */
module GroupRecords {
  import opened GroupObjects
  import opened Options

  // --- Writing ---

  /** The `k` low octets of a number, the most significant one first. */
  function Bytes(n: nat, k: nat): (s: seq<nat>)
    ensures |s| == k
    decreases k
  {
    if k == 0 then [] else Bytes(n / 0x100, k - 1) + [n % 0x100]
  }

  /** Major type and argument, in the fewest octets. */
  function Head(major: nat, n: nat): (s: seq<nat>)
    requires major < 8
    ensures s != []
  {
    if n < 24 then [32 * major + n]
    else if n < 0x100 then [32 * major + 24] + Bytes(n, 1)
    else if n < 0x1_0000 then [32 * major + 25] + Bytes(n, 2)
    else if n < 0x1_0000_0000 then [32 * major + 26] + Bytes(n, 4)
    else [32 * major + 27] + Bytes(n, 8)
  }

  function IntItem(n: int): seq<nat> {
    if n < 0 then Head(1, -1 - n) else Head(0, n)
  }

  function Octets(t: string): (s: seq<nat>)
    ensures |s| == |t|
  {
    seq(|t|, i requires 0 <= i < |t| => t[i] as int)
  }

  /** A text string, one octet a character. */
  function TextItem(t: string): seq<nat> {
    Head(3, |t|) + Octets(t)
  }

  function IntItems(ns: seq<int>): seq<nat> {
    if ns == [] then [] else IntItem(ns[0]) + IntItems(ns[1..])
  }

  /** `oc_dump_group_object_table_entry`: an indefinite-length map with the keys 0, 11, 7 and 8. */
  function Encoded(e: Entry): seq<nat> {
    [0xbf] + (IntItem(0) + IntItem(e.id) + (IntItem(11) + TextItem(e.href)
    + (IntItem(7) + (Head(4, |e.ga|) + IntItems(e.ga)) + (IntItem(8) + IntItem(e.cflags) + [0xff]))))
  }

  // --- Reading ---

  datatype Answer<T> = Bad | Got(value: T, rest: seq<nat>)

  datatype Argument = Argument(major: nat, n: nat)

  function Big(s: seq<nat>): nat {
    if s == [] then 0 else 0x100 * Big(s[..|s| - 1]) + s[|s| - 1]
  }

  /** How many octets follow the first one of a head; nothing for a head of no definite argument. */
  function Width(info: nat): Option<nat> {
    if info < 24 then Some(0)
    else if info == 24 then Some(1)
    else if info == 25 then Some(2)
    else if info == 26 then Some(4)
    else if info == 27 then Some(8)
    else None
  }

  function ReadHead(s: seq<nat>): (a: Answer<Argument>)
    ensures a.Got? ==> |a.rest| < |s|
  {
    if s == [] then Bad
    else
      var w := Width(s[0] % 32);
      if w.None? || |s| < 1 + w.value then Bad
      else
        Got(Argument(s[0] / 32, if w.value == 0 then s[0] % 32 else Big(s[1..1 + w.value])), s[1 + w.value..])
  }

  function ReadInt(s: seq<nat>): (a: Answer<int>)
    ensures a.Got? ==> |a.rest| < |s|
  {
    match ReadHead(s)
    case Bad => Bad
    case Got(h, rest) => if h.major == 0 then Got(h.n, rest) else if h.major == 1 then Got(-1 - h.n, rest) else Bad
  }

  function ReadInts(s: seq<nat>, n: nat): (a: Answer<seq<int>>)
    ensures a.Got? ==> |a.rest| <= |s|
    decreases n
  {
    if n == 0 then Got([], s)
    else
      match ReadInt(s)
      case Bad => Bad
      case Got(i, rest) =>
        match ReadInts(rest, n - 1)
        case Bad => Bad
        case Got(more, rest') => Got([i] + more, rest')
  }

  predicate AreOctets(s: seq<nat>) {
    forall i | 0 <= i < |s| :: s[i] < 0x100
  }

  function Chars(s: seq<nat>): string
    requires AreOctets(s)
  {
    seq(|s|, i requires 0 <= i < |s| => s[i] as char)
  }

  /** An integer, a text or an array of integers. */
  function ReadItem(s: seq<nat>): (a: Answer<Value>)
    ensures a.Got? ==> |a.rest| < |s|
  {
    match ReadHead(s)
    case Bad => Bad
    case Got(h, rest) =>
      if h.major == 0 then Got(Int(h.n), rest)
      else if h.major == 1 then Got(Int(-1 - h.n), rest)
      else if h.major == 3 && h.n <= |rest| && AreOctets(rest[..h.n]) then Got(Text(Chars(rest[..h.n])), rest[h.n..])
      else if h.major == 4 then
        (match ReadInts(rest, h.n)
         case Bad => Bad
         case Got(ns, rest') => Got(Ints(ns), rest'))
      else Bad
  }

  /** What a pair says about an entry that is loaded. */
  function Took(e: Entry, key: int, value: Value): Entry {
    match value
    case Int(n) => if key == 0 then e.(id := n) else if key == 8 then e.(cflags := n) else e
    case Text(t) => if key == 11 then e.(href := t) else e
    case Ints(ns) =>
      if key == 7 then e.(ga := seq(|ns|, i requires 0 <= i < |ns| => if ns[i] < 0 then 0 else ns[i])) else e
    case Other => e
  }

  /** Pairs up to the break, which has to be the last octet. */
  function ReadPairs(s: seq<nat>, e: Entry): Option<Entry>
    decreases |s|
  {
    if s == [] then None
    else if s[0] == 0xff then if |s| == 1 then Some(e) else None
    else
      match ReadInt(s)
      case Bad => None
      case Got(key, rest) =>
        match ReadItem(rest)
        case Bad => None
        case Got(value, rest') => ReadPairs(rest', Took(e, key, value))
  }

  /** The entry that a record says, in an indefinite-length map. */
  function Decoded(s: seq<nat>): Option<Entry> {
    if s == [] || s[0] != 0xbf then None else ReadPairs(s[1..], Entry(-1, "", [], 0))
  }

  // --- What is written is read back ---

  function Power(k: nat): nat {
    if k == 0 then 1 else 0x100 * Power(k - 1)
  }

  lemma Powers()
    ensures Power(1) == 0x100 && Power(2) == 0x1_0000 && Power(4) == 0x1_0000_0000
    ensures Power(8) == 0x1_0000_0000_0000_0000
  {
    assert Power(0) == 1;
    assert Power(3) == 0x100_0000;
    assert Power(5) == 0x100_0000_0000;
    assert Power(7) == 0x100_0000_0000_0000;
  }

  lemma {:induction false} BigOfBytes(n: nat, k: nat)
    requires n < Power(k)
    ensures Big(Bytes(n, k)) == n
    decreases k
  {
    if k > 0 {
      BigOfBytes(n / 0x100, k - 1);
      var s := Bytes(n, k);
      assert s[..k - 1] == Bytes(n / 0x100, k - 1) && s[k - 1] == n % 0x100;
    }
  }

  /** The first octet of a head, and the argument behind it. */
  lemma HeadParts(major: nat, n: nat) returns (b: nat, w: nat)
    requires major < 7
    ensures Head(major, n) == [b] + Bytes(n, w) && b / 32 == major && b != 0xff && Width(b % 32) == Some(w)
    ensures w == 0 ==> n < 24 && b % 32 == n
    ensures w > 0 && n < 0x1_0000_0000_0000_0000 ==> n < Power(w)
  {
    Powers();
    hide Power;
    b := Head(major, n)[0];
    w := if n < 24 then 0 else if n < 0x100 then 1 else if n < 0x1_0000 then 2 else if n < 0x1_0000_0000 then 4 else 8;
    assert Bytes(n, 0) == [] && [b] + [] == [b];
    hide Bytes;
  }

  lemma HeadReads(major: nat, n: nat, rest: seq<nat>)
    requires major < 7 && n < 0x1_0000_0000_0000_0000
    ensures ReadHead(Head(major, n) + rest) == Got(Argument(major, n), rest)
    ensures Head(major, n)[0] != 0xff
  {
    hide Head, Big, Bytes, Power, Width;
    var b, w := HeadParts(major, n);
    if w > 0 { BigOfBytes(n, w); }
    var s := Head(major, n) + rest;
    assert s[0] == b && s[1..1 + w] == Bytes(n, w) && s[1 + w..] == rest;
  }

  /** What CBOR can write: arguments of 64 bits. */
  predicate Wide(n: int) {
    -0x1_0000_0000_0000_0000 <= n < 0x1_0000_0000_0000_0000
  }

  lemma IntReads(n: int, rest: seq<nat>)
    requires Wide(n)
    ensures ReadInt(IntItem(n) + rest) == Got(n, rest)
    ensures ReadItem(IntItem(n) + rest) == Got(Int(n), rest)
    ensures IntItem(n) != [] && IntItem(n)[0] != 0xff
  {
    hide ReadHead, Head;
    HeadReads(if n < 0 then 1 else 0, if n < 0 then -1 - n else n, rest);
  }

  lemma TextReads(t: string, rest: seq<nat>)
    requires Wide(|t|) && forall c | c in t :: c as int < 0x100
    ensures ReadItem(TextItem(t) + rest) == Got(Text(t), rest)
  {
    hide ReadHead, Head;
    var s := Octets(t) + rest;
    HeadReads(3, |t|, s);
    assert Head(3, |t|) + s == TextItem(t) + rest;
    assert s[..|t|] == Octets(t) && s[|t|..] == rest;
    OctetsBack(t);
  }

  lemma OctetsBack(t: string)
    requires forall c | c in t :: c as int < 0x100
    ensures AreOctets(Octets(t)) && Chars(Octets(t)) == t
  {
    forall i | 0 <= i < |t| ensures Octets(t)[i] < 0x100 { assert t[i] in t; }
  }

  lemma {:induction false} IntsRead(ns: seq<int>, rest: seq<nat>)
    requires forall n | n in ns :: Wide(n)
    ensures ReadInts(IntItems(ns) + rest, |ns|) == Got(ns, rest)
    decreases |ns|
  {
    hide ReadInt, IntItem, Wide;
    if ns == [] {
      assert [] + rest == rest;
    } else {
      var later := IntItems(ns[1..]) + rest;
      assert IntItems(ns) + rest == IntItem(ns[0]) + later;
      assert ns[0] in ns;
      IntReads(ns[0], later);
      IntsRead(ns[1..], rest);
      assert [ns[0]] + ns[1..] == ns;
    }
  }

  lemma WideLength(ns: seq<int>)
    requires Wide(|ns|)
    ensures |ns| < 0x1_0000_0000_0000_0000
  {
  }

  lemma ListReads(s: seq<nat>, n: nat, rest: seq<nat>)
    requires ReadHead(s) == Got(Argument(4, n), rest) && ReadInts(rest, n).Got?
    ensures ReadItem(s) == Got(Ints(ReadInts(rest, n).value), ReadInts(rest, n).rest)
  {
    hide ReadHead, ReadInts;
  }

  lemma ArrayReads(ns: seq<int>, rest: seq<nat>)
    requires Wide(|ns|) && forall n | n in ns :: Wide(n)
    ensures ReadItem(Head(4, |ns|) + IntItems(ns) + rest) == Got(Ints(ns), rest)
  {
    hide ReadHead, Head, ReadInts, IntItems, Wide, ReadItem;
    var s := IntItems(ns) + rest;
    HeadReads(4, |ns|, s) by { WideLength(ns); }
    assert Head(4, |ns|) + IntItems(ns) + rest == Head(4, |ns|) + s;
    IntsRead(ns, rest);
    ListReads(Head(4, |ns|) + s, |ns|, s);
  }

  /** One pair, then the rest. */
  lemma PairReads(key: int, item: seq<nat>, value: Value, rest: seq<nat>, e: Entry)
    requires Wide(key) && ReadItem(item + rest) == Got(value, rest)
    ensures ReadPairs(IntItem(key) + item + rest, e) == ReadPairs(rest, Took(e, key, value))
  {
    hide ReadItem, ReadInt, IntItem, Took;
    var s := IntItem(key) + item + rest;
    assert s == IntItem(key) + (item + rest);
    IntReads(key, item + rest);
    assert s[0] == IntItem(key)[0];
  }

  ghost predicate Encodable(e: Entry) {
    && Wide(e.id) && Wide(e.cflags) && Wide(|e.href|) && Wide(|e.ga|)
    && (forall n | n in e.ga :: Wide(n)) && forall c | c in e.href :: c as int < 0x100
  }

  /** Every record is read back as the entry that it was written for. */
  lemma RecordReadsBack(e: Entry)
    requires Encodable(e)
    ensures Decoded(Encoded(e)) == Some(e)
  {
    hide ReadPairs, IntItem, TextItem, ReadItem, Head, IntItems;
    var free := Entry(-1, "", [], 0);
    var end: seq<nat> := [0xff];
    var flags := IntItem(8) + IntItem(e.cflags) + end;
    var list := Head(4, |e.ga|) + IntItems(e.ga);
    var groups := IntItem(7) + list + flags;
    var href := IntItem(11) + TextItem(e.href) + groups;
    var id := IntItem(0) + IntItem(e.id) + href;
    assert Encoded(e) == [0xbf] + id by { EncodedParts(e); }
    assert ([0xbf] + id)[1..] == id;
    var one := free.(id := e.id);
    var two := one.(href := e.href);
    var three := two.(ga := e.ga);
    IntReads(e.id, href);
    PairReads(0, IntItem(e.id), Int(e.id), href, free);
    TextReads(e.href, groups);
    PairReads(11, TextItem(e.href), Text(e.href), groups, one);
    ArrayReads(e.ga, flags);
    PairReads(7, list, Ints(e.ga), flags, two);
    assert Took(two, 7, Ints(e.ga)) == three;
    IntReads(e.cflags, end);
    PairReads(8, IntItem(e.cflags), Int(e.cflags), end, three);
    BreakReads(e);
  }

  lemma BreakReads(e: Entry)
    ensures ReadPairs([0xff], e) == Some(e)
  {
  }

  lemma EncodedParts(e: Entry)
    ensures Encoded(e) == [0xbf] + (IntItem(0) + IntItem(e.id) + (IntItem(11) + TextItem(e.href)
                          + (IntItem(7) + (Head(4, |e.ga|) + IntItems(e.ga))
                              + (IntItem(8) + IntItem(e.cflags) + [0xff]))))
  {
  }

  // --- How long a record is ---

  lemma {:induction false} ItemsSize(ns: seq<int>)
    ensures |IntItems(ns)| == IntsSize(ns)
  {
    hide IntItem, IntSize;
    if ns != [] {
      IntLength(ns[0]);
      ItemsSize(ns[1..]);
    }
  }

  lemma HeadLength(major: nat, n: nat)
    requires major < 8
    ensures |Head(major, n)| == HeadSize(n)
  {
    hide Bytes;
  }

  lemma IntLength(n: int)
    ensures |IntItem(n)| == IntSize(n)
  {
    HeadLength(0, if n < 0 then -1 - n else n);
    HeadLength(1, if n < 0 then -1 - n else n);
    hide Head, HeadSize;
  }

  /** The size that decides whether a record is written and whether it is read whole is its length. */
  lemma RecordSizeIsLength(e: Entry)
    ensures |Encoded(e)| == RecordSize(e)
  {
    ItemsSize(e.ga);
    HeadLength(3, |e.href|);
    HeadLength(4, |e.ga|);
    IntLength(e.id);
    IntLength(e.cflags);
    IntLength(0);
    IntLength(11);
    IntLength(7);
    IntLength(8);
    assert IntSize(0) == IntSize(11) == IntSize(7) == IntSize(8) == 1;
    hide IntItems, IntsSize, Head, IntItem, IntSize, HeadSize, Octets;
  }

  // --- A record that was cut short ---

  lemma HeadExtends(s: seq<nat>, r: seq<nat>)
    requires ReadHead(s).Got?
    ensures ReadHead(s + r) == Got(ReadHead(s).value, ReadHead(s).rest + r)
  {
    hide Big;
    var w := Width(s[0] % 32).value;
    assert (s + r)[1..1 + w] == s[1..1 + w];
  }

  lemma IntExtends(s: seq<nat>, r: seq<nat>)
    requires ReadInt(s).Got?
    ensures ReadInt(s + r) == Got(ReadInt(s).value, ReadInt(s).rest + r)
  {
    HeadExtends(s, r);
    hide ReadHead;
  }

  lemma {:induction false} IntsExtend(s: seq<nat>, n: nat, r: seq<nat>)
    requires ReadInts(s, n).Got?
    ensures ReadInts(s + r, n) == Got(ReadInts(s, n).value, ReadInts(s, n).rest + r)
    decreases n
  {
    hide ReadInt;
    if n > 0 {
      IntExtends(s, r);
      IntsExtend(ReadInt(s).rest, n - 1, r);
    }
  }

  lemma ItemExtends(s: seq<nat>, r: seq<nat>)
    requires ReadItem(s).Got?
    ensures ReadItem(s + r) == Got(ReadItem(s).value, ReadItem(s).rest + r)
  {
    HeadExtends(s, r);
    hide ReadHead, ReadInts;
    var h, rest := ReadHead(s).value, ReadHead(s).rest;
    if h.major == 3 {
      assert (rest + r)[..h.n] == rest[..h.n] && (rest + r)[h.n..] == rest[h.n..] + r;
    } else if h.major == 4 {
      IntsExtend(rest, h.n, r);
    }
  }

  /** What reads as a whole record does not with more behind it. */
  lemma {:induction false} PairsExtend(s: seq<nat>, e: Entry, r: seq<nat>)
    requires ReadPairs(s, e).Some? && r != []
    ensures ReadPairs(s + r, e).None?
    decreases |s|
  {
    hide ReadInt, ReadItem, Took;
    assert (s + r)[0] == s[0];
    if s[0] != 0xff {
      IntExtends(s, r);
      var key, rest := ReadInt(s).value, ReadInt(s).rest;
      ItemExtends(rest, r);
      PairsExtend(ReadItem(rest).rest, Took(e, key, ReadItem(rest).value), r);
    }
  }

  lemma CutIsNone(s: seq<nat>, k: nat)
    requires Decoded(s).Some? && k < |s|
    ensures Decoded(s[..k]) == None
  {
    hide ReadPairs;
    if k > 0 {
      var t := s[..k];
      assert t[1..] + s[k..] == s[1..];
      if ReadPairs(t[1..], Entry(-1, "", [], 0)).Some? { PairsExtend(t[1..], Entry(-1, "", [], 0), s[k..]); }
    }
  }

  /** No proper beginning of a record is a record. */
  lemma CutRecordIsNone(e: Entry, k: nat)
    requires Encodable(e) && k < |Encoded(e)|
    ensures Decoded(Encoded(e)[..k]) == None
  {
    hide Encoded, Decoded, Encodable;
    RecordReadsBack(e);
    CutIsNone(Encoded(e), k);
  }

  /**
   What a restarted device has in a slot: the entry that its record says, read through a buffer of 1024
   octets, and a free slot if what was read is no record.
   */
  lemma LoadedIsDecoded(storage: Storage, i: nat)
    requires i in storage && Encodable(storage[i])
    ensures var s := Encoded(storage[i]);
            var answer := Decoded(if |s| <= 1024 then s else s[..1024]);
            Loaded(storage, i) == if answer.Some? then answer.value else Entry(-1, "", [], 0)
  {
    RecordSizeIsLength(storage[i]);
    RecordReadsBack(storage[i]);
    hide RecordSize, Encoded, Decoded, Encodable;
    if |Encoded(storage[i])| > 1024 { CutRecordIsNone(storage[i], 1024); }
  }

  /** The slots that outlive a restart are those of at most 1024 octets, written out, and without a NUL. */
  lemma SurvivesIfShort(e: Entry)
    ensures Survives(e) <==> |Encoded(e)| <= 1024 && '\0' !in e.href
  {
    RecordSizeIsLength(e);
    hide RecordSize, Encoded;
  }
}
