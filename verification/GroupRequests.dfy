/**
 What requests, load events and restarts do to the group object table, read off the pairs of the request
 and the slots of the table.
 */
module GroupRequests {
  import opened GroupObjects
  import opened Options
  import opened CStrings
  import D = GroupDispatch

  // --- What a request says ---

  /** `n` as a signed word of 32 bits. */
  predicate Wraps(n: int, w: int) {
    -0x8000_0000 <= w < 0x8000_0000 && (n - w) % 0x1_0000_0000 == 0
  }

  predicate AreWords(ns: seq<int>, ws: seq<nat>) {
    |ws| == |ns| && forall k | 0 <= k < |ns| :: ws[k] < 0x1_0000_0000 && (ns[k] - ws[k]) % 0x1_0000_0000 == 0
  }

  /** Codes 1 to 5 are read, write, transmission, update and init; each occurrence counts. */
  predicate AreFlags(ns: seq<int>, flags: int) {
    var m := multiset(ns);
    flags == 8 * m[1] + 16 * m[2] + 64 * m[3] + 128 * m[4] + 32 * m[5]
  }

  ghost predicate GivesId(items: seq<Item>, id: int) {
    exists n :: Item(0, Int(n)) in items && Wraps(n, id)
  }

  ghost predicate GivesHref(items: seq<Item>) {
    exists t :: Item(11, Text(t)) in items
  }

  ghost predicate GivesGroups(items: seq<Item>) {
    exists ns :: Item(7, Ints(ns)) in items
  }

  ghost predicate GivesFlagWord(items: seq<Item>) {
    exists n :: Item(8, Int(n)) in items
  }

  ghost predicate GivesFlagCodes(items: seq<Item>) {
    exists ns :: Item(8, Ints(ns)) in items
  }

  /** The entry with what the pairs say, and what it held before for the rest. */
  ghost predicate Entered(before: Entry, items: seq<Item>, e: Entry) {
    && GivesId(items, e.id)
    && (if GivesHref(items) then Item(11, Text(e.href)) in items else e.href == before.href)
    && (if GivesGroups(items) then exists ns :: Item(7, Ints(ns)) in items && AreWords(ns, e.ga)
        else e.ga == before.ga)
    && (if GivesFlagWord(items) then exists n :: Item(8, Int(n)) in items && Wraps(n, e.cflags)
        else if GivesFlagCodes(items) then exists ns :: Item(8, Ints(ns)) in items && AreFlags(ns, e.cflags)
        else e.cflags == before.cflags)
  }

  /** Nothing but the id, as far as the table looks. */
  predicate BareId(items: seq<Item>) {
    forall x | x in items :: x.value.Other? || (x.value.Int? && x.key != 8)
  }

  // --- The words behind the functions ---

  lemma WordWraps(n: int)
    ensures Wraps(n, ToInt32(n)) && ToUint32(n) < 0x1_0000_0000 && (n - ToUint32(n)) % 0x1_0000_0000 == 0
  {
    var q, r := n / 0x1_0000_0000, n % 0x1_0000_0000;
    assert n == 0x1_0000_0000 * q + r;
    Multiple(n - r, q);
    Multiple(n - (r - 0x1_0000_0000), q + 1);
  }

  lemma Multiple(n: int, q: int)
    requires n == 0x1_0000_0000 * q
    ensures n % 0x1_0000_0000 == 0
  {
  }

  lemma OneWord(n: int, v: int, w: int)
    requires Wraps(n, v) && Wraps(n, w)
    ensures v == w
  {
    assert (v - w) % 0x1_0000_0000 == 0 by {
      var p, q := (n - w) / 0x1_0000_0000, (n - v) / 0x1_0000_0000;
      assert n - w == 0x1_0000_0000 * p && n - v == 0x1_0000_0000 * q;
      Multiple(v - w, p - q);
    }
  }

  lemma {:induction false} FlagsAreSummed(ns: seq<int>)
    ensures AreFlags(ns, FlagSum(ns))
  {
    if ns != [] {
      var n := |ns| - 1;
      assert ns == ns[..n] + [ns[n]];
      FlagsAreSummed(ns[..n]);
    }
  }

  lemma {:induction false} IdIsFound(items: seq<Item>, n: int)
    requires DistinctKeys(items) && Item(0, Int(n)) in items
    ensures FindId(items) == ToInt32(n)
  {
    if items[0].key != 0 {
      assert Item(0, Int(n)) in items[1..];
      IdIsFound(items[1..], n);
    } else {
      var i :| 0 <= i < |items| && items[i] == Item(0, Int(n));
      assert i == 0;
    }
  }

  lemma {:induction false} NoIdIsFound(items: seq<Item>)
    requires forall n :: Item(0, Int(n)) !in items
    ensures FindId(items) == -1
  {
    if items != [] {
      assert items[0] in items;
      assert forall n :: Item(0, Int(n)) != items[0];
      assert forall n :: Item(0, Int(n)) !in items[1..];
      NoIdIsFound(items[1..]);
    }
  }

  lemma HasMeans(items: seq<Item>)
    ensures Has(items, ID) <==> exists n :: Item(0, Int(n)) in items
    ensures Has(items, HREF) <==> GivesHref(items)
    ensures Has(items, GA) <==> GivesGroups(items)
    ensures Has(items, CFLAGS) <==> GivesFlagWord(items) || GivesFlagCodes(items)
  {
    if x :| x in items && x.key == 0 && Mandatory(x) { assert x == Item(0, Int(x.value.num)); }
    if x :| x in items && x.key == 11 && Mandatory(x) { assert x == Item(11, Text(x.value.text)); }
    if x :| x in items && x.key == 7 && Mandatory(x) { assert x == Item(7, Ints(x.value.ints)); }
    if x :| x in items && x.key == 8 && Mandatory(x) {
      assert x == Item(8, if x.value.Int? then Int(x.value.num) else Ints(x.value.ints));
    }
    forall n | Item(0, Int(n)) in items ensures Has(items, ID) { assert Mandatory(Item(0, Int(n))); }
    forall t | Item(11, Text(t)) in items ensures Has(items, HREF) { assert Mandatory(Item(11, Text(t))); }
    forall ns | Item(7, Ints(ns)) in items ensures Has(items, GA) { assert Mandatory(Item(7, Ints(ns))); }
    forall n | Item(8, Int(n)) in items ensures Has(items, CFLAGS) { assert Mandatory(Item(8, Int(n))); }
    forall ns | Item(8, Ints(ns)) in items ensures Has(items, CFLAGS) { assert Mandatory(Item(8, Ints(ns))); }
  }

  lemma EntryIsEntered(before: Entry, items: seq<Item>, id: int)
    requires DistinctKeys(items) && GivesId(items, id) && id != -1
    ensures FindId(items) == id && Entered(before, items, Filled(before, items)) && Filled(before, items).id == id
  {
    hide FlagSum, Filled, FindId, DistinctKeys, Has, Wraps, AreFlags, AreWords;
    var n :| Item(0, Int(n)) in items && Wraps(n, id);
    IdIsFound(items, n);
    WordWraps(n);
    OneWord(n, id, ToInt32(n));
    FilledId(before, items);
    FilledIsDescribed(before, items);
    HasMeans(items);
    var e := Filled(before, items);
    hide ToInt32;
    DescribedIsEntered(before, items, e, id);
  }

  lemma DescribedIsEntered(before: Entry, items: seq<Item>, e: Entry, id: int)
    requires Described(before, items, e) && GivesId(items, id) && e.id == id
    ensures Entered(before, items, e)
  {
    HasMeans(items);
    hide FlagSum, Has, Wraps, AreFlags, ToInt32, Mandatory;
    if GivesGroups(items) {
      var ns :| Item(7, Ints(ns)) in items;
      WordsWrap(ns);
      assert e.ga == Words(ns);
    }
    if GivesFlagWord(items) {
      var n :| Item(8, Int(n)) in items;
      WordWraps(n);
    }
    if GivesFlagCodes(items) {
      var ns :| Item(8, Ints(ns)) in items;
      FlagsAreSummed(ns);
    }
  }

  lemma WordsWrap(ns: seq<int>)
    ensures AreWords(ns, Words(ns))
  {
    forall k | 0 <= k < |ns| ensures (ns[k] - Words(ns)[k]) % 0x1_0000_0000 == 0 { WordWraps(ns[k]); }
  }

  // --- Requests ---

  /** The slot that has the id, or else the first free one; none if it is the length. */
  ghost predicate IsSlotFor(got: seq<Entry>, id: int, i: nat) {
    && i <= |got|
    && (if exists j | 0 <= j < |got| :: got[j].id == id
        then i < |got| && got[i].id == id && forall j | 0 <= j < i :: got[j].id != id
        else (i < |got| ==> got[i].id == -1) && forall j | 0 <= j < i :: got[j].id != -1)
  }

  lemma SlotIsFor(got: seq<Entry>, id: nat)
    ensures IsSlotFor(got, id, SlotFor(got, id))
    ensures IndexOf(got, id) < |got| <==> exists j | 0 <= j < |got| :: got[j].id == id
  {
  }

  /** Slot `i` and its record after a request; all others stay. */
  ghost predicate Became(s: State, i: nat, e: Entry, r: State) {
    && i < |s.got| && r.got == s.got[i := e] && r.lsm == s.lsm
    && forall j: nat | j != i :: (j in r.storage <==> j in s.storage)
        && (j in s.storage ==> r.storage[j] == s.storage[j])
  }

  /** What became of a request for `id` about slot `i`, with `e` for the entry that the slot would hold. */
  ghost predicate PostText(s: State, items: seq<Item>, belongs: string -> bool, id: int, i: nat, e: Entry, r: State,
                           status: Status) {
    i < |s.got| &&
    var known := s.got[i].id == id;
    var whole := known || (GivesHref(items) && GivesGroups(items) && (GivesFlagWord(items) || GivesFlagCodes(items)));
    var good := e.ga != [] && e.cflags != 0 && |e.href| <= 30 && belongs(e.href);
    var free := Entry(-1, "", [], 0);
    && Entered(s.got[i], items, e) && e.id == id
    && (if BareId(items) then
          Became(s, i, free, r) && i !in r.storage && status == (if known then Changed else Created)
        else if !whole then Became(s, i, free, r) && i !in r.storage && status == BadRequest
        else if !good then
          Became(s, i, free, r) && i in r.storage && r.storage[i] == free && status == BadRequest
        else
          && Became(s, i, e, r) && status == (if known then Changed else Created)
          && (if RecordSize(Record(e)) <= 7168 then i in r.storage && r.storage[i] == Record(e)
              else r.storage == s.storage))
  }

  /**
   A request that gives a non-negative id, while loading: without a slot for it nothing happens; otherwise
   the slot holds the entry that the request makes of it if more than the id is given, nothing is missing
   of a new entry, and the entry has a group, a flag and the href of a resource of at most thirty
   characters; else the slot is freed.
   */
  lemma PostedText(s: State, items: seq<Item>, belongs: string -> bool, id: nat, i: nat)
    requires s.lsm == Loading && DistinctKeys(items) && GivesId(items, id) && IsSlotFor(s.got, id, i)
    ensures var (r, status) := Posted(s, Some(items), belongs);
            if i == |s.got| then r == s && status == BadRequest
            else exists e :: PostText(s, items, belongs, id, i, e, r, status)
  {
    SlotIsFor(s.got, id);
    hide RecordSize, CString, MandatoryCount, IdOnly, FindId, Filled, SlotFor, IndexOf, Complete, GivesId, Entered;
    assert i == SlotFor(s.got, id);
    var before := if i < |s.got| then s.got[i] else FREE;
    EntryIsEntered(before, items, id);
    FourAreAll(items);
    WholeMeans(items, id);
    IdOnlyMeans(items);
    BareMeans(items);
    FreeRecordFits();
    if i < |s.got| {
      var (r, status) := Posted(s, Some(items), belongs);
      assert PostText(s, items, belongs, id, i, Filled(before, items), r, status);
    }
  }

  lemma BareMeans(items: seq<Item>)
    ensures BareId(items) <==> forall x | x in items :: !SaysMore(x)
  {
  }

  lemma WholeMeans(items: seq<Item>, id: int)
    requires GivesId(items, id)
    ensures Complete(items) <==>
              GivesHref(items) && GivesGroups(items) && (GivesFlagWord(items) || GivesFlagCodes(items))
  {
    HasMeans(items);
  }

  /** Without a non-negative id, or outside of loading, a request changes nothing. */
  lemma RefusedText(s: State, payload: Option<seq<Item>>, belongs: string -> bool)
    requires Sound(s) && (payload.Some? ==> DistinctKeys(payload.value))
    requires s.lsm == Loading && payload.Some? ==> forall id: nat :: !GivesId(payload.value, id)
    ensures Posted(s, payload, belongs) == (s, if s.lsm == Loading then BadRequest else MethodNotAllowed)
  {
    hide RecordSize, CString, MandatoryCount, IdOnly, FindId, Filled, SlotFor, IndexOf, Sound, DistinctKeys, ToInt32,
        Wraps;
    if s.lsm == Loading && payload.Some? {
      var items := payload.value;
      if n :| Item(0, Int(n)) in items {
        IdIsFound(items, n);
        WordWraps(n);
        assert GivesId(items, ToInt32(n));
      } else {
        NoIdIsFound(items);
      }
      PostWithoutId(s, items, belongs);
    }
  }

  /** Deleting frees the slot of the id, if there is one, and writes the free slot as its record. */
  lemma DeletedText(s: State, id: int, i: nat)
    requires s.lsm == Loading && i <= |s.got| && forall j | 0 <= j < i :: s.got[j].id != id
    requires i < |s.got| ==> s.got[i].id == id
    ensures var (r, status), free := DeletedAt(s, id), Entry(-1, "", [], 0);
            if i == |s.got| then r == s && status == NotFound
            else Became(s, i, free, r) && i in r.storage && r.storage[i] == free && status == Deleted
  {
    IndexIs(s.got, id, i);
    FreeRecordFits();
    hide RecordSize, CString, IndexOf;
  }

  /** "Unload" frees every slot and erases the records of the slots, and no others. */
  lemma UnloadedText(s: State)
    ensures var r := Step(s, LoadEvent(4));
            && r.lsm == Unloaded && |r.got| == |s.got|
            && (forall i | 0 <= i < |r.got| :: r.got[i] == Entry(-1, "", [], 0))
            && (forall i: nat :: i in r.storage <==> i in s.storage && i >= |s.got|)
            && (forall i | i in r.storage :: r.storage[i] == s.storage[i])
  {
  }

  // --- Storage ---

  /**
   A device that starts again has in each slot the record of the slot if there is one that fits the
   buffer of 1024 bytes, and a free slot otherwise.
   */
  lemma RestartedText(s: State, i: nat)
    requires i < |s.got|
    ensures var r := Step(s, Restart);
            && |r.got| == |s.got| && r.storage == s.storage && r.lsm == s.lsm
            && r.got[i] == if i in s.storage && RecordSize(s.storage[i]) <= 1024 then s.storage[i]
                           else Entry(-1, "", [], 0)
  {
    hide RecordSize;
  }

  // --- The load state ---

  predicate ChangesLoadState(e: Event) {
    e == LoadEvent(1) || e == LoadEvent(2) || e == LoadEvent(4)
  }

  lemma LoadStep(s: State, e: Event)
    ensures Step(s, e).lsm == if e == LoadEvent(1) then Loading else if e == LoadEvent(2) then LoadedState
                              else if e == LoadEvent(4) then Unloaded else s.lsm
  {
    hide RecordSize, Filled, MandatoryCount, FindId, IdOnly, IndexOf, SlotFor;
  }

  /** No event from the `i`-th on changes the load state. */
  predicate Quiet(events: seq<Event>, i: nat) {
    forall j | i <= j < |events| :: !ChangesLoadState(events[j])
  }

  /**
   Whatever else happens, the load state is what the last "start loading", "load complete" or "unload"
   made it, and the one before if there was none.
   */
  lemma {:induction false} LoadStateIs(s: State, events: seq<Event>, i: nat)
    requires i < |events| ==> ChangesLoadState(events[i])
    requires Quiet(events, if i < |events| then i + 1 else 0)
    ensures After(s, events).lsm == if i >= |events| then s.lsm
                                    else if events[i] == LoadEvent(1) then Loading
                                    else if events[i] == LoadEvent(2) then LoadedState else Unloaded
    decreases |events|
  {
    hide Step;
    if events != [] {
      var next := Step(s, events[0]);
      LoadStep(s, events[0]);
      LoadStateIs(next, events[1..], if i == 0 || i >= |events| then |events| else i - 1);
    }
  }

  lemma {:induction false} FindLastChange(events: seq<Event>) returns (i: nat)
    ensures i <= |events| && (i < |events| ==> ChangesLoadState(events[i]))
    ensures Quiet(events, if i < |events| then i + 1 else 0)
  {
    i := |events|;
    if events != [] {
      var later := FindLastChange(events[1..]);
      if later < |events| - 1 { return later + 1; }
      assert forall j | 1 <= j < |events| :: events[j] == events[1..][j - 1];
      if ChangesLoadState(events[0]) { i := 0; }
    }
  }

  /** "Load complete" at `i`, and neither "start loading" nor "unload" after it. */
  predicate CompletedAt(events: seq<Event>, i: nat) {
    && i < |events| && events[i] == LoadEvent(2)
    && forall j | i < j < |events| :: events[j] != LoadEvent(1) && events[j] != LoadEvent(4)
  }

  /** A fresh table is in the loaded state after exactly the runs that completed loading and left it at that. */
  lemma LoadedOnlyByCompletion(n: nat, events: seq<Event>)
    ensures After(Fresh(n), events).lsm == LoadedState <==> exists i: nat :: CompletedAt(events, i)
  {
    hide After, Step;
    var k := FindLastChange(events);
    LoadStateIs(Fresh(n), events, k);
    if i: nat :| CompletedAt(events, i) {
      assert ChangesLoadState(events[i]);
      assert k < |events| && i <= k;
    } else if k < |events| && events[k] == LoadEvent(2) {
      assert forall j | k < j < |events| :: !ChangesLoadState(events[j]);
      assert CompletedAt(events, k);
    }
  }

  // --- The hrefs in the table ---

  /** The href, or what a C string of it keeps: all before a first NUL. */
  predicate IsCut(href: string, h: string) {
    href == h || (|href| < |h| && href <= h && h[|href|] == '\0' && '\0' !in href)
  }

  ghost predicate GoodHref(href: string, belongs: string -> bool) {
    exists h :: belongs(h) && |h| <= 30 && IsCut(href, h)
  }

  ghost predicate GoodHrefs(s: State, belongs: string -> bool) {
    && (forall e | e in s.got && e.id != -1 :: GoodHref(e.href, belongs))
    && (forall i | i in s.storage && s.storage[i].id != -1 :: GoodHref(s.storage[i].href, belongs))
  }

  lemma CutIs(h: string)
    ensures IsCut(CString(h, NUL), h)
  {
    CStringIs(h, NUL);
    hide CString;
  }

  lemma CutOfItself(h: string)
    ensures IsCut(h, h)
  {
  }

  lemma CutOfCut(s: string)
    requires NUL !in s
    ensures CString(s, NUL) == s
  {
  }

  /** A slot that is freed or filled with a good entry, in the ways that requests do it. */
  lemma StoredIsGood(s: State, i: nat, e: Entry, belongs: string -> bool)
    requires GoodHrefs(s, belongs) && i < |s.got| && (e.id == -1 || (belongs(e.href) && |e.href| <= 30))
    ensures GoodHrefs(s.(got := s.got[i := e], storage := Dumped(s.storage, i, e)), belongs)
    ensures GoodHrefs(s.(got := s.got[i := e], storage := s.storage - {i}), belongs)
    ensures GoodHrefs(s.(got := s.got[i := e], storage := Dumped(s.storage - {i}, i, e)), belongs)
  {
    CutIs(e.href);
    CutOfItself(e.href);
    hide RecordSize, CString, IsCut;
  }

  lemma PostKeepsGood(s: State, payload: Option<seq<Item>>, belongs: string -> bool, resources: string -> bool)
    requires GoodHrefs(s, resources) && forall h | belongs(h) :: resources(h)
    ensures GoodHrefs(Posted(s, payload, belongs).0, resources)
  {
    hide RecordSize, CString, MandatoryCount, IdOnly, FindId, Filled, GoodHrefs, SlotFor, IndexOf;
    if s.lsm == Loading && payload.Some? && FindId(payload.value) != -1 {
      var i := SlotFor(s.got, FindId(payload.value));
      if i < |s.got| {
        var e := Filled(s.got[i], payload.value);
        StoredIsGood(s, i, FREE, resources);
        if Acceptable(e, belongs) { StoredIsGood(s, i, e, resources); }
      }
    }
  }

  lemma StepKeepsGood(s: State, e: Event, resources: string -> bool)
    requires GoodHrefs(s, resources)
    requires e.Post? ==> forall h | e.belongs(h) :: resources(h)
    ensures GoodHrefs(Step(s, e), resources)
  {
    match e
    case Post(payload, belongs) => PostKeepsGood(s, payload, belongs, resources);
    case Delete(id) =>
      hide RecordSize;
      if s.lsm == Loading && IndexOf(s.got, id) < |s.got| { StoredIsGood(s, IndexOf(s.got, id), FREE, resources); }
    case LoadEvent(_) =>
    case Restart =>
      hide RecordSize;
  }

  lemma {:induction false} RunKeepsGood(s: State, events: seq<Event>, resources: string -> bool)
    requires GoodHrefs(s, resources)
    requires forall e, h | e in events && e.Post? && e.belongs(h) :: resources(h)
    ensures GoodHrefs(After(s, events), resources)
    decreases |events|
  {
    hide Step, GoodHrefs;
    if events != [] {
      assert events[0] in events;
      StepKeepsGood(s, events[0], resources);
      RunKeepsGood(Step(s, events[0]), events[1..], resources);
    }
  }

  /**
   After any requests, load events and restarts: every used slot has an href of at most thirty characters
   that some request's check found to name a resource, or all before the first NUL of such an href.
   */
  lemma EveryHrefIsGood(n: nat, events: seq<Event>, resources: string -> bool)
    requires forall e, h | e in events && e.Post? && e.belongs(h) :: resources(h)
    ensures forall e | e in After(Fresh(n), events).got && e.id != -1 :: GoodHref(e.href, resources) && |e.href| <= 30
  {
    hide After;
    assert GoodHrefs(Fresh(n), resources);
    RunKeepsGood(Fresh(n), events, resources);
  }

  /** What comes before the first NUL. */
  ghost predicate IsHead(head: string, s: string) {
    head <= s && (head == s || s[|head|] == NUL) && forall k | 0 <= k < |head| :: s[k] != NUL
  }

  /** The uri without its leading slash, unless that is all of it. */
  function Bare(uri: string): string {
    if |uri| >= 2 && uri[0] == '/' then uri[1..] else uri
  }

  /**
   As far as a first NUL and leading slashes aside, the href is the beginning of the uri of a discoverable
   resource.
   */
  ghost predicate BeginsResource(href: string, resources: seq<D.Resource>) {
    exists r, head, uri | r in resources && IsHead(head, href) && IsHead(uri, r.uri) ::
      r.discoverable && Bare(head) <= Bare(uri)
  }

  lemma CStringIsHead(s: string)
    ensures IsHead(CString(s, NUL), s)
  {
    CStringIs(s, NUL);
    hide CString;
  }

  lemma OneHead(a: string, b: string, s: string)
    requires IsHead(a, s) && IsHead(b, s)
    ensures |a| >= |b|
  {
  }

  lemma HeadIsCString(head: string, s: string)
    requires IsHead(head, s)
    ensures head == CString(s, NUL)
  {
    CStringIsHead(s);
    hide CString;
    var c := CString(s, NUL);
    OneHead(head, c, s);
    OneHead(c, head, s);
  }

  lemma BeginsMeans(href: string, uri: string, head: string, start: string)
    requires IsHead(head, href) && IsHead(start, uri)
    ensures D.Stripped(CString(href, NUL)) <= D.Stripped(CString(uri, NUL)) <==> Bare(head) <= Bare(start)
  {
    HeadIsCString(head, href);
    HeadIsCString(start, uri);
    hide CString, IsHead;
    assert D.Stripped(head) == Bare(head) && D.Stripped(start) == Bare(start);
  }

  lemma BelongsMeans(href: string, resources: seq<D.Resource>)
    ensures D.Belongs(href, resources) <==> BeginsResource(href, resources)
  {
    hide CString, IsHead, Bare, D.Stripped;
    CStringIsHead(href);
    if D.Belongs(href, resources) {
      var r :| r in resources && r.discoverable && D.Stripped(CString(href, NUL)) <= D.Stripped(CString(r.uri, NUL));
      CStringIsHead(r.uri);
      BeginsMeans(href, r.uri, CString(href, NUL), CString(r.uri, NUL));
    }
    if BeginsResource(href, resources) {
      var r, head, uri :| r in resources && IsHead(head, href) && IsHead(uri, r.uri) && r.discoverable
          && Bare(head) <= Bare(uri);
      BeginsMeans(href, r.uri, head, uri);
    }
  }

  lemma CutBelongs(href: string, h: string, resources: seq<D.Resource>)
    requires IsCut(href, h) && D.Belongs(h, resources)
    ensures D.Belongs(href, resources)
  {
    if href != h {
      HeadIsCString(href, h);
      HeadIsCString(href, href);
    }
  }

  /**
   If requests are checked against the same resources all along, every used slot has an href of at most
   thirty characters that begins the uri of a discoverable resource, as far as a first NUL.
   */
  lemma EveryHrefBeginsResource(n: nat, events: seq<Event>, resources: seq<D.Resource>)
    requires forall e, h | e in events && e.Post? && e.belongs(h) :: BeginsResource(h, resources)
    ensures forall e | e in After(Fresh(n), events).got && e.id != -1 ::
              BeginsResource(e.href, resources) && |e.href| <= 30
  {
    hide After, BeginsResource, D.Belongs;
    var belongs := (h: string) => D.Belongs(h, resources);
    forall e, h | e in events && e.Post? && e.belongs(h) ensures belongs(h) { BelongsMeans(h, resources); }
    EveryHrefIsGood(n, events, belongs);
    forall e | e in After(Fresh(n), events).got && e.id != -1 ensures BeginsResource(e.href, resources) {
      var h :| belongs(h) && |h| <= 30 && IsCut(e.href, h);
      CutBelongs(e.href, h, resources);
      BelongsMeans(e.href, resources);
    }
  }
}
