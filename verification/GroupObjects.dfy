/**
 The group object table of `oc_knx_fp.c`, its records in persistent storage, and the load state
 machine of `oc_knx.c` that guards it: what each request and each load event does to the three.
 */
module GroupObjects {
  import opened CStrings
  import opened Options

  const NUL := '\0'
  /** `GOT_ENTRY_MAX_SIZE`, `OC_MAX_APP_DATA_SIZE` and `OC_MAX_URL_LENGTH`. */
  const READ_SIZE: nat := 1024
  const WRITE_SIZE: nat := 7168
  const MAX_URL: nat := 30

  /** One slot; a slot whose `id` is -1 is free. */
  datatype Entry = Entry(id: int, href: string, ga: seq<nat>, cflags: int)

  const FREE := Entry(-1, "", [], 0)

  // --- Integer conversions of C ---

  function ToUint32(n: int): (r: nat)
    ensures r < 0x1_0000_0000
  {
    n % 0x1_0000_0000
  }

  function ToInt32(n: int): int {
    var r := n % 0x1_0000_0000;
    if r < 0x8000_0000 then r else r - 0x1_0000_0000
  }

  // --- Records in storage: the maps of RFC 8949 that the table writes ---

  function HeadSize(n: nat): nat {
    if n < 24 then 1 else if n < 0x100 then 2 else if n < 0x1_0000 then 3 else if n < 0x1_0000_0000 then 5 else 9
  }

  function IntSize(n: int): nat {
    HeadSize(if n < 0 then -1 - n else n)
  }

  function IntsSize(ns: seq<int>): nat {
    if ns == [] then 0 else IntSize(ns[0]) + IntsSize(ns[1..])
  }

  /** An indefinite-length map with the keys 0, 11, 7 and 8. */
  function RecordSize(e: Entry): nat {
    6 + IntSize(e.id) + HeadSize(|e.href|) + |e.href| + HeadSize(|e.ga|) + IntsSize(e.ga) + IntSize(e.cflags)
  }

  /** The record that `oc_dump_group_object_table_entry` encodes. */
  function Record(e: Entry): Entry {
    e.(href := CString(e.href, NUL))
  }

  type Storage = map<nat, Entry>

  /** `oc_dump_group_object_table_entry`: a record too large to encode is not written. */
  function Dumped(storage: Storage, i: nat, e: Entry): Storage {
    if RecordSize(Record(e)) <= WRITE_SIZE then storage[i := Record(e)] else storage
  }

  /** `oc_load_group_object_table_entry` into a free slot: a record cut short does not parse. */
  function Loaded(storage: Storage, i: nat): Entry {
    if i in storage && RecordSize(storage[i]) <= READ_SIZE then storage[i] else FREE
  }

  // --- Requests ---

  datatype Value = Int(num: int) | Text(text: string) | Ints(ints: seq<int>) | Other

  /** One pair of the request's map; a key that is a text reads as -1. */
  datatype Item = Item(key: int, value: Value)

  const ID := 0
  const GA := 7
  const CFLAGS := 8
  const HREF := 11

  /** No integer key twice, as section 5.6 of RFC 8949 demands of maps. */
  ghost predicate DistinctKeys(items: seq<Item>) {
    forall i, j | 0 <= i < j < |items| && items[i].key >= 0 :: items[i].key != items[j].key
  }

  /** `oc_table_find_id_from_rep` */
  function FindId(items: seq<Item>): int {
    if items == [] then -1
    else if items[0].key == ID && items[0].value.Int? then ToInt32(items[0].value.num)
    else FindId(items[1..])
  }

  function FlagOf(n: int): nat {
    if n == 1 then 8 else if n == 2 then 16 else if n == 3 then 64 else if n == 4 then 128 else if n == 5 then 32 else 0
  }

  function FlagSum(ns: seq<int>): nat {
    if ns == [] then 0 else FlagSum(ns[..|ns| - 1]) + FlagOf(ns[|ns| - 1])
  }

  function Words(ns: seq<int>): (r: seq<nat>)
    ensures |r| == |ns| && forall k | 0 <= k < |ns| :: r[k] == ToUint32(ns[k])
  {
    seq(|ns|, k requires 0 <= k < |ns| => ToUint32(ns[k]))
  }

  function Assigned(e: Entry, item: Item): Entry {
    match item.value
    case Text(text) => if item.key == HREF then e.(href := text) else e
    case Int(n) =>
      if item.key == ID then e.(id := ToInt32(n)) else if item.key == CFLAGS then e.(cflags := ToInt32(n)) else e
    case Ints(ns) =>
      if item.key == CFLAGS then e.(cflags := FlagSum(ns)) else if item.key == GA then e.(ga := Words(ns)) else e
    case Other => e
  }

  /** The slot after all pairs, in order. */
  function Filled(e: Entry, items: seq<Item>): Entry {
    if items == [] then e else Assigned(Filled(e, items[..|items| - 1]), items[|items| - 1])
  }

  predicate Mandatory(item: Item) {
    match item.value
    case Text(_) => item.key == HREF
    case Int(_) => item.key == ID || item.key == CFLAGS
    case Ints(_) => item.key == CFLAGS || item.key == GA
    case Other => false
  }

  function MandatoryCount(items: seq<Item>): nat {
    if items == [] then 0 else MandatoryCount(items[..|items| - 1]) + if Mandatory(items[|items| - 1]) then 1 else 0
  }

  predicate SaysMore(item: Item) {
    item.value.Text? || item.value.Ints? || (item.value.Int? && item.key == CFLAGS)
  }

  predicate IdOnly(items: seq<Item>) {
    items == [] || (!SaysMore(items[|items| - 1]) && IdOnly(items[..|items| - 1]))
  }

  /** The checks of `oc_fp_g_check_and_save`; `belongs` says which hrefs name a resource. */
  predicate Acceptable(e: Entry, belongs: string -> bool) {
    e.ga != [] && e.cflags != 0 && |e.href| <= MAX_URL && belongs(e.href)
  }

  // --- The state and what changes it ---

  datatype LoadState = Unloaded | LoadedState | Loading

  datatype Status = Created | Changed | Deleted | BadRequest | NotFound | MethodNotAllowed

  datatype State = State(got: seq<Entry>, storage: Storage, lsm: LoadState)

  /** `oc_core_find_index_in_group_object_table_from_id`; -1 becomes the length. */
  function IndexOf(got: seq<Entry>, id: int): (i: nat)
    ensures i <= |got|
    ensures i < |got| ==> got[i].id == id
    ensures forall j | 0 <= j < i :: got[j].id != id
  {
    if got == [] || got[0].id == id then 0 else 1 + IndexOf(got[1..], id)
  }

  /** `find_empty_slot_in_group_object_table` */
  function EmptySlot(got: seq<Entry>, id: int): (i: nat)
    ensures i <= |got|
  {
    if id < 0 then |got| else IndexOf(got, -1)
  }

  /** The slot a request is about: the one that has its id, else an empty one. */
  function SlotFor(got: seq<Entry>, id: int): (i: nat)
    ensures i <= |got|
  {
    if IndexOf(got, id) < |got| then IndexOf(got, id) else EmptySlot(got, id)
  }

  function Erased(s: State, i: nat): State
    requires i < |s.got|
  {
    s.(got := s.got[i := FREE], storage := s.storage - {i})
  }

  /** Erased, and then the free slot written back as a record. */
  function ErasedForGood(s: State, i: nat): State
    requires i < |s.got|
  {
    s.(got := s.got[i := FREE], storage := Dumped(s.storage - {i}, i, FREE))
  }

  /** `oc_core_fp_g_post_handler` for a payload of at most one object. */
  function Posted(s: State, payload: Option<seq<Item>>, belongs: string -> bool): (State, Status) {
    if s.lsm != Loading then (s, MethodNotAllowed)
    else if payload.None? || FindId(payload.value) == -1 then (s, BadRequest)
    else
      var items, id := payload.value, FindId(payload.value);
      var i, known := SlotFor(s.got, id), IndexOf(s.got, id) < |s.got|;
      if i == |s.got| then (s, BadRequest)
      else
        var e, status := Filled(s.got[i], items), if known then Changed else Created;
        if IdOnly(items) then (Erased(s, i), status)
        else if !known && MandatoryCount(items) != 4 then (Erased(s, i), BadRequest)
        else if Acceptable(e, belongs) then (s.(got := s.got[i := e], storage := Dumped(s.storage, i, e)), status)
        else (ErasedForGood(s, i), BadRequest)
  }

  /** `oc_core_fp_g_x_del_handler`; `id` is what the path's wildcard reads as. */
  function DeletedAt(s: State, id: int): (State, Status) {
    if s.lsm != Loading then (s, BadRequest)
    else if IndexOf(s.got, id) == |s.got| then (s, NotFound)
    else (ErasedForGood(s, IndexOf(s.got, id)), Deleted)
  }

  /** The records beyond the table's `n` slots. */
  function RecordsFrom(storage: Storage, n: nat): Storage {
    map i | i in storage && i >= n :: storage[i]
  }

  /** `oc_lsm_event_to_state`: start loading is 1, load complete 2, unload 4. */
  function AfterEvent(s: State, event: int): State {
    if event == 1 then s.(lsm := Loading)
    else if event == 2 then s.(lsm := LoadedState)
    else if event == 4 then State(seq(|s.got|, _ => FREE), RecordsFrom(s.storage, |s.got|), Unloaded)
    else s
  }

  /** `oc_init_tables` and `oc_load_group_object_table` on a device that starts again. */
  function Restarted(s: State): State {
    s.(got := seq(|s.got|, i requires 0 <= i => Loaded(s.storage, i)))
  }

  datatype Event =
    | Post(payload: Option<seq<Item>>, belongs: string -> bool)
    | Delete(id: int)
    | LoadEvent(event: int)
    | Restart

  function Step(s: State, e: Event): (r: State)
    ensures |r.got| == |s.got|
  {
    match e
    case Post(payload, belongs) => Posted(s, payload, belongs).0
    case Delete(id) => DeletedAt(s, id).0
    case LoadEvent(event) => AfterEvent(s, event)
    case Restart => Restarted(s)
  }

  // --- Invariant ---

  /** A used slot: a non-negative id, some group address, and some flag. */
  predicate Used(e: Entry) {
    e.id >= 0 && e.ga != [] && e.cflags != 0
  }

  /**
   One slot against its record. What would be loaded is nothing or a used entry of the same id; a
   used entry small enough to write is stored as it is, up to a NUL in its href.
   */
  ghost predicate SlotSound(e: Entry, storage: Storage, i: nat) {
    && (e == FREE || Used(e))
    && (Loaded(storage, i) == FREE || (Used(Loaded(storage, i)) && Loaded(storage, i).id == e.id))
    && (i in storage ==> NUL !in storage[i].href && RecordSize(storage[i]) <= WRITE_SIZE)
    && (Used(e) && RecordSize(Record(e)) <= WRITE_SIZE ==> i in storage && storage[i] == Record(e))
  }

  ghost predicate DistinctIds(got: seq<Entry>) {
    forall i, j | 0 <= i < j < |got| && got[i] != FREE && got[j] != FREE :: got[i].id != got[j].id
  }

  ghost predicate Sound(s: State) {
    DistinctIds(s.got) && forall i | 0 <= i < |s.got| :: SlotSound(s.got[i], s.storage, i)
  }

  /** One slot and its record change, within the invariant. */
  lemma SlotChange(s: State, i: nat, e: Entry, storage: Storage)
    requires Sound(s) && i < |s.got| && SlotSound(e, storage, i)
    requires e != FREE ==> forall j | 0 <= j < |s.got| && j != i :: s.got[j].id != e.id
    requires storage - {i} == s.storage - {i}
    ensures Sound(s.(got := s.got[i := e], storage := storage))
  {
    hide RecordSize, CString;
    var r := s.(got := s.got[i := e], storage := storage);
    forall k | 0 <= k < |r.got| ensures SlotSound(r.got[k], r.storage, k) {
      if k != i {
        assert SlotSound(s.got[k], s.storage, k);
        assert k in storage <==> k in s.storage - {i};
        assert k in storage ==> storage[k] == (storage - {i})[k] && s.storage[k] == (s.storage - {i})[k];
      }
    }
  }

  lemma FreeRecordFits()
    ensures Record(FREE) == FREE && RecordSize(FREE) <= READ_SIZE
  {
    assert IntsSize([]) == 0;
  }

  lemma EraseKeepsSound(s: State, i: nat)
    requires Sound(s) && i < |s.got|
    ensures Sound(Erased(s, i)) && Sound(ErasedForGood(s, i))
  {
    FreeRecordFits();
    SlotChange(s, i, FREE, s.storage - {i});
    assert Dumped(s.storage - {i}, i, FREE) - {i} == s.storage - {i};
    SlotChange(s, i, FREE, Dumped(s.storage - {i}, i, FREE));
  }

  /** With distinct keys, the id that ends up in the slot is the id the slot was chosen by. */
  lemma {:induction false} FilledId(e: Entry, items: seq<Item>)
    requires DistinctKeys(items) && FindId(items) != -1
    ensures Filled(e, items).id == FindId(items)
  {
    FindIdLast(items);
    var n := |items| - 1;
    if !(items[n].key == ID && items[n].value.Int?) {
      FilledId(e, items[..n]);
    }
  }

  lemma {:induction false} FindIdLast(items: seq<Item>)
    requires items != [] && DistinctKeys(items)
    ensures var n := |items| - 1;
            FindId(items) == if items[n].key == ID && items[n].value.Int? then ToInt32(items[n].value.num)
                else FindId(items[..n])
  {
    var n := |items| - 1;
    if n > 0 {
      FindIdLast(items[1..]);
      assert items[1..][..n - 1] == items[..n][1..];
      assert items[1..][n - 1] == items[n];
    }
  }

  lemma SaveKeepsSound(s: State, i: nat, e: Entry)
    requires Sound(s) && i < |s.got| && Used(e)
    requires forall j | 0 <= j < |s.got| && j != i :: s.got[j].id != e.id
    requires s.got[i] == FREE || s.got[i].id == e.id
    ensures Sound(s.(got := s.got[i := e], storage := Dumped(s.storage, i, e)))
  {
    hide RecordSize, CString;
    assert SlotSound(s.got[i], s.storage, i);
    assert Dumped(s.storage, i, e) - {i} == s.storage - {i};
    SlotChange(s, i, e, Dumped(s.storage, i, e));
  }

  lemma PostKeepsSound(s: State, payload: Option<seq<Item>>, belongs: string -> bool)
    requires Sound(s) && (payload.Some? ==> DistinctKeys(payload.value))
    ensures Sound(Posted(s, payload, belongs).0)
  {
    hide RecordSize, CString, MandatoryCount, IdOnly;
    if s.lsm == Loading && payload.Some? && FindId(payload.value) != -1 {
      var items, id := payload.value, FindId(payload.value);
      var i := SlotFor(s.got, id);
      if i < |s.got| {
        EraseKeepsSound(s, i);
        FilledId(s.got[i], items);
        assert SlotSound(s.got[i], s.storage, i);
        var e := Filled(s.got[i], items);
        if Acceptable(e, belongs) {
          assert e.id == id;
          assert id >= 0 by { assert forall j | 0 <= j < |s.got| :: SlotSound(s.got[j], s.storage, j); }
          OnlyOneHolds(s, i, id);
          SaveKeepsSound(s, i, e);
        }
      }
    }
  }

  lemma OnlyOneHolds(s: State, i: nat, id: int)
    requires Sound(s) && id >= 0 && i == SlotFor(s.got, id) < |s.got|
    ensures forall j | 0 <= j < |s.got| && j != i :: s.got[j].id != id
    ensures s.got[i] == FREE || s.got[i].id == id
  {
    hide RecordSize, CString;
    assert forall j | 0 <= j < |s.got| :: SlotSound(s.got[j], s.storage, j);
  }

  lemma StepKeepsSound(s: State, e: Event)
    requires Sound(s) && (e.Post? && e.payload.Some? ==> DistinctKeys(e.payload.value))
    ensures Sound(Step(s, e)) && |Step(s, e).got| == |s.got|
  {
    hide RecordSize, CString, MandatoryCount, IdOnly, FindId, Filled;
    match e
    case Post(payload, belongs) => PostKeepsSound(s, payload, belongs);
    case Delete(id) => if IndexOf(s.got, id) < |s.got| { EraseKeepsSound(s, IndexOf(s.got, id)); }
    case LoadEvent(_) =>
    case Restart => RestartKeepsSound(s);
  }

  lemma RestartKeepsSound(s: State)
    requires Sound(s)
    ensures Sound(Restarted(s))
  {
    hide RecordSize;
    var r := Restarted(s);
    forall i | 0 <= i < |r.got|
      ensures SlotSound(r.got[i], r.storage, i) && (r.got[i] != FREE ==> s.got[i] != FREE && r.got[i].id == s.got[i].id)
    {
      assert SlotSound(s.got[i], s.storage, i);
      assert i in s.storage ==> Record(s.storage[i]) == s.storage[i];
    }
  }

  // --- Runs ---

  ghost predicate Requested(events: seq<Event>) {
    forall e | e in events :: e.Post? && e.payload.Some? ==> DistinctKeys(e.payload.value)
  }

  function After(s: State, events: seq<Event>): (r: State)
    ensures |r.got| == |s.got|
    decreases |events|
  {
    if events == [] then s else After(Step(s, events[0]), events[1..])
  }

  function Fresh(n: nat): State {
    State(seq(n, _ => FREE), map[], Unloaded)
  }

  lemma {:induction false} RunKeepsSound(s: State, events: seq<Event>)
    requires Sound(s) && Requested(events)
    ensures Sound(After(s, events)) && |After(s, events).got| == |s.got|
    decreases |events|
  {
    if events != [] {
      StepKeepsSound(s, events[0]);
      RunKeepsSound(Step(s, events[0]), events[1..]);
    }
  }

  /**
   After any requests, load events and restarts, in any order: used ids are non-negative and pairwise
   distinct, and every used slot has a group address and a flag.
   */
  lemma EveryTableIsSound(n: nat, events: seq<Event>)
    requires Requested(events)
    ensures var got := After(Fresh(n), events).got;
            && |got| == n
            && (forall i | 0 <= i < n :: got[i] == FREE || (got[i].id >= 0 && got[i].ga != [] && got[i].cflags != 0))
            && (forall i, j | 0 <= i < j < n && got[i] != FREE && got[j] != FREE :: got[i].id != got[j].id)
  {
    RunKeepsSound(Fresh(n), events);
    var s := After(Fresh(n), events);
    assert forall i | 0 <= i < n :: SlotSound(s.got[i], s.storage, i);
  }

  /** A slot comes back from storage exactly if its record can be read whole and its href has no NUL. */
  ghost predicate Survives(e: Entry) {
    RecordSize(e) <= READ_SIZE && NUL !in e.href
  }

  /**
   In every reachable state, restarting rebuilds exactly the table that was in memory if and only if
   every slot fits the buffer its record is read into. That buffer is smaller than the one the record
   is written from, so the promise that the table survives fails for large entries, and only for them.
   */
  lemma ReloadRebuildsTable(n: nat, events: seq<Event>)
    requires Requested(events)
    ensures var s := After(Fresh(n), events);
            Restarted(s).got == s.got <==> forall i | 0 <= i < n :: Survives(s.got[i])
  {
    RunKeepsSound(Fresh(n), events);
    var s := After(Fresh(n), events);
    forall i | 0 <= i < n ensures Loaded(s.storage, i) == s.got[i] <==> Survives(s.got[i]) {
      SlotReloads(s, i);
    }
    var r := Restarted(s);
    if forall i | 0 <= i < n :: Survives(s.got[i]) {
      assert forall i | 0 <= i < n :: r.got[i] == s.got[i];
    } else {
      var i :| 0 <= i < n && !Survives(s.got[i]);
      assert r.got[i] != s.got[i];
    }
  }

  lemma SlotReloads(s: State, i: nat)
    requires Sound(s) && i < |s.got|
    ensures Loaded(s.storage, i) == s.got[i] <==> Survives(s.got[i])
  {
    hide RecordSize;
    assert SlotSound(s.got[i], s.storage, i);
    FreeRecordFits();
  }

  // --- Who may change what ---

  /** Slots change only by a request while loading, or by unloading, which leaves none used and none stored. */
  lemma SlotsChangeOnlyWhenLoading(s: State, e: Event)
    requires !e.Restart?
    ensures s.lsm != Loading && e != LoadEvent(4) ==> Step(s, e).got == s.got && Step(s, e).storage == s.storage
    ensures e.LoadEvent? && e.event != 4 ==> Step(s, e).got == s.got && Step(s, e).storage == s.storage
    ensures e.Post? || e.Delete? ==> Step(s, e).lsm == s.lsm
    ensures e == LoadEvent(4) ==> Step(s, e).lsm == Unloaded
                                  && forall i | 0 <= i < |s.got| ::
                                      Step(s, e).got[i] == FREE && Loaded(Step(s, e).storage, i) == FREE
  {
    hide RecordSize, Filled, MandatoryCount, FindId, IdOnly, IndexOf, SlotFor;
  }

  // --- The table as a map from ids to entries ---

  function Lookup(got: seq<Entry>, id: nat): Option<Entry> {
    if IndexOf(got, id) < |got| then Some(got[IndexOf(got, id)]) else None
  }

  lemma {:induction false} IndexIs(got: seq<Entry>, id: int, i: nat)
    requires i <= |got| && (i < |got| ==> got[i].id == id)
    requires forall j | 0 <= j < i :: got[j].id != id
    ensures IndexOf(got, id) == i
  {}

  /** Replacing one slot by an entry of `id`, or by a free one, says nothing about other ids. */
  lemma LookupAfter(got: seq<Entry>, i: nat, e: Entry, id: nat)
    requires i < |got| && (got[i].id == -1 || got[i].id == id) && (e.id == -1 || e.id == id)
    requires forall j | 0 <= j < |got| && j != i :: got[j].id != id
    ensures Lookup(got[i := e], id) == if e.id == id then Some(e) else None
    ensures forall other: nat | other != id :: Lookup(got[i := e], other) == Lookup(got, other)
  {
    var r := got[i := e];
    IndexIs(r, id, if e.id == id then i else |r|);
    forall other: nat | other != id ensures Lookup(r, other) == Lookup(got, other) {
      IndexIs(r, other, IndexOf(got, other));
    }
  }

  predicate Has(items: seq<Item>, key: int) {
    exists x | x in items :: x.key == key && Mandatory(x)
  }

  /** Each field is what its pair says, and stays as it was if there is no such pair. */
  ghost predicate Described(old_: Entry, items: seq<Item>, e: Entry) {
    && (forall t :: Item(HREF, Text(t)) in items ==> e.href == t)
    && (!Has(items, HREF) ==> e.href == old_.href)
    && (forall ns :: Item(GA, Ints(ns)) in items ==> e.ga == Words(ns))
    && (!Has(items, GA) ==> e.ga == old_.ga)
    && (forall n :: Item(CFLAGS, Int(n)) in items ==> e.cflags == ToInt32(n))
    && (forall ns :: Item(CFLAGS, Ints(ns)) in items ==> e.cflags == FlagSum(ns))
    && (!Has(items, CFLAGS) ==> e.cflags == old_.cflags)
  }

  lemma HasLast(before: seq<Item>, last: Item, key: int)
    ensures Has(before + [last], key) <==> Has(before, key) || (last.key == key && Mandatory(last))
  {
    assert forall x :: x in before + [last] <==> x in before || x == last;
  }

  lemma DescribedNext(e: Entry, before: seq<Item>, last: Item, f: Entry)
    requires Described(e, before, f) && forall x | x in before && x.key >= 0 :: x.key != last.key
    ensures Described(e, before + [last], Assigned(f, last))
  {
    hide FlagSum, Words, ToInt32, Mandatory;
    var items, g := before + [last], Assigned(f, last);
    assert forall x :: x in items <==> x in before || x == last;
    assert forall t :: Item(HREF, Text(t)) in items ==> g.href == t;
    assert forall ns :: Item(GA, Ints(ns)) in items ==> g.ga == Words(ns);
    assert forall n :: Item(CFLAGS, Int(n)) in items ==> g.cflags == ToInt32(n);
    assert forall ns :: Item(CFLAGS, Ints(ns)) in items ==> g.cflags == FlagSum(ns);
    StaysUnless(before, last, f);
  }

  lemma StaysUnless(before: seq<Item>, last: Item, f: Entry)
    ensures !Has(before + [last], HREF) ==> !Has(before, HREF) && Assigned(f, last).href == f.href
    ensures !Has(before + [last], GA) ==> !Has(before, GA) && Assigned(f, last).ga == f.ga
    ensures !Has(before + [last], CFLAGS) ==> !Has(before, CFLAGS) && Assigned(f, last).cflags == f.cflags
  {
    hide FlagSum, Words, ToInt32, Has;
    HasLast(before, last, HREF);
    HasLast(before, last, GA);
    HasLast(before, last, CFLAGS);
  }

  lemma {:induction false} FilledIsDescribed(e: Entry, items: seq<Item>)
    requires DistinctKeys(items)
    ensures Described(e, items, Filled(e, items))
  {
    if items != [] {
      var n := |items| - 1;
      FilledIsDescribed(e, items[..n]);
      assert forall x | x in items[..n] && x.key >= 0 :: x.key != items[n].key;
      hide Described, Assigned;
      assert items == items[..n] + [items[n]];
      DescribedNext(e, items[..n], items[n], Filled(e, items[..n]));
    }
  }

  predicate Complete(items: seq<Item>) {
    Has(items, ID) && Has(items, HREF) && Has(items, GA) && Has(items, CFLAGS)
  }

  /**
   With distinct keys, four mandatory pairs are one for the id, one for the href, one for the groups and one
   for the flags.
   */
  lemma FourAreAll(items: seq<Item>)
    requires DistinctKeys(items)
    ensures MandatoryCount(items) == 4 <==> Complete(items)
  {
    hide MandatoryCount, MandatoryKeys, DistinctKeys, Has;
    CountIsKeys(items);
    KeysAreHad(items);
    AllFour(MandatoryKeys(items));
  }

  lemma AllFour(some: set<int>)
    requires some <= {ID, HREF, GA, CFLAGS}
    ensures |some| == 4 <==> ID in some && HREF in some && GA in some && CFLAGS in some
  {
    var all := {ID, HREF, GA, CFLAGS};
    if |some| == 4 { EqualBySize(some, all); }
    if ID in some && HREF in some && GA in some && CFLAGS in some { assert some == all; }
  }

  function MandatoryKeys(items: seq<Item>): set<int> {
    if items == [] then {}
    else MandatoryKeys(items[..|items| - 1]) + if Mandatory(items[|items| - 1]) then {items[|items| - 1].key} else {}
  }

  lemma EqualBySize(a: set<int>, b: set<int>)
    requires a <= b && |a| == |b|
    ensures a == b
  {
    assert b == a + (b - a);
  }

  lemma {:induction false} KeysAreHad(items: seq<Item>)
    ensures forall key :: key in MandatoryKeys(items) <==> Has(items, key)
    ensures MandatoryKeys(items) <= {ID, HREF, GA, CFLAGS}
  {
    if items != [] {
      var n := |items| - 1;
      KeysAreHad(items[..n]);
      assert items == items[..n] + [items[n]];
      hide Has;
      forall key ensures key in MandatoryKeys(items) <==> Has(items, key) {
        HasLast(items[..n], items[n], key);
      }
    }
  }

  lemma {:induction false} CountIsKeys(items: seq<Item>)
    requires DistinctKeys(items)
    ensures MandatoryCount(items) == |MandatoryKeys(items)|
  {
    if items != [] {
      var n := |items| - 1;
      CountIsKeys(items[..n]);
      KeysAreHad(items[..n]);
      KeysAreHad(items);
      assert Mandatory(items[n]) ==> items[n].key !in MandatoryKeys(items[..n]);
    }
  }

  lemma {:induction false} IdOnlyMeans(items: seq<Item>)
    ensures IdOnly(items) <==> forall x | x in items :: !SaysMore(x)
  {
    if items != [] {
      IdOnlyMeans(items[..|items| - 1]);
      assert items == items[..|items| - 1] + [items[|items| - 1]];
    }
  }

  /** What a request for `id` does while loading, seen as a map; `e` is the entry it describes. */
  ghost predicate PostMeaning(s: State, items: seq<Item>, belongs: string -> bool, e: Entry, r: State, status: Status) {
    var id := FindId(items);
    id >= 0 &&
    var was, room := Lookup(s.got, id), exists i | 0 <= i < |s.got| :: s.got[i].id == -1;
    var whole := was.Some? || Complete(items);
    var idOnly := forall x | x in items :: !SaysMore(x);
    var good := e.ga != [] && e.cflags != 0 && |e.href| <= 30 && belongs(e.href);
    && e.id == id && Described(if was.Some? then was.value else FREE, items, e)
    && (forall other: nat | other != id :: Lookup(r.got, other) == Lookup(s.got, other))
    && (was.None? && !room ==> r == s && status == BadRequest)
    && (was.Some? || room ==>
          && Lookup(r.got, id) == (if !idOnly && whole && good then Some(e) else None)
          && status == if idOnly || (whole && good) then (if was.Some? then Changed else Created)
              else BadRequest)
  }

  /**
   A request with an id makes the map hold exactly the entry it describes, or drops the id: when it
   gives nothing but the id, when something is missing from a new entry, or when the checks fail.
   */
  lemma PostRefinesMap(s: State, items: seq<Item>, belongs: string -> bool)
    requires Sound(s) && s.lsm == Loading && DistinctKeys(items) && FindId(items) >= 0
    ensures exists e :: PostMeaning(s, items, belongs, e, Posted(s, Some(items), belongs).0,
        Posted(s, Some(items), belongs).1)
  {
    hide RecordSize, CString, MandatoryCount, IdOnly, FindId, Filled, FlagSum, Described, Complete, Sound, SaysMore,
        SlotFor, Lookup;
    var id := FindId(items);
    var i := SlotFor(s.got, id);
    var was := Lookup(s.got, id);
    FourAreAll(items);
    IdOnlyMeans(items);
    var e := Filled(if was.Some? then was.value else FREE, items);
    FilledId(if was.Some? then was.value else FREE, items);
    FilledIsDescribed(if was.Some? then was.value else FREE, items);
    var (r, status) := Posted(s, Some(items), belongs);
    SlotIs(s, id);
    if i < |s.got| {
      LookupAfter(s.got, i, r.got[i], id);
      assert r.got == s.got[i := r.got[i]];
    }
    assert PostMeaning(s, items, belongs, e, r, status);
  }

  /** The slot a request is about holds what the map holds for its id, and there is one if there is room. */
  lemma SlotIs(s: State, id: nat)
    requires Sound(s)
    ensures
      var i, was := SlotFor(s.got, id), Lookup(s.got, id);
      && (IndexOf(s.got, id) < |s.got| <==> was.Some?)
      && (i < |s.got| <==> was.Some? || exists j | 0 <= j < |s.got| :: s.got[j].id == -1)
      && (i < |s.got| ==> s.got[i] == if was.Some? then was.value else FREE)
      && (forall j | 0 <= j < |s.got| && j != i && i < |s.got| :: s.got[j].id != id)
  {
    hide RecordSize, CString;
    var i := SlotFor(s.got, id);
    assert forall j | 0 <= j < |s.got| :: SlotSound(s.got[j], s.storage, j);
    if i < |s.got| { OnlyOneHolds(s, i, id); }
  }

  /** Without an id, or with a negative one, nothing happens. */
  lemma PostWithoutId(s: State, items: seq<Item>, belongs: string -> bool)
    requires Sound(s) && s.lsm == Loading && FindId(items) < 0
    ensures Posted(s, Some(items), belongs) == (s, BadRequest)
  {
    hide RecordSize, CString, MandatoryCount, IdOnly, FindId, Filled;
    assert forall j | 0 <= j < |s.got| :: SlotSound(s.got[j], s.storage, j);
  }

  /** Deleting an id forgets it and nothing else; what was not there is reported as such. */
  lemma DeleteRefinesMap(s: State, id: nat)
    requires Sound(s) && s.lsm == Loading
    ensures var (r, status) := DeletedAt(s, id);
            && Lookup(r.got, id) == None && (forall other: nat | other != id ::
                Lookup(r.got, other) == Lookup(s.got, other))
            && status == if Lookup(s.got, id).Some? then Deleted else NotFound
  {
    hide RecordSize, CString;
    var i := IndexOf(s.got, id);
    if i < |s.got| {
      OnlyOneHolds(s, i, id);
      LookupAfter(s.got, i, FREE, id);
    }
  }

  // --- A group object that does not survive ---

  lemma {:induction false} WideSize(n: nat, a: nat)
    requires 0x1_0000 <= a < 0x1_0000_0000
    ensures IntsSize(seq(n, _ => a)) == 5 * n
  {
    if n > 0 {
      assert seq(n, _ => a)[1..] == seq(n - 1, _ => a);
      WideSize(n - 1, a);
    }
  }

  const LARGE := Entry(1, "/p", seq(250, _ => 70000), 16)

  function LargeRequest(): seq<Item> {
    [Item(ID, Int(1)), Item(HREF, Text("/p")), Item(GA, Ints(seq(250, _ => 70000))), Item(CFLAGS, Ints([2]))]
  }

  lemma LargeSize()
    ensures RecordSize(LARGE) == 1263 && Record(LARGE) == LARGE
  {
    WideSize(250, 70000);
    assert CString("/p", NUL) == "/p";
  }

  lemma LargeIsFilled()
    ensures Filled(FREE, LargeRequest()) == LARGE && MandatoryCount(LargeRequest()) == 4
    ensures FindId(LargeRequest()) == 1 && !IdOnly(LargeRequest()) && DistinctKeys(LargeRequest())
  {
    assert Words(seq(250, _ => 70000)) == seq(250, _ => 70000);
    assert FlagSum([2]) == FlagSum([]) + FlagOf(2);
    FillsFour(FREE, LargeRequest());
  }

  /** 250 wide group addresses in one request: accepted, stored, and gone after a restart. */
  lemma LargeEntryIsLost()
    ensures var events := [LoadEvent(1), Post(Some(LargeRequest()), _ => true)];
            var s := After(Fresh(20), events);
            && Requested(events)
            && s.got[0] == LARGE && s.storage == map[0 := LARGE]
            && Restarted(s).got[0] == FREE
  {
    hide Step, Filled, RecordSize;
    var load, post := LoadEvent(1), Post(Some(LargeRequest()), _ => true);
    LargeIsFilled();
    hide LargeRequest;
    AfterTwo(Fresh(20), load, post);
    LargePosted(_ => true);
    LargeReloads();
  }

  lemma AfterTwo(s: State, a: Event, b: Event)
    ensures After(s, [a, b]) == Step(Step(s, a), b)
  {
    hide Step;
    assert [a, b][1..] == [b] && [b][1..] == [];
    var one := Step(s, a);
    assert After(one, [b]) == After(Step(one, b), []);
  }

  lemma LargePosted(belongs: string -> bool)
    requires belongs("/p")
    ensures
      var s := Step(Fresh(20), LoadEvent(1));
      Step(s, Post(Some(LargeRequest()), belongs)) == State(Fresh(20).got[0 := LARGE], map[0 := LARGE], Loading)
  {
    hide RecordSize, Record, Filled, MandatoryCount, FindId, IdOnly, CString;
    LargeSize();
    LargeIsFilled();
    FreshSlot();
    hide LargeRequest, SlotFor, IndexOf, Fresh;
  }

  lemma FreshSlot()
    ensures
      var s := Fresh(20);
      && s.storage == map[] && |s.got| == 20 && s.got[0] == FREE
      && SlotFor(s.got, 1) == 0 && IndexOf(s.got, 1) == 20
  {
    hide IndexOf;
    var got := Fresh(20).got;
    IndexIs(got, 1, 20);
    IndexIs(got, -1, 0);
  }

  lemma LargeReloads()
    ensures Restarted(State(Fresh(20).got[0 := LARGE], map[0 := LARGE], Loading)).got[0] == FREE
  {
    LargeSize();
    hide RecordSize;
  }

  lemma FillsFour(e: Entry, items: seq<Item>)
    requires |items| == 4
    ensures Filled(e, items) == Assigned(Assigned(Assigned(Assigned(e, items[0]), items[1]), items[2]), items[3])
    ensures MandatoryCount(items) == (if Mandatory(items[0]) then 1 else 0) + (if Mandatory(items[1]) then 1 else 0)
                                     + (if Mandatory(items[2]) then 1 else 0) + (if Mandatory(items[3]) then 1 else 0)
  {
    assert items[..3][..2] == items[..2] && items[..2][..1] == items[..1] && items[..1][..0] == [];
    assert Filled(e, items[..1]) == Assigned(e, items[0]);
    assert Filled(e, items[..2]) == Assigned(Filled(e, items[..1]), items[1]);
    assert Filled(e, items[..3]) == Assigned(Filled(e, items[..2]), items[2]);
    assert MandatoryCount(items[..1]) == (if Mandatory(items[0]) then 1 else 0);
    assert MandatoryCount(items[..2]) == MandatoryCount(items[..1]) + if Mandatory(items[1]) then 1 else 0;
    assert MandatoryCount(items[..3]) == MandatoryCount(items[..2]) + if Mandatory(items[2]) then 1 else 0;
  }
}
