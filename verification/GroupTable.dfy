/** The group object table as it is kept: the static array, the storage and the device's load state. */
module GroupTable {

  import opened CStrings
  import opened GroupObjects
  import opened Options

  /** `oc_table_find_id_from_rep` */
  method ReadId(items: seq<Item>) returns (id: int)
    ensures id == FindId(items)
  {
    var k := 0;
    assert items[0..] == items;
    while k < |items|
      invariant k <= |items| && FindId(items[k..]) == FindId(items)
    {
      assert items[k..][1..] == items[k + 1..];
      if items[k].key == ID && items[k].value.Int? { return ToInt32(items[k].value.num); }
      k := k + 1;
    }
    return -1;
  }

  method SumFlags(ns: seq<int>) returns (flags: nat)
    ensures flags == FlagSum(ns)
  {
    flags := 0;
    var k := 0;
    while k < |ns|
      invariant k <= |ns| && flags == FlagSum(ns[..k])
    {
      assert ns[..k + 1][..k] == ns[..k];
      if ns[k] == 1 {
        flags := flags + 8;
      } else if ns[k] == 2 {
        flags := flags + 16;
      } else if ns[k] == 3 {
        flags := flags + 64;
      } else if ns[k] == 4 {
        flags := flags + 128;
      } else if ns[k] == 5 {
        flags := flags + 32;
      }
      k := k + 1;
    }
    assert ns[..k] == ns;
  }

  class Table {
    const got: array<Entry>
    var storage: Storage
    var lsm: LoadState

    ghost function View(): State
      reads this, got
    {
      State(got[..], storage, lsm)
    }

    constructor (n: nat)
      ensures fresh(got) && View() == Fresh(n)
    {
      got := new Entry[n](_ => FREE);
      storage := map[];
      lsm := Unloaded;
    }

    /** `oc_core_find_index_in_group_object_table_from_id` */
    method FindIndex(id: int) returns (i: int)
      ensures i == if IndexOf(got[..], id) < got.Length then IndexOf(got[..], id) else -1
    {
      i := 0;
      while i < got.Length
        invariant 0 <= i <= got.Length && forall j | 0 <= j < i :: got[j].id != id
      {
        if got[i].id == id {
          IndexIs(got[..], id, i);
          return;
        }
        i := i + 1;
      }
      IndexIs(got[..], id, i);
      i := -1;
    }

    /** `find_empty_slot_in_group_object_table` */
    method FindEmpty(id: int) returns (i: int)
      ensures i == if EmptySlot(got[..], id) < got.Length then EmptySlot(got[..], id) else -1
    {
      if id < 0 { return -1; }
      i := FindIndex(-1);
    }

    /** One pair of the request, written into the slot. */
    method Assign(i: nat, item: Item)
      requires i < got.Length
      modifies got
      ensures got[..] == old(got[..])[i := Assigned(old(got[i]), item)]
    {
      match item.value {
        case Text(text) =>
          if item.key == HREF { got[i] := got[i].(href := text); }
        case Int(n) =>
          if item.key == ID { got[i] := got[i].(id := ToInt32(n)); }
          if item.key == CFLAGS { got[i] := got[i].(cflags := ToInt32(n)); }
        case Ints(ns) =>
          if item.key == CFLAGS {
            var flags := SumFlags(ns);
            got[i] := got[i].(cflags := flags);
          }
          if item.key == GA { got[i] := got[i].(ga := Words(ns)); }
        case Other =>
      }
    }

    /** The walk over the pairs of one object. */
    method Fill(i: nat, items: seq<Item>) returns (idOnly: bool, mandatory: nat)
      requires i < got.Length
      modifies got
      ensures got[..] == old(got[..])[i := Filled(old(got[i]), items)]
      ensures idOnly == IdOnly(items) && mandatory == MandatoryCount(items)
    {
      idOnly, mandatory := true, 0;
      var k := 0;
      while k < |items|
        invariant k <= |items|
        invariant got[..] == old(got[..])[i := Filled(old(got[i]), items[..k])]
        invariant idOnly == IdOnly(items[..k]) && mandatory == MandatoryCount(items[..k])
      {
        assert items[..k + 1][..k] == items[..k];
        Assign(i, items[k]);
        if SaysMore(items[k]) { idOnly := false; }
        if Mandatory(items[k]) { mandatory := mandatory + 1; }
        k := k + 1;
      }
      assert items[..k] == items;
    }

    /** `oc_dump_group_object_table_entry` */
    method Dump(i: nat)
      requires i < got.Length
      modifies this`storage
      ensures storage == Dumped(old(storage), i, got[i])
    {
      if RecordSize(Record(got[i])) <= WRITE_SIZE {
        storage := storage[i := Record(got[i])];
      }
    }

    /** `oc_delete_group_object_table_entry` */
    method Erase(i: nat)
      requires i < got.Length
      modifies this`storage, got
      ensures View() == Erased(old(View()), i)
    {
      storage := storage - {i};
      got[i] := FREE;
    }

    /** `oc_fp_g_check_and_save` */
    method CheckAndSave(i: nat, belongs: string -> bool) returns (ok: bool)
      requires i < got.Length
      modifies this`storage, got
      ensures ok <==> var e := old(got[i]); e.ga != [] && e.cflags != 0 && |e.href| <= 30 && belongs(e.href)
      ensures ok ==> View() == old(View()).(storage := Dumped(old(storage), i, old(got[i])))
      ensures !ok ==> View() == ErasedForGood(old(View()), i)
    {
      ok := true;
      if got[i].ga == [] { ok := false; }
      if got[i].cflags == 0 { ok := false; }
      if |got[i].href| > MAX_URL { ok := false; }
      if !belongs(got[i].href) { ok := false; }
      if ok {
        Dump(i);
      } else {
        Erase(i);
        Dump(i);
      }
    }

    /** `oc_core_fp_g_post_handler` */
    method Post(payload: Option<seq<Item>>, belongs: string -> bool) returns (status: Status)
      modifies this`storage, got
      ensures (View(), status) == Posted(old(View()), payload, belongs)
    {
      hide RecordSize, CString, MandatoryCount, IdOnly, FindId, Filled, IndexOf;
      if lsm != Loading { return MethodNotAllowed; }
      if payload.None? { return BadRequest; }
      var id := ReadId(payload.value);
      if id == -1 { return BadRequest; }
      var index := FindIndex(id);
      status := Changed;
      if index == -1 {
        status := Created;
        index := FindEmpty(id);
        if index == -1 { return BadRequest; }
      }
      ghost var before := got[..];
      var idOnly, mandatory := Fill(index, payload.value);
      if idOnly {
        Erase(index);
        assert got[..] == before[index := FREE];
      } else if status == Created && mandatory != 4 {
        Erase(index);
        assert got[..] == before[index := FREE];
        return BadRequest;
      } else {
        var ok := CheckAndSave(index, belongs);
        if !ok {
          assert got[..] == before[index := FREE];
          return BadRequest;
        }
      }
    }

    /** `oc_core_fp_g_x_del_handler` */
    method Delete(id: int) returns (status: Status)
      modifies this`storage, got
      ensures (View(), status) == DeletedAt(old(View()), id)
    {
      if lsm != Loading { return BadRequest; }
      var index := FindIndex(id);
      if index == -1 { return NotFound; }
      Erase(index);
      Dump(index);
      return Deleted;
    }

    /** `oc_delete_group_object_table` */
    method EraseAll()
      modifies this`storage, got
      ensures got[..] == seq(got.Length, _ => FREE) && storage == RecordsFrom(old(storage), got.Length)
    {
      var i := 0;
      while i < got.Length
        invariant 0 <= i <= got.Length && lsm == old(lsm)
        invariant forall j | 0 <= j < i :: got[j] == FREE
        invariant storage == RecordsFrom(old(storage), i)
      {
        Erase(i);
        i := i + 1;
      }
    }

    /** `oc_lsm_event_to_state`; false for an event it does not know. */
    method HandleEvent(event: int) returns (known: bool)
      modifies this, got
      ensures View() == AfterEvent(old(View()), event)
      ensures known == (event == 0 || event == 1 || event == 2 || event == 4)
    {
      if event == 0 { return true; }
      if event == 1 {
        lsm := Loading;
        return true;
      }
      if event == 2 {
        lsm := LoadedState;
        return true;
      }
      if event == 4 {
        EraseAll();
        lsm := Unloaded;
        return true;
      }
      return false;
    }

    /** `oc_init_tables`, then `oc_load_group_object_table`. */
    method LoadAll()
      modifies got
      ensures View() == Restarted(old(View()))
    {
      hide RecordSize;
      var i := 0;
      while i < got.Length
        invariant 0 <= i <= got.Length
        invariant forall j | 0 <= j < i :: got[j] == FREE
      {
        got[i] := FREE;
        i := i + 1;
      }
      i := 0;
      while i < got.Length
        invariant 0 <= i <= got.Length
        invariant forall j | 0 <= j < i :: got[j] == Loaded(storage, j)
        invariant forall j | i <= j < got.Length :: got[j] == FREE
      {
        if i in storage && RecordSize(storage[i]) <= READ_SIZE { got[i] := storage[i]; }
        i := i + 1;
      }
    }
  }
}
