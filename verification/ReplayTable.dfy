/**
 The fixed table of replay records of `oc_replay.c`: one window per client, keyed by its
 key identifier and context, the oldest record making way when the table is full.
 */
module ReplayTable {
  import opened ReplayWindow

  type ByteString = seq<bv8>

  datatype Key = Key(kid: ByteString, context: ByteString)

  datatype Record = Record(key: Key, window: Window, time: nat, inUse: bool)

  const NO_KEY := Key([], [])

  function Freed(): Record {
    Record(NO_KEY, Window(0, Zero()), 0, false)
  }

  /** How the library was built: what `1 << 32` yields, and OC_TRUST_FIRST_MCAST. */
  datatype Build = Build(shift32: Bits, trustFirstMulticast: bool)

  // ----- the operations on the contents of the table

  predicate Matches(r: Record, key: Key) {
    r.inUse && r.key == key
  }

  /** The first record in use for `key` from position i on, or |rs|; an empty KID is never found. */
  function Find(rs: seq<Record>, key: Key, i: nat): (at: nat)
    requires i <= |rs|
    ensures i <= at <= |rs|
    ensures at < |rs| ==> key.kid != [] && Matches(rs[at], key)
    ensures key.kid != [] ==> forall j | i <= j < at :: !Matches(rs[j], key)
    decreases |rs| - i
  {
    if i == |rs| || key.kid == [] then |rs|
    else if Matches(rs[i], key) then i
    else Find(rs, key, i + 1)
  }

  /** The first record not in use, or |rs|. */
  function Vacant(rs: seq<Record>, i: nat): (at: nat)
    requires i <= |rs|
    ensures i <= at <= |rs|
    ensures at < |rs| ==> !rs[at].inUse
    ensures forall j | i <= j < at :: rs[j].inUse
    decreases |rs| - i
  {
    if i == |rs| || !rs[i].inUse then i else Vacant(rs, i + 1)
  }

  /** The oldest of `best` and the records from i on, the earlier one on a tie. */
  function Oldest(rs: seq<Record>, best: nat, i: nat): (at: nat)
    requires best < |rs| && i <= |rs|
    ensures at < |rs|
    ensures rs[at].time <= rs[best].time
    ensures forall j | i <= j < |rs| :: rs[at].time <= rs[j].time
    ensures at == best || (i <= at && rs[at].time < rs[best].time && forall j | i <= j < at :: rs[at].time < rs[j].time)
    decreases |rs| - i
  {
    if i == |rs| then best else Oldest(rs, if rs[i].time < rs[best].time then i else best, i + 1)
  }

  /** The record a new client gets. */
  function SlotFor(rs: seq<Record>): (at: nat)
    requires rs != []
    ensures at < |rs|
  {
    if Vacant(rs, 0) < |rs| then Vacant(rs, 0) else Oldest(rs, 0, 1)
  }

  function Added(rs: seq<Record>, ssn: Ssn, key: Key, now: nat): (rs': seq<Record>)
    requires rs != []
    ensures |rs'| == |rs|
  {
    var found := Find(rs, key, 0);
    rs[if found < |rs| then found else SlotFor(rs) := Record(key, Synchronised(ssn), now, true)]
  }

  datatype Answer = Answer(records: seq<Record>, accepted: bool)

  function Checked(rs: seq<Record>, ssn: Ssn, key: Key, multicast: bool, now: nat, rplwdo: nat,
                   build: Build): (a: Answer)
    requires rs != []
    ensures |a.records| == |rs|
  {
    var found := Find(rs, key, 0);
    if found < |rs| then
      var out := Check(rs[found].window, ssn, rplwdo, build.shift32);
      Answer(rs[found := rs[found].(window := out.window, time := now)], out.accepted)
    else if build.trustFirstMulticast && multicast then Answer(Added(rs, ssn, key, now), true)
    else Answer(rs, false)
  }

  function Released(rs: seq<Record>, kid: ByteString): seq<Record> {
    seq(|rs|, i requires 0 <= i < |rs| => if rs[i].key.kid == kid then Freed() else rs[i])
  }

  // ----- the table itself

  class Table {
    const records: array<Record>
    const build: Build

    /** OC_MAX_REPLAY_RECORDS zeroed records. */
    constructor (size: nat, build: Build)
      requires size > 0
      ensures fresh(records) && this.build == build
      ensures records[..] == seq(size, i => Freed())
    {
      this.build := build;
      this.records := new Record[size](i => Freed());
    }

    method GetRecord(key: Key) returns (at: nat)
      ensures at == Find(records[..], key, 0)
    {
      if |key.kid| == 0 { return records.Length; }
      at := 0;
      while at < records.Length
        invariant at <= records.Length
        invariant Find(records[..], key, at) == Find(records[..], key, 0)
      {
        var rec := records[at];
        if rec.inUse {
          var nullContexts := |key.context| == 0 && |rec.key.context| == 0;
          if rec.key.kid == key.kid && (nullContexts || rec.key.context == key.context) { return; }
        }
        at := at + 1;
      }
    }

    method GetEmptyRecord() returns (at: nat)
      requires records.Length > 0
      modifies records
      ensures at == SlotFor(old(records[..])) && at < records.Length
      ensures records[..] == if old(records[at].inUse) then old(records[..])[at := Freed()] else old(records[..])
    {
      at := 0;
      while at < records.Length
        invariant at <= records.Length
        invariant Vacant(records[..], at) == Vacant(records[..], 0)
      {
        if !records[at].inUse { return; }
        at := at + 1;
      }
      at := 0;
      var i := 1;
      while i < records.Length
        invariant at < records.Length && 1 <= i <= records.Length
        invariant Oldest(records[..], at, i) == Oldest(records[..], 0, 1)
      {
        if records[i].time < records[at].time { at := i; }
        i := i + 1;
      }
      assert records[..][at].inUse;
      records[at] := Freed();
    }

    /** `oc_replay_add_client` */
    method AddClient(ssn: Ssn, key: Key, now: nat)
      requires records.Length > 0
      modifies records
      ensures records[..] == Added(old(records[..]), ssn, key, now)
    {
      var at := GetRecord(key);
      if at == records.Length {
        at := GetEmptyRecord();
      }
      records[at] := Record(key, Synchronised(ssn), now, true);
    }

    /** `oc_replay_check_client` */
    method CheckClient(ssn: Ssn, key: Key, multicast: bool, now: nat, rplwdo: nat) returns (accepted: bool)
      requires records.Length > 0
      modifies records
      ensures Answer(records[..], accepted) == Checked(old(records[..]), ssn, key, multicast, now, rplwdo, build)
    {
      var at := GetRecord(key);
      if at == records.Length {
        if build.trustFirstMulticast && multicast {
          AddClient(ssn, key, now);
          return true;
        }
        return false;
      }
      records[at] := records[at].(time := now);
      var rxSsn, bits := records[at].window.rxSsn, records[at].window.bits;
      var diff := SignedDifference(rxSsn, ssn);
      if diff >= 0 {
        if diff > WINDOW_BITS { return false; }
        var probe := Probe(diff, build.shift32);
        if Overlap(bits, probe) { return false; }
        records[at] := records[at].(window := Window(rxSsn, Or(bits, probe)));
        return true;
      }
      if -diff > rplwdo { return false; }
      records[at] := records[at].(window := Window(ssn, bits));
      if -diff >= WINDOW_BITS {
        records[at] := records[at].(window := Window(ssn, Zero()));
      } else {
        records[at] := records[at].(window := Window(ssn, ShiftLeft(bits, -diff)));
      }
      records[at] := records[at].(window := Window(ssn, Or(records[at].window.bits, Mask(0))));
      return true;
    }

    /** `oc_replay_free_client` */
    method FreeClient(kid: ByteString)
      modifies records
      ensures records[..] == Released(old(records[..]), kid)
    {
      var i := 0;
      while i < records.Length
        invariant i <= records.Length
        invariant forall j | 0 <= j < i :: records[j] == Released(old(records[..]), kid)[j]
        invariant forall j | i <= j < records.Length :: records[j] == old(records[j])
      {
        if records[i].key.kid == kid { records[i] := Freed(); }
        i := i + 1;
      }
    }
  }
}
