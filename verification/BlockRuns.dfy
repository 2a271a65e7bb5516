/**
 The two ends of a block-wise transfer over a channel that loses, repeats and reorders: every block
 ever cut may arrive at any later time, any number of times, or never.
 */
module BlockRuns {

  import opened BlockTransfer
  import opened Octets
  import opened Options

  datatype Block = Block(offset: nat, bytes: seq<byte>)

  /** A request names a block by number and size, as the Block options do; a delivery is of any block cut so far. */
  datatype Event = Request(number: nat, size: nat) | Deliver(block: Block)

  /** Blocks cut so far, the smallest size asked for, and the receiver's bytes below `next_block_offset`. */
  datatype State = State(sent: set<Block>, size: nat, received: seq<byte>)

  const START := State({}, 1024, [])

  /** The block that `DispatchBlock` hands out at a whole number of blocks. */
  function Cut(payload: seq<byte>, number: nat, size: nat): (b: Option<Block>)
    requires size > 0
    ensures b.Some? <==> number * size < |payload|
    ensures b.Some? ==>
              && b.value.offset == number * size && b.value.offset + |b.value.bytes| <= |payload|
              && b.value.bytes == payload[b.value.offset..b.value.offset + |b.value.bytes|]
              && (|b.value.bytes| == size || b.value.offset + |b.value.bytes| == |payload|)
              && |b.value.bytes| > 0
  {
    match DispatchSize(|payload|, number * size, size)
    case None => None
    case Some(n) =>
      AlignedDispatch(|payload|, number, size);
      DispatchIsRemainder(|payload|, number * size, size);
      Some(Block(number * size, payload[number * size..number * size + n]))
  }

  predicate Possible(st: State, ev: Event) {
    match ev
    case Request(_, size) => IsBlockSize(size) && size <= st.size
    case Deliver(block) => block in st.sent
  }

  /** The delivery is of the block the receiver is waiting for. */
  predicate IsNext(room: nat, st: State, ev: Event) {
    ev.Deliver? && ev.block in st.sent && ev.block.offset == |st.received|
        && Handles(room, |st.received|, ev.block.offset, |ev.block.bytes|)
  }

  /** One event; what is not possible does not happen. */
  function Step(payload: seq<byte>, room: nat, st: State, ev: Event): State {
    if !Possible(st, ev) then st
    else
      match ev
      case Request(number, size) =>
        (match Cut(payload, number, size)
         case None => st.(size := size)
         case Some(b) => State(st.sent + {b}, size, st.received))
      case Deliver(block) =>
        if IsNext(room, st, ev) then st.(received := st.received + block.bytes) else st
  }

  /** The state before event n of a run. */
  function After(payload: seq<byte>, room: nat, run: seq<Event>, n: nat): State
    requires n <= |run|
  {
    if n == 0 then START else Step(payload, room, After(payload, room, run, n - 1), run[n - 1])
  }

  /** How many of the first n events delivered the block the receiver was waiting for. */
  function Hits(payload: seq<byte>, room: nat, run: seq<Event>, n: nat): nat
    requires n <= |run|
  {
    if n == 0 then 0
    else Hits(payload, room, run, n - 1) + if IsNext(room, After(payload, room, run, n - 1), run[n - 1]) then 1 else 0
  }

  /** n is a whole number of blocks. */
  predicate Whole(n: nat, size: nat)
    requires size > 0
  {
    n == 0 || (n >= size && Whole(n - size, size))
  }

  /** That number. */
  function BlocksIn(n: nat, size: nat): (number: nat)
    requires size > 0 && Whole(n, size)
    ensures number * size == n
  {
    if n == 0 then 0 else 1 + BlocksIn(n - size, size)
  }

  /** A part of the payload that starts, and ends unless it ends the payload, at a whole number of blocks. */
  predicate IsPart(payload: seq<byte>, size: nat, b: Block)
    requires size > 0
  {
    && 0 < |b.bytes| && b.offset + |b.bytes| <= |payload|
    && b.bytes == payload[b.offset..b.offset + |b.bytes|]
    && Whole(b.offset, size)
    && (Whole(|b.bytes|, size) || b.offset + |b.bytes| == |payload|)
  }

  ghost predicate Consistent(payload: seq<byte>, room: nat, st: State) {
    && IsBlockSize(st.size)
    && |st.received| <= room
    && st.received <= payload
    && (Whole(|st.received|, st.size) || st.received == payload)
    && forall b | b in st.sent :: IsPart(payload, st.size, b)
  }

  lemma {:induction false} HalfSize(half: nat, n: nat)
    requires half > 0 && Whole(n, 2 * half)
    ensures Whole(n, half)
  {
    if n > 0 {
      HalfSize(half, n - 2 * half);
      assert Whole(n - half, half);
    }
  }

  /** Block sizes divide each other. */
  lemma {:induction false} SmallerDivides(size: nat, smaller: nat, n: nat)
    requires IsBlockSize(size) && IsBlockSize(smaller) && smaller <= size && Whole(n, size)
    ensures Whole(n, smaller)
    decreases size
  {
    if smaller < size {
      HalfSize(size / 2, n);
      SmallerDivides(size / 2, smaller, n);
    }
  }

  lemma {:induction false} WholeBlocksAdd(a: nat, b: nat, size: nat)
    requires size > 0 && Whole(a, size) && Whole(b, size)
    ensures Whole(a + b, size)
    decreases a
  {
    if a > 0 { WholeBlocksAdd(a - size, b, size); }
  }

  lemma {:induction false} MultipleIsWhole(number: nat, size: nat)
    requires size > 0
    ensures Whole(number * size, size)
  {
    if number > 0 {
      MultipleIsWhole(number - 1, size);
      assert number * size - size == (number - 1) * size;
    }
  }

  lemma StepKeepsConsistent(payload: seq<byte>, room: nat, st: State, ev: Event)
    requires Consistent(payload, room, st)
    ensures Consistent(payload, room, Step(payload, room, st, ev))
    ensures st.received <= Step(payload, room, st, ev).received
    ensures IsNext(room, st, ev) ==>
              var got := Step(payload, room, st, ev).received;
              got == payload || |got| >= |st.received| + st.size
  {
    if Possible(st, ev) {
      match ev
      case Request(number, size) =>
        if Whole(|st.received|, st.size) { SmallerDivides(st.size, size, |st.received|); }
        forall b | b in st.sent ensures IsPart(payload, size, b) {
          PartOfSmaller(payload, st.size, size, b);
        }
        CutIsPart(payload, number, size);
      case Deliver(block) =>
        if IsNext(room, st, ev) { NextPart(payload, st, block); }
    }
  }

  lemma PartOfSmaller(payload: seq<byte>, size: nat, smaller: nat, b: Block)
    requires IsBlockSize(size) && IsBlockSize(smaller) && smaller <= size && IsPart(payload, size, b)
    ensures IsPart(payload, smaller, b)
  {
    SmallerDivides(size, smaller, b.offset);
    if Whole(|b.bytes|, size) { SmallerDivides(size, smaller, |b.bytes|); }
  }

  lemma CutIsPart(payload: seq<byte>, number: nat, size: nat)
    requires IsBlockSize(size)
    ensures Cut(payload, number, size).Some? ==> IsPart(payload, size, Cut(payload, number, size).value)
  {
    MultipleIsWhole(number, size);
    assert Whole(size, size);
  }

  /** The awaited part continues the prefix: to the end, or by a whole number of blocks. */
  lemma NextPart(payload: seq<byte>, st: State, b: Block)
    requires IsBlockSize(st.size) && st.received <= payload
    requires IsPart(payload, st.size, b) && b.offset == |st.received|
    ensures
      var got := st.received + b.bytes;
      && got <= payload
      && (got == payload || (Whole(|got|, st.size) && |got| >= |st.received| + st.size))
  {
    if b.offset + |b.bytes| < |payload| {
      WholeBlocksAdd(|st.received|, |b.bytes|, st.size);
    }
  }

  /**
   Over every run: the receiver holds exactly a prefix of the payload, which is all of it or a whole
   number of blocks of the size in use, so that the next block has a number to ask for.
   */
  lemma {:induction false} TransferIsSafe(payload: seq<byte>, room: nat, run: seq<Event>, n: nat)
    requires n <= |run|
    ensures Consistent(payload, room, After(payload, room, run, n))
  {
    if n > 0 {
      TransferIsSafe(payload, room, run, n - 1);
      StepKeepsConsistent(payload, room, After(payload, room, run, n - 1), run[n - 1]);
    }
  }

  /** What has been received is never taken back. */
  lemma {:induction false} ReceivedOnlyGrows(payload: seq<byte>, room: nat, run: seq<Event>, i: nat, n: nat)
    requires i <= n <= |run|
    ensures After(payload, room, run, i).received <= After(payload, room, run, n).received
    decreases n
  {
    if i < n {
      ReceivedOnlyGrows(payload, room, run, i, n - 1);
      TransferIsSafe(payload, room, run, n - 1);
      StepKeepsConsistent(payload, room, After(payload, room, run, n - 1), run[n - 1]);
    }
  }

  /** Whatever else happens in between, every awaited block that arrives completes the payload or adds a block. */
  lemma {:induction false} HitsAdvance(payload: seq<byte>, room: nat, run: seq<Event>, n: nat)
    requires n <= |run|
    ensures
      var st := After(payload, room, run, n);
      st.received == payload || |st.received| >= 16 * Hits(payload, room, run, n)
  {
    if n > 0 {
      HitsAdvance(payload, room, run, n - 1);
      TransferIsSafe(payload, room, run, n - 1);
      TransferIsSafe(payload, room, run, n);
      var st := After(payload, room, run, n - 1);
      StepKeepsConsistent(payload, room, st, run[n - 1]);
      if st.received == payload { assert After(payload, room, run, n).received == payload; }
    }
  }

  /** A receiver that has been sent enough awaited blocks has exactly the payload. */
  lemma TransferCompletes(payload: seq<byte>, room: nat, run: seq<Event>)
    requires |payload| <= 16 * Hits(payload, room, run, |run|)
    ensures After(payload, room, run, |run|).received == payload
  {
    HitsAdvance(payload, room, run, |run|);
    TransferIsSafe(payload, room, run, |run|);
  }

  /**
   In every reachable state the next block can be asked for, by number, at any size not larger than
   before; and its arrival leaves strictly less to receive, unless it would not fit in the
   receiver's buffer.
   */
  lemma NextBlockAvailable(payload: seq<byte>, room: nat, run: seq<Event>, n: nat, size: nat) returns (number: nat)
    requires n <= |run|
    requires IsBlockSize(size) && size <= After(payload, room, run, n).size
    requires After(payload, room, run, n).received != payload
    ensures number * size == |After(payload, room, run, n).received|
    ensures
      var st := After(payload, room, run, n);
      && Cut(payload, number, size).Some?
      && var asked := Step(payload, room, st, Request(number, size));
         var arrival := Deliver(Cut(payload, number, size).value);
         && Possible(asked, arrival)
         && (IsNext(room, asked, arrival) <==> |st.received| + |arrival.block.bytes| <= room)
         && (IsNext(room, asked, arrival) ==> |Step(payload, room, asked, arrival).received| > |st.received|)
  {
    TransferIsSafe(payload, room, run, n);
    var st := After(payload, room, run, n);
    SmallerDivides(st.size, size, |st.received|);
    number := BlocksIn(|st.received|, size);
  }

  /** A payload larger than the receiver's buffer never arrives whole. */
  lemma TooLargeNeverCompletes(payload: seq<byte>, room: nat, run: seq<Event>, n: nat)
    requires n <= |run|
    requires |payload| > room
    ensures After(payload, room, run, n).received != payload
  {
    TransferIsSafe(payload, room, run, n);
  }

  /**
   In every reachable state, a block that arrives is taken if and only if it fits and everything before it
   has been received; a block beyond that is refused and changes nothing. The receiver then holds the
   payload up to the block's end if it was waiting for it, and what it held otherwise.
   */
  lemma GapsAreRefused(payload: seq<byte>, room: nat, run: seq<Event>, n: nat, b: Block)
    requires n <= |run| && b in After(payload, room, run, n).sent
    ensures
      var st := After(payload, room, run, n);
      var next := Step(payload, room, st, Deliver(b)).received;
      && (Handles(room, |st.received|, b.offset, |b.bytes|) <==>
            b.offset + |b.bytes| <= room && b.offset <= |payload| && payload[..b.offset] <= st.received)
      && (b.offset > |st.received| ==> !Handles(room, |st.received|, b.offset, |b.bytes|) && next == st.received)
      && next <= payload
      && |next| == if b.offset == |st.received| && b.offset + |b.bytes| <= room then b.offset + |b.bytes|
                   else |st.received|
  {
    TransferIsSafe(payload, room, run, n);
    var st := After(payload, room, run, n);
    hide After;
    assert IsPart(payload, st.size, b);
    StepKeepsConsistent(payload, room, st, Deliver(b));
    if b.offset <= |st.received| { assert payload[..b.offset] == st.received[..b.offset]; }
  }
}
