/**
 Block-wise transfer in `oc_blockwise.c` (sections 2.2 to 2.5 of RFC 7959): cutting a payload into
 blocks, putting blocks together again, and the two ends over a channel that may lose, repeat and
 reorder everything. The block size comes from `oc_set_mtu_size`.
 */
module BlockTransfer {

  import opened Octets
  import opened Options

  // ----- block sizes

  /** COAP_MAX_HEADER_SIZE of a block-wise build: 4 + token 8 + 3 + ETag 8 + 4 + 4 + 150 */
  const MAX_HEADER: nat := 181

  predicate IsBlockSize(s: nat) {
    s in {16, 32, 64, 128, 256, 512, 1024}
  }

  function PowerOfTwo(i: nat): (p: nat)
    ensures p > 0
  {
    if i == 0 then 1 else 2 * PowerOfTwo(i - 1)
  }

  lemma Powers()
    ensures PowerOfTwo(4) == 16 && PowerOfTwo(5) == 32 && PowerOfTwo(6) == 64 && PowerOfTwo(7) == 128
    ensures PowerOfTwo(8) == 256 && PowerOfTwo(9) == 512 && PowerOfTwo(10) == 1024
  {
    assert PowerOfTwo(3) == 8;
    assert PowerOfTwo(5) == 32;
    assert PowerOfTwo(7) == 128;
    assert PowerOfTwo(9) == 512;
  }

  /**
   `oc_set_mtu_size`: refused below the header and 16 bytes; otherwise the largest block size that
   fits in the MTU behind the header.
   */
  method BlockSizeFor(mtu: nat) returns (size: Option<nat>)
    ensures mtu < 181 + 16 <==> size.None?
    ensures size.Some? ==> IsBlockSize(size.value) && 181 + size.value <= mtu
    ensures size.Some? ==> forall s: nat | IsBlockSize(s) && 181 + s <= mtu :: s <= size.value
  {
    if mtu < MAX_HEADER + 16 { return None; }
    Powers();
    var m := mtu - MAX_HEADER;
    var i := 10;
    while i >= 4 && m / PowerOfTwo(i) == 0
      invariant 4 <= i <= 10
      invariant i < 10 ==> m < PowerOfTwo(i + 1)
    {
      i := i - 1;
    }
    size := Some(PowerOfTwo(i));
  }

  // ----- the two functions on a buffer

  /** `oc_blockwise_dispatch_block`: how many bytes from `offset` on go out; nothing behind the payload. */
  function DispatchSize(payloadSize: nat, offset: nat, requested: nat): Option<nat> {
    if offset >= payloadSize then None
    else if payloadSize < requested then Some(payloadSize)
    else if requested < payloadSize - offset then Some(requested)
    else Some(payloadSize - offset)
  }

  /** `oc_blockwise_handle_block`: refused when it cannot fit or lies beyond what has been received. */
  predicate Handles(room: nat, next: nat, offset: nat, size: nat) {
    offset < room && size <= room - offset && offset <= next
  }

  /** `oc_blockwise_state_t`, the part that holds the payload. */
  class Buffer {
    const data: array<byte>
    var nextBlockOffset: nat
    var payloadSize: nat

    constructor (room: nat)
      ensures fresh(data) && data.Length == room && nextBlockOffset == 0 && payloadSize == 0
    {
      data := new byte[room](i => 0);
      nextBlockOffset := 0;
      payloadSize := 0;
    }

    /** The block starts at `blockOffset` in `data`; its size is returned. */
    method DispatchBlock(blockOffset: nat, requested: nat) returns (size: Option<nat>)
      modifies `nextBlockOffset
      ensures size == DispatchSize(payloadSize, blockOffset, requested)
      ensures nextBlockOffset == if size.Some? then blockOffset + size.value else old(nextBlockOffset)
    {
      if blockOffset < payloadSize {
        var n;
        if payloadSize < requested {
          n := payloadSize;
        } else {
          n := if requested < payloadSize - blockOffset then requested else payloadSize - blockOffset;
        }
        nextBlockOffset := blockOffset + n;
        return Some(n);
      }
      return None;
    }

    method HandleBlock(offset: nat, block: seq<byte>) returns (handled: bool)
      requires nextBlockOffset <= data.Length
      modifies `nextBlockOffset, data
      ensures nextBlockOffset <= data.Length
      ensures handled == Handles(data.Length, old(nextBlockOffset), offset, |block|)
      ensures handled <==> offset < data.Length && |block| <= data.Length - offset && offset <= old(nextBlockOffset)
      ensures if handled && offset == old(nextBlockOffset) then
                nextBlockOffset == offset + |block| && data[..nextBlockOffset] == old(data[..nextBlockOffset]) + block
              else nextBlockOffset == old(nextBlockOffset) && data[..] == old(data[..])
    {
      if offset >= data.Length || |block| > data.Length - offset || offset > nextBlockOffset { return false; }
      if nextBlockOffset == offset {
        var k := 0;
        while k < |block|
          invariant k <= |block| && nextBlockOffset == offset
          invariant data[..offset + k] == old(data[..offset]) + block[..k]
        {
          data[offset + k] := block[k];
          k := k + 1;
        }
        nextBlockOffset := nextBlockOffset + |block|;
      }
      return true;
    }
  }

  /**
   The short-payload branch hands out the whole size whatever the offset: the block is the requested
   part of what remains exactly when it starts at 0 or is not larger than the payload.
   */
  lemma DispatchIsRemainder(payloadSize: nat, offset: nat, requested: nat)
    requires offset < payloadSize
    ensures
      var remaining := payloadSize - offset;
      DispatchSize(payloadSize, offset, requested) == Some(if requested < remaining then requested else remaining)
      <==> offset == 0 || requested <= payloadSize
    ensures !(offset == 0 || requested <= payloadSize) ==>
              DispatchSize(payloadSize, offset, requested) == Some(payloadSize)
  {
  }

  /** Otherwise it runs past the end of the payload, as here. */
  lemma UnalignedDispatchOverruns()
    ensures DispatchSize(20, 16, 32) == Some(20) && 16 + 20 > 20
  {
  }

  /** A whole number of blocks into the payload is always such an offset. */
  lemma AlignedDispatch(payloadSize: nat, number: nat, requested: nat)
    requires requested > 0 && number * requested < payloadSize
    ensures number * requested == 0 || requested <= payloadSize
  {
    if number > 0 { assert number * requested >= requested; }
  }
}
