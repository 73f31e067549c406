/** Cutting an object into blocks, the offer that announces the cut, and putting the
    blocks back together at their offsets. */
module Blocks {
  import opened Bytes
  import opened Wire

  // ---- codec.rs: block arithmetic on 64- and 32-bit integers -----------------------------

  /** `block_count`: the quotient is narrowed with `as u32`. */
  function BlockCount(totalLen: u64, blockSize: nat): u32
    requires blockSize > 0
  {
    if totalLen == 0 then 0 else DivCeil(totalLen, blockSize) % U32_LIMIT
  }

  /** `block_range`, in wrapping 64-bit arithmetic. */
  function BlockRange(id: u32, blockSize: nat, totalLen: u64): (nat, nat) {
    var start := id * blockSize % U64_LIMIT;
    var end := Min((start + blockSize) % U64_LIMIT, totalLen);
    (start, end)
  }

  /** The ranges without the machine: block `id` of an object of `totalLen` bytes. */
  function Extent(id: nat, blockSize: nat, totalLen: nat): (nat, nat) {
    (id * blockSize, Min((id + 1) * blockSize, totalLen))
  }

  // ---- frame.rs: the offer -----------------------------------------------------------------

  datatype Offer = Offer(sessionId: u64, totalLen: u64, blockSize: u32, symbolSize: u16,
                         blockCount: u32, authenticated: bool)

  datatype OfferError = OfferTruncated | ZeroSymbolSize | ZeroBlockSize | SymbolExceedsBlock | CountDisagrees

  predicate Acceptable(o: Offer) {
    o.symbolSize != 0 && o.blockSize != 0 && o.symbolSize <= o.blockSize
    && DivCeil(o.totalLen, o.blockSize) == o.blockCount
  }

  function OfferBytes(o: Offer): seq<byte> {
    LE(o.sessionId, 8) + LE(o.totalLen, 8) + LE(o.blockSize, 4) + LE(o.symbolSize, 2)
    + LE(o.blockCount, 4) + [if o.authenticated then 1 else 0]
  }

  /** Fields of a payload at least 27 bytes long; the rest of it is ignored. */
  function OfferFields(p: seq<byte>): Offer
    requires |p| >= 27
  {
    Pow256Values();
    Offer(FromLE(p[0..8]), FromLE(p[8..16]), FromLE(p[16..20]), FromLE(p[20..22]), FromLE(p[22..26]),
          p[26] != 0)
  }

  method ParseFecOffer(payload: seq<byte>) returns (r: Result<Offer, OfferError>)
    ensures r.Ok? <==> |payload| >= 27 && Acceptable(OfferFields(payload))
    ensures r.Ok? ==> r.value == OfferFields(payload)
    ensures r == Err(OfferTruncated) <==> |payload| < 27
    ensures r == Err(ZeroSymbolSize) <==> |payload| >= 27 && OfferFields(payload).symbolSize == 0
    ensures r == Err(ZeroBlockSize) ==> OfferFields(payload).blockSize == 0
    ensures r == Err(SymbolExceedsBlock) ==> OfferFields(payload).symbolSize > OfferFields(payload).blockSize
  {
    Pow256Values();
    var c := new Cursor(payload);
    var sessionId := c.TakeLE(8);
    if sessionId.Err? { return Err(OfferTruncated); }
    var totalLen := c.TakeLE(8);
    if totalLen.Err? { return Err(OfferTruncated); }
    var blockSize := c.TakeLE(4);
    if blockSize.Err? { return Err(OfferTruncated); }
    var symbolSize := c.TakeLE(2);
    if symbolSize.Err? { return Err(OfferTruncated); }
    var blockCount := c.TakeLE(4);
    if blockCount.Err? { return Err(OfferTruncated); }
    var flag := c.TakeLE(1);
    if flag.Err? { return Err(OfferTruncated); }
    assert payload[26..27] == [payload[26]];
    assert flag.value == payload[26];
    var o := Offer(sessionId.value, totalLen.value, blockSize.value, symbolSize.value, blockCount.value,
                   flag.value != 0);
    if o.symbolSize == 0 {
      return Err(ZeroSymbolSize);
    }
    if o.blockSize == 0 {
      return Err(ZeroBlockSize);
    }
    if o.symbolSize > o.blockSize {
      return Err(SymbolExceedsBlock);
    }
    if DivCeil(o.totalLen, o.blockSize) != o.blockCount {
      return Err(CountDisagrees);
    }
    r := Ok(o);
  }

  /** Which offers are accepted: symbols of at least one byte that fit a block, and exactly as
      many blocks as the object needs. */
  lemma AcceptableExactly(o: Offer)
    ensures Acceptable(o) <==>
              && 1 <= o.symbolSize <= o.blockSize && o.totalLen <= o.blockCount * o.blockSize
              && (o.blockCount > 0 ==> (o.blockCount - 1) * o.blockSize < o.totalLen)
  {
    if o.blockSize > 0 {
      var n, c := DivCeil(o.totalLen, o.blockSize), o.blockCount;
      hide DivCeil;
      DivCeilBounds(o.totalLen, o.blockSize);
      if c < n {
        MulMonotone(c, n - 1, o.blockSize, o.blockSize);
      } else if n < c {
        MulMonotone(n, c - 1, o.blockSize, o.blockSize);
      }
    }
  }

  /** What a sender built, a receiver reads back. */
  lemma OfferRoundTrip(o: Offer)
    ensures |OfferBytes(o)| == 27 && OfferFields(OfferBytes(o)) == o
  {
    hide LE, FromLE;
    Pow256Values();
    var p := OfferBytes(o);
    assert p[0..8] == LE(o.sessionId, 8) && p[8..16] == LE(o.totalLen, 8) && p[16..20] == LE(o.blockSize, 4);
    assert p[20..22] == LE(o.symbolSize, 2) && p[22..26] == LE(o.blockCount, 4);
    FromLEofLE(o.sessionId, 8);
    FromLEofLE(o.totalLen, 8);
    FromLEofLE(o.blockSize, 4);
    FromLEofLE(o.symbolSize, 2);
    FromLEofLE(o.blockCount, 4);
  }

  /** The payload a receiver reads the offer's fields back from. */
  method BuildFecOffer(o: Offer) returns (payload: seq<byte>)
    ensures payload == OfferBytes(o)
    ensures |payload| == 27 && OfferFields(payload) == o
  {
    hide LE;
    var buf := new Buffer();
    buf.PutLE(o.sessionId, 8);
    buf.PutLE(o.totalLen, 8);
    buf.PutLE(o.blockSize, 4);
    buf.PutLE(o.symbolSize, 2);
    buf.PutLE(o.blockCount, 4);
    buf.PutU8(if o.authenticated then 1 else 0);
    payload := buf.bytes;
    OfferRoundTrip(o);
  }

  /** Block `id` of an offered object: computed without 64-bit overflow, non-empty,
      starting where the one before ended, the last ending at the last byte. */
  predicate ExactBlock(o: Offer, id: u32)
    requires o.blockSize > 0
  {
    var (start, end) := Extent(id, o.blockSize, o.totalLen);
    && BlockRange(id, o.blockSize, o.totalLen) == (start, end)
    && id * o.blockSize + o.blockSize < U64_LIMIT
    && start < end
    && (if id + 1 < o.blockCount then end == Extent(id + 1, o.blockSize, o.totalLen).0 else end == o.totalLen)
  }

  lemma RangeIsExtent(id: u32, blockSize: nat, totalLen: u64)
    requires id * blockSize + blockSize < U64_LIMIT
    ensures BlockRange(id, blockSize, totalLen) == Extent(id, blockSize, totalLen)
  {
    assert (id + 1) * blockSize == id * blockSize + blockSize;
  }

  lemma AcceptedBlockIsExact(o: Offer, id: u32)
    requires Acceptable(o) && id < o.blockCount
    ensures ExactBlock(o, id)
  {
    hide BlockRange;
    DivCeilBounds(o.totalLen, o.blockSize);
    MulMonotone(id, o.blockCount - 1, o.blockSize, o.blockSize);
    MulMonotone(id + 1, U32_LIMIT - 1, o.blockSize, U32_LIMIT - 1);
    assert (id + 1) * o.blockSize == id * o.blockSize + o.blockSize;
    RangeIsExtent(id, o.blockSize, o.totalLen);
    if id + 1 < o.blockCount {
      MulMonotone(id + 1, o.blockCount - 1, o.blockSize, o.blockSize);
    }
  }

  /** An accepted offer makes the block arithmetic exact: no narrowing of the count, no
      64-bit overflow in any range, and ranges that partition the object in order. */
  lemma AcceptedOfferIsExact(o: Offer)
    requires Acceptable(o)
    ensures BlockCount(o.totalLen, o.blockSize) == o.blockCount
    ensures o.totalLen == 0 <==> o.blockCount == 0
    ensures forall id: u32 :: id < o.blockCount ==> ExactBlock(o, id)
  {
    DivCeilBounds(o.totalLen, o.blockSize);
    forall id: u32 | id < o.blockCount
      ensures ExactBlock(o, id)
    {
      AcceptedBlockIsExact(o, id);
    }
  }

  // ---- Writing decoded blocks into the pre-allocated file -------------------------------------

  /** `write_block`: seek and write inside the file. */
  function WriteAt(file: seq<byte>, off: nat, data: seq<byte>): (r: seq<byte>)
    requires off + |data| <= |file|
    ensures |r| == |file|
    ensures forall i :: 0 <= i < |file| ==> r[i] == if off <= i < off + |data| then data[i - off] else file[i]
  {
    file[..off] + data + file[off + |data|..]
  }

  function BlockBytes(obj: seq<byte>, blockSize: nat, id: nat): seq<byte>
    requires blockSize > 0 && id < DivCeil(|obj|, blockSize)
  {
    DivCeilBounds(|obj|, blockSize);
    MulMonotone(id, DivCeil(|obj|, blockSize) - 1, blockSize, blockSize);
    var (start, end) := Extent(id, blockSize, |obj|);
    obj[start..end]
  }

  predicate ValidOrder(order: seq<nat>, count: nat) {
    forall i :: 0 <= i < |order| ==> order[i] < count
  }

  /** The staging file after blocks arrived in the order `order`. */
  function Reassemble(blank: seq<byte>, obj: seq<byte>, blockSize: nat, order: seq<nat>): (file: seq<byte>)
    requires blockSize > 0 && |blank| == |obj|
    requires ValidOrder(order, DivCeil(|obj|, blockSize))
    ensures |file| == |obj|
  {
    if order == [] then blank
    else
      var last := order[|order| - 1];
      DivCeilBounds(|obj|, blockSize);
      MulMonotone(last, DivCeil(|obj|, blockSize) - 1, blockSize, blockSize);
      WriteAt(Reassemble(blank, obj, blockSize, order[..|order| - 1]), last * blockSize,
              BlockBytes(obj, blockSize, last))
  }

  lemma {:induction false} ReassembledByte(blank: seq<byte>, obj: seq<byte>, blockSize: nat, order: seq<nat>, i: nat)
    requires blockSize > 0 && |blank| == |obj| && i < |obj|
    requires ValidOrder(order, DivCeil(|obj|, blockSize))
    ensures Reassemble(blank, obj, blockSize, order)[i] == if i / blockSize in order then obj[i] else blank[i]
  {
    if order != [] {
      var last := order[|order| - 1];
      DivCeilBounds(|obj|, blockSize);
      MulMonotone(last, DivCeil(|obj|, blockSize) - 1, blockSize, blockSize);
      ReassembledByte(blank, obj, blockSize, order[..|order| - 1], i);
      InBlock(i, blockSize, last);
    }
  }

  lemma InBlock(i: nat, blockSize: nat, id: nat)
    requires blockSize > 0
    ensures i / blockSize == id <==> id * blockSize <= i < (id + 1) * blockSize
  {
    var q, r := i / blockSize, i % blockSize;
    assert i == q * blockSize + r;
    if q < id {
      MulMonotone(q + 1, id, blockSize, blockSize);
    }
    if q > id {
      MulMonotone(id + 1, q, blockSize, blockSize);
    }
  }

  lemma EveryByteHasABlock(i: nat, len: nat, blockSize: nat)
    requires blockSize > 0 && i < len
    ensures i / blockSize < DivCeil(len, blockSize)
  {
    DivCeilBounds(len, blockSize);
    InBlock(i, blockSize, i / blockSize);
    if i / blockSize >= DivCeil(len, blockSize) {
      MulMonotone(DivCeil(len, blockSize), i / blockSize, blockSize, blockSize);
    }
  }

  /** Blocks written at their offsets in any order, with any duplicates, rebuild the
      object as soon as each has arrived once, whatever the file held before. */
  lemma {:induction false} AnyOrderRebuilds(blank: seq<byte>, obj: seq<byte>, blockSize: nat, order: seq<nat>)
    requires blockSize > 0 && |blank| == |obj|
    requires ValidOrder(order, DivCeil(|obj|, blockSize))
    requires forall id: nat :: id < DivCeil(|obj|, blockSize) ==> id in order
    ensures Reassemble(blank, obj, blockSize, order) == obj
  {
    hide Reassemble, DivCeil;
    forall i | 0 <= i < |obj|
      ensures Reassemble(blank, obj, blockSize, order)[i] == obj[i]
    {
      ReassembledByte(blank, obj, blockSize, order, i);
      EveryByteHasABlock(i, |obj|, blockSize);
    }
  }

  /** An offer byte by byte, every integer low byte first. */
  lemma KnownOffer()
    ensures OfferBytes(Offer(0x0102_0304_0506_0708, 5, 0x0102_0304, 0x0102, 6, true))
         == [8, 7, 6, 5, 4, 3, 2, 1] + [5, 0, 0, 0, 0, 0, 0, 0] + [4, 3, 2, 1] + [2, 1] + [6, 0, 0, 0] + [1]
  {
    hide LE;
    KnownLE();
    ByteLE(5);
    ByteLE(6);
  }
}
