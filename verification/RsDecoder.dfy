/**
 The decoder of src/main/rs/rs.c: packets of a block arrive in any order, and
 once K of them are there the missing messages are recomputed.
 */
module RsDecoder {
  import opened Block
  import opened Bitmap
  import opened Columns
  import opened Rs
  import opened Decoding

  /** Context for decoding, rs_dc_t. */
  class Decoder {
    var count: nat
    var mask: Mask
    const syndromes: array<nat>
    const erasureDegrees: array<nat>
    var erasureNum: nat
    var rawErasureNum: nat
    ghost var arrivals: seq<Packet>

    /** The part that every arrival keeps up to date. */
    ghost predicate Tracks(rs: Config)
      reads this, syndromes
    {
      && rs.Valid()
      && Arrivals(arrivals, rs.maxDataSize, rs.N)
      && count == |arrivals| <= rs.K
      && mask == MaskOf(Degrees(arrivals))
      && HoldsSyndromes(syndromes[..], arrivals, rs.maxDataSize, rs.T())
      && syndromes != erasureDegrees && erasureDegrees.Length == rs.T()
    }

    ghost predicate Valid(rs: Config)
      reads this, syndromes, erasureDegrees
    {
      && Tracks(rs)
      && (count < rs.K ==> erasureNum == rawErasureNum == 0)
      && (count == rs.K ==>
            && rawErasureNum == |LeftOut(arrivals, rs.N, rs.T())|
            && erasureNum == |ErasureList(arrivals, rs.N, rs.T())| <= rs.T()
            && erasureDegrees[..erasureNum] == ErasureList(arrivals, rs.N, rs.T()))
    }

    /** rs_init_dc */
    constructor (rs: Config)
      requires rs.Valid()
      ensures Valid(rs) && arrivals == [] && fresh(syndromes) && fresh(erasureDegrees)
    {
      count := 0;
      mask := Empty();
      arrivals := [];
      syndromes := new nat[Offset(rs.Columns(), rs.T())];
      erasureDegrees := new nat[rs.T()];
      erasureNum, rawErasureNum := 0, 0;
      new;
      Reset(rs);
    }

    /** rs_reset_dc */
    method Reset(rs: Config)
      requires rs.Valid() && syndromes.Length == Offset(rs.Columns(), rs.T())
      requires syndromes != erasureDegrees && erasureDegrees.Length == rs.T()
      modifies this, syndromes, erasureDegrees
      ensures Valid(rs) && arrivals == []
    {
      hide Config.Valid, Arrivals, HoldsSyndromes, MaskOf, ByteCode, Offset, Empty;
      rs.Facts();
      count := 0;
      mask := Empty();
      arrivals := [];
      ZeroArray(syndromes);
      ZeroArray(erasureDegrees);
      erasureNum, rawErasureNum := 0, 0;
      NoArrivals(syndromes[..], rs.maxDataSize, rs.N, rs.T());
    }

    lemma Counts(rs: Config)
      requires Valid(rs)
      ensures count == |arrivals| <= rs.K && Arrivals(arrivals, rs.maxDataSize, rs.N) && Below(Degrees(arrivals), 256)
      ensures mask == MaskOf(Degrees(arrivals))
      ensures count < rs.K ==> rawErasureNum == 0
      ensures count == rs.K ==> rawErasureNum == |LeftOut(arrivals, rs.N, rs.T())|
    {
    }

    /** rs_is_dc_complete; its ensure is part of Valid. */
    predicate IsComplete(rs: Config)
      reads this
    {
      count == rs.K
    }

    /** Neither the degree nor the size is rejected. */
    static predicate WellSized(rs: Config, size: int, degree: int)
      requires rs.K <= rs.N
    {
      0 <= degree < rs.N && 0 <= size <= if degree >= rs.T() then rs.maxDataSize else rs.Columns()
    }

    /** The packet is neither malformed nor, by the bitmap, a duplicate. */
    predicate Accepts(rs: Config, size: int, degree: int)
      requires rs.K <= rs.N <= 256 && mask.Valid()
      reads this
    {
      WellSized(rs, size, degree) && !IsSet(mask, degree)
    }

    /** The middle of rs_decode: the bytes of a new packet go into the syndromes. */
    method Absorb(rs: Config, input: seq<nat>, size: nat, degree: nat)
      requires Tracks(rs) && size <= |input| && IsBytes(input[..size])
      requires WellSized(rs, size, degree) && !IsSet(mask, degree) && count < rs.K
      modifies this`count, this`mask, this`arrivals, syndromes
      ensures Tracks(rs) && count == old(count) + 1
      ensures arrivals == old(arrivals) + [Arrival(degree, input[..size], rs.maxDataSize, rs.T())]
    {
      hide Config.Valid, Arrivals, IsSet, MaskOf, IsBytes, Arrival, Width, HoldsSyndromes, ByteCode, Set;
      rs.Facts();
      ghost var data, M, T := input[..size], rs.maxDataSize, rs.T();
      ghost var ps, p := arrivals, Arrival(degree, data, M, T);
      ArrivalWidth(degree, data, M, T);
      NewArrival(ps, p, M, rs.N);
      ArrivalsWidth(ps, M, rs.N);
      ArrivalsWidth(ps + [p], M, rs.N);
      SmallProduct(degree, rs.T(), rs.N);
      AbsorbPacket(rs.code, rs.T(), rs.maxDataSize, syndromes, input, size, degree, ps, p);
      count := count + 1;
      mask := Set(mask, degree);
      arrivals := arrivals + [p];
    }

    /** The end of rs_decode: a complete context lists its erasures. */
    method Finish(rs: Config)
      requires Tracks(rs) && IsComplete(rs)
      modifies this`erasureNum, this`rawErasureNum, erasureDegrees
      ensures Valid(rs)
    {
      hide Config.Valid, MaskOf, HoldsSyndromes, Arrivals, LeftOut, ErasureList, ByteCode;
      rs.Facts();
      rawErasureNum, erasureNum := ListErasures(mask, rs.N, rs.T(), rs.K, erasureDegrees, arrivals, rs.maxDataSize);
    }

    /**
     rs_decode. A packet that is neither malformed nor a duplicate may not come
     to a complete context: the count would exceed K and the program abort.
     */
    method Decode(rs: Config, input: seq<nat>, size: int, degree: int) returns (n: int, isRaw: bool)
      requires Valid(rs) && size <= |input| && IsBytes(input)
      requires Accepts(rs, size, degree) ==> !IsComplete(rs)
      modifies this, syndromes, erasureDegrees
      ensures Valid(rs)
      ensures rs.K <= rs.N <= 255 && Below(Degrees(old(arrivals)), 256)
      ensures Decoded(this, rs, old(arrivals), input, size, degree, n, isRaw)
    {
      hide Config.Valid, Arrivals, HoldsSyndromes, IsSet, MaskOf, ByteCode, IsBytes, Arrival, LeftOut, ErasureList,
           Below;
      rs.Facts();
      ArrivalsWidth(arrivals, rs.maxDataSize, rs.N);
      isRaw := false;
      if degree < 0 || degree >= rs.N {
        return E_RS_INVALID_DEGREE, isRaw;
      }
      isRaw := degree >= rs.T();
      var allowedSize := rs.maxDataSize;
      if !isRaw {
        allowedSize := allowedSize + HEADER_SIZE;
      }
      if size < 0 || size > allowedSize {
        return E_RS_INVALID_SIZE, isRaw;
      }
      if IsSet(mask, degree) {
        return E_RS_DUPLICATE, isRaw;
      }
      BytesPrefix(input, size);
      Absorb(rs, input, size, degree);
      if !IsComplete(rs) {
        return 0, isRaw;
      }
      Finish(rs);
      n := rawErasureNum;
    }

    /**
     What rs_decode_result says of erasure index: the restored header decides, and
     only a size that is too large is refused; a negative one comes back as it is.
     */
    static ghost predicate Result(ps: seq<Packet>, N: nat, M: nat, T: nat, index: nat, err: int, size: int, degree: int,
                                  buffer: Bytes)
      requires CanRestore(ps, N, M, T, index)
    {
      var restored := RestoredSize(ps, N, M, T, index);
      && (err == 0 <==> restored <= M) && (err != 0 ==> err == E_RS_INVALID_HEADER)
      && (err == 0 ==> size == restored && degree == LeftOut(ps, N, T)[index])
      && (0 <= restored <= M ==>
          restored <= |buffer| && buffer[..restored] == RestoredData(ps, N, M, T, index, restored))
    }

    /**
     rs_decode_result: missing message index. If the arrivals are packets of one
     block, it is that block's message.
     */
    method DecodeResult(rs: Config, index: int, buffer: array<nat>, size: int)
        returns (err: int, size': int, degree: int)
      requires Valid(rs) && size <= buffer.Length && buffer != syndromes && buffer != erasureDegrees
      modifies buffer
      ensures Valid(rs)
      ensures !(0 <= index < rawErasureNum) ==> err == E_RS_INVALID_INDEX
      ensures 0 <= index < rawErasureNum && size < rs.maxDataSize ==> err == E_RS_INVALID_SIZE
      ensures 0 <= index < rawErasureNum && size >= rs.maxDataSize ==>
                && CanRestore(arrivals, rs.N, rs.maxDataSize, rs.T(), index)
                && Result(arrivals, rs.N, rs.maxDataSize, rs.T(), index, err, size', degree, buffer[..])
                && forall ms | Honest(arrivals, ms, rs.maxDataSize, rs.T()) && rs.T() + |ms| == rs.N ::
                     err == 0 && 0 <= size' && buffer[..size'] == MissingMessage(arrivals, ms, rs.N, rs.T(), index)
    {
      hide Config.Valid, Arrivals, HoldsSyndromes, MaskOf, ByteCode, LeftOut, ErasureList, MissingMessage, Honest,
           Below, RestoredSize, RestoredData;
      rs.Facts();
      ArrivalsWidth(arrivals, rs.maxDataSize, rs.N);
      err, size', degree := 0, size, 0;
      if index < 0 || index >= rawErasureNum {
        return E_RS_INVALID_INDEX, size', degree;
      }
      if size < rs.maxDataSize {
        return E_RS_INVALID_SIZE, size', degree;
      }
      LeftOutRaw(arrivals, rs.N, rs.T(), index);
      var restored;
      err, restored := RestoreMessage(rs.code, rs.N, rs.T(), rs.maxDataSize, syndromes, erasureDegrees,
                                   erasureNum, index, buffer, arrivals);
      if err == 0 {
        size', degree := restored, erasureDegrees[index];
      }
    }
  }

  /** What rs_decode has done with a packet, when ps had arrived. */
  ghost predicate Decoded(dc: Decoder, rs: Config, ps: seq<Packet>, input: Bytes, size: int, degree: int, n: int,
                          isRaw: bool)
    requires rs.K <= rs.N <= 255 && Below(Degrees(ps), 256) && size <= |input|
    reads dc
  {
    if !Decoder.WellSized(rs, size, degree) then
      dc.arrivals == ps && n == if 0 <= degree < rs.N then E_RS_INVALID_SIZE else E_RS_INVALID_DEGREE
    else
      && isRaw == (degree >= rs.T())
      && if IsSet(MaskOf(Degrees(ps)), degree) then
           dc.arrivals == ps && n == E_RS_DUPLICATE
         else
           && dc.arrivals == ps + [Arrival(degree, input[..size], rs.maxDataSize, rs.T())]
           && n == if dc.IsComplete(rs) then dc.rawErasureNum else 0
  }
}
