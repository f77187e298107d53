/**
 The decode buffers of src/main/tunnel/nt_rs_fec.c: a fixed pool of decoding contexts,
 each with the block it serves and the time of its last progress.
 */
module DecodePool {
  import opened Block
  import opened Bitmap
  import opened Rs
  import opened Decoding
  import opened RsDecoder
  import opened RoundTrip
  import opened FecBlocks
  import opened LruMap

  /** decode_buffer_t, beside its context. */
  datatype Slot = Slot(blockId: nat, timestamp: int)

  /** The contexts and their arrays. */
  ghost function Objects(pool: seq<Decoder>): set<object> {
    (set i | 0 <= i < |pool| :: pool[i]) + (set i | 0 <= i < |pool| :: pool[i].syndromes)
        + (set i | 0 <= i < |pool| :: pool[i].erasureDegrees)
  }

  /** No two contexts share anything. */
  ghost predicate Apart(pool: seq<Decoder>) {
    forall i, j :: 0 <= i < |pool| && 0 <= j < |pool| && i != j ==>
      && pool[i] != pool[j] && pool[i].syndromes != pool[j].syndromes
          && pool[i].erasureDegrees != pool[j].erasureDegrees
      && pool[i].syndromes != pool[j].erasureDegrees
  }

  /** The context holds what has arrived of the block. */
  ghost predicate Serves(dc: Decoder, rs: Config, slot: Slot, b: Buf)
    reads dc, dc.syndromes, dc.erasureDegrees
  {
    dc.Valid(rs) && dc.arrivals == b.arrivals && slot == Slot(b.blockId, b.timestamp)
  }

  ghost predicate PoolInv(pool: seq<Decoder>, rs: Config, slots: seq<Slot>, bufs: seq<Buf>)
    reads Objects(pool)
  {
    && |pool| == |slots| == |bufs| && Apart(pool)
    && forall i :: 0 <= i < |pool| ==> Serves(pool[i], rs, slots[i], bufs[i])
  }

  lemma ObjectsOf(pool: seq<Decoder>, k: nat)
    requires k < |pool|
    ensures pool[k] in Objects(pool) && pool[k].syndromes in Objects(pool) && pool[k].erasureDegrees in Objects(pool)
  {
  }

  /** The LRU map shares nothing with the contexts. */
  lemma Foreign(pool: seq<Decoder>, lru: Lrumap<nat, nat>)
    ensures lru !in Objects(pool) && lru.table !in Objects(pool)
  {
  }

  lemma PoolAt(pool: seq<Decoder>, rs: Config, slots: seq<Slot>, bufs: seq<Buf>, k: nat)
    requires PoolInv(pool, rs, slots, bufs) && k < |bufs|
    ensures |slots| == |bufs| == |pool| && Serves(pool[k], rs, slots[k], bufs[k])
  {
    hide Serves, Apart;
  }

  /** Context k has moved on; the others are as they were. */
  lemma PoolUpdate(pool: seq<Decoder>, rs: Config, slots: seq<Slot>, bufs: seq<Buf>, k: nat, slot: Slot, b: Buf)
    requires |pool| == |slots| == |bufs| && Apart(pool) && k < |pool| && Serves(pool[k], rs, slot, b)
    requires forall j :: 0 <= j < |pool| && j != k ==> Serves(pool[j], rs, slots[j], bufs[j])
    ensures PoolInv(pool, rs, slots[k := slot], bufs[k := b])
  {
    hide Serves, Apart;
  }

  lemma ObjectsAppend(pool: seq<Decoder>, dc: Decoder)
    ensures Objects(pool + [dc]) == Objects(pool) + {dc, dc.syndromes, dc.erasureDegrees}
  {
    var all := pool + [dc];
    assert all[|pool|] == dc && forall i :: 0 <= i < |pool| ==> all[i] == pool[i];
  }

  lemma PoolAppend(pool: seq<Decoder>, rs: Config, slots: seq<Slot>, bufs: seq<Buf>, dc: Decoder, slot: Slot, b: Buf)
    requires PoolInv(pool, rs, slots, bufs) && Serves(dc, rs, slot, b)
    requires dc !in Objects(pool) && dc.syndromes !in Objects(pool) && dc.erasureDegrees !in Objects(pool)
    ensures PoolInv(pool + [dc], rs, slots + [slot], bufs + [b])
  {
    hide Serves, Objects;
    forall i | 0 <= i < |pool|
      ensures pool[i] != dc && pool[i].syndromes != dc.syndromes && pool[i].erasureDegrees != dc.erasureDegrees
      ensures pool[i].syndromes != dc.erasureDegrees && dc.syndromes != pool[i].erasureDegrees
    {
      ObjectsOf(pool, i);
    }
  }

  /** nt_rs_fec_init: the contexts of the pool. */
  method Contexts(rs: Config, size: nat) returns (pool: seq<Decoder>, slots: seq<Slot>, ghost bufs: seq<Buf>)
    requires rs.Valid()
    ensures |bufs| == size && (forall j :: 0 <= j < size ==> bufs[j] == Fresh(j)) && PoolInv(pool, rs, slots, bufs)
    ensures fresh(Objects(pool))
  {
    hide Config.Valid, Decoder.Valid, PoolInv;
    pool, slots, bufs := [], [], [];
    NoContexts(rs);
    for i := 0 to size
      invariant |bufs| == i && (forall j :: 0 <= j < i ==> bufs[j] == Fresh(j)) && PoolInv(pool, rs, slots, bufs)
      invariant fresh(Objects(pool))
    {
      var dc := new Decoder(rs);
      PoolAppend(pool, rs, slots, bufs, dc, Slot(i, 0), Fresh(i));
      ObjectsAppend(pool, dc);
      pool, slots, bufs := pool + [dc], slots + [Slot(i, 0)], bufs + [Fresh(i)];
    }
  }

  lemma NoContexts(rs: Config)
    ensures PoolInv([], rs, [], []) && Objects([]) == {}
  {
  }

  /** reset_decode_buffer */
  method ResetContext(pool: seq<Decoder>, rs: Config, slots: seq<Slot>, ghost bufs: seq<Buf>, k: nat, id: nat)
      returns (slots': seq<Slot>)
    requires k < |pool| && PoolInv(pool, rs, slots, bufs) && rs.Valid()
    modifies pool[k], pool[k].syndromes, pool[k].erasureDegrees
    ensures PoolInv(pool, rs, slots', bufs[k := Fresh(id)]) && slots' == slots[k := Slot(id, 0)]
  {
    hide Config.Valid, Decoder.Valid;
    ContextShape(pool[k], rs);
    pool[k].Reset(rs);
    slots' := slots[k := Slot(id, 0)];
  }

  lemma ContextShape(dc: Decoder, rs: Config)
    requires dc.Valid(rs)
    ensures rs.Valid() && dc.syndromes.Length == Columns.Offset(rs.Columns(), rs.T())
    ensures dc.syndromes != dc.erasureDegrees && dc.erasureDegrees.Length == rs.T()
  {
    hide Config.Valid, Arrivals, LeftOut, ErasureList, MaskOf;
    rs.Facts();
    ArrivalsWidth(dc.arrivals, rs.maxDataSize, rs.N);
    HoldsSyndromesLength(dc.syndromes[..], dc.arrivals, rs.maxDataSize, rs.T());
  }

  /** One packet for context k; the others stay as they are. */
  method DecodeAt(pool: seq<Decoder>, rs: Config, slots: seq<Slot>, ghost bufs: seq<Buf>, k: nat, input: Bytes,
                  size: int, degree: int)
      returns (n: int, isRaw: bool)
    requires k < |pool| && PoolInv(pool, rs, slots, bufs) && size <= |input| && IsBytes(input)
    requires |bufs[k].arrivals| < rs.K && rs.Valid()
    modifies pool[k], pool[k].syndromes, pool[k].erasureDegrees
    ensures forall j :: 0 <= j < |pool| && j != k ==> Serves(pool[j], rs, slots[j], bufs[j])
    ensures pool[k].Valid(rs) && rs.K <= rs.N <= 255 && Below(Degrees(bufs[k].arrivals), 256)
    ensures Decoded(pool[k], rs, bufs[k].arrivals, input, size, degree, n, isRaw)
  {
    hide Config.Valid, Decoder.Valid, Arrival, IsSet, MaskOf, IsBytes, Below, Arrivals, ByteCode, Decoded;
    rs.Facts();
    var dc := pool[k];
    dc.Counts(rs);
    n, isRaw := dc.Decode(rs, input, size, degree);
  }

  /** Message i of those left out can be restored: its size is one that rs_decode_result accepts. */
  ghost predicate Restorable(sh: Shape, ps: seq<Packet>, i: nat)
    requires sh.Valid()
  {
    CanRestore(ps, sh.N, sh.M, sh.T(), i) && RestoredSize(ps, sh.N, sh.M, sh.T(), i) <= sh.M
  }

  /** What the callback is given for it, a negative size included. */
  ghost function Restored(sh: Shape, ps: seq<Packet>, i: nat): Output
    requires sh.Valid() && Restorable(sh, ps, i)
  {
    var size := RestoredSize(ps, sh.N, sh.M, sh.T(), i);
    Output(size, if size < 0 then [] else RestoredData(ps, sh.N, sh.M, sh.T(), i, size))
  }

  lemma ResultIsRestored(sh: Shape, ps: seq<Packet>, i: nat, err: int, size: int, degree: int, buffer: Bytes)
    requires sh.Valid() && CanRestore(ps, sh.N, sh.M, sh.T(), i)
    requires Decoder.Result(ps, sh.N, sh.M, sh.T(), i, err, size, degree, buffer)
    ensures err == 0 <==> Restorable(sh, ps, i)
    ensures err == 0 ==> size <= |buffer| || size < 0
    ensures err == 0 ==> Restored(sh, ps, i) == Output(size, if size < 0 then [] else buffer[..size])
  {
    hide CanRestore, RestoredSize, RestoredData;
  }

  /**
   rs_decode_result for message i of those left out: an error exactly if its size is
   too large, and otherwise what is restored. If the arrivals are packets of one
   block, that is the block's message.
   */
  method Restore(rs: Config, sh: Shape, dc: Decoder, i: nat) returns (ok: bool, out: Output)
    requires sh.Valid() && sh == Shape(rs.N, rs.K, rs.maxDataSize) && Below(Degrees(dc.arrivals), 256)
    requires dc.Valid(rs) && |dc.arrivals| == sh.K && i < |LeftOut(dc.arrivals, sh.N, sh.T())|
    ensures CanRestore(dc.arrivals, sh.N, sh.M, sh.T(), i)
    ensures ok <==> Restorable(sh, dc.arrivals, i)
    ensures ok ==> out == Restored(sh, dc.arrivals, i)
    ensures forall ms | HonestBlock(sh, dc.arrivals, ms) ::
              ok && Right(sh, ms, [LeftOut(dc.arrivals, sh.N, sh.T())[i]], [out])
  {
    hide Config.Valid, Arrivals, ByteCode, Below, LeftOut, Decoder.Valid, HonestBlock, Honest, MissingMessage, Right,
         Restorable, Restored, Decoder.Result, CanRestore;
    ContextShape(dc, rs);
    rs.Facts();
    dc.Counts(rs);
    var buffer := new nat[rs.maxDataSize];
    var err, size, degree := dc.DecodeResult(rs, i, buffer, rs.maxDataSize);
    ResultIsRestored(sh, dc.arrivals, i, err, size, degree, buffer[..]);
    ok := err == 0;
    out := if ok && size >= 0 then Output(size, buffer[..size]) else Output(size, []);
    ghost var ps := dc.arrivals;
    forall ms | HonestBlock(sh, ps, ms)
      ensures ok && |ms| == sh.K && Right(sh, ms, [LeftOut(ps, sh.N, sh.T())[i]], [out])
    {
      HonestBlockIsHonest(sh, ps, ms);
      RestoredIsRight(sh, ps, ms, i, out);
    }
  }

  lemma HonestBlockIsHonest(sh: Shape, ps: seq<Packet>, ms: seq<Bytes>)
    requires sh.Valid() && HonestBlock(sh, ps, ms) && |ps| == sh.K
    ensures Honest(ps, ms, sh.M, sh.T()) && |ms| == sh.K
  {
    hide AreMessages, FromBlock;
  }

  lemma RestoredIsRight(sh: Shape, ps: seq<Packet>, ms: seq<Bytes>, i: nat, out: Output)
    requires sh.Valid() && Below(Degrees(ps), 256) && |ms| == sh.K && i < |LeftOut(ps, sh.N, sh.T())|
    requires out == Output(|MissingMessage(ps, ms, sh.N, sh.T(), i)|, MissingMessage(ps, ms, sh.N, sh.T(), i))
    ensures Right(sh, ms, [LeftOut(ps, sh.N, sh.T())[i]], [out])
  {
    hide LeftOut, Below, MissingMessage;
    MissingIs(ps, ms, sh.N, sh.T(), i);
  }
}
