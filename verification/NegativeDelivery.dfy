/**
 A negative size on its way to the callback of src/main/tunnel/nt_rs_fec.c: one packet
 is enough.
 */
module NegativeDelivery {
  import opened Polynomials
  import opened Block
  import opened Rs
  import opened RsDecoder
  import opened Decoding
  import opened NegativeSize
  import opened Lru
  import opened HashMap
  import opened LruStore
  import opened FecBlocks
  import opened DecodePool
  import opened RsFec
  import opened FecHeaders
  import opened FecRun
  import opened Redelivery

  lemma ForgedArrival(M: nat)
    ensures [Arrival(0, [0, 0, 0, 0x1D], M, 1)] == Forged(M)
  {
    var p, q := Arrival(0, [0, 0, 0, 0x1D], M, 1), Forged(M)[0];
    assert p.payload == q.payload;
  }

  /** What a new decoder of blocks of two packets brings out for the packet. */
  lemma ForgedBrings(sh: Shape, outs: seq<Output>)
    requires sh == Shape(2, 1, sh.M) && Below(Degrees(Forged(sh.M)), 256)
    requires Brought(sh, Forged(sh.M), |LeftOut(Forged(sh.M), 2, 1)|, 0, [0, 0, 0, 0x1D], outs, false)
    ensures outs == [Output(-0x8000_0000, [])] && |LeftOut(Forged(sh.M), 2, 1)| == 1
  {
    hide Forged, CanRestore, RestoredSize, RestoredData, LeftOut;
    ForgedArrives(sh.M);
    ForgedErasures(sh.M);
    NegativeSizeRestored(sh.M);
    assert Restorable(sh, Forged(sh.M), 0);
  }

  /**
   For every size of messages, the packet that carries the bytes 0, 0, 0, 0x1D and comes
   first makes a decoder of blocks of two packets give the callback a size of -2^31.
   */
  method NegativeIsDelivered(M: nat, size: nat, timeout: int, id: nat, now: int) returns (err: int, outs: seq<Output>)
    requires HEADER_SIZE + M <= INT_MAX && Sizes(ThreeQuartersOf, size) && timeout >= 0 && now > 0
    ensures err == 0 && outs == [Output(-0x8000_0000, [])]
  {
    hide Config.Valid, Fec.Valid, Objects, Welcomes, Continues, Met, Fec.Proceeds, Fec.Resets, BufInv, Find, IsBytes,
         Fec.StepOf, Fec.CountsOf, Counted, Touch, Put, Remove, ByteCode;
    var rs := Init(2, 1, M);
    rs.Facts();
    var fec := new Fec(rs, size, timeout);
    WelcomesAll(fec, id, now);
    fec.Shapes();
    ProceedsIff(fec, id, now);
    WelcomesIsMet(fec, id, now);
    var input := [0, 0, 0, 0x1D];
    FourBytes();
    ghost var k;
    err, outs, k := fec.Decode(FecHeader(69, 2, 1, id, 1), input, 4, now, Accepting());
    fec.Shapes();
    ForgedStep(fec, Fresh(id), fec.bufs[k], input, now, err, outs);
  }

  lemma FourBytes()
    ensures IsBytes([0, 0, 0, 0x1D])
  {
  }

  lemma ForgedStep(fec: Fec, b: Buf, b': Buf, input: Bytes, now: int, err: int, outs: seq<Output>)
    requires fec.rs.N == 2 && fec.rs.K == 1 && fec.sh == Shape(2, 1, fec.rs.maxDataSize) && input == [0, 0, 0, 0x1D]
    requires b.arrivals == [] && BufInv(fec.sh, b')
    requires fec.StepOf(b, b', 0, input, 4, now, Accepting(), err, outs)
    ensures err == 0 && outs == [Output(-0x8000_0000, [])]
  {
    hide BufInv, Arrival, LeftOut, Brought, Forged, Direct;
    assert input[..4] == input && Degrees([]) == [];
    ForgedArrival(fec.rs.maxDataSize);
    BufFacts(fec.sh, b');
    ForgedNotRefused(fec.sh, b', outs, err);
  }

  lemma ForgedNotRefused(sh: Shape, b: Buf, outs: seq<Output>, err: int)
    requires sh == Shape(2, 1, sh.M) && BufInv(sh, b) && b.arrivals == Forged(sh.M)
    requires Answered(Accepting(), outs, b.broken, b.refused, err)
    requires Brought(sh, b.arrivals, |Outstanding(sh, b)|, 0, [0, 0, 0, 0x1D], outs, b.refused)
    requires b.broken <==> |outs| < |Direct(sh, 0, [0, 0, 0, 0x1D])| + |Outstanding(sh, b)|
    ensures err == 0 && outs == [Output(-0x8000_0000, [])]
  {
    hide BufInv, LeftOut, Brought, Forged;
    BufFacts(sh, b);
    ForgedBrings(sh, outs);
  }
}
