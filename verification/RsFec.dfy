/**
 src/main/tunnel/nt_rs_fec.c: the decoder of blocks of messages sent over a lossy
 tunnel. It keeps a fixed pool of decode buffers, found by block id in an LRU
 map; a block that makes no progress for too long gives up its buffer.

 The state is told by values: for every buffer, what has arrived in it and what
 was delivered of it. What the callback returns, call by call, is a parameter.
 */
module RsFec {
  import opened Block
  import opened Bitmap
  import opened Rs
  import opened Decoding
  import opened RsDecoder
  import opened Outcome
  import opened RoundTrip
  import opened Lru
  import opened LruStore
  import opened HashMap
  import opened LruMap
  import opened FecBlocks
  import opened DecodePool
  import opened FecHeaders

  const NT_RS_FEC_TAG := 69
  const EINVAL := 22

  // ----- Accepting one packet.

  lemma NewIsAcceptable(sh: Shape, b: Buf, p: Packet)
    requires sh.Valid() && BufInv(sh, b) && |b.arrivals| < sh.K && Width([p], sh.M) && p.degree < sh.N
    requires Below(Degrees(b.arrivals), 256) && !IsSet(MaskOf(Degrees(b.arrivals)), p.degree)
    ensures Acceptable(sh, b, p)
  {
    hide IsSet, MaskOf, DeliveredOnce, ContentsRight, HonestBlock, Width;
    NewArrival(b.arrivals, p, sh.M, sh.N);
    ArrivalsWidth(b.arrivals + [p], sh.M, sh.N);
    assert Below(Degrees(b.arrivals), 32);
    FaithfulBelow32(Degrees(b.arrivals), p.degree);
  }

  /** For blocks of up to 32 packets, a duplicate is one whose degree has arrived. */
  lemma DuplicateIsKnown(sh: Shape, b: Buf, d: nat)
    requires sh.Valid() && BufInv(sh, b) && d < sh.N && Below(Degrees(b.arrivals), 256)
    ensures IsSet(MaskOf(Degrees(b.arrivals)), d) <==> d in Degrees(b.arrivals)
  {
    hide IsSet, MaskOf, DeliveredOnce, ContentsRight, HonestBlock, Width;
    assert Below(Degrees(b.arrivals), 32);
    FaithfulBelow32(Degrees(b.arrivals), d);
  }

  lemma DuplicateKnown(sh: Shape, b: Buf, rs: Config, size: int, degree: int)
    requires sh.Valid() && sh == Shape(rs.N, rs.K, rs.maxDataSize) && BufInv(sh, b) && Below(Degrees(b.arrivals), 256)
    ensures Decoder.WellSized(rs, size, degree) ==>
              (IsSet(MaskOf(Degrees(b.arrivals)), degree) <==> degree in Degrees(b.arrivals))
    ensures b.arrivals == [] ==> degree !in Degrees(b.arrivals)
  {
    hide IsSet, MaskOf, BufInv;
    if Decoder.WellSized(rs, size, degree) {
      DuplicateIsKnown(sh, b, degree);
    }
  }

  /** What a raw packet delivers itself is the block's message. */
  lemma RawIsRight(sh: Shape, ps: seq<Packet>, degree: nat, data: Bytes, ms: seq<Bytes>)
    requires sh.Valid() && sh.T() <= degree < sh.N && IsMessage(data, sh.M) && HEADER_SIZE + sh.M <= INT_MAX
    requires HonestBlock(sh, ps + [Arrival(degree, data, sh.M, sh.T())], ms)
    ensures |ms| == sh.K && Right(sh, ms, [degree], [Output(|data|, data)])
  {
    hide HonestBlock, IsMessage, AreMessages, Payload, Arrival, Right, IsSentFor, IsBytes;
    MessageFacts(data, sh.M);
    var p := Arrival(degree, data, sh.M, sh.T());
    HonestSize(sh, ps + [p], ms);
    HonestPrefix(sh, ps, p, ms);
    HonestIsSent(sh, degree, data, ms);
    ShapeFacts(sh);
    RawCarriesMessage(Sent(degree, data), ms, sh.M, sh.T());
    OneRight(sh, ms, degree, data);
  }

  lemma MessageFacts(m: Bytes, M: nat)
    requires IsMessage(m, M)
    ensures |m| <= M && IsBytes(m)
  {
  }

  lemma ShapeFacts(sh: Shape)
    requires sh.Valid()
    ensures sh.T() > 0 && sh.N - sh.T() == sh.K && sh.N == sh.T() + sh.K
  {
  }

  lemma OneRight(sh: Shape, ms: seq<Bytes>, degree: nat, data: Bytes)
    requires sh.Valid() && |ms| == sh.K && sh.T() <= degree < sh.N && data == ms[sh.N - 1 - degree]
    ensures Right(sh, ms, [degree], [Output(|data|, data)])
  {
  }

  lemma HonestIsSent(sh: Shape, degree: nat, data: Bytes, ms: seq<Bytes>)
    requires sh.Valid() && sh.T() <= degree < sh.N && IsMessage(data, sh.M) && AreMessages(ms, sh.M) && |ms| == sh.K
    requires Arrival(degree, data, sh.M, sh.T()).payload == Payload(ms, sh.M, sh.T(), degree)
    ensures IsSentFor(Sent(degree, data), ms, sh.M, sh.T())
  {
    hide AreMessages, Payload, Padded, IsBytes;
  }

  lemma RightExtend(sh: Shape, ms: seq<Bytes>, first: seq<nat>, all: seq<nat>, i: nat, outs: seq<Output>, out: Output)
    requires sh.Valid() && |ms| == sh.K && i < |all| && Right(sh, ms, first + all[..i], outs)
    requires Right(sh, ms, [all[i]], [out])
    ensures Right(sh, ms, first + all[..i + 1], outs + [out])
  {
    hide Right;
    RightAppend(sh, ms, first + all[..i], outs, [all[i]], [out]);
    assert first + all[..i] + [all[i]] == first + all[..i + 1];
  }

  /**
   What the callback answers to the outputs of one packet, call by call: the first
   that it does not accept is the last, and its answer the error; broken says that a
   message was left over, and refused that this was why.
   */
  ghost predicate Answered(answers: nat -> int, outs: seq<Output>, broken: bool, refused: bool, err: int) {
    && (forall j: nat :: j + 1 < |outs| ==> answers(j) == 0)
    && if outs != [] && answers(|outs| - 1) != 0 then err == answers(|outs| - 1) && refused == broken
       else !refused && err == if broken then E_FEC_INTERNAL_ERROR else 0
  }

  /** A callback that accepts everything, as that of src/main/tunnel/nt_fec_processor.c does. */
  function Accepting(): nat -> int {
    (j: nat) => 0
  }

  /** What a packet itself gives the callback: its data, if it is raw. */
  function Direct(sh: Shape, degree: int, data: Bytes): seq<Output>
    requires sh.Valid()
  {
    if degree >= sh.T() then [Output(|data|, data)] else []
  }

  /**
   What a packet brings out, byte for byte, of any arrivals whatever: its own data if
   it is raw, then what is restored of the left messages that have not arrived, one
   after the other. They end early only where the callback has refused one, or the
   next cannot be restored.
   */
  ghost predicate Brought(sh: Shape, ps: seq<Packet>, left: nat, degree: int, data: Bytes, outs: seq<Output>,
                          refused: bool)
    requires sh.Valid()
  {
    var n := |outs| - |Direct(sh, degree, data)|;
    && Direct(sh, degree, data) <= outs && n <= left
    && (forall i: nat :: i < n ==>
        Restorable(sh, ps, i) && outs[|Direct(sh, degree, data)| + i] == Restored(sh, ps, i))
    && (n < left && !refused ==> !Restorable(sh, ps, n))
  }

  lemma BroughtDirectly(sh: Shape, ps: seq<Packet>, left: nat, degree: int, data: Bytes, refused: bool)
    requires sh.Valid() && (left == 0 || refused || !Restorable(sh, ps, 0))
    ensures Brought(sh, ps, left, degree, data, Direct(sh, degree, data), refused)
  {
    hide Restorable;
  }

  lemma BroughtMore(sh: Shape, ps: seq<Packet>, left: nat, degree: int, data: Bytes, outs: seq<Output>, n: nat,
                    refused: bool)
    requires sh.Valid() && Brought(sh, ps, left, degree, data, outs, true) && Restorable(sh, ps, n)
    requires n == |outs| - |Direct(sh, degree, data)| < left
    requires n + 1 == left || refused || !Restorable(sh, ps, n + 1)
    ensures Brought(sh, ps, left, degree, data, outs + [Restored(sh, ps, n)], refused)
  {
    hide Restorable, Restored, Direct;
  }

  lemma BroughtSoFar(sh: Shape, ps: seq<Packet>, left: nat, degree: int, data: Bytes, outs: seq<Output>, n: nat)
    requires sh.Valid() && Brought(sh, ps, left, degree, data, outs, true)
    requires n == |outs| - |Direct(sh, degree, data)| && (n == left || !Restorable(sh, ps, n))
    ensures Brought(sh, ps, left, degree, data, outs, false)
  {
    hide Restorable, Restored, Direct;
  }

  /**
   The outputs of the second half of nt_rs_fec_decode: the packet itself, if raw,
   then the n messages that it lets restore, as far as that succeeds and the callback
   accepts them.
   */
  method Outputs(rs: Config, sh: Shape, dc: Decoder, ghost b: Buf, isRaw: bool, degree: nat, data: Bytes,
                 ghost p: Packet, n: nat, answers: nat -> int)
      returns (err: int, ghost restored: nat, outs: seq<Output>, ghost refused: bool)
    requires sh.Valid() && sh == Shape(rs.N, rs.K, rs.maxDataSize) && rs.Valid()
    requires Acceptable(sh, b, p) && degree < sh.N && isRaw == (degree >= sh.T())
    requires dc.Valid(rs) && dc.arrivals == b.arrivals + [p] && n == |ToRestore(sh, b, p)|
    requires IsBytes(data) && |data| <= (if degree >= sh.T() then sh.M else HEADER_SIZE + sh.M)
    requires p == Arrival(degree, data, sh.M, sh.T())
    ensures restored <= |ToRestore(sh, b, p)| && |outs| == |Deliveries(sh, b, p, restored)|
    ensures Answered(answers, outs, restored < |ToRestore(sh, b, p)|, refused, err)
    ensures restored < |ToRestore(sh, b, p)| ==> refused || forall ms :: !HonestBlock(sh, b.arrivals + [p], ms)
    ensures forall ms | HonestBlock(sh, b.arrivals + [p], ms) :: Right(sh, ms, Deliveries(sh, b, p, restored), outs)
    ensures Brought(sh, b.arrivals + [p], |ToRestore(sh, b, p)|, degree, data, outs, refused)
  {
    hide Config.Valid, HonestBlock, Right, LeftOut, Arrival, Below, Arrivals, ByteCode, IsBytes, Decoder.Valid, Brought,
         Restorable, Restored;
    rs.Facts();
    ghost var first: seq<nat> := if degree >= sh.T() then [degree] else [];
    outs := if isRaw then [Output(|data|, data)] else [];
    ghost var ps := b.arrivals + [p];
    forall ms | HonestBlock(sh, ps, ms) ensures |ms| == sh.K && Right(sh, ms, first, outs) {
      FirstIsRight(sh, b.arrivals, degree, data, ms, first, outs);
    }
    assert first + ToRestore(sh, b, p)[..0] == first;
    if isRaw {
      err := answers(0);
      if err != 0 {
        BroughtDirectly(sh, ps, n, degree, data, n > 0);
        return err, 0, outs, n > 0;
      }
    }
    err, restored, outs, refused := RestoreAll(rs, sh, dc, b, p, n, answers, degree, data, first);
  }

  /** The loop of nt_rs_fec_decode over the messages to restore. */
  method RestoreAll(rs: Config, sh: Shape, dc: Decoder, ghost b: Buf, ghost p: Packet, n: nat, answers: nat -> int,
                    degree: nat, data: Bytes, ghost first: seq<nat>)
      returns (err: int, ghost restored: nat, outs: seq<Output>, ghost refused: bool)
    requires sh.Valid() && sh == Shape(rs.N, rs.K, rs.maxDataSize) && rs.Valid()
    requires Below(Degrees(b.arrivals + [p]), 256)
    requires dc.Valid(rs) && dc.arrivals == b.arrivals + [p] && n == |ToRestore(sh, b, p)|
    requires |Direct(sh, degree, data)| == |first|
    requires forall j: nat :: j < |Direct(sh, degree, data)| ==> answers(j) == 0
    requires forall ms | HonestBlock(sh, b.arrivals + [p], ms) ::
               |ms| == sh.K && Right(sh, ms, first, Direct(sh, degree, data))
    ensures restored <= n && |outs| == |first| + restored && Answered(answers, outs, restored < n, refused, err)
    ensures restored < n ==> refused || forall ms :: !HonestBlock(sh, b.arrivals + [p], ms)
    ensures forall ms | HonestBlock(sh, b.arrivals + [p], ms) ::
              |ms| == sh.K && Right(sh, ms, first + ToRestore(sh, b, p)[..restored], outs)
    ensures Brought(sh, b.arrivals + [p], n, degree, data, outs, refused)
  {
    hide Config.Valid, HonestBlock, Right, LeftOut, Below, Arrivals, ByteCode, Decoder.Valid, Direct, Brought,
         Restorable, Restored;
    ghost var ps, all := b.arrivals + [p], ToRestore(sh, b, p);
    err, restored, outs, refused := 0, 0, Direct(sh, degree, data), false;
    BroughtDirectly(sh, ps, n, degree, data, true);
    assert first + all[..0] == first;
    for i := 0 to n
      invariant restored == i && |outs| == |first| + i && err == 0 && !refused
      invariant forall j: nat :: j < |outs| ==> answers(j) == 0
      invariant Brought(sh, ps, n, degree, data, outs, true)
      invariant forall ms | HonestBlock(sh, ps, ms) :: |ms| == sh.K && Right(sh, ms, first + all[..i], outs)
    {
      var ok, out := Restore(rs, sh, dc, i);
      if !ok {
        BroughtSoFar(sh, ps, n, degree, data, outs, i);
        return E_FEC_INTERNAL_ERROR, restored, outs, false;
      }
      forall ms | HonestBlock(sh, ps, ms) ensures |ms| == sh.K && Right(sh, ms, first + all[..i + 1], outs + [out]) {
        RightExtend(sh, ms, first, all, i, outs, out);
      }
      BroughtMore(sh, ps, n, degree, data, outs, i, true);
      outs := outs + [out];
      restored := i + 1;
      err := answers(|outs| - 1);
      if err != 0 {
        if restored == n {
          BroughtSoFar(sh, ps, n, degree, data, outs, n);
        }
        return err, restored, outs, restored < n;
      }
    }
    BroughtSoFar(sh, ps, n, degree, data, outs, n);
  }

  lemma FirstIsRight(sh: Shape, ps: seq<Packet>, degree: nat, data: Bytes, ms: seq<Bytes>, first: seq<nat>,
                     outs: seq<Output>)
    requires sh.Valid() && degree < sh.N && IsBytes(data) && HEADER_SIZE + sh.M <= INT_MAX
    requires |data| <= (if degree >= sh.T() then sh.M else HEADER_SIZE + sh.M)
    requires HonestBlock(sh, ps + [Arrival(degree, data, sh.M, sh.T())], ms)
    requires first == if degree >= sh.T() then [degree] else []
    requires outs == if degree >= sh.T() then [Output(|data|, data)] else []
    ensures |ms| == sh.K && Right(sh, ms, first, outs)
  {
    hide HonestBlock, Arrival, IsBytes;
    HonestSize(sh, ps + [Arrival(degree, data, sh.M, sh.T())], ms);
    if degree >= sh.T() {
      RawIsRight(sh, ps, degree, data, ms);
    }
  }

  /** What becomes of a buffer whose context has taken in a packet that is not a duplicate. */
  method Admit(rs: Config, sh: Shape, dc: Decoder, ghost b: Buf, isRaw: bool, degree: nat, data: Bytes, n: nat,
               now: int, answers: nat -> int)
      returns (ghost b': Buf, err: int, out: seq<Output>)
    requires sh.Valid() && sh == Shape(rs.N, rs.K, rs.maxDataSize) && now > 0
    requires BufInv(sh, b) && |b.arrivals| < sh.K && Below(Degrees(b.arrivals), 256)
    requires Decoder.WellSized(rs, |data|, degree) && IsBytes(data) && !IsSet(MaskOf(Degrees(b.arrivals)), degree)
    requires isRaw == (degree >= sh.T())
    requires dc.Valid(rs) && dc.arrivals == b.arrivals + [Arrival(degree, data, sh.M, sh.T())]
    requires n == (if dc.IsComplete(rs) then dc.rawErasureNum else 0)
    requires rs.Valid()
    ensures BufInv(sh, b') && Grown(b, b', Arrival(degree, data, sh.M, sh.T()), out, now)
    ensures n == |Outstanding(sh, b')| && Answered(answers, out, b'.broken, b'.refused, err)
    ensures Brought(sh, b'.arrivals, n, degree, data, out, b'.refused)
    ensures b'.broken <==> |out| < |Direct(sh, degree, data)| + n
  {
    hide BufInv, Config.Valid, IsBytes, IsSet, MaskOf, Arrival, LeftOut, ToRestore, Deliveries, Below, Width,
         HonestBlock, Acceptable, Right, Decoder.Valid, Brought, Direct;
    ghost var p := Arrival(degree, data, sh.M, sh.T());
    ArrivalWidth(degree, data, sh.M, sh.T());
    NewIsAcceptable(sh, b, p);
    AcceptableBelow(sh, b, p);
    dc.Counts(rs);
    ToRestoreSize(sh, b, p);
    ghost var restored, refused;
    err, restored, out, refused := Outputs(rs, sh, dc, b, isRaw, degree, data, p, n, answers);
    DeliveredSize(sh, b, p, restored, data);
    b' := Accept(sh, b, p, now, restored, out, refused);
    AcceptInv(sh, b, p, now, restored, out, refused);
  }

  lemma DeliveredSize(sh: Shape, b: Buf, p: Packet, restored: nat, data: Bytes)
    requires sh.Valid() && Below(Degrees(b.arrivals + [p]), 256) && restored <= |ToRestore(sh, b, p)|
    ensures |Deliveries(sh, b, p, restored)| == |Direct(sh, p.degree, data)| + restored
  {
    hide ToRestore;
  }

  lemma ToRestoreSize(sh: Shape, b: Buf, p: Packet)
    requires sh.Valid() && Below(Degrees(b.arrivals + [p]), 256)
    ensures |b.arrivals| + 1 == sh.K ==> ToRestore(sh, b, p) == LeftOut(b.arrivals + [p], sh.N, sh.T())
    ensures |b.arrivals| + 1 != sh.K ==> ToRestore(sh, b, p) == []
  {
  }

  // ----- Counting.

  /** The counters that perf_inc keeps. */
  datatype Perf = Perf(blockCount: nat, blockComplete: nat, blockRestore: nat, blockExpire: nat, raw: nat, restore: nat)

  ghost function PerfOf(c: Counters): Perf {
    Perf(c.blockCount, c.blockComplete, c.blockRestore, c.blockExpire, c.raw, c.restore)
  }

  /** The counters when a packet reaches a buffer. */
  function Begun(b: Buf, c: Counters): Counters {
    if b.timestamp == 0 then c.(blockCount := c.blockCount + 1) else c
  }

  function CountRejected(b: Buf, c: Counters): Counters {
    if b.timestamp == 0 then c.(rejected := c.rejected + 1) else c
  }

  /** The counters when a packet is accepted and left messages remain to restore. */
  function CountAccepted(sh: Shape, b: Buf, isRaw: bool, left: nat, c: Counters): Counters {
    var c1 := if |b.arrivals| + 1 != sh.K then c
              else if left == 0 then c.(blockComplete := c.blockComplete + 1)
              else c.(blockRestore := c.blockRestore + 1, restore := c.restore + left);
    if isRaw then c1.(raw := c1.raw + 1) else c1
  }

  function CountExpired(sh: Shape, b: Buf, c: Counters): Counters
    requires sh.Valid()
  {
    c.(blockExpire := c.blockExpire + 1, expiredRaw := c.expiredRaw + |RawDegrees(b.arrivals, sh.T())|)
  }

  /** The counters when a buffer is reset: an unfinished block counts as expired. */
  function Recycled(sh: Shape, b: Buf, c: Counters): Counters
    requires sh.Valid()
  {
    if |b.arrivals| != sh.K && b.timestamp > 0 then CountExpired(sh, b, c) else c
  }

  lemma RawDegreesStep(ps: seq<Packet>, p: Packet, T: nat)
    ensures |RawDegrees(ps + [p], T)| == |RawDegrees(ps, T)| + if p.degree >= T then 1 else 0
  {
    assert (ps + [p])[..|ps|] == ps;
  }

  lemma ExpireCounts(sh: Shape, bufs: seq<Buf>, k: nat, id: nat, c: Counters)
    requires sh.Valid() && k < |bufs| && |bufs[k].arrivals| <= sh.K
    requires (bufs[k].timestamp > 0 <==> bufs[k].arrivals != [])
    requires CountersInv(sh, bufs, c)
    ensures CountersInv(sh, bufs[k := Fresh(id)], Recycled(sh, bufs[k], c))
  {
    hide Sum;
    SumChanges(InProgress(sh), bufs, k, Fresh(id));
    SumChanges(Pending(sh), bufs, k, Fresh(id));
  }

  lemma BlocksCounted(sh: Shape, bufs: seq<Buf>, k: nat, b: Buf, c: Counters, isRaw: bool, left: nat)
    requires sh.Valid() && k < |bufs| && |b.arrivals| == |bufs[k].arrivals| + 1 <= sh.K
    requires bufs[k].timestamp == 0 <==> bufs[k].arrivals == []
    requires c.blockComplete + c.blockRestore + c.blockExpire + c.rejected + Sum(InProgress(sh), bufs) == c.blockCount
    ensures var c' := CountAccepted(sh, bufs[k], isRaw, left, Begun(bufs[k], c));
            c'.blockComplete + c'.blockRestore + c'.blockExpire + c'.rejected + Sum(InProgress(sh), bufs[k := b]) ==
                c'.blockCount
  {
    hide Sum;
    SumChanges(InProgress(sh), bufs, k, b);
  }

  lemma MessagesCounted(sh: Shape, bufs: seq<Buf>, k: nat, b: Buf, c: Counters, isRaw: bool, left: nat)
    requires sh.Valid() && k < |bufs| && |b.arrivals| == |bufs[k].arrivals| + 1 <= sh.K
    requires |RawDegrees(b.arrivals, sh.T())| == |RawDegrees(bufs[k].arrivals, sh.T())| + (if isRaw then 1 else 0)
    requires |b.arrivals| == sh.K ==> |RawDegrees(b.arrivals, sh.T())| + left == sh.K
    requires c.raw + c.restore == sh.K * (c.blockComplete + c.blockRestore) + c.expiredRaw + Sum(Pending(sh), bufs)
    ensures var c' := CountAccepted(sh, bufs[k], isRaw, left, Begun(bufs[k], c));
            c'.raw + c'.restore == sh.K * (c'.blockComplete + c'.blockRestore) + c'.expiredRaw
                + Sum(Pending(sh), bufs[k := b])
  {
    hide Sum, RawDegrees;
    SumChanges(Pending(sh), bufs, k, b);
    OneMoreBlock(sh.K, c.blockComplete + c.blockRestore);
  }

  lemma OneMoreBlock(k: nat, n: nat)
    ensures k * (n + 1) == k * n + k
  {
  }

  /** Taking in a packet conserves blocks and messages. */
  lemma AcceptCounts(sh: Shape, bufs: seq<Buf>, k: nat, b: Buf, p: Packet, left: nat, c: Counters)
    requires sh.Valid() && k < |bufs| && BufInv(sh, bufs[k]) && |bufs[k].arrivals| < sh.K && BufInv(sh, b)
    requires b.arrivals == bufs[k].arrivals + [p] && left == |Outstanding(sh, b)| && CountersInv(sh, bufs, c)
    ensures CountersInv(sh, bufs[k := b], CountAccepted(sh, bufs[k], p.degree >= sh.T(), left, Begun(bufs[k], c)))
  {
    hide Sum, BufInv, RawDegrees, LeftOut, Arrivals, Below, CountAccepted, Begun, InProgress, Pending;
    BufFacts(sh, bufs[k]);
    BufFacts(sh, b);
    RawDegreesStep(bufs[k].arrivals, p, sh.T());
    if |b.arrivals| == sh.K {
      RawAndRestoredSumToK(sh, b.arrivals);
    }
    BlocksCounted(sh, bufs, k, b, c, p.degree >= sh.T(), left);
    MessagesCounted(sh, bufs, k, b, c, p.degree >= sh.T(), left);
  }

  /** The counting of a packet that is accepted, of which n messages are restored. */
  function PerfAccepted(complete: bool, isRaw: bool, n: nat, perf: Perf): Perf {
    var p := if !complete then perf
             else if n == 0 then perf.(blockComplete := perf.blockComplete + 1)
             else perf.(blockRestore := perf.blockRestore + 1, restore := perf.restore + n);
    if isRaw then p.(raw := p.raw + 1) else p
  }

  /**
   What the counters say of a packet of degree d that finds the arrivals before, and
   leaves the arrivals ps, in blocks of K raw packets among N. A packet that is taken in
   counts as raw by its degree. If it completes its block, the block counts as complete if
   all of its arrivals are raw, and else as restored, with as many messages as raw packets
   are missing. A packet that is not taken in counts for nothing but a block's beginning.
   */
  ghost predicate Counted(N: nat, K: nat, before: seq<Packet>, ps: seq<Packet>, d: int, x: Perf, y: Perf) {
    var taken := ps != before;
    var complete := taken && |ps| == K;
    var allRaw := forall i :: 0 <= i < |ps| ==> ps[i].degree >= N - K;
    && y.blockCount == x.blockCount + (if before == [] then 1 else 0)
    && y.raw == x.raw + (if taken && d >= N - K then 1 else 0)
    && y.blockComplete == x.blockComplete + (if complete && allRaw then 1 else 0)
    && y.blockRestore == x.blockRestore + (if complete && !allRaw then 1 else 0)
    && y.restore == x.restore + (if complete then K - |set i: nat | i < |ps| && ps[i].degree >= N - K| else 0)
    && y.blockExpire == x.blockExpire
  }

  lemma AcceptedIsCounted(sh: Shape, b: Buf, b': Buf, p: Packet, c: Counters)
    requires sh.Valid() && BufInv(sh, b) && BufInv(sh, b') && b'.arrivals == b.arrivals + [p] && |b.arrivals| < sh.K
    ensures var c' := CountAccepted(sh, b, p.degree >= sh.T(), |Outstanding(sh, b')|, Begun(b, c));
            Counted(sh.N, sh.K, b.arrivals, b'.arrivals, p.degree, PerfOf(c), PerfOf(c'))
  {
    hide RawDegrees, LeftOut, Arrivals, DeliveredOnce, ContentsRight;
    BufFacts(sh, b);
    BufFacts(sh, b');
    RawNumber(b'.arrivals, sh.T());
    if |b'.arrivals| == sh.K {
      RawAndRestoredSumToK(sh, b'.arrivals);
    }
  }

  lemma OthersAreCounted(sh: Shape, b: Buf, d: int, c: Counters)
    requires sh.Valid() && BufInv(sh, b)
    ensures Counted(sh.N, sh.K, b.arrivals, b.arrivals, d, PerfOf(c), PerfOf(CountRejected(b, Begun(b, c))))
    ensures d in Degrees(b.arrivals) ==> Counted(sh.N, sh.K, b.arrivals, b.arrivals, d, PerfOf(c), PerfOf(c))
  {
    hide Arrivals, DeliveredOnce, ContentsRight;
  }

  lemma PerfBegun(b: Buf, c: Counters)
    ensures PerfOf(Begun(b, c)) == if b.timestamp == 0 then PerfOf(c).(blockCount := c.blockCount + 1) else PerfOf(c)
    ensures PerfOf(c).blockCount == c.blockCount && PerfOf(CountRejected(b, Begun(b, c))) == PerfOf(Begun(b, c))
  {
  }

  lemma PerfRecycled(sh: Shape, b: Buf, c: Counters)
    requires sh.Valid()
    ensures var unfinished := |b.arrivals| != sh.K && b.timestamp > 0;
            PerfOf(Recycled(sh, b, c)) ==
              if unfinished then PerfOf(c).(blockExpire := PerfOf(c).blockExpire + 1) else PerfOf(c)
  {
  }

  lemma KnownBegun(b: Buf, c: Counters, degree: int)
    requires b.timestamp == 0 ==> degree !in Degrees(b.arrivals)
    requires degree in Degrees(b.arrivals)
    ensures b.timestamp != 0 && Begun(b, c) == c
  {
  }

  /** The invariant after a packet is taken in, and what was counted. */
  lemma AcceptState(rs: Config, sh: Shape, bufs: seq<Buf>, cache: Recency<nat, nat>, c: Counters, k: nat, b: Buf,
                    p: Packet, n: nat)
    requires State(rs, sh, bufs, cache, c) && k < |bufs| && sh.Valid() && BufInv(sh, b) && |bufs[k].arrivals| < sh.K
    requires b.arrivals == bufs[k].arrivals + [p] && b.blockId == bufs[k].blockId && n == |Outstanding(sh, b)|
    ensures var c' := CountAccepted(sh, bufs[k], p.degree >= sh.T(), n, Begun(bufs[k], c));
            && State(rs, sh, bufs[k := b], cache, c')
            && PerfOf(c') == PerfAccepted(|b.arrivals| == sh.K, p.degree >= sh.T(), n, PerfOf(Begun(bufs[k], c)))
  {
    hide BufInv, CacheInv, CountersInv, Config.Valid, Outstanding;
    AcceptCounts(sh, bufs, k, b, p, n, c);
    StateUpdate(rs, sh, bufs, cache, c, k, b, CountAccepted(sh, bufs[k], p.degree >= sh.T(), n, Begun(bufs[k], c)));
  }

  lemma StateConfig(rs: Config, sh: Shape, bufs: seq<Buf>, cache: Recency<nat, nat>, c: Counters)
    requires State(rs, sh, bufs, cache, c)
    ensures rs.Valid()
  {
  }

  lemma WellSizedFacts(rs: Config, sh: Shape, size: int, degree: int)
    requires sh.Valid() && sh == Shape(rs.N, rs.K, rs.maxDataSize) && Decoder.WellSized(rs, size, degree)
    ensures 0 <= degree < rs.N && 0 <= size <= (if degree >= sh.T() then sh.M else HEADER_SIZE + sh.M)
    ensures rs.T() == sh.T()
  {
  }

  lemma RejectState(rs: Config, sh: Shape, bufs: seq<Buf>, cache: Recency<nat, nat>, c: Counters, k: nat)
    requires State(rs, sh, bufs, cache, c) && k < |bufs|
    ensures State(rs, sh, bufs, cache, CountRejected(bufs[k], Begun(bufs[k], c)))
  {
    hide BufInv, CacheInv, CountersInv, Config.Valid;
    RejectCounts(sh, bufs, k, c);
  }

  lemma BufFacts(sh: Shape, b: Buf)
    requires sh.Valid() && BufInv(sh, b)
    ensures |b.arrivals| <= sh.K && b.timestamp >= 0 && (b.timestamp == 0 <==> b.arrivals == [])
    ensures Arrivals(b.arrivals, sh.M, sh.N) && Below(Degrees(b.arrivals), 256)
  {
  }

  ghost function FreshBufs(size: nat): (bufs: seq<Buf>)
    ensures |bufs| == size && forall j :: 0 <= j < size ==> bufs[j] == Fresh(j)
  {
    seq(size, (i: nat) => Fresh(i))
  }

  /** The buffers in the order of their numbers, the last being the newest. */
  ghost predicate InOrder(c: Recency<nat, nat>, n: nat) {
    |c| == n && forall j :: 0 <= j < n ==> c[j] == Entry(n - 1 - j, n - 1 - j)
  }

  lemma NoneInOrder()
    ensures InOrder([], 0)
  {
  }

  lemma NextInOrder(c: Recency<nat, nat>, n: nat)
    requires InOrder(c, n)
    ensures InOrder(Put(c, n, n), n + 1)
  {
  }

  /** The last loop of nt_rs_fec_init: every buffer is bound to a block id of its own. */
  method Ids(sh: Shape, size: nat) returns (lru: Lrumap<nat, nat>)
    requires sh.Valid() && Sizes(ThreeQuartersOf, size)
    ensures fresh(lru) && fresh(lru.table) && lru.Valid() && lru.capacity == size && InOrder(lru.Bindings(), size)
    ensures CacheInv(lru.Bindings(), FreshBufs(size)) && CountersInv(sh, FreshBufs(size), NoCounts)
    ensures forall j :: 0 <= j < size ==> BufInv(sh, FreshBufs(size)[j])
  {
    hide BufInv, CacheInv, CountersInv, Lrumap.Valid, Order, FreshBufs, Lru.Put, InOrder;
    lru := new Lrumap<nat, nat>(size, (id: nat) => id, ThreeQuartersOf, Entry(0, 0));
    NoBlocks(sh);
    FreshBufsGrow(0);
    NoneInOrder();
    for i := 0 to size
      invariant fresh(lru) && fresh(lru.table) && lru.Valid() && lru.capacity == size && InOrder(lru.Bindings(), i)
      invariant CacheInv(lru.Bindings(), FreshBufs(i)) && CountersInv(sh, FreshBufs(i), NoCounts)
      invariant forall j :: 0 <= j < i ==> BufInv(sh, FreshBufs(i)[j])
    {
      FreshBufsGrow(i);
      AddFresh(sh, lru.Bindings(), FreshBufs(i), NoCounts);
      CacheSize(lru.Bindings(), FreshBufs(i));
      NextInOrder(lru.Bindings(), i);
      var ok := lru.Put(i, i);
    }
  }

  lemma FreshBufsGrow(i: nat)
    ensures FreshBufs(0) == [] && FreshBufs(i + 1) == FreshBufs(i) + [Fresh(i)]
  {
  }

  /** The contexts and the ids of nt_rs_fec_init. */
  method Pool(rs: Config, size: nat)
      returns (pool: seq<Decoder>, slots: seq<Slot>, ghost bufs: seq<Buf>, lru: Lrumap<nat, nat>)
    requires rs.Valid() && rs.N <= 32 && Sizes(ThreeQuartersOf, size)
    ensures |bufs| == size && (forall j :: 0 <= j < size ==> bufs[j] == Fresh(j)) && PoolInv(pool, rs, slots, bufs)
    ensures fresh(Objects(pool)) && fresh(lru) && fresh(lru.table) && lru.Valid() && lru.capacity == size
    ensures State(rs, Shape(rs.N, rs.K, rs.maxDataSize), bufs, lru.Bindings(), NoCounts)
    ensures InOrder(lru.Bindings(), size)
  {
    hide BufInv, CacheInv, CountersInv, Config.Valid, ByteCode, Lrumap.Valid, Order, PoolInv, Objects;
    rs.Facts();
    ThreeQuarters(size);
    lru := Ids(Shape(rs.N, rs.K, rs.maxDataSize), size);
    pool, slots, bufs := Contexts(rs, size);
    assert bufs == FreshBufs(size);
  }

  lemma CacheSize(cache: Recency<nat, nat>, bufs: seq<Buf>)
    requires CacheInv(cache, bufs) && forall j :: 0 <= j < |bufs| ==> bufs[j] == Fresh(j)
    ensures |cache| == |bufs| && !Has(cache, |bufs|)
  {
    hide Find;
  }

  /** The invariant of the decoder. */
  ghost predicate State(rs: Config, sh: Shape, bufs: seq<Buf>, cache: Recency<nat, nat>, counters: Counters) {
    && rs.Valid() && sh.Valid() && sh == Shape(rs.N, rs.K, rs.maxDataSize)
    && bufs != [] && CacheInv(cache, bufs)
    && (forall i :: 0 <= i < |bufs| ==> BufInv(sh, bufs[i]))
    && CountersInv(sh, bufs, counters)
  }

  /** One buffer takes in a packet. */
  lemma StateUpdate(rs: Config, sh: Shape, bufs: seq<Buf>, cache: Recency<nat, nat>, c: Counters, k: nat, b: Buf,
                    c': Counters)
    requires State(rs, sh, bufs, cache, c) && k < |bufs| && BufInv(sh, b) && b.blockId == bufs[k].blockId
    requires CountersInv(sh, bufs[k := b], c')
    ensures State(rs, sh, bufs[k := b], cache, c')
  {
    hide BufInv, CacheInv, CountersInv, Config.Valid;
    CacheSameIds(cache, bufs, k, b);
  }

  /** The binding of the eldest block gives way to one of a new block. */
  method Rebind(lru: Lrumap<nat, nat>, id: nat, k: nat)
    requires lru.Valid() && lru.Bindings() != [] && Has(lru.Bindings(), Eldest(lru.Bindings()).key)
    requires !Has(lru.Bindings(), id)
    modifies lru, lru.table
    ensures lru.Valid()
    ensures lru.Bindings() == Lru.Put(Lru.Remove(old(lru.Bindings()), old(Eldest(lru.Bindings()).key)), id, k)
  {
    hide Find, Lru.Remove, Lru.Put, Lrumap.Valid, Order;
    RemovedIsSmaller(lru.Bindings(), id);
    lru.Facts();
    var eldest := lru.Peek();
    var removed := lru.Remove(eldest.value.key);
    lru.Facts();
    var put := lru.Put(id, k);
  }

  class Fec {
    const rs: Config
    const sh: Shape
    const decodeTimeout: int
    const pool: seq<Decoder>
    var slots: seq<Slot>
    const lru: Lrumap<nat, nat>
    var perf: Perf
    ghost var bufs: seq<Buf>             // what pool and slots stand for
    ghost var cache: Recency<nat, nat>   // what lru stands for
    ghost var counters: Counters

    ghost predicate Valid()
      reads this, lru, lru.table, Objects(pool)
    {
      && State(rs, sh, bufs, cache, counters) && perf == PerfOf(counters)
      && lru.Valid() && lru.capacity == |bufs| && cache == lru.Bindings()
      && PoolInv(pool, rs, slots, bufs)
    }

    /** The values and the contexts they stand for. */
    lemma Coupled(k: nat)
      requires Valid() && k < |bufs|
      ensures sh.Valid() && sh == Shape(rs.N, rs.K, rs.maxDataSize) && |pool| == |slots| == |bufs| && rs.Valid()
      ensures slots[k] == Slot(bufs[k].blockId, bufs[k].timestamp)
      ensures pool[k].Valid(rs) && pool[k].arrivals == bufs[k].arrivals
      ensures (pool[k].IsComplete(rs) <==> IsComplete(sh, bufs[k]))
    {
      hide BufInv, CacheInv, CountersInv, Config.Valid, Lrumap.Valid, Order, Decoder.Valid;
      pool[k].Counts(rs);
    }

    /** A block in progress that has not expired. */
    ghost predicate Live(b: Buf, now: int) {
      !IsComplete(sh, b) && b.timestamp > 0 && now - b.timestamp <= decodeTimeout
    }

    /** The eldest buffer can be given to a new block. */
    ghost predicate RoomAt(now: int)
      reads this
    {
      cache != [] && Eldest(cache).value < |bufs| && !Live(bufs[Eldest(cache).value], now)
    }

    /** Every key of the cache leads to the buffer of its block. */
    lemma Cached(id: nat)
      requires Valid()
      ensures cache != [] && Eldest(cache).value < |bufs|
      ensures Has(cache, id) ==>
                cache[Find(cache, id)].value < |bufs| && bufs[cache[Find(cache, id)].value].blockId == id
    {
      hide BufInv, CacheInv, CountersInv, Config.Valid, Lrumap.Valid, Order, PoolInv, Find;
      CacheFacts(cache, bufs, id);
    }

    lemma KeysDistinct()
      requires Valid()
      ensures DistinctKeys(cache)
    {
      hide BufInv, CountersInv, Config.Valid, Lrumap.Valid, Order, PoolInv;
    }

    lemma Shapes()
      requires Valid()
      ensures sh.Valid() && sh == Shape(rs.N, rs.K, rs.maxDataSize)
      ensures forall i :: 0 <= i < |bufs| ==> BufInv(sh, bufs[i])
    {
      hide BufInv, CacheInv, CountersInv, Config.Valid, Lrumap.Valid, Order;
    }

    /**
     nt_rs_fec_init: every buffer gets a block id of its own. The hash map inside
     the LRU map has no buckets for fewer than two buffers.
     */
    constructor (rs: Config, size: nat, decodeTimeout: int)
      requires rs.Valid() && rs.N <= 32 && Sizes(ThreeQuartersOf, size)
      ensures Valid() && this.rs == rs && this.decodeTimeout == decodeTimeout && |bufs| == size
      ensures forall i :: 0 <= i < size ==> bufs[i] == Fresh(i)
      ensures |cache| == size && forall i :: 0 <= i < size ==> cache[i] == Entry(size - 1 - i, size - 1 - i)
      ensures perf == Perf(0, 0, 0, 0, 0, 0)
      ensures counters == NoCounts && fresh(lru) && fresh(lru.table) && fresh(Objects(pool))
    {
      hide Config.Valid, State, Lrumap.Valid, Order, PoolInv;
      this.rs := rs;
      this.sh := Shape(rs.N, rs.K, rs.maxDataSize);
      this.decodeTimeout := decodeTimeout;
      counters := NoCounts;
      perf := Perf(0, 0, 0, 0, 0, 0);
      var pool, slots, lru;
      ghost var bufs;
      pool, slots, bufs, lru := Pool(rs, size);
      this.pool, this.slots, this.lru := pool, slots, lru;
      this.bufs, this.cache := bufs, lru.Bindings();
    }

    /** Resetting a buffer that may be discarded; an unfinished block counts as expired. */
    method Recycle(k: nat, id: nat)
      requires sh.Valid() && sh == Shape(rs.N, rs.K, rs.maxDataSize) && rs.Valid()
      requires k < |bufs| && CountersInv(sh, bufs, counters) && perf == PerfOf(counters)
      requires PoolInv(pool, rs, slots, bufs)
      requires forall i :: 0 <= i < |bufs| ==> BufInv(sh, bufs[i])
      modifies this`bufs, this`slots, this`perf, this`counters, pool[k], pool[k].syndromes, pool[k].erasureDegrees
      ensures bufs == old(bufs)[k := Fresh(id)] && counters == Recycled(sh, old(bufs)[k], old(counters))
      ensures forall i :: 0 <= i < |bufs| ==> BufInv(sh, bufs[i])
      ensures CountersInv(sh, bufs, counters) && perf == PerfOf(counters) && PoolInv(pool, rs, slots, bufs)
    {
      hide BufInv, CountersInv, Config.Valid, Decoder.Valid, Recycled, PoolInv, PerfOf, Objects;
      ObjectsApart();
      BufFacts(sh, bufs[k]);
      ExpireCounts(sh, bufs, k, id, counters);
      FreshInv(sh, id);
      PoolAt(pool, rs, slots, bufs, k);
      ObjectsOf(pool, k);
      pool[k].Counts(rs);
      PerfRecycled(sh, bufs[k], counters);
      if !pool[k].IsComplete(rs) && slots[k].timestamp > 0 {
        perf := perf.(blockExpire := perf.blockExpire + 1);
      }
      counters := Recycled(sh, bufs[k], counters);
      slots := ResetContext(pool, rs, slots, bufs, k, id);
      bufs := bufs[k := Fresh(id)];
    }

    /**
     The first half of nt_rs_fec_decode: finds the buffer of a block, or makes
     one. It declines a block that is complete, and a new block when even the
     eldest buffer is still needed.
     */
    method Locate(id: nat, now: int) returns (err: int, k: nat, go: bool)
      requires Valid()
      modifies this`bufs, this`slots, this`perf, this`cache, this`counters, lru, lru.table, Objects(pool)
      ensures Valid() && k < |bufs| && |bufs| == |old(bufs)| && sh.Valid()
      ensures Has(old(cache), id) ==>
                && k == old(cache)[Find(old(cache), id)].value && old(bufs)[k].blockId == id
                && cache == Touch(old(cache), id) && err == 0
                && (go <==> !(IsComplete(sh, old(bufs)[k]) && now - old(bufs)[k].timestamp <= decodeTimeout))
      ensures !Has(old(cache), id) ==>
                && old(cache) != [] && k == Eldest(old(cache)).value && Has(old(cache), Eldest(old(cache)).key)
                && (go <==> !Live(old(bufs)[k], now))
                && if go then err == 0 && cache == Lru.Put(Lru.Remove(old(cache), Eldest(old(cache)).key), id, k)
                   else err == E_FEC_DECODER_BUFFER_FULL && cache == old(cache)
      ensures go ==> bufs[k].blockId == id && !IsComplete(sh, bufs[k])
      ensures if go && !(Has(old(cache), id) && now - old(bufs)[k].timestamp <= decodeTimeout)
              then bufs == old(bufs)[k := Fresh(id)] && counters == Recycled(sh, old(bufs)[k], old(counters))
                  && !Live(old(bufs)[k], now)
              else bufs == old(bufs) && counters == old(counters)
    {
      hide Fec.Valid, Find, Touch, Lru.Remove, Lru.Put, Config.Valid, Decoder.Valid, Objects, Recycled,
           Decoder.IsComplete;
      err, go := 0, true;
      ObjectsApart();
      var has;
      k, has := Lookup(id);
      Coupled(k);
      if has {
        if now - slots[k].timestamp <= decodeTimeout {
          // If complete, all messages in this block are already processed.
          go := !pool[k].IsComplete(rs);
        } else {
          // The block has expired.
          Renew(k);
        }
      } else if !pool[k].IsComplete(rs) && slots[k].timestamp > 0 && now - slots[k].timestamp <= decodeTimeout {
        err, go := E_FEC_DECODER_BUFFER_FULL, false;
      } else {
        // Expires the oldest data.
        TakeOver(k, id);
      }
    }

    /** The buffer of a block, or else the eldest. */
    method Lookup(id: nat) returns (k: nat, has: bool)
      requires Valid()
      modifies this`cache, lru, lru.table
      ensures Valid() && k < |bufs| && has == Has(old(cache), id)
      ensures has ==>
                k == old(cache)[Find(old(cache), id)].value && bufs[k].blockId == id && cache == Touch(old(cache), id)
      ensures !has ==> cache == old(cache) && cache != [] && k == Eldest(cache).value && Has(cache, Eldest(cache).key)
    {
      hide BufInv, CacheInv, CountersInv, Find, Touch, Config.Valid, Lrumap.Valid, Order, PoolInv;
      CacheFacts(cache, bufs, id);
      EldestPresent(cache, bufs);
      Foreign(pool, lru);
      var found := lru.Get(id);
      has := found.Some?;
      if has {
        k := found.value.value;
        TouchKeepsCache(cache, bufs, id);
        cache := Touch(cache, id);
      } else {
        var eldest := lru.Peek();
        k := eldest.value.value;
      }
    }

    /** A block begins anew in its own buffer. */
    method Renew(k: nat)
      requires Valid() && k < |bufs|
      modifies this`bufs, this`slots, this`perf, this`counters, Objects(pool)
      ensures Valid() && bufs == old(bufs)[k := Fresh(old(bufs)[k].blockId)]
      ensures sh.Valid() && counters == Recycled(sh, old(bufs)[k], old(counters))
    {
      hide BufInv, CacheInv, CountersInv, Config.Valid, Lrumap.Valid, Order, PoolInv, Objects;
      Coupled(k);
      ObjectsOf(pool, k);
      CacheSameIds(cache, bufs, k, Fresh(bufs[k].blockId));
      Recycle(k, slots[k].blockId);
    }

    /** A new block takes over the eldest buffer. */
    method TakeOver(k: nat, id: nat)
      requires Valid() && k < |bufs| && cache != [] && k == Eldest(cache).value && Has(cache, Eldest(cache).key)
      requires !Has(cache, id)
      modifies this`bufs, this`slots, this`perf, this`cache, this`counters, lru, lru.table, Objects(pool)
      ensures Valid() && bufs == old(bufs)[k := Fresh(id)]
      ensures cache == Lru.Put(Lru.Remove(old(cache), Eldest(old(cache)).key), id, k)
      ensures sh.Valid() && counters == Recycled(sh, old(bufs)[k], old(counters))
    {
      hide BufInv, CacheInv, CountersInv, Find, Lru.Remove, Lru.Put, Config.Valid, Lrumap.Valid, Order, PoolInv,
           Recycled;
      Shapes();
      EvictKeepsCache(cache, bufs, id, Fresh(id));
      CacheFacts(cache, bufs, id);
      Rebind(lru, id, k);
      cache := Lru.Put(Lru.Remove(cache, Eldest(cache).key), id, k);
      ObjectsHas(k);
      Recycle(k, id);
    }

    lemma ObjectsHas(k: nat)
      requires PoolInv(pool, rs, slots, bufs) && k < |bufs|
      ensures k < |pool| && pool[k] in Objects(pool) && pool[k].syndromes in Objects(pool)
      ensures pool[k].erasureDegrees in Objects(pool)
    {
      hide Serves, Apart;
    }

    /** rs_decode has seen the packet: context k may have taken it in, the rest is as it was. */
    ghost predicate Received(k: nat)
      reads this, lru, lru.table, Objects(pool)
    {
      && State(rs, sh, bufs, cache, counters)
      && lru.Valid() && lru.capacity == |bufs| && cache == lru.Bindings()
      && |pool| == |slots| == |bufs| && Apart(pool) && k < |pool|
      && (forall j :: 0 <= j < |pool| && j != k ==> Serves(pool[j], rs, slots[j], bufs[j]))
      && slots[k] == Slot(bufs[k].blockId, bufs[k].timestamp)
      && perf == PerfOf(Begun(bufs[k], counters)) && pool[k].Valid(rs)
    }

    method Receive(k: nat, input: Bytes, size: int, degree: int) returns (n: int, isRaw: bool)
      requires Valid() && k < |bufs| && !IsComplete(sh, bufs[k]) && size <= |input| && IsBytes(input)
      modifies this`perf, Objects(pool)
      ensures sh.Valid() && sh == Shape(rs.N, rs.K, rs.maxDataSize) && k < |bufs| && k < |pool|
      ensures BufInv(sh, bufs[k]) && Below(Degrees(bufs[k].arrivals), 256) && |bufs[k].arrivals| < sh.K
      ensures Decoded(pool[k], rs, bufs[k].arrivals, input, size, degree, n, isRaw)
      ensures Received(k)
    {
      hide State, BufInv, Config.Valid, IsBytes, IsSet, MaskOf, Arrival, Below, Lrumap.Valid, Order, Decoder.Valid,
           Objects, Apart, PerfOf, Begun, PoolInv, Decoded;
      Coupled(k);
      InState(k);
      ObjectsApart();
      ObjectsOf(pool, k);
      Foreign(pool, lru);
      BufFacts(sh, bufs[k]);
      PerfBegun(bufs[k], counters);
      if slots[k].timestamp == 0 {
        perf := perf.(blockCount := perf.blockCount + 1);
      }
      n, isRaw := DecodeAt(pool, rs, slots, bufs, k, input, size, degree);
    }

    /** A packet that context k has not taken in changes no more than counters. */
    method Refuse(k: nat, malformed: bool)
      requires Received(k) && pool[k].arrivals == bufs[k].arrivals && sh.Valid()
      requires (!malformed ==> Begun(bufs[k], counters) == counters)
      modifies this`counters
      ensures Valid()
      ensures counters == if malformed then CountRejected(bufs[k], Begun(bufs[k], old(counters))) else old(counters)
    {
      hide State, Config.Valid, Lrumap.Valid, Order, Decoder.Valid, Objects, Apart, PerfOf, Begun, CountRejected,
           PoolInv;
      ObjectsApart();
      PerfBegun(bufs[k], counters);
      PoolUpdate(pool, rs, slots, bufs, k, slots[k], bufs[k]);
      assert slots[k := slots[k]] == slots && bufs[k := bufs[k]] == bufs;
      if malformed {
        RejectState(rs, sh, bufs, cache, counters, k);
        counters := CountRejected(bufs[k], Begun(bufs[k], counters));
      }
    }

    /** Context k has taken in a packet: counting, and handing messages to the callback. */
    method Take(k: nat, n: nat, isRaw: bool, degree: nat, data: Bytes, now: int, answers: nat -> int)
        returns (err: int, out: seq<Output>)
      requires sh.Valid() && sh == Shape(rs.N, rs.K, rs.maxDataSize) && k < |bufs| && k < |pool|
      requires BufInv(sh, bufs[k]) && |bufs[k].arrivals| < sh.K && Below(Degrees(bufs[k].arrivals), 256) && now > 0
      requires Decoder.WellSized(rs, |data|, degree) && IsBytes(data)
      requires !IsSet(MaskOf(Degrees(bufs[k].arrivals)), degree)
      requires isRaw == (degree >= sh.T())
      requires pool[k].arrivals == bufs[k].arrivals + [Arrival(degree, data, sh.M, sh.T())]
      requires n == if pool[k].IsComplete(rs) then pool[k].rawErasureNum else 0
      requires Received(k)
      modifies this`bufs, this`slots, this`perf, this`counters
      ensures Valid() && bufs == old(bufs)[k := bufs[k]] && sh.Valid()
      ensures Grown(old(bufs)[k], bufs[k], Arrival(degree, data, sh.M, sh.T()), out, now)
      ensures Answered(answers, out, bufs[k].broken, bufs[k].refused, err)
      ensures Brought(sh, bufs[k].arrivals, |Outstanding(sh, bufs[k])|, degree, data, out, bufs[k].refused)
      ensures bufs[k].broken <==> |out| < |Direct(sh, degree, data)| + |Outstanding(sh, bufs[k])|
      ensures counters == CountAccepted(sh, old(bufs)[k], degree >= sh.T(), |Outstanding(sh, bufs[k])|,
                                        Begun(old(bufs)[k], old(counters)))
      ensures Counted(rs.N, rs.K, old(bufs)[k].arrivals, bufs[k].arrivals, degree, PerfOf(old(counters)), perf)
    {
      hide State, BufInv, Config.Valid, IsBytes, IsSet, MaskOf, Arrival, Outstanding, Below, Lrumap.Valid, Order,
           Decoder.Valid, Objects, Apart, PerfOf, PerfAccepted, CountAccepted, Begun, PoolInv, Decoder.WellSized, Grown,
           Brought, Counted, Direct;
      StateConfig(rs, sh, bufs, cache, counters);
      ObjectsApart();
      WellSizedFacts(rs, sh, |data|, degree);
      pool[k].Counts(rs);
      ghost var b, c := bufs[k], counters;
      perf := PerfAccepted(pool[k].IsComplete(rs), isRaw, n, perf);
      slots := slots[k := slots[k].(timestamp := now)];
      ghost var b';
      b', err, out := Admit(rs, sh, pool[k], b, isRaw, degree, data, n, now, answers);
      GrownFacts(b, b', Arrival(degree, data, sh.M, sh.T()), out, now);
      AcceptState(rs, sh, bufs, cache, c, k, b', Arrival(degree, data, sh.M, sh.T()), n);
      AcceptedIsCounted(sh, b, b', Arrival(degree, data, sh.M, sh.T()), c);
      counters := CountAccepted(sh, b, degree >= sh.T(), n, Begun(b, c));
      PoolUpdate(pool, rs, slots, bufs, k, slots[k], b');
      assert slots[k := slots[k]] == slots;
      bufs := bufs[k := b'];
    }

    /** The second half of nt_rs_fec_decode: hands the packet to rs_decode and delivers what comes of it. */
    method Feed(k: nat, input: Bytes, size: int, degree: int, now: int, answers: nat -> int)
        returns (err: int, out: seq<Output>)
      requires Valid() && k < |bufs| && !IsComplete(sh, bufs[k]) && size <= |input| && IsBytes(input) && now > 0
      modifies this`bufs, this`slots, this`perf, this`counters, Objects(pool)
      ensures Valid()
      ensures bufs == old(bufs)[k := bufs[k]]
      ensures StepOf(old(bufs)[k], bufs[k], degree, input, size, now, answers, err, out)
      ensures bufs[k].blockId == old(bufs)[k].blockId
      ensures CountsOf(old(bufs)[k], bufs[k], degree, size, old(counters), counters)
    {
      hide Fec.Valid, Received, BufInv, Config.Valid, IsBytes, IsSet, MaskOf, Arrival, Outstanding, Below,
           Decoder.Valid, Objects, CountAccepted, CountRejected, Begun, StepOf, CountsOf, Grown, Decoder.WellSized,
           Brought, Direct;
      ObjectsApart();
      ghost var b, c := bufs[k], counters;
      var n, isRaw := Receive(k, input, size, degree);
      ReceivedIndex(k);
      DuplicateKnown(sh, b, rs, size, degree);
      if n == E_RS_DUPLICATE {
        BufFacts(sh, b);
        KnownBegun(b, c, degree);
        StepIgnored(b, degree, input, size, now, answers, c);
        Refuse(k, false);
        return 0, [];
      } else if n < 0 {
        StepRejected(b, degree, input, size, now, answers, c);
        Refuse(k, true);
        return EINVAL, [];
      }
      WellSizedFacts(rs, sh, size, degree);
      BytesPrefix(input, size);
      err, out := Take(k, n, isRaw, degree, input[..size], now, answers);
      StepTaken(b, bufs[k], degree, input, size, now, answers, err, out, c);
    }

    lemma ObjectsApart()
      ensures this !in Objects(pool)
    {
    }

    lemma ReceivedIndex(k: nat)
      requires Received(k)
      ensures k < |pool| == |bufs|
    {
      hide State, Lrumap.Valid, Order, Decoder.Valid, Apart;
    }

    lemma StepRejected(b: Buf, degree: int, input: Bytes, size: int, now: int, answers: nat -> int, c: Counters)
      requires sh.Valid() && sh == Shape(rs.N, rs.K, rs.maxDataSize) && !Decoder.WellSized(rs, size, degree)
      ensures StepOf(b, b, degree, input, size, now, answers, EINVAL, [])
      ensures CountsOf(b, b, degree, size, c, CountRejected(b, Begun(b, c)))
    {
    }

    lemma StepIgnored(b: Buf, degree: int, input: Bytes, size: int, now: int, answers: nat -> int, c: Counters)
      requires sh.Valid() && sh == Shape(rs.N, rs.K, rs.maxDataSize) && size <= |input|
      requires Decoder.WellSized(rs, size, degree)
      requires degree in Degrees(b.arrivals)
      ensures StepOf(b, b, degree, input, size, now, answers, 0, []) && CountsOf(b, b, degree, size, c, c)
    {
    }

    lemma StepTaken(b: Buf, b': Buf, degree: int, input: Bytes, size: int, now: int, answers: nat -> int, err: int,
                    out: seq<Output>, c: Counters)
      requires sh.Valid() && sh == Shape(rs.N, rs.K, rs.maxDataSize) && size <= |input|
      requires Decoder.WellSized(rs, size, degree)
      requires degree !in Degrees(b.arrivals) && Grown(b, b', Arrival(degree, input[..size], sh.M, sh.T()), out, now)
      requires Answered(answers, out, b'.broken, b'.refused, err)
      requires Brought(sh, b'.arrivals, |Outstanding(sh, b')|, degree, input[..size], out, b'.refused)
      requires b'.broken <==> |out| < |Direct(sh, degree, input[..size])| + |Outstanding(sh, b')|
      ensures StepOf(b, b', degree, input, size, now, answers, err, out)
      ensures CountsOf(b, b', degree, size, c, CountAccepted(sh, b, degree >= sh.T(), |Outstanding(sh, b')|,
                                                             Begun(b, c)))
      ensures b'.blockId == b.blockId && b'.timestamp == now
      ensures b'.arrivals == b.arrivals + [Arrival(degree, input[..size], sh.M, sh.T())]
    {
      hide Arrival, Outstanding, CountAccepted, Begun, Brought, Direct;
    }

    lemma InState(k: nat)
      requires Valid() && k < |bufs|
      ensures sh.Valid() && sh == Shape(rs.N, rs.K, rs.maxDataSize) && rs.Valid() && BufInv(sh, bufs[k])
      ensures |pool| == |slots| == |bufs| && Apart(pool) && PoolInv(pool, rs, slots, bufs)
    {
      hide BufInv, CacheInv, CountersInv, Config.Valid, Lrumap.Valid, Order, Objects, Serves, Apart;
    }

    /** The header is one of this decoder's. */
    predicate Fits(h: FecHeader)
    {
      h.tag == NT_RS_FEC_TAG && h.N == rs.N && h.K == rs.K
    }

    /** The packet finds its block, or a buffer for it. */
    ghost predicate Proceeds(before: seq<Buf>, cached: bool, k: nat, now: int)
      requires k < |before|
    {
      if cached
      then !(IsComplete(sh, before[k]) && now - before[k].timestamp <= decodeTimeout)
      else !Live(before[k], now)
    }

    /** The buffer has to be reset first. */
    ghost predicate Resets(before: seq<Buf>, cached: bool, k: nat, now: int)
      requires k < |before|
    {
      !(cached && now - before[k].timestamp <= decodeTimeout)
    }

    /**
     What becomes of buffer k when it is given the packet: it is reset first if need be,
     which expires a block in progress; no other buffer changes.
     */
    ghost predicate Proceeded(before: seq<Buf>, after: seq<Buf>, k: nat, resets: bool, h: FecHeader, input: Bytes,
                              size: int, now: int, answers: nat -> int, err: int, out: seq<Output>,
                              c: Counters, c': Counters, x: Perf, y: Perf) {
      && sh.Valid() && k < |before| == |after|
      && var b := if resets then Fresh(h.blockId) else before[k];
         var expired := if resets && 0 < |before[k].arrivals| < rs.K then 1 else 0;
         && after == before[k := after[k]] && after[k].blockId == h.blockId
         && StepOf(b, after[k], rs.N - 1 - h.blockIndex, input, size, now, answers, err, out)
         && CountsOf(b, after[k], rs.N - 1 - h.blockIndex, size, if resets then Recycled(sh, before[k], c) else c, c')
         && Counted(rs.N, rs.K, b.arrivals, after[k].arrivals, rs.N - 1 - h.blockIndex,
                    x.(blockExpire := x.blockExpire + expired), y)
    }

    /** A live block takes in the packet if it is its own, and else stays as it is. */
    ghost predicate SparesLive(before: seq<Buf>, after: seq<Buf>, h: FecHeader, input: Bytes, size: int, now: int,
                               answers: nat -> int, err: int, out: seq<Output>) {
      |before| == |after| && forall j :: 0 <= j < |after| && Live(before[j], now) ==>
        if before[j].blockId != h.blockId
        then after[j] == before[j]
        else Fits(h) ==>
          StepOf(before[j], after[j], rs.N - 1 - h.blockIndex, input, size, now, answers, err, out)
    }

    /**
     nt_rs_fec_decode. The packet's buffer k is the one its block is found in, or
     else the eldest; no other buffer changes. A complete block delivers nothing
     more until it expires, and a new block is refused exactly if the eldest
     buffer is live. So no live block is ever lost: if it is the packet's own, it
     takes in the packet, and if not, nothing happens to it.
     */
    method Decode(h: FecHeader, input: Bytes, size: int, now: int, answers: nat -> int)
        returns (err: int, out: seq<Output>, ghost k: nat)
      requires Valid() && size <= |input| && IsBytes(input) && now > 0
      modifies this`bufs, this`slots, this`perf, this`cache, this`counters, lru, lru.table, Objects(pool)
      ensures Valid() && |bufs| == |old(bufs)| && k < |bufs| && sh.Valid()
      ensures h.tag != 69 || h.N != rs.N || h.K != rs.K <==> err == E_FEC_INVALID_HEADER && out == []
      ensures h.tag != 69 || h.N != rs.N || h.K != rs.K ==>
                unchanged(this`bufs, this`cache, this`counters, this`perf)
      ensures Fits(h) && Has(old(cache), h.blockId) ==>
                && k == old(cache)[Find(old(cache), h.blockId)].value && cache == Touch(old(cache), h.blockId)
                && (!Proceeds(old(bufs), true, k, now) ==>
                    err == 0 && out == [] && unchanged(this`bufs, this`counters, this`perf))
      ensures Fits(h) && !Has(old(cache), h.blockId) ==>
                && old(cache) != [] && k == Eldest(old(cache)).value && Has(old(cache), Eldest(old(cache)).key)
                && if Proceeds(old(bufs), false, k, now)
                   then cache == Lru.Put(Lru.Remove(old(cache), Eldest(old(cache)).key), h.blockId, k)
                   else
                     && err == E_FEC_DECODER_BUFFER_FULL && out == []
                     && unchanged(this`bufs, this`cache, this`counters, this`perf)
      ensures Fits(h) && Proceeds(old(bufs), Has(old(cache), h.blockId), k, now) ==>
                Proceeded(old(bufs), bufs, k, Resets(old(bufs), Has(old(cache), h.blockId), k, now), h, input, size,
                          now, answers, err, out, old(counters), counters, old(perf), perf)
      ensures forall j: nat :: j + 1 < |out| ==> answers(j) == 0
      ensures out != [] && answers(|out| - 1) != 0 ==> err == answers(|out| - 1)
      ensures SparesLive(old(bufs), bufs, h, input, size, now, answers, err, out)
    {
      hide Fec.Valid, StepOf, CountsOf, IsBytes, Find, Touch, Lru.Remove, Lru.Put, Recycled, Objects, BufInv, PerfOf,
           Counted, Fresh;
      ObjectsApart();
      StateFacts();
      PerfIs();
      k := 0;
      if h.tag != NT_RS_FEC_TAG || h.N != rs.N || h.K != rs.K {
        return E_FEC_INVALID_HEADER, [], k;
      }
      var slot, go;
      err, slot, go := Locate(h.blockId, now);
      k := slot;
      out := [];
      PerfIs();
      if go {
        StateFacts();
        ghost var b, c := bufs[k], counters;
        ResetCounted(old(bufs)[k], h.blockId, old(counters));
        BufAt(k);
        err, out := Feed(slot, input, size, rs.N - 1 - h.blockIndex, now, answers);
        PerfIs();
        BufAt(k);
        StepCounted(b, bufs[k], rs.N - 1 - h.blockIndex, input, size, now, answers, err, out, c, counters);
      }
    }

    lemma PerfIs()
      requires Valid()
      ensures perf == PerfOf(counters)
      ensures forall j :: 0 <= j < |bufs| ==> BufInv(sh, bufs[j])
    {
      hide BufInv, CacheInv, CountersInv, Config.Valid, Lrumap.Valid, Order, PoolInv;
    }

    lemma ResetCounted(b: Buf, id: nat, c: Counters)
      requires sh.Valid() && BufInv(sh, b)
      ensures Fresh(id).arrivals == []
      ensures PerfOf(Recycled(sh, b, c)) ==
                PerfOf(c).(blockExpire := PerfOf(c).blockExpire + if 0 < |b.arrivals| < sh.K then 1 else 0)
    {
      hide Arrivals, DeliveredOnce, ContentsRight;
    }

    lemma StepCounted(b: Buf, b': Buf, degree: int, input: Bytes, size: int, now: int, answers: nat -> int, err: int,
                      out: seq<Output>, c: Counters, c': Counters)
      requires sh.Valid() && sh == Shape(rs.N, rs.K, rs.maxDataSize) && size <= |input|
      requires BufInv(sh, b) && BufInv(sh, b') && |b.arrivals| < sh.K
      requires StepOf(b, b', degree, input, size, now, answers, err, out) && CountsOf(b, b', degree, size, c, c')
      ensures Counted(rs.N, rs.K, b.arrivals, b'.arrivals, degree, PerfOf(c), PerfOf(c'))
      ensures !(err == E_FEC_INVALID_HEADER && out == [])
      ensures forall j: nat :: j + 1 < |out| ==> answers(j) == 0
      ensures out != [] && answers(|out| - 1) != 0 ==> err == answers(|out| - 1)
    {
      hide BufInv, Arrival, Outstanding, CountAccepted, CountRejected, Begun, Brought, Counted, PerfOf;
      if !Decoder.WellSized(rs, size, degree) || degree in Degrees(b.arrivals) {
        OthersAreCounted(sh, b, degree, c);
      } else {
        AcceptedIsCounted(sh, b, b', Arrival(degree, input[..size], sh.M, sh.T()), c);
      }
    }

    lemma BufAt(k: nat)
      requires Valid() && k < |bufs|
      ensures sh.Valid() && BufInv(sh, bufs[k]) && |bufs[k].arrivals| <= sh.K
    {
      hide CacheInv, CountersInv, Config.Valid, Lrumap.Valid, Order, PoolInv, Arrivals, DeliveredOnce, ContentsRight;
    }

    /** Every buffer is the one its block is found in, and no two have the same block. */
    lemma StateFacts()
      requires Valid()
      ensures rs.K <= rs.N && sh.Valid() && sh == Shape(rs.N, rs.K, rs.maxDataSize) && |cache| == |bufs| > 0
      ensures forall j :: 0 <= j < |bufs| ==>
                Has(cache, bufs[j].blockId) && cache[Find(cache, bufs[j].blockId)].value == j
      ensures forall i, j :: 0 <= i < |bufs| && 0 <= j < |bufs| && bufs[i].blockId == bufs[j].blockId ==> i == j
    {
      hide BufInv, CacheInv, CountersInv, Config.Valid, Find, Lrumap.Valid, Order;
      CacheFacts(cache, bufs, 0);
      forall j | 0 <= j < |bufs|
        ensures Has(cache, bufs[j].blockId) && cache[Find(cache, bufs[j].blockId)].value == j
        ensures forall i :: 0 <= i < |bufs| && bufs[i].blockId == bufs[j].blockId ==> i == j
      {
        CacheFinds(cache, bufs, j);
      }
    }

    /** What becomes of the counters. */
    ghost predicate CountsOf(b: Buf, b': Buf, degree: int, size: int, c: Counters, c': Counters) {
      && sh.Valid() && sh == Shape(rs.N, rs.K, rs.maxDataSize)
      && c' == if !Decoder.WellSized(rs, size, degree) then CountRejected(b, Begun(b, c))
               else if degree in Degrees(b.arrivals) then c
               else CountAccepted(sh, b, degree >= sh.T(), |Outstanding(sh, b')|, Begun(b, c))
    }

    /** What becomes of the block of a packet, before it is complete. */
    ghost predicate StepOf(b: Buf, b': Buf, degree: int, input: Bytes, size: int, now: int, answers: nat -> int,
                           err: int, out: seq<Output>) {
      if !(rs.K <= rs.N) || size > |input| || !Decoder.WellSized(rs, size, degree) then
        err == EINVAL && b' == b && out == []
      else if degree in Degrees(b.arrivals) then
        err == 0 && b' == b && out == []
      else
        && Grown(b, b', Arrival(degree, input[..size], rs.maxDataSize, rs.T()), out, now)
        && Answered(answers, out, b'.broken, b'.refused, err)
        && sh.Valid() && Brought(sh, b'.arrivals, |Outstanding(sh, b')|, degree, input[..size], out, b'.refused)
        && (b'.broken <==> |out| < |Direct(sh, degree, input[..size])| + |Outstanding(sh, b')|)
    }

  }

  /** A buffer has taken in one more packet and handed out to the callback. */
  ghost predicate Grown(b: Buf, b': Buf, p: Packet, out: seq<Output>, now: int) {
    && b'.blockId == b.blockId && b'.timestamp == now
    && b'.arrivals == b.arrivals + [p]
    && b.delivered <= b'.delivered && b'.contents == b.contents + out
  }

  lemma GrownFacts(b: Buf, b': Buf, p: Packet, out: seq<Output>, now: int)
    requires Grown(b, b', p, out, now)
    ensures b'.blockId == b.blockId && b'.timestamp == now && b'.arrivals == b.arrivals + [p]
    ensures |b'.arrivals| == |b.arrivals| + 1
  {
  }

  /** The raw degrees that remain to be restored. */
  ghost function Outstanding(sh: Shape, b: Buf): seq<nat> {
    if sh.Valid() && |b.arrivals| == sh.K && Below(Degrees(b.arrivals), 256)
    then LeftOut(b.arrivals, sh.N, sh.T())
    else []
  }

  lemma AcceptableBelow(sh: Shape, b: Buf, p: Packet)
    requires sh.Valid() && Acceptable(sh, b, p)
    ensures Below(Degrees(b.arrivals + [p]), 256)
    ensures forall b': Buf :: b'.arrivals == b.arrivals + [p] ==> Outstanding(sh, b') == ToRestore(sh, b, p)
  {
  }

  lemma RejectCounts(sh: Shape, bufs: seq<Buf>, k: nat, c: Counters)
    requires sh.Valid() && k < |bufs| && CountersInv(sh, bufs, c)
    ensures CountersInv(sh, bufs, CountRejected(bufs[k], Begun(bufs[k], c)))
  {
    hide Sum;
  }

  lemma NoBlocks(sh: Shape)
    requires sh.Valid()
    ensures CacheInv([], []) && CountersInv(sh, [], NoCounts)
  {
  }

  lemma AddFresh(sh: Shape, cache: Recency<nat, nat>, bufs: seq<Buf>, c: Counters)
    requires sh.Valid() && CacheInv(cache, bufs) && forall j :: 0 <= j < |bufs| ==> bufs[j] == Fresh(j)
    requires CountersInv(sh, bufs, c)
    ensures CacheInv(Put(cache, |bufs|, |bufs|), bufs + [Fresh(|bufs|)])
    ensures BufInv(sh, Fresh(|bufs|)) && CountersInv(sh, bufs + [Fresh(|bufs|)], c)
  {
    hide BufInv, Sum;
    FreshInv(sh, |bufs|);
    SumAppend(InProgress(sh), bufs, Fresh(|bufs|));
    SumAppend(Pending(sh), bufs, Fresh(|bufs|));
  }

  lemma RemovedIsSmaller(cache: Recency<nat, nat>, id: nat)
    requires cache != [] && Has(cache, Eldest(cache).key) && !Has(cache, id)
    ensures |Lru.Remove(cache, Eldest(cache).key)| == |cache| - 1 && !Has(Lru.Remove(cache, Eldest(cache).key), id)
  {
    hide Find;
  }

  lemma EldestPresent(cache: Recency<nat, nat>, bufs: seq<Buf>)
    requires CacheInv(cache, bufs) && bufs != []
    ensures cache != [] && Has(cache, Eldest(cache).key)
  {
    hide Find;
    RemoveEldest(cache);
  }

  lemma CacheFacts(cache: Recency<nat, nat>, bufs: seq<Buf>, id: nat)
    requires CacheInv(cache, bufs) && bufs != []
    ensures |cache| == |bufs| && Eldest(cache).value < |bufs|
    ensures Has(cache, id) ==> cache[Find(cache, id)].value < |bufs| && bufs[cache[Find(cache, id)].value].blockId == id
  {
    hide Find;
  }
}
