/**
 The blocks in the buffers of the decoder of src/main/tunnel/nt_rs_fec.c, as
 values: what has arrived of each block, when it last made progress, and which
 of its messages have been handed to the callback.
 */
module FecBlocks {
  import opened Collections
  import opened Erasures
  import opened Block
  import opened Bitmap
  import opened Missing
  import opened Decoding
  import opened Lru

  /** What the callback is given: a size, and the bytes if that is not negative. */
  datatype Output = Output(size: int, data: Bytes)

  /**
   The value of a decode_buffer_t. delivered lists the degrees whose messages
   were handed to the callback, and contents what it was given for each; broken
   says that some were not, because restoring one of them failed or, if refused, the
   callback did not accept one before them.
   */
  datatype Buf = Buf(blockId: nat, arrivals: seq<Packet>, timestamp: int, delivered: seq<nat>, contents: seq<Output>,
                     broken: bool, refused: bool)

  /** The size of a block, of its packets, and of its messages. */
  datatype Shape = Shape(N: nat, K: nat, M: nat) {
    ghost predicate Valid() {
      1 <= K < N <= 32
    }

    function T(): nat
      requires K <= N
    {
      N - K
    }
  }

  ghost predicate IsComplete(sh: Shape, b: Buf) {
    |b.arrivals| == sh.K
  }

  /** The arrivals are packets of the block of ms. */
  ghost predicate HonestBlock(sh: Shape, ps: seq<Packet>, ms: seq<Bytes>)
    requires sh.Valid()
  {
    |ms| == sh.K && AreMessages(ms, sh.M) && FromBlock(ps, ms, sh.M, sh.T())
  }

  /**
   A message is delivered at most once: when its packet arrives, or when the
   block is complete; and unless the block is broken, then for sure.
   */
  ghost predicate DeliveredOnce(sh: Shape, b: Buf)
    requires sh.Valid()
  {
    && Distinct(b.delivered)
    && (forall d :: d in b.delivered ==> sh.T() <= d < sh.N && (d in Degrees(b.arrivals) || IsComplete(sh, b)))
    && (forall d :: sh.T() <= d < sh.N && (d in Degrees(b.arrivals) || (IsComplete(sh, b) && !b.broken)) ==>
        d in b.delivered)
  }

  /** The outputs for the given degrees are the messages of the block. */
  ghost predicate Right(sh: Shape, ms: seq<Bytes>, degrees: seq<nat>, outs: seq<Output>)
    requires sh.Valid() && |ms| == sh.K
  {
    |degrees| == |outs| && forall i :: 0 <= i < |degrees| ==>
      sh.T() <= degrees[i] < sh.N && outs[i] == Output(|ms[sh.N - 1 - degrees[i]]|, ms[sh.N - 1 - degrees[i]])
  }

  /** If the arrivals are packets of one block, what was delivered are its messages. */
  ghost predicate ContentsRight(sh: Shape, b: Buf)
    requires sh.Valid()
  {
    |b.contents| == |b.delivered| && forall ms | HonestBlock(sh, b.arrivals, ms) ::
        Right(sh, ms, b.delivered, b.contents)
  }

  ghost predicate BufInv(sh: Shape, b: Buf)
    requires sh.Valid()
  {
    && Arrivals(b.arrivals, sh.M, sh.N)
    && Below(Degrees(b.arrivals), 256)
    && |b.arrivals| <= sh.K
    && b.timestamp >= 0
    && (b.timestamp == 0 <==> b.arrivals == [])
    && DeliveredOnce(sh, b) && ContentsRight(sh, b)
    && (b.broken ==> IsComplete(sh, b) && (b.refused || forall ms :: !HonestBlock(sh, b.arrivals, ms)))
    && (b.refused ==> b.broken)
  }

  /** reset_decode_buffer */
  function Fresh(blockId: nat): Buf {
    Buf(blockId, [], 0, [], [], false, false)
  }

  lemma FreshInv(sh: Shape, blockId: nat)
    requires sh.Valid()
    ensures BufInv(sh, Fresh(blockId))
  {
    assert Degrees([]) == [];
  }

  /** The messages to restore when packet p is accepted. */
  function ToRestore(sh: Shape, b: Buf, p: Packet): seq<nat>
    requires sh.Valid() && Below(Degrees(b.arrivals + [p]), 256)
  {
    if |b.arrivals| + 1 == sh.K then LeftOut(b.arrivals + [p], sh.N, sh.T()) else []
  }

  /** The degrees handed to the callback for a packet that is accepted, of which restored had to be restored. */
  function Deliveries(sh: Shape, b: Buf, p: Packet, restored: nat): seq<nat>
    requires sh.Valid() && Below(Degrees(b.arrivals + [p]), 256) && restored <= |ToRestore(sh, b, p)|
  {
    (if p.degree >= sh.T() then [p.degree] else []) + ToRestore(sh, b, p)[..restored]
  }

  /** A buffer that accepts a packet and delivers outs. */
  function Accept(sh: Shape, b: Buf, p: Packet, now: int, restored: nat, outs: seq<Output>, refused: bool): Buf
    requires sh.Valid() && Below(Degrees(b.arrivals + [p]), 256) && restored <= |ToRestore(sh, b, p)|
  {
    Buf(b.blockId, b.arrivals + [p], now, b.delivered + Deliveries(sh, b, p, restored), b.contents + outs,
        restored < |ToRestore(sh, b, p)|, refused)
  }

  /** The raw degrees that have not arrived, for small blocks. */
  lemma LeftOutMembers(ps: seq<Packet>, M: nat, N: nat, T: nat)
    requires Arrivals(ps, M, N) && Below(Degrees(ps), 256) && N <= 32
    ensures Distinct(LeftOut(ps, N, T))
    ensures forall d :: d in LeftOut(ps, N, T) <==> T <= d < N && d !in Degrees(ps)
  {
    hide Unset, MaskOf, IsSet, Width;
    UnsetMembers(MaskOf(Degrees(ps)), T, N);
    DescendingIsDistinct(LeftOut(ps, N, T));
    assert Below(Degrees(ps), 32);
    forall d: nat | T <= d < N ensures d in LeftOut(ps, N, T) <==> d !in Degrees(ps) {
      FaithfulBelow32(Degrees(ps), d);
    }
  }

  lemma AppendDistinct(a: seq<nat>, b: seq<nat>)
    requires Distinct(a) && Distinct(b) && forall x :: x in b ==> x !in a
    ensures Distinct(a + b)
  {
    var s := a + b;
    forall i, j | 0 <= i < j < |s| ensures s[i] != s[j] {
      if i < |a| <= j {
        assert s[j] in b && s[i] in a;
      }
    }
  }

  /** The packet is new to the buffer, which is not complete. */
  ghost predicate Acceptable(sh: Shape, b: Buf, p: Packet)
    requires sh.Valid()
  {
    && |b.arrivals| < sh.K && p.degree < sh.N
    && Arrivals(b.arrivals + [p], sh.M, sh.N) && Below(Degrees(b.arrivals + [p]), 256)
    && Degrees(b.arrivals + [p]) == Degrees(b.arrivals) + [p.degree] && p.degree !in Degrees(b.arrivals)
  }

  /** What an accepted packet delivers. */
  lemma DeliveriesMembers(sh: Shape, b: Buf, p: Packet, restored: nat)
    requires sh.Valid() && Acceptable(sh, b, p) && restored <= |ToRestore(sh, b, p)|
    ensures Distinct(Deliveries(sh, b, p, restored))
    ensures forall d :: d in Deliveries(sh, b, p, restored) ==>
              sh.T() <= d < sh.N && d !in Degrees(b.arrivals) && (d == p.degree || |b.arrivals| + 1 == sh.K)
    ensures p.degree >= sh.T() ==> p.degree in Deliveries(sh, b, p, restored)
    ensures |b.arrivals| + 1 == sh.K && restored == |ToRestore(sh, b, p)| ==>
              forall d :: sh.T() <= d < sh.N && d !in Degrees(b.arrivals) ==> d in Deliveries(sh, b, p, restored)
  {
    hide LeftOut, Arrivals, Below;
    LeftOutMembers(b.arrivals + [p], sh.M, sh.N, sh.T());
    var first: seq<nat> := if p.degree >= sh.T() then [p.degree] else [];
    var all := ToRestore(sh, b, p);
    var rest := all[..restored];
    assert Degrees(b.arrivals + [p])[|b.arrivals|] == p.degree;
    assert restored == |all| ==> rest == all;
    assert forall x :: x in rest ==> x in all;
    assert forall x :: x in Degrees(b.arrivals + [p]) <==> x in Degrees(b.arrivals) || x == p.degree;
    AppendDistinct(first, rest);
    assert p.degree >= sh.T() ==> first[0] == p.degree;
  }

  lemma AcceptKeepsDelivered(sh: Shape, b: Buf, p: Packet, now: int, restored: nat, outs: seq<Output>, refused: bool)
    requires sh.Valid() && BufInv(sh, b) && Acceptable(sh, b, p) && restored <= |ToRestore(sh, b, p)|
    ensures DeliveredOnce(sh, Accept(sh, b, p, now, restored, outs, refused))
  {
    hide Deliveries, Arrivals, ToRestore, HonestBlock, Below, ContentsRight;
    DeliveriesMembers(sh, b, p, restored);
    AppendDistinct(b.delivered, Deliveries(sh, b, p, restored));
  }

  lemma HonestPrefix(sh: Shape, ps: seq<Packet>, p: Packet, ms: seq<Bytes>)
    requires sh.Valid() && HonestBlock(sh, ps + [p], ms)
    ensures HonestBlock(sh, ps, ms) && p.degree < sh.N && p.payload == Payload(ms, sh.M, sh.T(), p.degree)
  {
    hide AreMessages, Payload;
    var all := ps + [p];
    assert all[|ps|] == p;
    forall i | 0 <= i < |ps|
      ensures ps[i].degree < sh.T() + |ms| && ps[i].payload == Payload(ms, sh.M, sh.T(), ps[i].degree)
    {
      assert all[i] == ps[i];
    }
  }

  lemma RightAppend(sh: Shape, ms: seq<Bytes>, d1: seq<nat>, o1: seq<Output>, d2: seq<nat>, o2: seq<Output>)
    requires sh.Valid() && |ms| == sh.K && Right(sh, ms, d1, o1) && Right(sh, ms, d2, o2)
    ensures Right(sh, ms, d1 + d2, o1 + o2)
  {
  }

  lemma AcceptKeepsContents(sh: Shape, b: Buf, p: Packet, now: int, restored: nat, outs: seq<Output>, refused: bool)
    requires sh.Valid() && ContentsRight(sh, b) && Below(Degrees(b.arrivals + [p]), 256)
    requires restored <= |ToRestore(sh, b, p)|
    requires |outs| == |Deliveries(sh, b, p, restored)|
    requires forall ms | HonestBlock(sh, b.arrivals + [p], ms) :: Right(sh, ms, Deliveries(sh, b, p, restored), outs)
    ensures ContentsRight(sh, Accept(sh, b, p, now, restored, outs, refused))
  {
    hide Deliveries, HonestBlock, Right, Below, ToRestore;
    forall ms | HonestBlock(sh, b.arrivals + [p], ms)
      ensures |ms| == sh.K && Right(sh, ms, b.delivered + Deliveries(sh, b, p, restored), b.contents + outs)
    {
      HonestPrefix(sh, b.arrivals, p, ms);
      HonestSize(sh, b.arrivals, ms);
      RightAppend(sh, ms, b.delivered, b.contents, Deliveries(sh, b, p, restored), outs);
    }
  }

  lemma HonestSize(sh: Shape, ps: seq<Packet>, ms: seq<Bytes>)
    requires sh.Valid() && HonestBlock(sh, ps, ms)
    ensures |ms| == sh.K && AreMessages(ms, sh.M)
  {
  }

  /** Accepting a packet keeps the invariant of a buffer. */
  lemma AcceptInv(sh: Shape, b: Buf, p: Packet, now: int, restored: nat, outs: seq<Output>, refused: bool)
    requires sh.Valid() && BufInv(sh, b) && Acceptable(sh, b, p) && now > 0 && restored <= |ToRestore(sh, b, p)|
    requires restored < |ToRestore(sh, b, p)| ==> refused || forall ms :: !HonestBlock(sh, b.arrivals + [p], ms)
    requires refused ==> restored < |ToRestore(sh, b, p)|
    requires |outs| == |Deliveries(sh, b, p, restored)|
    requires forall ms | HonestBlock(sh, b.arrivals + [p], ms) :: Right(sh, ms, Deliveries(sh, b, p, restored), outs)
    ensures BufInv(sh, Accept(sh, b, p, now, restored, outs, refused))
  {
    hide Deliveries, HonestBlock, DeliveredOnce, ContentsRight, LeftOut, Below;
    AcceptKeepsDelivered(sh, b, p, now, restored, outs, refused);
    AcceptKeepsContents(sh, b, p, now, restored, outs, refused);
  }

  /**
   When all packets were packets of one block, and the callback accepted what it was
   given, a complete buffer has handed every message of the block to it exactly once,
   byte for byte.
   */
  lemma CompleteDeliversAll(sh: Shape, b: Buf, ms: seq<Bytes>)
    requires sh.Valid() && BufInv(sh, b) && IsComplete(sh, b) && HonestBlock(sh, b.arrivals, ms) && !b.refused
    ensures |b.contents| == |b.delivered| == |ms| == sh.K && Distinct(b.delivered)
    ensures Right(sh, ms, b.delivered, b.contents)
    ensures forall d :: d in b.delivered <==> sh.T() <= d < sh.N
  {
    hide Arrivals, HonestBlock, Below;
    HonestSize(sh, b.arrivals, ms);
    DistinctSize(b.delivered);
    assert Elements(b.delivered) == Range(sh.T(), sh.N);
  }

  ghost function Range(lo: nat, hi: nat): (r: set<nat>)
    requires lo <= hi
    ensures |r| == hi - lo && forall x :: x in r <==> lo <= x < hi
  {
    if lo == hi then {} else Range(lo, hi - 1) + {hi - 1}
  }

  // ----- Raw and restored messages.

  /** The raw packets among the arrivals. */
  function RawDegrees(ps: seq<Packet>, T: nat): seq<nat> {
    if ps == [] then []
    else RawDegrees(ps[..|ps| - 1], T) + if ps[|ps| - 1].degree >= T then [ps[|ps| - 1].degree] else []
  }

  lemma {:induction false} RawMembers(ps: seq<Packet>, T: nat)
    requires Distinct(Degrees(ps))
    ensures Distinct(RawDegrees(ps, T))
    ensures forall d :: d in RawDegrees(ps, T) <==> d >= T && d in Degrees(ps)
  {
    if ps != [] {
      var n := |ps| - 1;
      assert Degrees(ps) == Degrees(ps[..n]) + [ps[n].degree];
      assert Degrees(ps)[..n] == Degrees(ps[..n]);
      RawMembers(ps[..n], T);
      var last: seq<nat> := if ps[n].degree >= T then [ps[n].degree] else [];
      AppendDistinct(RawDegrees(ps[..n], T), last);
    }
  }

  /** Where the raw packets are among the arrivals. */
  ghost function RawPlaces(ps: seq<Packet>, T: nat): set<nat> {
    set i: nat | i < |ps| && ps[i].degree >= T
  }

  ghost predicate AllRaw(ps: seq<Packet>, T: nat) {
    forall i :: 0 <= i < |ps| ==> ps[i].degree >= T
  }

  lemma RawPlacesStep(ps: seq<Packet>, T: nat)
    requires ps != []
    ensures var n := |ps| - 1;
            && n !in RawPlaces(ps[..n], T)
            && RawPlaces(ps, T) == RawPlaces(ps[..n], T) + if ps[n].degree >= T then {n} else {}
  {
  }

  lemma {:induction false} RawNumber(ps: seq<Packet>, T: nat)
    ensures |RawDegrees(ps, T)| == |RawPlaces(ps, T)| <= |ps|
    ensures |RawPlaces(ps, T)| == |ps| <==> AllRaw(ps, T)
  {
    hide RawPlaces;
    if ps == [] {
      NoRawPlaces(T);
    } else {
      var n := |ps| - 1;
      RawNumber(ps[..n], T);
      RawPlacesStep(ps, T);
      AllRawStep(ps, T);
    }
  }

  lemma NoRawPlaces(T: nat)
    ensures RawPlaces([], T) == {}
  {
  }

  lemma AllRawStep(ps: seq<Packet>, T: nat)
    requires ps != []
    ensures AllRaw(ps, T) <==> ps[|ps| - 1].degree >= T && AllRaw(ps[..|ps| - 1], T)
  {
    var front := ps[..|ps| - 1];
    assert forall i :: 0 <= i < |front| ==> front[i] == ps[i];
  }

  /** What COUNTER_DECODER_RAW and COUNTER_DECODER_RESTORE count for a complete block sums to K. */
  lemma RawAndRestoredSumToK(sh: Shape, ps: seq<Packet>)
    requires sh.Valid() && Arrivals(ps, sh.M, sh.N) && Below(Degrees(ps), 256) && |ps| == sh.K
    ensures |RawDegrees(ps, sh.T())| + |LeftOut(ps, sh.N, sh.T())| == sh.K
  {
    hide RawDegrees, LeftOut, Width;
    var raw, missing := RawDegrees(ps, sh.T()), LeftOut(ps, sh.N, sh.T());
    RawMembers(ps, sh.T());
    LeftOutMembers(ps, sh.M, sh.N, sh.T());
    assert forall d :: d in Degrees(ps) ==> d < sh.N;
    AppendDistinct(raw, missing);
    DistinctSize(raw + missing);
    assert Elements(raw + missing) == Range(sh.T(), sh.N);
  }

  // ----- The cache of buffers.

  /** The cache is full, and maps the block id of every buffer to that buffer. */
  ghost predicate CacheInv(cache: Recency<nat, nat>, bufs: seq<Buf>) {
    && |cache| == |bufs|
    && DistinctKeys(cache)
    && (forall i, j :: 0 <= i < j < |cache| ==> cache[i].value != cache[j].value)
    && (forall i :: 0 <= i < |cache| ==> cache[i].value < |bufs| && bufs[cache[i].value].blockId == cache[i].key)
  }

  /** As many distinct slots as there are buffers are all of them. */
  lemma CacheIsOnto(cache: Recency<nat, nat>, bufs: seq<Buf>, k: nat)
    requires CacheInv(cache, bufs) && k < |bufs|
    ensures exists i :: 0 <= i < |cache| && cache[i].value == k && cache[i].key == bufs[k].blockId
  {
    var slots := seq(|cache|, i requires 0 <= i < |cache| => cache[i].value);
    hide DistinctKeys;
    DistinctSize(slots);
    assert Elements(slots) <= Initial(|bufs|);
    SameSize(Elements(slots), Initial(|bufs|));
    assert k in slots;
    var i :| 0 <= i < |slots| && slots[i] == k;
    assert cache[i].value == k;
  }

  /** Keys and buffers correspond one to one: the block of a buffer is found in that buffer only. */
  lemma CacheFinds(cache: Recency<nat, nat>, bufs: seq<Buf>, k: nat)
    requires CacheInv(cache, bufs) && k < |bufs|
    ensures Has(cache, bufs[k].blockId) && cache[Find(cache, bufs[k].blockId)].value == k
    ensures forall j :: 0 <= j < |bufs| && bufs[j].blockId == bufs[k].blockId ==> j == k
  {
    hide Find;
    CacheIsOnto(cache, bufs, k);
    var i :| 0 <= i < |cache| && cache[i].value == k && cache[i].key == bufs[k].blockId;
    FindAt(cache, i);
    forall j | 0 <= j < |bufs| && bufs[j].blockId == bufs[k].blockId ensures j == k {
      CacheIsOnto(cache, bufs, j);
    }
  }

  lemma TouchKeepsCache(cache: Recency<nat, nat>, bufs: seq<Buf>, id: nat)
    requires CacheInv(cache, bufs) && Has(cache, id)
    ensures CacheInv(Touch(cache, id), bufs)
  {
    TouchKeepsDistinct(cache, id);
    hide Find, DistinctKeys;
  }

  lemma CacheSameIds(cache: Recency<nat, nat>, bufs: seq<Buf>, k: nat, b: Buf)
    requires CacheInv(cache, bufs) && k < |bufs| && b.blockId == bufs[k].blockId
    ensures CacheInv(cache, bufs[k := b])
  {
    hide DistinctKeys;
  }

  /** Handing the eldest buffer to a new block. */
  lemma EvictKeepsCache(cache: Recency<nat, nat>, bufs: seq<Buf>, id: nat, b: Buf)
    requires CacheInv(cache, bufs) && cache != [] && !Has(cache, id) && b.blockId == id
    ensures Has(cache, Eldest(cache).key) && Eldest(cache).value < |bufs|
    ensures CacheInv(Put(Remove(cache, Eldest(cache).key), id, Eldest(cache).value), bufs[Eldest(cache).value := b])
  {
    RemoveEldest(cache);
    var k := Eldest(cache).value;
    var c := Put(Remove(cache, Eldest(cache).key), id, k);
    forall i, j | 0 <= i < j < |c| ensures c[i].key != c[j].key {
    }
  }

  // ----- Counters.

  /** The sum of a weight over all buffers. */
  ghost function Sum(weight: Buf -> nat, bufs: seq<Buf>): nat {
    if bufs == [] then 0 else Sum(weight, bufs[1..]) + weight(bufs[0])
  }

  lemma {:induction false} SumChanges(weight: Buf -> nat, bufs: seq<Buf>, k: nat, b: Buf)
    requires k < |bufs|
    ensures Sum(weight, bufs[k := b]) + weight(bufs[k]) == Sum(weight, bufs) + weight(b)
  {
    if k == 0 {
      assert bufs[k := b][1..] == bufs[1..];
    } else {
      assert bufs[k := b][1..] == bufs[1..][k - 1 := b];
      SumChanges(weight, bufs[1..], k - 1, b);
    }
  }

  lemma {:induction false} SumAppend(weight: Buf -> nat, bufs: seq<Buf>, b: Buf)
    ensures Sum(weight, bufs + [b]) == Sum(weight, bufs) + weight(b)
  {
    if bufs == [] {
      assert [b][1..] == [] && bufs + [b] == [b];
    } else {
      assert (bufs + [b])[1..] == bufs[1..] + [b];
      SumAppend(weight, bufs[1..], b);
    }
  }

  /** The blocks that have begun and are not complete. */
  ghost function InProgress(sh: Shape): Buf -> nat {
    (b: Buf) => if 0 < |b.arrivals| < sh.K then 1 else 0
  }

  /** The raw packets that have arrived of blocks that are not complete. */
  ghost function Pending(sh: Shape): Buf -> nat
    requires sh.Valid()
  {
    (b: Buf) => if |b.arrivals| < sh.K then |RawDegrees(b.arrivals, sh.T())| else 0
  }

  /**
   The COUNTER_DECODER_* counters; beside them, rejected counts the blocks whose
   first packet rs_decode refused, and expiredRaw the raw packets of expired blocks.
   */
  datatype Counters = Counters(blockCount: nat, blockComplete: nat, blockRestore: nat, blockExpire: nat,
                               raw: nat, restore: nat, rejected: nat, expiredRaw: nat)

  const NoCounts := Counters(0, 0, 0, 0, 0, 0, 0, 0)

  /**
   Every block counted has completed, been restored, expired, been refused, or is
   in progress; every message counted belongs to one of the K of a block that is
   complete, to a block that expired or to one in progress.
   */
  ghost predicate CountersInv(sh: Shape, bufs: seq<Buf>, c: Counters)
    requires sh.Valid()
  {
    && c.blockComplete + c.blockRestore + c.blockExpire + c.rejected + Sum(InProgress(sh), bufs) == c.blockCount
    && c.raw + c.restore == sh.K * (c.blockComplete + c.blockRestore) + c.expiredRaw + Sum(Pending(sh), bufs)
  }
}
