/**
 When a message is handed out a second time: exactly which messages a packet
 brings out of the decoder of src/main/tunnel/nt_rs_fec.c, for how long the
 decoder remembers a block that is complete, and what it does afterwards.
 */
module Redelivery {
  import opened Collections
  import opened Block
  import opened Rs
  import opened RsDecoder
  import opened Decoding
  import opened Outcome
  import opened RoundTrip
  import opened Lru
  import opened FecMemory
  import opened HashMap
  import opened LruStore
  import opened FecBlocks
  import opened DecodePool
  import opened RsFec
  import opened FecHeaders
  import opened RsFecEncoder
  import opened FecRun

  // ----- What one packet brings out.

  /** The block is in its buffer, begun, incomplete and not expired. */
  ghost predicate Continues(fec: Fec, id: nat, now: int)
    reads fec
  {
    Has(fec.cache, id) && var k := fec.cache[Find(fec.cache, id)].value; k < |fec.bufs| && fec.Live(fec.bufs[k], now)
  }

  /** What a packet of the block meets: a block that begins, or the one in progress. */
  ghost function Met(fec: Fec, id: nat, now: int): Buf
    requires Welcomes(fec, id, now) || Continues(fec, id, now)
    reads fec
  {
    if Welcomes(fec, id, now) then Fresh(id) else fec.bufs[fec.cache[Find(fec.cache, id)].value]
  }

  /**
   Message r is due when packet d comes, and the buffer holds ps: packet d is new,
   and r has not come; and d is the message's own packet, or completes the block.
   */
  ghost predicate DueOn(sh: Shape, ps: seq<Packet>, d: int, r: int)
    requires sh.Valid()
  {
    && sh.T() <= r < sh.N && d !in Degrees(ps) && r !in Degrees(ps)
    && (r == d || |ps| + 1 == sh.K)
  }

  ghost predicate DueNow(fec: Fec, id: nat, now: int, d: int, r: int)
    requires fec.sh.Valid()
    reads fec
  {
    (Welcomes(fec, id, now) || Continues(fec, id, now)) && DueOn(fec.sh, Met(fec, id, now).arrivals, d, r)
  }

  /** A buffer in which nothing has arrived is as after a reset. */
  lemma EmptyIsFresh(sh: Shape, b: Buf)
    requires sh.Valid() && BufInv(sh, b) && b.timestamp == 0
    ensures b == Fresh(b.blockId)
  {
    hide HonestBlock, Arrivals, Below;
    HasMember(b.delivered, 0);
  }

  lemma NothingArrived(sh: Shape, ms: seq<Bytes>)
    requires sh.Valid() && |ms| == sh.K && AreMessages(ms, sh.M)
    ensures HonestBlock(sh, [], ms)
  {
    hide AreMessages;
  }

  /** Of an honest block exactly the messages that have arrived are delivered, and all of them once it is complete. */
  lemma DeliveredMembers(sh: Shape, b: Buf, ms: seq<Bytes>)
    requires sh.Valid() && BufInv(sh, b) && HonestBlock(sh, b.arrivals, ms) && !b.refused
    ensures forall r :: r in b.delivered <==> sh.T() <= r < sh.N && (r in Degrees(b.arrivals) || IsComplete(sh, b))
    ensures |b.contents| == |b.delivered| && |ms| == sh.K && Right(sh, ms, b.delivered, b.contents)
    ensures Distinct(b.delivered)
  {
    hide HonestBlock, Arrivals, Below;
    HonestSize(sh, b.arrivals, ms);
  }

  lemma RightSuffix(sh: Shape, ms: seq<Bytes>, first: seq<nat>, rest: seq<nat>, o1: seq<Output>, o2: seq<Output>)
    requires sh.Valid() && |ms| == sh.K && |first| == |o1| && Right(sh, ms, first + rest, o1 + o2)
    ensures Right(sh, ms, rest, o2)
  {
    var degrees, outs := first + rest, o1 + o2;
    forall i | 0 <= i < |rest|
      ensures sh.T() <= rest[i] < sh.N && o2[i] == Output(|ms[sh.N - 1 - rest[i]]|, ms[sh.N - 1 - rest[i]])
    {
      assert degrees[|first| + i] == rest[i] && outs[|first| + i] == o2[i];
    }
  }

  lemma DistinctSuffix(first: seq<nat>, rest: seq<nat>)
    requires Distinct(first + rest)
    ensures Distinct(rest) && forall r :: r in rest <==> r in first + rest && r !in first
  {
    var all := first + rest;
    assert forall i :: 0 <= i < |rest| ==> rest[i] == all[|first| + i];
    assert forall i :: 0 <= i < |first| ==> first[i] == all[i];
  }

  /** What a packet of an honest block brings out of the buffer it meets. */
  lemma StepHands(fec: Fec, b: Buf, b': Buf, d: nat, input: Bytes, now: int, err: int, out: seq<Output>, ms: seq<Bytes>)
      returns (degrees: seq<nat>)
    requires fec.sh.Valid() && fec.sh == Shape(fec.rs.N, fec.rs.K, fec.rs.maxDataSize) && d < fec.sh.N
    requires BufInv(fec.sh, b) && BufInv(fec.sh, b') && |b.arrivals| < fec.sh.K && |ms| == fec.sh.K
    requires AreMessages(ms, fec.sh.M)
    requires d !in Degrees(b.arrivals) ==> HonestBlock(fec.sh, b.arrivals, ms)
    requires Decoder.WellSized(fec.rs, |input|, d)
    requires Arrival(d, input, fec.sh.M, fec.sh.T()).degree == d
    requires Arrival(d, input, fec.sh.M, fec.sh.T()).payload == Payload(ms, fec.sh.M, fec.sh.T(), d)
    requires fec.StepOf(b, b', d, input, |input|, now, Accepting(), err, out)
    ensures Right(fec.sh, ms, degrees, out) && Distinct(degrees)
    ensures forall r :: r in degrees <==> DueOn(fec.sh, b.arrivals, d, r)
  {
    hide BufInv, HonestBlock, AreMessages, Payload, Arrival, Right, Decoder.WellSized;
    if d in Degrees(b.arrivals) {
      degrees := [];
      NothingHanded(fec.sh, ms);
    } else {
      assert input[..|input|] == input;
      WellSizedFacts(fec.rs, fec.sh, |input|, d);
      HonestAppend(fec.sh, b.arrivals, Arrival(d, input, fec.sh.M, fec.sh.T()), ms);
      degrees := NewlyDelivered(fec.sh, b, b', d, out, ms);
    }
  }

  lemma NothingHanded(sh: Shape, ms: seq<Bytes>)
    requires sh.Valid() && |ms| == sh.K
    ensures Right(sh, ms, [], [])
  {
  }

  lemma NotRefused(sh: Shape, b: Buf)
    requires sh.Valid() && BufInv(sh, b) && |b.arrivals| < sh.K
    ensures !b.refused
  {
    hide HonestBlock, Arrivals, Below;
  }

  lemma NewlyDelivered(sh: Shape, b: Buf, b': Buf, d: nat, out: seq<Output>, ms: seq<Bytes>) returns (degrees: seq<nat>)
    requires sh.Valid() && BufInv(sh, b) && BufInv(sh, b') && |b.arrivals| < sh.K && d < sh.N
    requires d !in Degrees(b.arrivals)
    requires HonestBlock(sh, b.arrivals, ms) && HonestBlock(sh, b'.arrivals, ms)
    requires Degrees(b'.arrivals) == Degrees(b.arrivals) + [d] && |b'.arrivals| == |b.arrivals| + 1
    requires b.delivered <= b'.delivered && b'.contents == b.contents + out && !b'.refused
    ensures |ms| == sh.K && Right(sh, ms, degrees, out) && Distinct(degrees)
    ensures forall r :: r in degrees <==> DueOn(sh, b.arrivals, d, r)
  {
    hide BufInv, HonestBlock, Right;
    NotRefused(sh, b);
    DeliveredMembers(sh, b, ms);
    DeliveredMembers(sh, b', ms);
    degrees := b'.delivered[|b.delivered|..];
    assert b'.delivered == b.delivered + degrees;
    RightSuffix(sh, ms, b.delivered, degrees, b.contents, out);
    DistinctSuffix(b.delivered, degrees);
    forall r ensures r in degrees <==> DueOn(sh, b.arrivals, d, r) {
      assert r in Degrees(b'.arrivals) <==> r in Degrees(b.arrivals) || r == d;
    }
  }

  /** The three ways a packet can find its block in the cache, beside an unbegun one. */
  lemma CachedCases(fec: Fec, id: nat, now: int)
    requires fec.Valid() && Has(fec.cache, id)
    ensures fec.sh.Valid()
    ensures var k := fec.cache[Find(fec.cache, id)].value;
            && k < |fec.bufs| && fec.bufs[k].blockId == id
            && (Welcomes(fec, id, now) <==>
                fec.bufs[k].timestamp == 0 || now - fec.bufs[k].timestamp > fec.decodeTimeout)
            && (fec.bufs[k].timestamp == 0 ==> fec.bufs[k] == Fresh(id))
            && (Continues(fec, id, now) <==> fec.Live(fec.bufs[k], now))
            && BufInv(fec.sh, fec.bufs[k]) && (IsComplete(fec.sh, fec.bufs[k]) ==> fec.bufs[k].timestamp > 0)
            && |fec.bufs[k].arrivals| <= fec.sh.K && fec.bufs[k].timestamp >= 0
  {
    hide Fec.Valid, Find, BufInv;
    fec.Cached(id);
    fec.Shapes();
    var b := fec.bufs[fec.cache[Find(fec.cache, id)].value];
    BufFacts(fec.sh, b);
    if b.timestamp == 0 {
      EmptyIsFresh(fec.sh, b);
    }
  }

  lemma UncachedCases(fec: Fec, id: nat, now: int)
    requires fec.Valid() && !Has(fec.cache, id)
    ensures !Continues(fec, id, now) && (Welcomes(fec, id, now) <==> fec.RoomAt(now))
    ensures fec.cache != [] && Eldest(fec.cache).value < |fec.bufs|
  {
    hide Fec.Valid, Find;
    fec.Cached(id);
  }

  /** The buffer of the block if it is cached, and otherwise the eldest. */
  ghost function Place(fec: Fec, id: nat): nat
    requires fec.cache != []
    reads fec
  {
    if Has(fec.cache, id) then fec.cache[Find(fec.cache, id)].value else Eldest(fec.cache).value
  }

  /** A packet proceeds exactly if its block finds room or is in progress, and then it meets what Met says. */
  lemma ProceedsIff(fec: Fec, id: nat, now: int)
    requires fec.Valid()
    ensures fec.cache != [] && Place(fec, id) < |fec.bufs|
    ensures var has, k := Has(fec.cache, id), Place(fec, id);
            && (fec.Proceeds(fec.bufs, has, k, now) <==> Welcomes(fec, id, now) || Continues(fec, id, now))
            && (fec.Proceeds(fec.bufs, has, k, now) ==>
                Met(fec, id, now) == if fec.Resets(fec.bufs, has, k, now) then Fresh(id) else fec.bufs[k])
  {
    hide Fec.Valid, Find, BufInv;
    fec.Cached(id);
    if Has(fec.cache, id) {
      CachedCases(fec, id, now);
    } else {
      UncachedCases(fec, id, now);
    }
  }

  /**
   For every packet of a block and every message: the message is handed out if and
   only if it is due, and then once and byte for byte. If the block neither finds
   room for a beginning nor is in progress, nothing comes out.
   */
  method HandOut(fec: Fec, e: Event, id: nat, ghost ms: seq<Bytes>)
      returns (out: seq<Output>, ghost degrees: seq<nat>, ghost k: nat)
    requires fec.Valid() && fec.sh.Valid() && fec.rs.K < fec.rs.N && e.header.blockId == id
    requires |ms| == fec.rs.K && AreMessages(ms, fec.rs.maxDataSize) && Genuine([e], fec.rs, id, ms)
    requires Continues(fec, id, e.now)
             && fec.rs.N - 1 - e.header.blockIndex !in Degrees(Met(fec, id, e.now).arrivals) ==>
               HonestBlock(fec.sh, Met(fec, id, e.now).arrivals, ms)
    modifies fec`bufs, fec`slots, fec`perf, fec`cache, fec`counters, fec.lru, fec.lru.table, Objects(fec.pool)
    ensures fec.Valid() && |ms| == fec.sh.K && Right(fec.sh, ms, degrees, out) && Distinct(degrees)
    ensures forall r :: r in degrees <==> old(DueNow(fec, id, e.now, fec.rs.N - 1 - e.header.blockIndex, r))
    ensures old(Welcomes(fec, id, e.now)) ==>
              Has(fec.cache, id) && k < |fec.bufs| && fec.bufs[k].blockId == id && fec.bufs[k].timestamp == e.now
  {
    hide Fec.Valid, AreMessages, IsBytes, Fec.StepOf, Fec.CountsOf, Objects, BufInv, Find, Touch, Put, Remove,
         IsPacketOf, Genuine, DueOn, Right, HonestBlock, Welcomes, Continues, Met, Fec.Proceeds, Fec.Resets;
    GenuineAt([e], fec.rs, id, ms, 0);
    fec.Shapes();
    ProceedsIff(fec, id, e.now);
    WelcomesIsMet(fec, id, e.now);
    ghost var goes := Welcomes(fec, id, e.now) || Continues(fec, id, e.now);
    ghost var b := if goes then Met(fec, id, e.now) else Fresh(id);
    if goes {
      MetFacts(fec, id, e.now, fec.rs.N - 1 - e.header.blockIndex, ms);
    }
    var err;
    err, out, k := fec.Decode(e.header, e.input, |e.input|, e.now, Accepting());
    if goes {
      fec.StateFacts();
      degrees := EventHands(fec, b, k, e, id, err, out, ms);
    } else {
      degrees := [];
      NothingHanded(fec.sh, ms);
    }
  }

  lemma EventHands(fec: Fec, b: Buf, k: nat, e: Event, id: nat, err: int, out: seq<Output>, ms: seq<Bytes>)
      returns (degrees: seq<nat>)
    requires fec.Valid() && fec.sh.Valid() && k < |fec.bufs| && |ms| == fec.rs.K && AreMessages(ms, fec.rs.maxDataSize)
    requires IsPacketOf(Wire(e.header, e.input), fec.rs, id, e.header.blockIndex, ms)
    requires BufInv(fec.sh, b) && |b.arrivals| < fec.sh.K
    requires fec.rs.N - 1 - e.header.blockIndex !in Degrees(b.arrivals) ==> HonestBlock(fec.sh, b.arrivals, ms)
    requires fec.StepOf(b, fec.bufs[k], fec.rs.N - 1 - e.header.blockIndex, e.input, |e.input|, e.now, Accepting(), err,
                        out)
    ensures |ms| == fec.sh.K && Right(fec.sh, ms, degrees, out) && Distinct(degrees)
    ensures forall r :: r in degrees <==> DueOn(fec.sh, b.arrivals, fec.rs.N - 1 - e.header.blockIndex, r)
    ensures b.arrivals == [] ==> fec.bufs[k].timestamp == e.now
  {
    hide Fec.Valid, AreMessages, IsBytes, Fec.StepOf, BufInv, IsPacketOf, DueOn, Right, HonestBlock, Decoder.WellSized,
         Arrival, Payload;
    fec.Shapes();
    fec.StateFacts();
    PacketIsLegal(Wire(e.header, e.input), fec.rs, fec.sh, id, e.header.blockIndex, ms);
    degrees := StepHands(fec, b, fec.bufs[k], fec.rs.N - 1 - e.header.blockIndex, e.input, e.now, err, out, ms);
    StepStamp(fec, b, fec.bufs[k], fec.rs.N - 1 - e.header.blockIndex, e.input, e.now, err, out);
  }

  lemma WelcomesIsMet(fec: Fec, id: nat, now: int)
    ensures Welcomes(fec, id, now) ==> Met(fec, id, now) == Fresh(id)
  {
    hide Welcomes;
  }

  lemma StepStamp(fec: Fec, b: Buf, b': Buf, d: nat, input: Bytes, now: int, err: int, out: seq<Output>)
    requires fec.rs.K <= fec.rs.N && Decoder.WellSized(fec.rs, |input|, d)
    requires fec.StepOf(b, b', d, input, |input|, now, Accepting(), err, out)
    ensures b.arrivals == [] ==> b'.timestamp == now
  {
    hide Arrival;
  }

  lemma MetFacts(fec: Fec, id: nat, now: int, d: int, ms: seq<Bytes>)
    requires fec.Valid() && fec.sh.Valid() && |ms| == fec.sh.K && AreMessages(ms, fec.sh.M)
    requires Welcomes(fec, id, now) || Continues(fec, id, now)
    requires Continues(fec, id, now) && d !in Degrees(Met(fec, id, now).arrivals) ==>
              HonestBlock(fec.sh, Met(fec, id, now).arrivals, ms)
    ensures var b := Met(fec, id, now);
            && BufInv(fec.sh, b) && |b.arrivals| < fec.sh.K
            && (d !in Degrees(b.arrivals) ==> HonestBlock(fec.sh, b.arrivals, ms))
  {
    hide Fec.Valid, Find, BufInv, HonestBlock, AreMessages, Welcomes;
    if Welcomes(fec, id, now) {
      FreshInv(fec.sh, id);
      NothingArrived(fec.sh, ms);
    } else {
      CachedCases(fec, id, now);
    }
  }

  lemma OneRightOutput(sh: Shape, ms: seq<Bytes>, degrees: seq<nat>, out: seq<Output>, d: nat)
    requires sh.Valid() && |ms| == sh.K && Right(sh, ms, degrees, out) && Distinct(degrees)
    requires forall r :: r in degrees <==> r == d
    ensures sh.T() <= d < sh.N && out == [Output(|ms[sh.N - 1 - d]|, ms[sh.N - 1 - d])]
  {
    assert d in degrees;
    HasMember(degrees, 0);
    HasMember(degrees, 1);
    assert degrees == [d];
  }

  /**
   A raw packet whose message the decoder has had, in this block or one that it
   has discarded, hands the message out again if and only if the block finds room
   to begin: it has expired in its buffer, whether complete or not, or it has been
   evicted and the eldest buffer is free.
   */
  method DeliveredAgain(fec: Fec, e: Event, id: nat, ghost ms: seq<Bytes>) returns (out: seq<Output>, ghost k: nat)
    requires fec.Valid() && fec.sh.Valid() && fec.rs.K < fec.rs.N && e.header.blockId == id
    requires e.header.blockIndex < fec.rs.K
    requires |ms| == fec.rs.K && AreMessages(ms, fec.rs.maxDataSize) && Genuine([e], fec.rs, id, ms)
    requires Continues(fec, id, e.now) ==> fec.rs.N - 1 - e.header.blockIndex in Degrees(Met(fec, id, e.now).arrivals)
    modifies fec`bufs, fec`slots, fec`perf, fec`cache, fec`counters, fec.lru, fec.lru.table, Objects(fec.pool)
    ensures fec.Valid()
    ensures out ==
              if old(Welcomes(fec, id, e.now)) then [Output(|ms[e.header.blockIndex]|, ms[e.header.blockIndex])] else []
    ensures old(Welcomes(fec, id, e.now)) ==>
              Has(fec.cache, id) && k < |fec.bufs| && fec.bufs[k].blockId == id && fec.bufs[k].timestamp == e.now
  {
    hide Fec.Valid, AreMessages, Objects, Genuine, Right, HonestBlock, Welcomes, Continues, Distinct;
    fec.Shapes();
    ghost var d := fec.rs.N - 1 - e.header.blockIndex;
    ghost var begins := Welcomes(fec, id, e.now);
    ghost var degrees;
    if begins {
      RawBegins(fec, id, e.now, d);
    } else {
      NoneAgain(fec, id, e.now, d);
    }
    out, degrees, k := HandOut(fec, e, id, ms);
    if begins {
      OneRightOutput(fec.sh, ms, degrees, out, d);
    } else {
      NoOutput(fec.sh, ms, degrees, out);
    }
  }

  lemma RawBegins(fec: Fec, id: nat, now: int, d: nat)
    requires fec.sh.Valid() && Welcomes(fec, id, now) && fec.sh.T() <= d < fec.sh.N
    ensures forall r :: DueNow(fec, id, now, d, r) <==> r == d
  {
    hide Welcomes, Continues;
  }

  lemma NoneAgain(fec: Fec, id: nat, now: int, d: nat)
    requires fec.sh.Valid() && !Welcomes(fec, id, now)
    requires Continues(fec, id, now) ==> d in Degrees(Met(fec, id, now).arrivals)
    ensures forall r :: !DueNow(fec, id, now, d, r)
  {
    hide Welcomes, Continues;
  }

  lemma NoOutput(sh: Shape, ms: seq<Bytes>, degrees: seq<nat>, out: seq<Output>)
    requires sh.Valid() && |ms| == sh.K && Right(sh, ms, degrees, out) && forall r :: r !in degrees
    ensures out == []
  {
    HasMember(degrees, 0);
  }

  // ----- What the decoder remembers of a block that is complete.

  /** The packet got as far as the buffer of its block. */
  ghost predicate Admitted(err: int) {
    err != E_FEC_INVALID_HEADER && err != E_FEC_DECODER_BUFFER_FULL
  }

  /** The other ids among the first n events that were admitted after the last of the block was. */
  ghost function OthersSince(events: seq<Event>, errs: seq<int>, n: nat, id: nat): set<nat>
    requires n <= |events| && n <= |errs|
  {
    if n == 0 then {}
    else Since(OthersSince(events, errs, n - 1, id), events[n - 1].header.blockId, Admitted(errs[n - 1]), id)
  }

  lemma {:induction false} OthersStable(events: seq<Event>, errs: seq<int>, more: seq<int>, n: nat, id: nat)
    requires n <= |events| && n <= |errs| && errs <= more
    ensures OthersSince(events, more, n, id) == OthersSince(events, errs, n, id)
  {
    if n > 0 {
      OthersStable(events, errs, more, n - 1, id);
    }
  }

  /** The block is complete since t0, in buffer k, as long as it is cached. */
  ghost predicate Spent(fec: Fec, id: nat, since: set<nat>, k: nat, t0: int)
    reads fec
  {
    && |fec.cache| == |fec.bufs| && Remembers(fec.cache, id, since)
    && (Has(fec.cache, id) ==> Completed(fec.sh, fec.bufs, k, id, t0))
  }

  /** What nt_rs_fec_decode does to cache and buffers. */
  ghost predicate Moves(x: nat, c: Recency<nat, nat>, bufs: seq<Buf>, c': Recency<nat, nat>, bufs': seq<Buf>, err: int)
  {
    && Step(c, c', x, Admitted(err)) && |bufs'| == |bufs|
    && forall j :: 0 <= j < |bufs| ==> bufs'[j] == bufs[j] || bufs'[j].blockId == x
  }

  lemma StepAdmitted(fec: Fec, b: Buf, b': Buf, d: int, input: Bytes, now: int, err: int, out: seq<Output>)
    requires fec.StepOf(b, b', d, input, |input|, now, Accepting(), err, out)
    ensures Admitted(err)
    ensures (fec.rs.K <= fec.rs.N && !Decoder.WellSized(fec.rs, |input|, d)) ==> b' == b
  {
    hide Arrival;
  }

  /** The packet's block is complete in the buffer, and not expired. */
  ghost predicate Served(fec: Fec, b: Buf, e: Event) {
    b.blockId == e.header.blockId && IsComplete(fec.sh, b) && e.now - b.timestamp <= fec.decodeTimeout
  }

  /** The packet begins its block. */
  ghost predicate Starts(fec: Fec, e: Event, b: Buf, err: int, out: seq<Output>) {
    fec.StepOf(Fresh(e.header.blockId), b, fec.rs.N - 1 - e.header.blockIndex, e.input, |e.input|, e.now, Accepting(),
               err, out)
  }

  /** A packet that rs_decode rejects does no more than reset a buffer. */
  ghost predicate OnlyReset(fec: Fec, e: Event, before: seq<Buf>)
    reads fec
  {
    fec.rs.K <= fec.rs.N && !Decoder.WellSized(fec.rs, |e.input|, fec.rs.N - 1 - e.header.blockIndex) ==>
      |fec.bufs| == |before|
      && forall j :: 0 <= j < |before| ==> fec.bufs[j] == before[j] || fec.bufs[j] == Fresh(e.header.blockId)
  }

  /** nt_rs_fec_decode once more, told by what it does to the cache. */
  method Move(fec: Fec, e: Event) returns (err: int, out: seq<Output>, ghost k: nat)
    requires fec.Valid() && IsBytes(e.input) && e.now > 0
    modifies fec`bufs, fec`slots, fec`perf, fec`cache, fec`counters, fec.lru, fec.lru.table, Objects(fec.pool)
    ensures fec.Valid() && Moves(e.header.blockId, old(fec.cache), old(fec.bufs), fec.cache, fec.bufs, err)
    ensures Admitted(err) <==> fec.Fits(e.header) && old(Has(fec.cache, e.header.blockId) || fec.RoomAt(e.now))
    ensures !Admitted(err) ==> out == [] && fec.bufs == old(fec.bufs)
    ensures fec.Fits(e.header) && !Admitted(err) ==> err == E_FEC_DECODER_BUFFER_FULL
    ensures forall j | 0 <= j < |fec.bufs| && Served(fec, old(fec.bufs)[j], e) :: out == [] && fec.bufs == old(fec.bufs)
    ensures fec.Fits(e.header) && old(Welcomes(fec, e.header.blockId, e.now)) ==>
              k < |fec.bufs| && Starts(fec, e, fec.bufs[k], err, out)
    ensures OnlyReset(fec, e, old(fec.bufs))
  {
    hide Fec.Valid, IsBytes, Fec.StepOf, Fec.CountsOf, Objects, Find, Touch, Put, Remove;
    fec.Cached(e.header.blockId);
    fec.StateFacts();
    ghost var c, bufs, x := fec.cache, fec.bufs, e.header.blockId;
    err, out, k := fec.Decode(e.header, e.input, |e.input|, e.now, Accepting());
    if fec.Fits(e.header) && fec.Proceeds(bufs, Has(c, x), k, e.now) {
      ghost var b := if fec.Resets(bufs, Has(c, x), k, e.now) then Fresh(x) else bufs[k];
      StepAdmitted(fec, b, fec.bufs[k], fec.rs.N - 1 - e.header.blockIndex, e.input, e.now, err, out);
    }
  }

  /** Two buffers never serve one block, and the eldest of a block is the one that the cache knows. */
  lemma SpentOn(fec: Fec, x: nat, id: nat, c: Recency<nat, nat>, bufs: seq<Buf>, err: int, since: set<nat>, k: nat,
                t0: int)
    requires fec.Valid() && x != id && Moves(x, c, bufs, fec.cache, fec.bufs, err) && Remembers(c, id, since)
    requires |c| == |bufs|
    requires Has(c, id) ==> Completed(fec.sh, bufs, k, id, t0)
    requires forall j :: 0 <= j < |bufs| ==> Has(c, bufs[j].blockId)
    requires forall i, j :: 0 <= i < |bufs| && 0 <= j < |bufs| && bufs[i].blockId == bufs[j].blockId ==> i == j
    ensures Spent(fec, id, Since(since, x, Admitted(err), id), k, t0)
  {
    hide Fec.Valid, Find, Step, Remembers;
    StepRemembers(c, fec.cache, x, Admitted(err), id, since);
    fec.StateFacts();
    fec.Cached(id);
    if Has(fec.cache, id) {
      assert fec.bufs[fec.cache[Find(fec.cache, id)].value].blockId == id;
    }
  }

  lemma SpentIdle(fec: Fec, id: nat, c: Recency<nat, nat>, err: int, since: set<nat>, k: nat, t0: int)
    requires |fec.cache| == |fec.bufs| && Step(c, fec.cache, id, Admitted(err)) && Remembers(c, id, since)
    requires !Admitted(err) || Has(c, id)
    requires Has(c, id) ==> Completed(fec.sh, fec.bufs, k, id, t0)
    ensures Spent(fec, id, Since(since, id, Admitted(err), id), k, t0)
  {
    hide Find, Step, Remembers;
    StepRemembers(c, fec.cache, id, Admitted(err), id, since);
    if !Admitted(err) {
      Unmoved(c, fec.cache, id);
    }
  }

  lemma Unmoved(c: Recency<nat, nat>, c': Recency<nat, nat>, x: nat)
    requires Step(c, c', x, false)
    ensures c' == c
  {
  }

  /** A raw packet of the block of ms. */
  ghost predicate IsRaw(fec: Fec, e: Event, id: nat, ms: seq<Bytes>) {
    && fec.rs.K < fec.rs.N && |ms| == fec.rs.K && AreMessages(ms, fec.rs.maxDataSize) && Genuine([e], fec.rs, id, ms)
    && e.header.blockId == id && e.header.blockIndex < fec.rs.K
  }

  /** A raw packet that begins its block hands its message out. */
  lemma RawStarts(fec: Fec, e: Event, id: nat, ms: seq<Bytes>, b: Buf, err: int, out: seq<Output>)
    requires fec.sh.Valid() && fec.sh == Shape(fec.rs.N, fec.rs.K, fec.rs.maxDataSize) && IsRaw(fec, e, id, ms)
    requires BufInv(fec.sh, b) && Starts(fec, e, b, err, out)
    ensures out == [Output(|ms[e.header.blockIndex]|, ms[e.header.blockIndex])]
  {
    hide AreMessages, IsBytes, Fec.StepOf, BufInv, IsPacketOf, Genuine, Right, HonestBlock, Arrival, Payload,
         Decoder.WellSized;
    GenuineAt([e], fec.rs, id, ms, 0);
    PacketIsLegal(Wire(e.header, e.input), fec.rs, fec.sh, id, e.header.blockIndex, ms);
    FreshInv(fec.sh, id);
    NothingArrived(fec.sh, ms);
    var d := fec.rs.N - 1 - e.header.blockIndex;
    var degrees := StepHands(fec, Fresh(id), b, d, e.input, e.now, err, out, ms);
    OneRightOutput(fec.sh, ms, degrees, out, d);
  }

  /**
   One packet, of this block or another, after the block is complete. Unless the
   block finds room to begin anew, nothing of it comes out, and the decoder goes on
   remembering it as the ids admitted tell; if it does, a raw packet of it hands its
   message out.
   */
  method Observe(fec: Fec, e: Event, id: nat, ghost since: set<nat>, ghost k: nat, ghost t0: int)
      returns (err: int, out: seq<Output>)
    requires fec.Valid() && IsBytes(e.input) && e.now > 0
    modifies fec`bufs, fec`slots, fec`perf, fec`cache, fec`counters, fec.lru, fec.lru.table, Objects(fec.pool)
    ensures fec.Valid() && |fec.bufs| == |old(fec.bufs)|
    ensures old(Spent(fec, id, since, k, t0))
            && !(e.header.blockId == id && fec.Fits(e.header) && old(Welcomes(fec, id, e.now))) ==>
              && Spent(fec, id, Since(since, e.header.blockId, Admitted(err), id), k, t0)
              && (e.header.blockId == id ==> out == [])
    ensures fec.Fits(e.header) && old(Welcomes(fec, e.header.blockId, e.now)) ==>
              forall ms | IsRaw(fec, e, e.header.blockId, ms) ::
                  out == [Output(|ms[e.header.blockIndex]|, ms[e.header.blockIndex])]
    ensures Admitted(err) <==>
              && e.header.tag == 69 && e.header.N == fec.rs.N && e.header.K == fec.rs.K
              && old(Has(fec.cache, e.header.blockId) || fec.RoomAt(e.now))
    ensures fec.Fits(e.header) && !Admitted(err) ==> err == E_FEC_DECODER_BUFFER_FULL
    ensures OnlyReset(fec, e, old(fec.bufs))
  {
    hide Fec.Valid, IsBytes, Objects, Find, Step, Remembers, Has, Welcomes, Admitted, IsRaw, Starts, BufInv;
    fec.StateFacts();
    ghost var c, bufs, x := fec.cache, fec.bufs, e.header.blockId;
    ghost var spent := Spent(fec, id, since, k, t0);
    ghost var anew := fec.Fits(e.header) && Welcomes(fec, x, e.now);
    if x == id && spent {
      if Has(c, id) {
        CachedCases(fec, id, e.now);
      } else {
        UncachedCases(fec, id, e.now);
      }
    }
    ghost var j;
    err, out, j := Move(fec, e);
    fec.StateFacts();
    if anew {
      fec.Shapes();
      forall ms | IsRaw(fec, e, x, ms)
        ensures |ms| == fec.rs.K && e.header.blockIndex < fec.rs.K
        ensures out == [Output(|ms[e.header.blockIndex]|, ms[e.header.blockIndex])]
      {
        RawFacts(fec, e, x, ms);
        RawStarts(fec, e, x, ms, fec.bufs[j], err, out);
      }
    }
    if spent {
      if x != id {
        SpentOn(fec, x, id, c, bufs, err, since, k, t0);
      } else if !anew {
        SpentIdle(fec, id, c, err, since, k, t0);
      }
    }
  }

  lemma RawFacts(fec: Fec, e: Event, id: nat, ms: seq<Bytes>)
    requires IsRaw(fec, e, id, ms)
    ensures |ms| == fec.rs.K && e.header.blockIndex < fec.rs.K
  {
    hide AreMessages, Genuine;
  }

  // ----- Runs that go on after the block is complete.

  /** The decoder takes the bytes and the time of every event. */
  ghost predicate Receivable(events: seq<Event>) {
    forall i :: 0 <= i < |events| ==> IsBytes(events[i].input) && events[i].now > 0
  }

  /**
   By the history of what was admitted, the packet of a block that is complete
   since t0 begins it anew: it is late and the block still cached, or as many other
   ids as there are buffers were admitted since, and this one has room too.
   */
  ghost predicate BeginsAnew(fec: Fec, size: nat, e: Event, id: nat, since: set<nat>, t0: int, room: bool) {
    && e.header.blockId == id && fec.Fits(e.header)
    && if |since| < size then e.now - t0 > fec.decodeTimeout else room
  }

  lemma AnewIsWelcome(fec: Fec, e: Event, id: nat, since: set<nat>, k: nat, t0: int)
    requires fec.Valid() && Spent(fec, id, since, k, t0)
    ensures var room := Has(fec.cache, e.header.blockId) || fec.RoomAt(e.now);
            BeginsAnew(fec, |fec.bufs|, e, id, since, t0, room) <==>
              e.header.blockId == id && fec.Fits(e.header) && Welcomes(fec, id, e.now)
    ensures Has(fec.cache, id) <==> |since| < |fec.bufs|
  {
    hide Fec.Valid, Find, Welcomes, Continues, BufInv, Fec.RoomAt;
    fec.StateFacts();
    if Has(fec.cache, id) {
      CachedCases(fec, id, e.now);
      fec.Cached(id);
    } else {
      UncachedCases(fec, id, e.now);
    }
  }

  /** Only a packet that fits is admitted; one of the block is if the block is still cached. */
  ghost predicate AdmittedAsKnown(fec: Fec, size: nat, e: Event, id: nat, since: set<nat>, err: int) {
    && (Admitted(err) ==> fec.Fits(e.header))
    && (e.header.blockId == id && fec.Fits(e.header) && |since| < size ==> Admitted(err))
  }

  /** At event i nothing of the block comes out, and by the history it does not begin anew. */
  ghost predicate QuietAt(fec: Fec, size: nat, events: seq<Event>, errs: seq<int>, outs: seq<seq<Output>>, i: nat,
                          id: nat, t0: int) {
    && i < |events| && i < |errs| && i < |outs| && (events[i].header.blockId == id ==> outs[i] == [])
    && AdmittedAsKnown(fec, size, events[i], id, OthersSince(events, errs, i, id), errs[i])
    && !BeginsAnew(fec, size, events[i], id, OthersSince(events, errs, i, id), t0, Admitted(errs[i]))
  }

  /** At event n the block begins anew by the history, and if its packet is raw, the message comes out. */
  ghost predicate AnewAt(fec: Fec, size: nat, events: seq<Event>, errs: seq<int>, outs: seq<seq<Output>>, n: nat,
                         id: nat, t0: int) {
    && n < |events| && n < |errs| && n < |outs|
    && BeginsAnew(fec, size, events[n], id, OthersSince(events, errs, n, id), t0, Admitted(errs[n]))
    && forall ms | IsRaw(fec, events[n], id, ms) ::
         outs[n] == [Output(|ms[events[n].header.blockIndex]|, ms[events[n].header.blockIndex])]
  }

  /** What is known after i events; n is the first at which the block begins anew, or i. */
  ghost predicate Watched(fec: Fec, size: nat, events: seq<Event>, errs: seq<int>, outs: seq<seq<Output>>, i: nat,
                          n: nat, id: nat, t0: int) {
    && n <= i == |errs| == |outs| && i <= |events|
    && (forall j: nat :: j < n ==> QuietAt(fec, size, events, errs, outs, j, id, t0))
    && (n < i ==> AnewAt(fec, size, events, errs, outs, n, id, t0))
  }

  lemma WatchedStays(fec: Fec, size: nat, events: seq<Event>, errs: seq<int>, outs: seq<seq<Output>>, i: nat, n: nat,
                     id: nat, t0: int, err: int, out: seq<Output>)
    requires Watched(fec, size, events, errs, outs, i, n, id, t0) && i < |events|
    ensures n < i ==> Watched(fec, size, events, errs + [err], outs + [out], i + 1, n, id, t0)
    ensures forall j: nat :: j < n ==> QuietAt(fec, size, events, errs + [err], outs + [out], j, id, t0)
    ensures OthersSince(events, errs + [err], i, id) == OthersSince(events, errs, i, id)
  {
    hide BeginsAnew, AdmittedAsKnown, Admitted, IsRaw, OthersSince;
    OthersStable(events, errs, errs + [err], i, id);
    OthersStable(events, errs, errs + [err], n, id);
    forall j: nat | j < n ensures QuietAt(fec, size, events, errs + [err], outs + [out], j, id, t0) {
      assert QuietAt(fec, size, events, errs, outs, j, id, t0);
      OthersStable(events, errs, errs + [err], j, id);
    }
  }

  /** One more event of the run. */
  lemma WatchedOn(fec: Fec, size: nat, events: seq<Event>, errs: seq<int>, outs: seq<seq<Output>>, i: nat, id: nat,
                  t0: int, err: int, out: seq<Output>) returns (n: nat)
    requires Watched(fec, size, events, errs, outs, i, i, id, t0) && i < |events|
    requires var anew := BeginsAnew(fec, size, events[i], id, OthersSince(events, errs, i, id), t0, Admitted(err));
             if anew then
               forall ms | IsRaw(fec, events[i], id, ms) ::
                   out == [Output(|ms[events[i].header.blockIndex]|, ms[events[i].header.blockIndex])]
             else
               events[i].header.blockId == id ==> out == []
    requires AdmittedAsKnown(fec, size, events[i], id, OthersSince(events, errs, i, id), err)
    ensures Watched(fec, size, events, errs + [err], outs + [out], i + 1, n, id, t0)
    ensures n == if BeginsAnew(fec, size, events[i], id, OthersSince(events, errs, i, id), t0, Admitted(err))
                 then i
                 else i + 1
  {
    hide BeginsAnew, AdmittedAsKnown, Admitted, IsRaw, OthersSince;
    WatchedStays(fec, size, events, errs, outs, i, i, id, t0, err, out);
    n := if BeginsAnew(fec, size, events[i], id, OthersSince(events, errs, i, id), t0, Admitted(err)) then i else i + 1;
  }

  lemma NoOthers(events: seq<Event>, errs: seq<int>, id: nat)
    ensures OthersSince(events, errs, 0, id) == {}
  {
  }

  lemma OthersStep(events: seq<Event>, errs: seq<int>, err: int, i: nat, id: nat)
    requires i == |errs| < |events|
    ensures OthersSince(events, errs + [err], i + 1, id) ==
              Since(OthersSince(events, errs, i, id), events[i].header.blockId, Admitted(err), id)
  {
    OthersStable(events, errs, errs + [err], i, id);
  }

  /**
   A run that goes on after the block is complete, with arbitrary packets of this
   block and of others. The first event n at which anything of the block can come
   out is the first one that begins it anew, and that is told by the history alone:
   a packet of the block more than the timeout after it was complete, while fewer
   other ids than there are buffers were admitted since its last packet; or one that
   is admitted after as many of them.
   */
  method Linger(fec: Fec, events: seq<Event>, id: nat, ghost k: nat, ghost t0: int)
      returns (errs: seq<int>, outs: seq<seq<Output>>, ghost n: nat)
    requires fec.Valid() && Receivable(events) && Completed(fec.sh, fec.bufs, k, id, t0) && Newest(fec.cache, id)
    modifies fec`bufs, fec`slots, fec`perf, fec`cache, fec`counters, fec.lru, fec.lru.table, Objects(fec.pool)
    ensures fec.Valid() && |fec.bufs| == |old(fec.bufs)|
    ensures Watched(fec, |fec.bufs|, events, errs, outs, |events|, n, id, t0)
    ensures n == |events| ==> Spent(fec, id, OthersSince(events, errs, n, id), k, t0)
  {
    hide Fec.Valid, IsBytes, Objects, Find, Remembers, Has, Welcomes, Admitted, IsRaw, Spent, Watched, OthersSince,
         Completed, Newest;
    ghost var size := |fec.bufs|;
    errs, outs, n := [], [], 0;
    SpentFrom(fec, id, k, t0);
    NoOthers(events, errs, id);
    WatchedFrom(fec, size, events, id, t0);
    for i := 0 to |events|
      invariant fec.Valid() && |fec.bufs| == size && |errs| == i && |outs| == i && n <= i
      invariant Watched(fec, size, events, errs, outs, i, n, id, t0)
      invariant n == i ==> Spent(fec, id, OthersSince(events, errs, i, id), k, t0)
    {
      ghost var since := OthersSince(events, errs, i, id);
      if n == i {
        AnewIsWelcome(fec, events[i], id, since, k, t0);
      }
      var err, out := Observe(fec, events[i], id, since, k, t0);
      OthersStep(events, errs, err, i, id);
      if n == i {
        n := WatchedOn(fec, size, events, errs, outs, i, id, t0, err, out);
      } else {
        WatchedStays(fec, size, events, errs, outs, i, n, id, t0, err, out);
      }
      errs, outs := errs + [err], outs + [out];
    }
  }

  lemma SpentFrom(fec: Fec, id: nat, k: nat, t0: int)
    requires fec.Valid() && Completed(fec.sh, fec.bufs, k, id, t0) && Newest(fec.cache, id)
    ensures Spent(fec, id, {}, k, t0)
  {
    hide Fec.Valid, Find, Remembers, Has, Completed;
    fec.KeysDistinct();
    fec.StateFacts();
    NewestRemembered(fec.cache, id);
  }

  lemma WatchedFrom(fec: Fec, size: nat, events: seq<Event>, id: nat, t0: int)
    ensures Watched(fec, size, events, [], [], 0, 0, id, t0)
  {
  }

  // ----- How often a block is delivered over a whole run.

  /** The other ids among the first n events that came after the last packet of the block. */
  ghost function Passed(fec: Fec, events: seq<Event>, n: nat, id: nat): set<nat>
    requires n <= |events|
  {
    if n == 0 then {} else
      var passed, e := Passed(fec, events, n - 1, id), events[n - 1];
      if !fec.Fits(e.header) then passed else if e.header.blockId == id then {} else passed + {e.header.blockId}
  }

  /**
   What a caller can see to: after the block is complete at t0, its packets come within the
   timeout, and fewer other ids than there are buffers pass between them.
   */
  ghost predicate Kept(fec: Fec, size: nat, events: seq<Event>, id: nat, t0: int) {
    forall i :: 0 <= i < |events| && events[i].header.blockId == id && fec.Fits(events[i].header) ==>
      events[i].now - t0 <= fec.decodeTimeout && |Passed(fec, events, i, id)| < size
  }

  /** No more ids are admitted than pass. */
  lemma {:induction false} AdmittedHavePassed(fec: Fec, size: nat, events: seq<Event>, errs: seq<int>,
                                              outs: seq<seq<Output>>, i: nat, n: nat, id: nat, t0: int, m: nat)
    requires Watched(fec, size, events, errs, outs, i, n, id, t0) && Kept(fec, size, events, id, t0) && m <= n
    ensures OthersSince(events, errs, m, id) <= Passed(fec, events, m, id)
  {
    hide BeginsAnew, Admitted;
    if m > 0 {
      AdmittedHavePassed(fec, size, events, errs, outs, i, n, id, t0, m - 1);
      assert QuietAt(fec, size, events, errs, outs, m - 1, id, t0);
      SubsetSize(OthersSince(events, errs, m - 1, id), Passed(fec, events, m - 1, id));
    }
  }

  /** If the caller sees to that, the block never begins anew. */
  lemma KeptIsQuiet(fec: Fec, size: nat, events: seq<Event>, errs: seq<int>, outs: seq<seq<Output>>, n: nat, id: nat,
                    t0: int)
    requires Watched(fec, size, events, errs, outs, |events|, n, id, t0) && Kept(fec, size, events, id, t0)
    ensures n == |events|
  {
    hide Admitted, OthersSince, Passed;
    AdmittedHavePassed(fec, size, events, errs, outs, |events|, n, id, t0, n);
    if n < |events| {
      SubsetSize(OthersSince(events, errs, n, id), Passed(fec, events, n, id));
    }
  }

  lemma QuietOuts(fec: Fec, size: nat, events: seq<Event>, errs: seq<int>, outs: seq<seq<Output>>, n: nat, id: nat,
                  t0: int)
    requires Watched(fec, size, events, errs, outs, |events|, n, id, t0)
    ensures |outs| == |events| && n <= |events|
    ensures forall i: nat :: i < n && events[i].header.blockId == id ==> outs[i] == []
  {
    hide AdmittedAsKnown, BeginsAnew, OthersSince, AnewAt;
    forall i: nat | i < n && events[i].header.blockId == id ensures outs[i] == [] {
      assert QuietAt(fec, size, events, errs, outs, i, id, t0);
    }
  }

  /**
   A whole run: the block is delivered once, each message byte for byte, and nothing
   more of it comes out before the first event n that begins it anew. If its later
   packets are within the timeout and no size of other ids passes between them, there is
   no such event: every message is delivered exactly once over the whole run.
   */
  method WholeRun(fec: Fec, first: seq<Event>, later: seq<Event>, id: nat, ghost ms: seq<Bytes>)
      returns (outs: seq<Output>, ghost order: seq<nat>, errs: seq<int>, late: seq<seq<Output>>, ghost n: nat)
    requires fec.Valid() && fec.rs.K < fec.rs.N && Receivable(later)
    requires |ms| == fec.rs.K && AreMessages(ms, fec.rs.maxDataSize) && Genuine(first, fec.rs, id, ms)
    requires first != [] && first[0].header.blockId == id && Welcomes(fec, id, first[0].now)
    requires Timely(first, fec.rs, id, fec.decodeTimeout) && |FecRun.Seen(first, id, fec.rs.N)| == fec.rs.K
    modifies fec`bufs, fec`slots, fec`perf, fec`cache, fec`counters, fec.lru, fec.lru.table, Objects(fec.pool)
    ensures fec.Valid() && Transmitted(outs, ms, order)
    ensures |late| == |later| && n <= |later| && forall i: nat :: i < n && later[i].header.blockId == id ==>
              late[i] == []
    ensures Watched(fec, |fec.bufs|, later, errs, late, |later|, n, id, first[|first| - 1].now)
    ensures Kept(fec, |fec.bufs|, later, id, first[|first| - 1].now) ==> n == |later|
  {
    hide Fec.Valid, AreMessages, Genuine, Timely, FecRun.Seen, Welcomes, Objects, Transmitted, Completed, Newest,
         Watched, Kept, Receivable, Spent, OnlyChanged;
    ghost var k, t0;
    t0 := first[|first| - 1].now;
    outs, order, k := Run(fec, first, id, ms);
    errs, late, n := Linger(fec, later, id, k, t0);
    QuietOuts(fec, |fec.bufs|, later, errs, late, n, id, t0);
    if Kept(fec, |fec.bufs|, later, id, t0) {
      KeptIsQuiet(fec, |fec.bufs|, later, errs, late, n, id, t0);
    }
  }

  // ----- The three ways to deliver a message twice, from a new decoder on.

  /** The raw packets of a block, all at one time. */
  function RawEvents(rs: Config, id: nat, ms: seq<Bytes>, now: int): (events: seq<Event>)
    ensures |events| == |ms|
    ensures forall i :: 0 <= i < |ms| ==> events[i] == Event(FecHeader(NT_RS_FEC_TAG, rs.N, rs.K, id, i), ms[i], now)
  {
    seq(|ms|, i requires 0 <= i < |ms| => Event(FecHeader(NT_RS_FEC_TAG, rs.N, rs.K, id, i), ms[i], now))
  }

  lemma RawsAreGenuine(rs: Config, id: nat, ms: seq<Bytes>, now: int)
    requires rs.K < rs.N && |ms| == rs.K && AreMessages(ms, rs.maxDataSize) && now > 0
    ensures Genuine(RawEvents(rs, id, ms, now), rs, id, ms) && OfBlock(RawEvents(rs, id, ms, now), id)
  {
    hide AreMessages, IsSentFor, IsBytes;
    var events := RawEvents(rs, id, ms, now);
    forall i | 0 <= i < |events|
      ensures IsBytes(events[i].input)
      ensures IsPacketOf(Wire(events[i].header, events[i].input), rs, id, events[i].header.blockIndex, ms)
    {
      RawIsSent(ms, rs.maxDataSize, rs.T(), i);
      MessageIsBytes(ms, rs.maxDataSize, i);
    }
  }

  lemma MessageIsBytes(ms: seq<Bytes>, M: nat, i: nat)
    requires AreMessages(ms, M) && i < |ms|
    ensures IsBytes(ms[i])
  {
  }

  lemma {:induction false} RawsSeen(rs: Config, id: nat, ms: seq<Bytes>, now: int, n: nat)
    requires rs.K < rs.N && |ms| == rs.K && n <= |ms|
    ensures var before := RawEvents(rs, id, ms, now)[..n];
            && |FecRun.Seen(before, id, rs.N)| == n
            && (forall d :: d in FecRun.Seen(before, id, rs.N) ==> d > rs.N - 1 - n)
            && (n > 0 ==> Progressed(before, id, rs.N) == now)
  {
    if n > 0 {
      RawsSeen(rs, id, ms, now, n - 1);
      SeenStep(RawEvents(rs, id, ms, now), n - 1, id, rs.N);
    }
  }

  lemma RawsAreTimely(rs: Config, id: nat, ms: seq<Bytes>, now: int, timeout: int)
    requires 0 < rs.K < rs.N && |ms| == rs.K && timeout >= 0
    ensures Timely(RawEvents(rs, id, ms, now), rs, id, timeout)
    ensures |FecRun.Seen(RawEvents(rs, id, ms, now), id, rs.N)| == rs.K
  {
    hide FecRun.Seen, Progressed;
    var events := RawEvents(rs, id, ms, now);
    forall i | 1 <= i < |events|
      ensures |FecRun.Seen(events[..i], id, rs.N)| < rs.K
      ensures events[i].now - Progressed(events[..i], id, rs.N) <= timeout
    {
      RawsSeen(rs, id, ms, now, i);
    }
    RawsSeen(rs, id, ms, now, rs.K);
    assert events[..rs.K] == events;
  }

  /** A new decoder that has received the raw packets of a block at time 1. */
  method FirstDelivery(rs: Config, size: nat, timeout: int, id: nat, ms: seq<Bytes>)
      returns (fec: Fec, outs: seq<Output>, ghost order: seq<nat>, ghost k: nat)
    requires rs.Valid() && rs.N <= 32 && Sizes(ThreeQuartersOf, size) && timeout >= 0
    requires rs.K < rs.N && |ms| == rs.K && AreMessages(ms, rs.maxDataSize)
    ensures fec.Valid() && fresh(fec) && fresh(fec.lru) && fresh(fec.lru.table) && fresh(Objects(fec.pool))
    ensures fec.rs == rs && fec.decodeTimeout == timeout && |fec.bufs| == size && Transmitted(outs, ms, order)
    ensures Completed(fec.sh, fec.bufs, k, id, 1) && Newest(fec.cache, id)
    ensures forall j :: 0 <= j < |fec.bufs| && j != k ==> fec.bufs[j] == Fresh(j)
  {
    hide Config.Valid, Fec.Valid, AreMessages, Genuine, Timely, FecRun.Seen, Welcomes, Objects, Transmitted, Newest,
         RawEvents;
    rs.Facts();
    fec := new Fec(rs, size, timeout);
    var events := RawEvents(rs, id, ms, 1);
    RawsAreGenuine(rs, id, ms, 1);
    RawsAreTimely(rs, id, ms, 1, timeout);
    WelcomesAll(fec, id, 1);
    outs, order, k := Run(fec, events, id, ms);
  }

  /** The packet of message 0. */
  lemma FirstRaw(rs: Config, id: nat, ms: seq<Bytes>, now: int)
    requires 0 < rs.K < rs.N && |ms| == rs.K && AreMessages(ms, rs.maxDataSize) && now > 0
    ensures Genuine([RawEvents(rs, id, ms, now)[0]], rs, id, ms)
  {
    hide AreMessages, IsBytes, IsPacketOf;
    RawsAreGenuine(rs, id, ms, now);
  }

  /** A block that is complete and still cached expires, and then delivers again. */
  method TwiceByExpiry(rs: Config, size: nat, timeout: int, id: nat, ms: seq<Bytes>, now: int)
      returns (outs: seq<Output>, ghost order: seq<nat>, again: seq<Output>)
    requires rs.Valid() && rs.N <= 32 && Sizes(ThreeQuartersOf, size) && timeout >= 0 && now - 1 > timeout
    requires 0 < rs.K < rs.N && |ms| == rs.K && AreMessages(ms, rs.maxDataSize)
    ensures Transmitted(outs, ms, order) && again == [Output(|ms[0]|, ms[0])]
  {
    hide Config.Valid, Fec.Valid, AreMessages, Genuine, Objects, Transmitted, Newest, Welcomes, Continues, BufInv, Find;
    var fec;
    ghost var k, k';
    fec, outs, order, k := FirstDelivery(rs, size, timeout, id, ms);
    fec.Shapes();
    fec.StateFacts();
    CachedCases(fec, id, now);
    FirstRaw(rs, id, ms, now);
    again, k' := DeliveredAgain(fec, RawEvents(rs, id, ms, now)[0], id, ms);
  }

  /** A block that is interrupted after its first packet expires, and delivers that packet again. */
  method TwiceByInterruption(rs: Config, size: nat, timeout: int, id: nat, ms: seq<Bytes>, now: int)
      returns (once: seq<Output>, again: seq<Output>)
    requires rs.Valid() && rs.N <= 32 && Sizes(ThreeQuartersOf, size) && timeout >= 0 && now - 1 > timeout
    requires 0 < rs.K < rs.N && |ms| == rs.K && AreMessages(ms, rs.maxDataSize)
    ensures once == again == [Output(|ms[0]|, ms[0])]
  {
    hide Config.Valid, Fec.Valid, AreMessages, Genuine, Objects, Welcomes, Continues, BufInv, Find, RawEvents;
    var fec := new Fec(rs, size, timeout);
    ghost var k, k';
    WelcomesAll(fec, id, 1);
    fec.Shapes();
    NotBegun(fec, id, 1);
    FirstRaw(rs, id, ms, 1);
    FirstRaw(rs, id, ms, now);
    once, k := DeliveredAgain(fec, RawEvents(rs, id, ms, 1)[0], id, ms);
    fec.StateFacts();
    CachedCases(fec, id, now);
    again, k' := DeliveredAgain(fec, RawEvents(rs, id, ms, now)[0], id, ms);
  }

  lemma NotBegun(fec: Fec, id: nat, now: int)
    requires fec.Valid() && forall i :: 0 <= i < |fec.bufs| ==> fec.bufs[i] == Fresh(i)
    ensures !Continues(fec, id, now)
  {
    hide Fec.Valid, Find, BufInv;
    if Has(fec.cache, id) {
      CachedCases(fec, id, now);
    }
  }

  /** A packet of another block that rs_decode rejects: its index is out of range. */
  function Stranger(rs: Config, x: nat, now: int): Event {
    Event(FecHeader(NT_RS_FEC_TAG, rs.N, rs.K, x, rs.N), [], now)
  }

  ghost predicate NoneLive(fec: Fec, now: int)
    reads fec
  {
    forall j :: 0 <= j < |fec.bufs| ==> !fec.Live(fec.bufs[j], now)
  }

  /** Strangers push a block that is complete out of the cache. */
  method Strangers(fec: Fec, id: nat, ghost k: nat, now: int, n: nat) returns (ghost since: set<nat>)
    requires fec.Valid() && fec.rs.K < fec.rs.N && NoneLive(fec, now) && now > 0
    requires Completed(fec.sh, fec.bufs, k, id, now) && Newest(fec.cache, id)
    modifies fec`bufs, fec`slots, fec`perf, fec`cache, fec`counters, fec.lru, fec.lru.table, Objects(fec.pool)
    ensures fec.Valid() && NoneLive(fec, now) && |fec.bufs| == |old(fec.bufs)|
    ensures Spent(fec, id, since, k, now) && |since| == n
  {
    hide Fec.Valid, Objects, Find, Spent, Welcomes, IsRaw, Remembers, Has, Newest;
    SpentFrom(fec, id, k, now);
    since := {};
    for i := 0 to n
      invariant fec.Valid() && NoneLive(fec, now) && |fec.bufs| == |old(fec.bufs)|
      invariant Spent(fec, id, since, k, now) && |since| == i && forall x :: x in since ==> x <= id + i
    {
      fec.Cached(id);
      var err, out := Observe(fec, Stranger(fec.rs, id + i + 1, now), id, since, k, now);
      since := Since(since, id + i + 1, Admitted(err), id);
    }
  }

  /** As many strangers as there are buffers evict a block that is complete and not expired; then it delivers again. */
  method TwiceByEviction(rs: Config, size: nat, timeout: int, id: nat, ms: seq<Bytes>)
      returns (outs: seq<Output>, ghost order: seq<nat>, again: seq<Output>)
    requires rs.Valid() && rs.N <= 32 && Sizes(ThreeQuartersOf, size) && timeout >= 0
    requires 0 < rs.K < rs.N && |ms| == rs.K && AreMessages(ms, rs.maxDataSize)
    ensures Transmitted(outs, ms, order) && again == [Output(|ms[0]|, ms[0])]
  {
    hide Config.Valid, Fec.Valid, AreMessages, Genuine, Objects, Transmitted, Newest, Welcomes, Continues, BufInv, Find,
         RawEvents, Remembers;
    var fec;
    ghost var k, k', since;
    fec, outs, order, k := FirstDelivery(rs, size, timeout, id, ms);
    fec.Shapes();
    since := Strangers(fec, id, k, 1, size);
    fec.Shapes();
    EvictedBegins(fec, id, since, k, 1);
    FirstRaw(rs, id, ms, 1);
    again, k' := DeliveredAgain(fec, RawEvents(rs, id, ms, 1)[0], id, ms);
  }

  lemma EvictedBegins(fec: Fec, id: nat, since: set<nat>, k: nat, now: int)
    requires fec.Valid() && NoneLive(fec, now) && Spent(fec, id, since, k, now) && |since| >= |fec.bufs|
    ensures Welcomes(fec, id, now) && !Continues(fec, id, now)
  {
    hide Fec.Valid, Find;
    UncachedCases(fec, id, now);
  }
}
