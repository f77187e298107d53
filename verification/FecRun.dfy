/**
 A whole run of the decoder of src/main/tunnel/nt_rs_fec.c, seen from one block:
 its packets come in any order, some twice, some never, among arbitrary packets
 of other blocks.
 */
module FecRun {
  import opened Collections
  import opened Block
  import opened Rs
  import opened RsDecoder
  import opened Decoding
  import opened Outcome
  import opened RoundTrip
  import opened Lru
  import opened FecBlocks
  import opened DecodePool
  import opened RsFec
  import opened FecHeaders
  import opened RsFecEncoder

  /** A packet and the time at which it is received. */
  datatype Event = Event(header: FecHeader, input: Bytes, now: int)

  /** The event brings a packet of the block that has not been seen. */
  ghost predicate IsNew(seen: seq<int>, e: Event, id: nat, N: nat) {
    e.header.blockId == id && N - 1 - e.header.blockIndex !in seen
  }

  /** The degrees of the block's packets, each at its first arrival. */
  ghost function Seen(events: seq<Event>, id: nat, N: nat): seq<int> {
    if events == [] then [] else
      var n := |events| - 1;
      var seen := Seen(events[..n], id, N);
      if IsNew(seen, events[n], id, N) then seen + [N - 1 - events[n].header.blockIndex] else seen
  }

  /** When the block last made progress. */
  ghost function Progressed(events: seq<Event>, id: nat, N: nat): int {
    if events == [] then 0 else
      var n := |events| - 1;
      if IsNew(Seen(events[..n], id, N), events[n], id, N) then events[n].now else Progressed(events[..n], id, N)
  }

  /** The packets with the id of the block are packets of ms; the others are arbitrary. */
  ghost predicate Genuine(events: seq<Event>, rs: Config, id: nat, ms: seq<Bytes>)
    requires rs.K < rs.N && |ms| == rs.K && AreMessages(ms, rs.maxDataSize)
  {
    forall i :: 0 <= i < |events| ==>
      && IsBytes(events[i].input) && events[i].now > 0
      && (events[i].header.blockId == id ==>
            IsPacketOf(Wire(events[i].header, events[i].input), rs, id, events[i].header.blockIndex, ms))
  }

  /** Until its last event the block is incomplete, and never idle for longer than the timeout. */
  ghost predicate Timely(events: seq<Event>, rs: Config, id: nat, timeout: int) {
    forall i :: 1 <= i < |events| ==>
      && |Seen(events[..i], id, rs.N)| < rs.K
      && events[i].now - Progressed(events[..i], id, rs.N) <= timeout
  }

  /** The buffer holds what has been seen of the block. */
  ghost predicate Follows(b: Buf, sh: Shape, events: seq<Event>, id: nat, ms: seq<Bytes>, outs: seq<Output>)
    requires sh.Valid()
  {
    && b.blockId == id && Degrees(b.arrivals) == Seen(events, id, sh.N)
    && HonestBlock(sh, b.arrivals, ms)
    && b.contents == outs && !b.refused
    && b.timestamp == Progressed(events, id, sh.N)
  }

  lemma SeenStep(events: seq<Event>, i: nat, id: nat, N: nat)
    requires i < |events|
    ensures var seen, e := Seen(events[..i], id, N), events[i];
            && Seen(events[..i + 1], id, N) ==
                (if IsNew(seen, e, id, N) then seen + [N - 1 - e.header.blockIndex] else seen)
            && Progressed(events[..i + 1], id, N) ==
                (if IsNew(seen, e, id, N) then e.now else Progressed(events[..i], id, N))
  {
    assert events[..i + 1][..i] == events[..i];
  }

  lemma HonestAppend(sh: Shape, ps: seq<Packet>, p: Packet, ms: seq<Bytes>)
    requires sh.Valid() && HonestBlock(sh, ps, ms) && p.degree < sh.N && |ms| == sh.K && AreMessages(ms, sh.M)
    requires p.payload == Payload(ms, sh.M, sh.T(), p.degree)
    ensures HonestBlock(sh, ps + [p], ms) && Degrees(ps + [p]) == Degrees(ps) + [p.degree]
  {
    hide AreMessages, Payload;
    assert Degrees(ps + [p]) == Degrees(ps) + [p.degree];
  }

  /** The packet of an event of the block is legal, and what the decoder sees is a packet of the block. */
  lemma PacketIsLegal(w: Wire, rs: Config, sh: Shape, id: nat, index: nat, ms: seq<Bytes>)
    requires sh.Valid() && sh == Shape(rs.N, rs.K, rs.maxDataSize) && |ms| == rs.K && AreMessages(ms, rs.maxDataSize)
    requires IsPacketOf(w, rs, id, index, ms)
    ensures index < rs.N && rs.K <= rs.N && Decoder.WellSized(rs, |w.data|, rs.N - 1 - index)
    ensures w.data[..|w.data|] == w.data
    ensures var p := Arrival(rs.N - 1 - index, w.data, sh.M, sh.T());
            p.degree == rs.N - 1 - index && p.payload == Payload(ms, sh.M, sh.T(), p.degree)
  {
    hide *;
    PacketOfFacts(w, rs, sh, id, index, ms);
    SentForFacts(Sent(rs.N - 1 - index, w.data), ms, sh.M, sh.T());
    WellSizedIs(rs, sh, |w.data|, rs.N - 1 - index);
  }

  lemma PacketOfFacts(w: Wire, rs: Config, sh: Shape, id: nat, index: nat, ms: seq<Bytes>)
    requires sh.Valid() && sh == Shape(rs.N, rs.K, rs.maxDataSize) && |ms| == rs.K && AreMessages(ms, rs.maxDataSize)
    requires IsPacketOf(w, rs, id, index, ms)
    ensures index < rs.N && rs.K < rs.N && sh.T() > 0 && sh.T() + |ms| == sh.N
    ensures IsSentFor(Sent(rs.N - 1 - index, w.data), ms, sh.M, sh.T())
  {
    hide AreMessages, IsSentFor;
  }

  lemma WellSizedIs(rs: Config, sh: Shape, size: nat, degree: nat)
    requires sh.Valid() && sh == Shape(rs.N, rs.K, rs.maxDataSize) && degree < sh.N
    requires size <= if degree >= sh.T() then sh.M else HEADER_SIZE + sh.M
    ensures Decoder.WellSized(rs, size, degree)
  {
  }

  /** What a legal packet does to a buffer, if the callback accepts everything. */
  lemma StepFacts(fec: Fec, b: Buf, b': Buf, d: nat, input: Bytes, now: int, err: int, out: seq<Output>)
    requires fec.rs.K <= fec.rs.N && Decoder.WellSized(fec.rs, |input|, d)
    requires fec.StepOf(b, b', d, input, |input|, now, Accepting(), err, out)
    ensures d in Degrees(b.arrivals) ==> b' == b && out == []
    ensures d !in Degrees(b.arrivals) ==>
              && b'.blockId == b.blockId && b'.timestamp == now && !b'.refused
              && b'.arrivals == b.arrivals + [Arrival(d, input, fec.rs.maxDataSize, fec.rs.T())]
              && b.delivered <= b'.delivered && b'.contents == b.contents + out
  {
    hide Arrival, Decoder.WellSized, Degrees;
    assert input[..|input|] == input;
  }

  /** What an event of the block does to a buffer that follows it. */
  lemma FollowsOn(fec: Fec, b: Buf, b': Buf, events: seq<Event>, i: nat, id: nat, ms: seq<Bytes>, outs: seq<Output>,
                  err: int, out: seq<Output>)
    requires fec.sh.Valid() && fec.sh == Shape(fec.rs.N, fec.rs.K, fec.rs.maxDataSize) && i < |events|
    requires Follows(b, fec.sh, events[..i], id, ms, outs)
    requires |ms| == fec.rs.K && AreMessages(ms, fec.rs.maxDataSize)
    requires IsPacketOf(Wire(events[i].header, events[i].input), fec.rs, id, events[i].header.blockIndex, ms)
    requires events[i].header.blockId == id
    requires fec.StepOf(b, b', fec.rs.N - 1 - events[i].header.blockIndex, events[i].input, |events[i].input|,
                        events[i].now, Accepting(), err, out)
    ensures Follows(b', fec.sh, events[..i + 1], id, ms, outs + out)
  {
    hide AreMessages, Payload, Arrival, IsPacketOf, HonestBlock, Seen, Progressed, Fec.StepOf, Decoder.WellSized,
         Degrees;
    var e := events[i];
    PacketIsLegal(Wire(e.header, e.input), fec.rs, fec.sh, id, e.header.blockIndex, ms);
    SeenStep(events, i, id, fec.rs.N);
    var d := fec.rs.N - 1 - e.header.blockIndex;
    StepFacts(fec, b, b', d, e.input, e.now, err, out);
    WellSizedFacts(fec.rs, fec.sh, |e.input|, d);
    if d !in Degrees(b.arrivals) {
      HonestAppend(fec.sh, b.arrivals, Arrival(d, e.input, fec.sh.M, fec.sh.T()), ms);
    } else {
      assert outs + out == outs;
    }
  }

  /** An event of another block leaves a live buffer alone. */
  lemma FollowsIdle(b: Buf, sh: Shape, events: seq<Event>, i: nat, id: nat, ms: seq<Bytes>, outs: seq<Output>)
    requires sh.Valid() && i < |events| && Follows(b, sh, events[..i], id, ms, outs) && events[i].header.blockId != id
    ensures Follows(b, sh, events[..i + 1], id, ms, outs)
  {
    hide HonestBlock;
    assert events[..i + 1][..i] == events[..i];
  }

  lemma FreshFollows(sh: Shape, id: nat, ms: seq<Bytes>)
    requires sh.Valid() && |ms| == sh.K && AreMessages(ms, sh.M)
    ensures Follows(Fresh(id), sh, [], id, ms, [])
  {
    hide AreMessages;
    assert Degrees(Fresh(id).arrivals) == Seen([], id, sh.N);
  }

  /** The outputs are the messages, each once, in the given order. */
  ghost predicate Transmitted(outs: seq<Output>, ms: seq<Bytes>, order: seq<nat>) {
    && |outs| == |order| == |ms| && Distinct(order) && Below(order, |ms|)
    && forall i :: 0 <= i < |outs| ==> outs[i] == Output(|ms[order[i]]|, ms[order[i]])
  }

  /** The order in which a complete buffer has delivered the messages. */
  lemma FollowedIsTransmitted(b: Buf, sh: Shape, events: seq<Event>, id: nat, ms: seq<Bytes>, outs: seq<Output>)
      returns (order: seq<nat>)
    requires sh.Valid() && BufInv(sh, b) && Follows(b, sh, events, id, ms, outs) && |Seen(events, id, sh.N)| == sh.K
    ensures Transmitted(outs, ms, order)
  {
    hide BufInv, HonestBlock;
    CompleteDeliversAll(sh, b, ms);
    order := seq(sh.K, i requires 0 <= i < sh.K => sh.N - 1 - b.delivered[i]);
  }

  /**
   A first packet finds room: its id has an empty or expired buffer, as the ids
   that nt_rs_fec_init seeds do, or the eldest buffer can be given to it.
   */
  ghost predicate Welcomes(fec: Fec, id: nat, now: int)
    reads fec
  {
    if Has(fec.cache, id) then
      var k := fec.cache[Find(fec.cache, id)].value;
      k < |fec.bufs| && (fec.bufs[k] == Fresh(id) || now - fec.bufs[k].timestamp > fec.decodeTimeout)
    else
      fec.RoomAt(now)
  }

  /** A new decoder has room for every block, whatever its id. */
  lemma WelcomesAll(fec: Fec, id: nat, now: int)
    requires fec.Valid() && forall i :: 0 <= i < |fec.bufs| ==> fec.bufs[i] == Fresh(i)
    ensures Welcomes(fec, id, now)
  {
    hide Fec.Valid, Find;
    fec.Cached(id);
  }

  ghost predicate OnlyChanged(before: seq<Buf>, after: seq<Buf>, k: nat) {
    |after| == |before| && forall j :: 0 <= j < |after| && j != k ==> after[j] == before[j]
  }

  ghost predicate OfBlock(events: seq<Event>, id: nat) {
    forall i :: 0 <= i < |events| ==> events[i].header.blockId == id
  }

  /** The block was the last to be received. */
  ghost predicate Newest(c: Recency<nat, nat>, id: nat) {
    c != [] && c[0].key == id
  }

  lemma TouchedIsNewest(c: Recency<nat, nat>, id: nat)
    ensures Has(c, id) ==> Newest(Touch(c, id), id)
    ensures forall d: Recency<nat, nat>, k :: Newest(Put(d, id, k), id)
  {
  }

  /** The first packet of a block that finds room. */
  method Begin(fec: Fec, e: Event, id: nat, ghost ms: seq<Bytes>) returns (outs: seq<Output>, ghost k: nat)
    requires fec.Valid() && fec.sh.Valid() && fec.rs.K < fec.rs.N && e.header.blockId == id
    requires |ms| == fec.rs.K && AreMessages(ms, fec.rs.maxDataSize) && Genuine([e], fec.rs, id, ms)
    requires Welcomes(fec, id, e.now)
    modifies fec`bufs, fec`slots, fec`perf, fec`cache, fec`counters, fec.lru, fec.lru.table, Objects(fec.pool)
    ensures fec.Valid() && k < |fec.bufs| && Follows(fec.bufs[k], fec.sh, [e], id, ms, outs)
    ensures fec.bufs[k].timestamp > 0
    ensures OnlyChanged(old(fec.bufs), fec.bufs, k) && Newest(fec.cache, id)
  {
    hide Fec.Valid, AreMessages, IsBytes, IsSentFor, Fec.StepOf, Fec.CountsOf, Follows, Objects, BufInv, Find, Touch,
         Put, Remove, IsPacketOf, Genuine, Newest;
    GenuineAt([e], fec.rs, id, ms, 0);
    fec.Shapes();
    TouchedIsNewest(fec.cache, id);
    var err;
    err, outs, k := fec.Decode(e.header, e.input, |e.input|, e.now, Accepting());
    FreshFollows(fec.sh, id, ms);
    assert [e][..0] == [] && [e][..1] == [e] && [] + outs == outs;
    FollowsOn(fec, Fresh(id), fec.bufs[k], [e], 0, id, ms, [], err, outs);
    FirstTime(fec.bufs[k], fec.sh, e, id, ms, outs);
  }

  lemma FirstTime(b: Buf, sh: Shape, e: Event, id: nat, ms: seq<Bytes>, outs: seq<Output>)
    requires sh.Valid() && Follows(b, sh, [e], id, ms, outs) && e.header.blockId == id
    ensures b.timestamp == e.now
  {
    hide HonestBlock;
    assert [e][..0] == [];
  }

  lemma GenuineAt(events: seq<Event>, rs: Config, id: nat, ms: seq<Bytes>, i: nat)
    requires rs.K < rs.N && |ms| == rs.K && AreMessages(ms, rs.maxDataSize) && Genuine(events, rs, id, ms)
    requires i < |events|
    ensures IsBytes(events[i].input) && events[i].now > 0
    ensures events[i].header.blockId == id ==>
              && IsPacketOf(Wire(events[i].header, events[i].input), rs, id, events[i].header.blockIndex, ms)
              && events[i].header.tag == NT_RS_FEC_TAG && events[i].header.N == rs.N && events[i].header.K == rs.K
  {
    hide AreMessages, IsBytes, IsSentFor;
  }

  /** One more event while the block is incomplete. */
  method Continue(fec: Fec, events: seq<Event>, i: nat, id: nat, ghost ms: seq<Bytes>, ghost k: nat, outs: seq<Output>)
      returns (outs': seq<Output>)
    requires fec.Valid() && fec.sh.Valid() && fec.rs.K < fec.rs.N
    requires |ms| == fec.rs.K && AreMessages(ms, fec.rs.maxDataSize) && Genuine(events, fec.rs, id, ms)
    requires 1 <= i < |events| && Timely(events, fec.rs, id, fec.decodeTimeout)
    requires k < |fec.bufs| && Follows(fec.bufs[k], fec.sh, events[..i], id, ms, outs) && fec.bufs[k].timestamp > 0
    modifies fec`bufs, fec`slots, fec`perf, fec`cache, fec`counters, fec.lru, fec.lru.table, Objects(fec.pool)
    ensures fec.Valid() && k < |fec.bufs| && Follows(fec.bufs[k], fec.sh, events[..i + 1], id, ms, outs')
    ensures fec.bufs[k].timestamp > 0
    ensures events[i].header.blockId == id ==> OnlyChanged(old(fec.bufs), fec.bufs, k) && Newest(fec.cache, id)
  {
    hide Fec.Valid, AreMessages, IsBytes, Fec.StepOf, Fec.CountsOf, IsPacketOf, Genuine, Follows, Timely, Objects,
         BufInv, Fec.Proceeds, Fec.Resets, Find, Touch, Put, Remove, Newest;
    GenuineAt(events, fec.rs, id, ms, i);
    fec.Shapes();
    ghost var b := fec.bufs[k];
    StillLive(fec, b, events, i, id, ms, outs);
    fec.StateFacts();
    TouchedIsNewest(fec.cache, id);
    var e := events[i];
    var err, out;
    ghost var k';
    err, out, k' := fec.Decode(e.header, e.input, |e.input|, e.now, Accepting());
    if e.header.blockId == id {
      outs' := outs + out;
      FollowsOn(fec, b, fec.bufs[k], events, i, id, ms, outs, err, out);
      StepTime(fec, b, fec.bufs[k], fec.rs.N - 1 - e.header.blockIndex, e.input, |e.input|, e.now, err, out);
    } else {
      outs' := outs;
      FollowsIdle(b, fec.sh, events, i, id, ms, outs);
    }
  }

  /** An incomplete block that has not been idle for too long is live. */
  lemma StillLive(fec: Fec, b: Buf, events: seq<Event>, i: nat, id: nat, ms: seq<Bytes>, outs: seq<Output>)
    requires fec.sh.Valid() && fec.sh == Shape(fec.rs.N, fec.rs.K, fec.rs.maxDataSize)
    requires 1 <= i < |events| && Timely(events, fec.rs, id, fec.decodeTimeout)
    requires Follows(b, fec.sh, events[..i], id, ms, outs)
    requires b.timestamp > 0
    ensures fec.Live(b, events[i].now) && b.blockId == id
  {
    hide Seen, Progressed, HonestBlock;
  }

  lemma StepTime(fec: Fec, b: Buf, b': Buf, degree: int, input: Bytes, size: int, now: int, err: int, out: seq<Output>)
    requires fec.StepOf(b, b', degree, input, size, now, Accepting(), err, out) && b.timestamp > 0 && now > 0
    ensures b'.timestamp > 0
  {
    hide Arrival;
  }

  /**
   The run delivers: if a block finds room for its first packet and K of its
   N packets come before it has been idle for longer than the timeout, then each
   of its messages is handed to the callback exactly once, byte for byte, whatever
   else the decoder receives meanwhile.
   */
  method Run(fec: Fec, events: seq<Event>, id: nat, ghost ms: seq<Bytes>)
      returns (outs: seq<Output>, ghost order: seq<nat>, ghost k: nat)
    requires fec.Valid() && fec.rs.K < fec.rs.N
    requires |ms| == fec.rs.K && AreMessages(ms, fec.rs.maxDataSize) && Genuine(events, fec.rs, id, ms)
    requires events != [] && events[0].header.blockId == id && Welcomes(fec, id, events[0].now)
    requires Timely(events, fec.rs, id, fec.decodeTimeout) && |Seen(events, id, fec.rs.N)| == fec.rs.K
    modifies fec`bufs, fec`slots, fec`perf, fec`cache, fec`counters, fec.lru, fec.lru.table, Objects(fec.pool)
    ensures fec.Valid() && Transmitted(outs, ms, order)
    ensures Completed(fec.sh, fec.bufs, k, id, events[|events| - 1].now) && Newest(fec.cache, id)
    ensures OfBlock(events, id) ==> OnlyChanged(old(fec.bufs), fec.bufs, k)
  {
    hide Fec.Valid, AreMessages, IsBytes, IsSentFor, Fec.StepOf, Seen, Progressed, HonestBlock, IsPacketOf, Timely,
         Follows, Genuine, BufInv, Transmitted, Newest;
    fec.Shapes();
    GenuineFirst(events, fec.rs, id, ms);
    outs, k := Begin(fec, events[0], id, ms);
    assert events[..1] == [events[0]];
    for i := 1 to |events|
      invariant fec.Valid() && k < |fec.bufs| && Follows(fec.bufs[k], fec.sh, events[..i], id, ms, outs)
      invariant fec.bufs[k].timestamp > 0
      invariant events[i - 1].header.blockId == id ==> Newest(fec.cache, id)
      invariant OfBlock(events, id) ==> OnlyChanged(old(fec.bufs), fec.bufs, k)
    {
      outs := Continue(fec, events, i, id, ms, k, outs);
    }
    assert events[..|events|] == events;
    fec.Shapes();
    LastCompletes(events, fec.rs, id, fec.decodeTimeout);
    FollowedIsComplete(fec.bufs[k], fec.sh, events, id, ms, outs);
    order := FollowedIsTransmitted(fec.bufs[k], fec.sh, events, id, ms, outs);
  }

  /** The buffer of the block is complete since time t0. */
  ghost predicate Completed(sh: Shape, bufs: seq<Buf>, k: nat, id: nat, t0: int) {
    k < |bufs| && bufs[k].blockId == id && IsComplete(sh, bufs[k]) && bufs[k].timestamp == t0
  }

  /** The last event of such a run brings the packet that completes the block. */
  lemma LastCompletes(events: seq<Event>, rs: Config, id: nat, timeout: int)
    requires events != [] && events[0].header.blockId == id && Timely(events, rs, id, timeout)
    requires |Seen(events, id, rs.N)| == rs.K
    ensures events[|events| - 1].header.blockId == id && Progressed(events, id, rs.N) == events[|events| - 1].now
  {
    var n := |events| - 1;
    if n == 0 {
      assert events[..0] == [];
    } else {
      assert |Seen(events[..n], id, rs.N)| < rs.K;
    }
  }

  lemma FollowedIsComplete(b: Buf, sh: Shape, events: seq<Event>, id: nat, ms: seq<Bytes>, outs: seq<Output>)
    requires sh.Valid() && Follows(b, sh, events, id, ms, outs) && |Seen(events, id, sh.N)| == sh.K
    ensures b.blockId == id && IsComplete(sh, b) && b.timestamp == Progressed(events, id, sh.N)
  {
    hide HonestBlock, Seen, Progressed;
  }

  lemma GenuineFirst(events: seq<Event>, rs: Config, id: nat, ms: seq<Bytes>)
    requires rs.K < rs.N && |ms| == rs.K && AreMessages(ms, rs.maxDataSize) && Genuine(events, rs, id, ms)
    requires events != []
    ensures Genuine([events[0]], rs, id, ms)
  {
    hide AreMessages, IsBytes, IsPacketOf;
  }

  // ----- Packets that come after the block is complete.

  /** While the complete buffer is neither expired nor evicted, a late packet of the block delivers nothing. */
  method Late(fec: Fec, e: Event, ghost k: nat) returns (out: seq<Output>)
    requires fec.Valid() && k < |fec.bufs| && fec.bufs[k].blockId == e.header.blockId && IsComplete(fec.sh, fec.bufs[k])
    requires e.now - fec.bufs[k].timestamp <= fec.decodeTimeout && IsBytes(e.input) && e.now > 0 && fec.Fits(e.header)
    modifies fec`bufs, fec`slots, fec`perf, fec`cache, fec`counters, fec.lru, fec.lru.table, Objects(fec.pool)
    ensures fec.Valid() && out == [] && fec.bufs == old(fec.bufs) && fec.counters == old(fec.counters)
  {
    hide Fec.Valid, Fec.StepOf, Fec.CountsOf, IsBytes, Find, Touch, Objects;
    fec.StateFacts();
    var err;
    ghost var k';
    err, out, k' := fec.Decode(e.header, e.input, |e.input|, e.now, Accepting());
  }

  /** A new block takes the eldest buffer even if that is complete: the old block is forgotten. */
  method Evict(fec: Fec, e: Event) returns (out: seq<Output>)
    requires fec.Valid() && fec.RoomAt(e.now) && IsBytes(e.input) && e.now > 0 && fec.Fits(e.header)
    requires !Has(fec.cache, e.header.blockId)
    modifies fec`bufs, fec`slots, fec`perf, fec`cache, fec`counters, fec.lru, fec.lru.table, Objects(fec.pool)
    ensures fec.Valid() && !Has(fec.cache, old(Eldest(fec.cache).key)) && fec.cache != []
    ensures |old(fec.cache)| >= 2 ==> Eldest(fec.cache) == old(fec.cache)[|old(fec.cache)| - 2]
    ensures forall j :: 0 <= j < |fec.bufs| && j != old(Eldest(fec.cache).value) ==> fec.bufs[j] == old(fec.bufs[j])
    ensures |fec.bufs| == |old(fec.bufs)|
  {
    hide Fec.Valid, Fec.StepOf, Fec.CountsOf, IsBytes, Objects;
    ghost var c := fec.cache;
    fec.KeysDistinct();
    Forgotten(c, e.header.blockId, Eldest(c).value);
    var err;
    ghost var k';
    err, out, k' := fec.Decode(e.header, e.input, |e.input|, e.now, Accepting());
  }

  lemma Forgotten(c: Recency<nat, nat>, id: nat, k: nat)
    requires DistinctKeys(c) && c != [] && !Has(c, id)
    ensures Has(c, Eldest(c).key)
    ensures var c' := Put(Remove(c, Eldest(c).key), id, k);
            !Has(c', Eldest(c).key) && (|c| >= 2 ==> Eldest(c') == c[|c| - 2])
  {
    RemoveEldest(c);
    RemoveForgets(c, Eldest(c).key);
    var r := Remove(c, Eldest(c).key);
    var c' := Put(r, id, k);
    assert c'[1..] == r && Eldest(c).key != id;
  }
}
