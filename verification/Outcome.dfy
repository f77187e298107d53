/**
 What the decoder of src/main/rs/rs.c makes of K packets, for any block size: which
 it accepts, and which messages it hands back.
 */
module Outcome {
  import opened Block
  import opened Bitmap
  import opened Rs
  import opened Missing
  import opened Decoding
  import opened RsDecoder

  /** A packet on the wire. */
  datatype Sent = Sent(degree: nat, data: Bytes)

  /** Its degree and size are legal. */
  ghost predicate Sendable(p: Sent, N: nat, M: nat, T: nat) {
    p.degree < N && |p.data| <= (if p.degree >= T then M else HEADER_SIZE + M) && IsBytes(p.data)
  }

  ghost predicate AllSendable(received: seq<Sent>, N: nat, M: nat, T: nat) {
    forall i :: 0 <= i < |received| ==> Sendable(received[i], N, M, T)
  }

  /** The packet as the decoder sees it. */
  ghost function Seen(p: Sent, N: nat, M: nat, T: nat): Packet
    requires Sendable(p, N, M, T)
  {
    Arrival(p.degree, p.data, M, T)
  }

  ghost function Arrived(received: seq<Sent>, N: nat, M: nat, T: nat): (ps: seq<Packet>)
    requires AllSendable(received, N, M, T) && N <= 255
    ensures |ps| == |received| && Below(Degrees(ps), 256)
    ensures forall i :: 0 <= i < |ps| ==> ps[i] == Seen(received[i], N, M, T)
  {
    seq(|received|, i requires 0 <= i < |received| => Seen(received[i], N, M, T))
  }

  /** Those that the bitmap does not take for duplicates. */
  ghost function Accepted(ps: seq<Packet>): (a: seq<Packet>)
    requires Below(Degrees(ps), 256)
    ensures |a| <= |ps| && Below(Degrees(a), 256)
  {
    if ps == [] then []
    else
      var front, p := ps[..|ps| - 1], ps[|ps| - 1];
      assert Below(Degrees(front), 256) by {
        assert Degrees(front) == Degrees(ps)[..|ps| - 1];
      }
      var a := Accepted(front);
      assert p.degree == Degrees(ps)[|ps| - 1];
      if IsSet(MaskOf(Degrees(a)), p.degree) then a else
        assert Degrees(a + [p]) == Degrees(a) + [p.degree];
        a + [p]
  }

  lemma AcceptedLast(ps: seq<Packet>)
    requires Below(Degrees(ps), 256) && ps != []
    ensures var front, p := ps[..|ps| - 1], ps[|ps| - 1];
            && Below(Degrees(front), 256) && p.degree < 256
            && Accepted(ps) ==
                if IsSet(MaskOf(Degrees(Accepted(front))), p.degree) then Accepted(front) else Accepted(front) + [p]
  {
    hide IsSet, MaskOf;
    assert Degrees(ps[..|ps| - 1]) == Degrees(ps)[..|ps| - 1];
    assert Degrees(ps)[|ps| - 1] == ps[|ps| - 1].degree;
  }

  lemma NoneAccepted()
    ensures Below(Degrees([]), 256) && Accepted([]) == []
  {
  }

  /** The message was handed on when its own packet was accepted. */
  ghost predicate HandedRaw(a: seq<Packet>, M: nat, d: nat, m: Bytes) {
    IsMessage(m, M) && exists j :: 0 <= j < |a| && a[j] == Packet(d, Padded(m, M))
  }

  /** Erasure index is restored as the message m of degree d. */
  ghost predicate RestoredAs(a: seq<Packet>, N: nat, M: nat, T: nat, index: nat, d: nat, m: Bytes) {
    && CanRestore(a, N, M, T, index) && LeftOut(a, N, T)[index] == d
    && RestoredSize(a, N, M, T, index) == |m| <= M && RestoredData(a, N, M, T, index, |m|) == m
  }

  /** The message is handed back: it arrived itself, or it is restored once K packets are accepted. */
  ghost predicate Handed(a: seq<Packet>, N: nat, M: nat, T: nat, d: nat, m: Bytes) {
    HandedRaw(a, M, d, m) || (|a| + T == N && exists index: nat :: RestoredAs(a, N, M, T, index, d, m))
  }

  // ----- The decoder does this.

  /** A padded message determines the message. */
  lemma PaddedInjective(a: Bytes, b: Bytes, M: nat)
    requires IsMessage(a, M) && IsMessage(b, M) && Padded(a, M) == Padded(b, M) && HEADER_SIZE + M <= INT_MAX
    ensures a == b
  {
    hide HeaderValue, Int32, HeaderByte;
    assert Padded(a, M)[..HEADER_SIZE] == Header(|a|);
    assert Padded(b, M)[..HEADER_SIZE] == Header(|b|);
    HeaderRoundTrip(|a|);
    HeaderRoundTrip(|b|);
    assert Padded(a, M)[HEADER_SIZE..HEADER_SIZE + |a|] == a;
    assert Padded(b, M)[HEADER_SIZE..HEADER_SIZE + |b|] == b;
  }

  ghost predicate Maps(decoded: map<nat, Bytes>, i: nat, m: Bytes) {
    i in decoded && decoded[i] == m
  }

  /** decoded holds exactly the messages that have arrived themselves. */
  ghost predicate HoldsRaw(decoded: map<nat, Bytes>, a: seq<Packet>, N: nat, M: nat, T: nat)
    requires T <= N
  {
    forall i: nat, m: Bytes | i < N - T :: Maps(decoded, i, m) <==> HandedRaw(a, M, N - 1 - i, m)
  }

  lemma RawStep(decoded: map<nat, Bytes>, a: seq<Packet>, N: nat, M: nat, T: nat, p: Sent)
    requires T < N && HoldsRaw(decoded, a, N, M, T) && Sendable(p, N, M, T) && HEADER_SIZE + M <= INT_MAX
    requires forall j :: 0 <= j < |a| ==> a[j].degree != p.degree
    ensures HoldsRaw(if p.degree >= T then decoded[N - 1 - p.degree := p.data] else decoded,
                     a + [Arrival(p.degree, p.data, M, T)], N, M, T)
  {
    hide Padded, IsBytes;
    var q := Arrival(p.degree, p.data, M, T);
    var decoded' := if p.degree >= T then decoded[N - 1 - p.degree := p.data] else decoded;
    forall i: nat, m: Bytes | i < N - T ensures Maps(decoded', i, m) <==> HandedRaw(a + [q], M, N - 1 - i, m) {
      assert Maps(decoded, i, m) <==> HandedRaw(a, M, N - 1 - i, m);
      RawAppend(a, q, M, N - 1 - i, m);
      if p.degree == N - 1 - i && IsMessage(m, M) && q.payload == Padded(m, M) {
        PaddedInjective(p.data, m, M);
      }
    }
  }

  lemma RawAppend(a: seq<Packet>, q: Packet, M: nat, d: nat, m: Bytes)
    ensures HandedRaw(a + [q], M, d, m) <==> HandedRaw(a, M, d, m) || (IsMessage(m, M) && q == Packet(d, Padded(m, M)))
  {
    hide Padded, IsBytes;
    var a' := a + [q];
    assert a'[|a|] == q;
    if IsMessage(m, M) {
      if j :| 0 <= j < |a| && a[j] == Packet(d, Padded(m, M)) {
        assert a'[j] == a[j];
      }
    }
  }

  // ----- Feeding the decoder.

  lemma AcceptedStep(received: seq<Sent>, i: nat, N: nat, M: nat, T: nat)
    requires AllSendable(received, N, M, T) && N <= 255 && i < |received|
    ensures AllSendable(received[..i], N, M, T) && AllSendable(received[..i + 1], N, M, T)
    ensures Sendable(received[i], N, M, T)
    ensures var a := Accepted(Arrived(received[..i], N, M, T));
            Accepted(Arrived(received[..i + 1], N, M, T))
            == if IsSet(MaskOf(Degrees(a)), received[i].degree) then a else a + [Seen(received[i], N, M, T)]
  {
    hide IsSet, MaskOf, Arrival, Sendable;
    AllFront(received, i, N, M, T);
    var ps := Arrived(received[..i + 1], N, M, T);
    assert ps[..i] == Arrived(received[..i], N, M, T);
  }

  lemma AllFront(received: seq<Sent>, i: nat, N: nat, M: nat, T: nat)
    requires AllSendable(received, N, M, T) && i < |received|
    ensures AllSendable(received[..i], N, M, T) && AllSendable(received[..i + 1], N, M, T)
    ensures Sendable(received[i], N, M, T)
  {
    hide Sendable;
  }

  lemma SentFacts(p: Sent, N: nat, M: nat, T: nat)
    requires Sendable(p, N, M, T)
    ensures p.degree < N && |p.data| <= (if p.degree >= T then M else HEADER_SIZE + M) && IsBytes(p.data)
    ensures p.data[..|p.data|] == p.data && Seen(p, N, M, T) == Arrival(p.degree, p.data, M, T)
  {
  }

  lemma NotYet(a: seq<Packet>, d: nat)
    requires Below(Degrees(a), 256) && d < 256 && !IsSet(MaskOf(Degrees(a)), d)
    ensures forall j :: 0 <= j < |a| ==> a[j].degree != d
  {
    hide IsSet, MaskOf, Alias;
    MaskAnswers(Degrees(a), d);
    AliasSelf(d);
    forall j | 0 <= j < |a| ensures a[j].degree != d {
      assert Degrees(a)[j] == a[j].degree;
    }
  }

  /** Handing K packets to rs_decode; raw ones are handed on when they are accepted. */
  method Feed(rs: Config, dc: Decoder, received: seq<Sent>) returns (decoded: map<nat, Bytes>)
    requires rs.Valid() && dc.Valid(rs) && dc.arrivals == [] && |received| <= rs.K
    requires AllSendable(received, rs.N, rs.maxDataSize, rs.T())
    modifies dc, dc.syndromes, dc.erasureDegrees
    ensures dc.Valid(rs) && rs.N <= 255 && dc.arrivals == Accepted(Arrived(received, rs.N, rs.maxDataSize, rs.T()))
    ensures HoldsRaw(decoded, dc.arrivals, rs.N, rs.maxDataSize, rs.T())
  {
    hide Config.Valid, Decoder.Valid, ByteCode, IsBytes, Arrival, IsSet, MaskOf, LeftOut, Below, Arrivals, HoldsRaw,
         Sendable, AllSendable, Accepted, Arrived, Seen;
    rs.Facts();
    ghost var N, M, T := rs.N, rs.maxDataSize, rs.T();
    decoded := map[];
    NothingYet(received, N, M, T);
    for i := 0 to |received|
      invariant dc.Valid(rs) && AllSendable(received[..i], N, M, T)
      invariant dc.arrivals == Accepted(Arrived(received[..i], N, M, T))
      invariant HoldsRaw(decoded, dc.arrivals, N, M, T)
    {
      dc.Counts(rs);
      var p := received[i];
      AcceptedStep(received, i, N, M, T);
      SentFacts(p, N, M, T);
      if !IsSet(dc.mask, p.degree) {
        NotYet(dc.arrivals, p.degree);
        RawStep(decoded, dc.arrivals, N, M, T, p);
      }
      var n, isRaw := dc.Decode(rs, p.data, |p.data|, p.degree);
      if n >= 0 && isRaw {
        decoded := decoded[rs.N - 1 - p.degree := p.data];
      }
      dc.Counts(rs);
    }
    assert received[..|received|] == received;
  }

  lemma NothingYet(received: seq<Sent>, N: nat, M: nat, T: nat)
    requires N <= 255 && T <= N
    ensures AllSendable(received[..0], N, M, T) && Accepted(Arrived(received[..0], N, M, T)) == []
    ensures HoldsRaw(map[], [], N, M, T)
  {
  }

  // ----- Asking for what is missing.

  ghost predicate RestoredBefore(a: seq<Packet>, N: nat, M: nat, T: nat, n: nat, d: nat, m: Bytes) {
    exists index: nat :: index < n && RestoredAs(a, N, M, T, index, d, m)
  }

  /** decoded holds what arrived itself and what the first n erasures are restored as. */
  ghost predicate HoldsRestored(decoded: map<nat, Bytes>, a: seq<Packet>, N: nat, M: nat, T: nat, n: nat)
    requires T <= N
  {
    forall i: nat, m: Bytes | i < N - T ::
      Maps(decoded, i, m) <==> HandedRaw(a, M, N - 1 - i, m) || RestoredBefore(a, N, M, T, n, N - 1 - i, m)
  }

  /** The degrees left out have not arrived, and each is listed once. */
  lemma LeftOutIsNew(a: seq<Packet>, M: nat, N: nat, T: nat, index: nat)
    requires N <= 255 && Below(Degrees(a), 256) && T <= N && index < |LeftOut(a, N, T)|
    ensures var d := LeftOut(a, N, T)[index];
            && T <= d < N && (forall m :: !HandedRaw(a, M, d, m))
            && forall j :: 0 <= j < |LeftOut(a, N, T)| && LeftOut(a, N, T)[j] == d ==> j == index
  {
    hide Unset, MaskOf, IsSet, Padded, IsMessage;
    var ds := LeftOut(a, N, T);
    UnsetMembers(MaskOf(Degrees(a)), T, N);
    assert ds[index] in ds;
    NotYet(a, ds[index]);
  }

  lemma RestoredOne(a: seq<Packet>, N: nat, M: nat, T: nat, n: nat, d: nat, m: Bytes)
    ensures RestoredBefore(a, N, M, T, n + 1, d, m) <==>
              RestoredBefore(a, N, M, T, n, d, m) || RestoredAs(a, N, M, T, n, d, m)
  {
    hide RestoredAs;
  }

  lemma RestoreStep(decoded: map<nat, Bytes>, a: seq<Packet>, N: nat, M: nat, T: nat, n: nat)
    requires CanRestore(a, N, M, T, n) && HoldsRestored(decoded, a, N, M, T, n)
    ensures var d, size := LeftOut(a, N, T)[n], RestoredSize(a, N, M, T, n);
            && T <= d < N
            && HoldsRestored(if 0 <= size <= M
                             then decoded[N - 1 - d := RestoredData(a, N, M, T, n, size)]
                             else decoded, a, N, M, T, n + 1)
  {
    hide LeftOut, ErasureList, Arrivals, RestoredSize, RestoredData, HandedRaw;
    LeftOutIsNew(a, M, N, T, n);
    var d, size := LeftOut(a, N, T)[n], RestoredSize(a, N, M, T, n);
    var decoded' := if 0 <= size <= M then decoded[N - 1 - d := RestoredData(a, N, M, T, n, size)] else decoded;
    forall i: nat, m: Bytes | i < N - T
      ensures Maps(decoded', i, m) <==> HandedRaw(a, M, N - 1 - i, m) || RestoredBefore(a, N, M, T, n + 1, N - 1 - i, m)
    {
      assert Maps(decoded, i, m) <==> HandedRaw(a, M, N - 1 - i, m) || RestoredBefore(a, N, M, T, n, N - 1 - i, m);
      RestoredOne(a, N, M, T, n, N - 1 - i, m);
      if i == N - 1 - d && 0 <= size <= M {
        RestoredLength(a, N, M, T, n, size);
      }
    }
  }

  lemma RestoredLength(a: seq<Packet>, N: nat, M: nat, T: nat, n: nat, size: nat)
    requires CanRestore(a, N, M, T, n) && size <= M
    ensures |RestoredData(a, N, M, T, n, size)| == size
  {
  }

  /** The two halves together: decoded holds exactly the messages that are handed back. */
  lemma AllRestored(decoded: map<nat, Bytes>, a: seq<Packet>, N: nat, M: nat, T: nat, n: nat, i: nat, m: Bytes)
    requires N <= 255 && T <= N && Below(Degrees(a), 256) && HoldsRestored(decoded, a, N, M, T, n) && i < N - T
    requires if |a| + T == N then n == |LeftOut(a, N, T)| else n == 0
    ensures Maps(decoded, i, m) <==> Handed(a, N, M, T, N - 1 - i, m)
  {
    hide LeftOut, ErasureList, Arrivals, RestoredSize, RestoredData, HandedRaw, Below;
    assert Maps(decoded, i, m) <==> HandedRaw(a, M, N - 1 - i, m) || RestoredBefore(a, N, M, T, n, N - 1 - i, m);
  }

  lemma RawIsRestored(decoded: map<nat, Bytes>, a: seq<Packet>, N: nat, M: nat, T: nat)
    requires T <= N && HoldsRaw(decoded, a, N, M, T)
    ensures HoldsRestored(decoded, a, N, M, T, 0)
  {
    hide HandedRaw, RestoredAs;
  }

  /** Asking rs_decode_result for every missing message. */
  method Ask(rs: Config, dc: Decoder, raw: map<nat, Bytes>) returns (decoded: map<nat, Bytes>)
    requires rs.Valid() && rs.N <= 255 && dc.Valid(rs) && HoldsRaw(raw, dc.arrivals, rs.N, rs.maxDataSize, rs.T())
    ensures HoldsRestored(decoded, dc.arrivals, rs.N, rs.maxDataSize, rs.T(), dc.rawErasureNum)
  {
    hide Config.Valid, Decoder.Valid, ByteCode, LeftOut, Below, Arrivals, HoldsRaw, HoldsRestored, RestoredSize,
         RestoredData, ErasureList, Honest, MissingMessage;
    rs.Facts();
    RawIsRestored(raw, dc.arrivals, rs.N, rs.maxDataSize, rs.T());
    decoded := raw;
    var buffer := new nat[rs.maxDataSize];
    for j := 0 to dc.rawErasureNum
      invariant dc.Valid(rs) && fresh(buffer) && HoldsRestored(decoded, dc.arrivals, rs.N, rs.maxDataSize, rs.T(), j)
    {
      var err, size, degree := dc.DecodeResult(rs, j, buffer, rs.maxDataSize);
      RestoreStep(decoded, dc.arrivals, rs.N, rs.maxDataSize, rs.T(), j);
      if err == 0 && size >= 0 {
        decoded := decoded[rs.N - 1 - degree := buffer[..size]];
      }
    }
  }

  /**
   The decoder, handed any K legal packets and then asked for all it can restore:
   exactly the messages that are handed back come out.
   */
  method Collect(rs: Config, received: seq<Sent>) returns (decoded: map<nat, Bytes>)
    requires rs.Valid() && |received| == rs.K && AllSendable(received, rs.N, rs.maxDataSize, rs.T()) && rs.N <= 255
    ensures forall i: nat, m: Bytes | i < rs.K ::
              Maps(decoded, i, m) <==> Handed(Accepted(Arrived(received, rs.N, rs.maxDataSize, rs.T())), rs.N,
                                              rs.maxDataSize, rs.T(), rs.N - 1 - i, m)
  {
    hide Config.Valid, Decoder.Valid, ByteCode, LeftOut, Below, Arrivals, HoldsRaw, HoldsRestored, AllSendable,
         Accepted, Arrived, Handed, Maps;
    rs.Facts();
    var dc := new Decoder(rs);
    var raw := Feed(rs, dc, received);
    dc.Counts(rs);
    decoded := Ask(rs, dc, raw);
    forall i: nat, m: Bytes | i < rs.K
      ensures Maps(decoded, i, m) <==> Handed(dc.arrivals, rs.N, rs.maxDataSize, rs.T(), rs.N - 1 - i, m)
    {
      AllRestored(decoded, dc.arrivals, rs.N, rs.maxDataSize, rs.T(), dc.rawErasureNum, i, m);
    }
  }
}
