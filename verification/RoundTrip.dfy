/**
 A whole block through encoder and decoder, as src/test/test_rs.c drives them:
 any K of the N packets, in any order, bring back every message.
 */
module RoundTrip {
  import opened Collections
  import opened Polynomials
  import opened Block
  import opened Bitmap
  import opened Missing
  import opened Rs
  import opened Decoding
  import opened Outcome

  /** The packet is the block's packet of its degree, give or take zeros that are not sent. */
  ghost predicate IsSentFor(p: Sent, ms: seq<Bytes>, M: nat, T: nat)
    requires AreMessages(ms, M) && T > 0
  {
    && p.degree < T + |ms|
    && |p.data| <= (if p.degree >= T then M else HEADER_SIZE + M)
    && IsBytes(p.data)
    && Arrival(p.degree, p.data, M, T) == Packet(p.degree, Payload(ms, M, T, p.degree))
  }

  lemma SentForFacts(p: Sent, ms: seq<Bytes>, M: nat, T: nat)
    requires AreMessages(ms, M) && T > 0 && IsSentFor(p, ms, M, T)
    ensures p.degree < T + |ms| && |p.data| <= (if p.degree >= T then M else HEADER_SIZE + M) && IsBytes(p.data)
    ensures Arrival(p.degree, p.data, M, T) == Packet(p.degree, Payload(ms, M, T, p.degree))
  {
    hide AreMessages, Payload, Arrival, IsBytes;
  }

  lemma SentForIs(p: Sent, ms: seq<Bytes>, M: nat, T: nat)
    requires AreMessages(ms, M) && T > 0 && p.degree < T + |ms| && IsBytes(p.data)
    requires |p.data| <= (if p.degree >= T then M else HEADER_SIZE + M)
    requires Arrival(p.degree, p.data, M, T) == Packet(p.degree, Payload(ms, M, T, p.degree))
    ensures IsSentFor(p, ms, M, T)
  {
    hide AreMessages, Payload, Arrival, IsBytes;
  }

  /** The data of a packet as they are sent: a redundant one ends before its trailing zeros. */
  ghost predicate Trimmed(p: Sent, T: nat) {
    p.degree >= T || p.data == [] || p.data[|p.data| - 1] != 0
  }

  /**
   Of all packets that a decoder takes for the block's packet of one degree, only one
   is sent, and it is the shortest: a message as it is, redundant data without the
   zeros at their end.
   */
  lemma SentIsShortest(p: Sent, q: Sent, ms: seq<Bytes>, M: nat, T: nat)
    requires AreMessages(ms, M) && T > 0 && HEADER_SIZE + M <= INT_MAX
    requires IsSentFor(p, ms, M, T) && Trimmed(p, T) && IsSentFor(q, ms, M, T) && q.degree == p.degree
    ensures p.data <= q.data && (Trimmed(q, T) ==> q == p)
    ensures p.degree < T ==> IsTrimmedLength(Payload(ms, M, T, p.degree), |p.data|)
    ensures p.degree < T ==> p.data == Payload(ms, M, T, p.degree)[..|p.data|]
    ensures p.degree >= T ==> p.data == ms[T + |ms| - 1 - p.degree]
  {
    hide AreMessages, Payload, IsBytes, IsSentFor, IsTrimmedLength;
    if p.degree >= T {
      RawCarriesMessage(p, ms, M, T);
      RawCarriesMessage(q, ms, M, T);
    } else {
      RedundantIsShortest(p, q, ms, M, T);
      if Trimmed(q, T) {
        RedundantIsShortest(q, p, ms, M, T);
      }
    }
  }

  lemma RedundantIsShortest(p: Sent, q: Sent, ms: seq<Bytes>, M: nat, T: nat)
    requires AreMessages(ms, M) && T > 0 && p.degree == q.degree < T
    requires IsSentFor(p, ms, M, T) && IsSentFor(q, ms, M, T)
    requires p.data == [] || p.data[|p.data| - 1] != 0
    ensures |p.data| <= HEADER_SIZE + M && p.data <= q.data
    ensures p.data == Payload(ms, M, T, p.degree)[..|p.data|]
    ensures IsTrimmedLength(Payload(ms, M, T, p.degree), |p.data|)
  {
    hide *;
    RedundantPads(p, ms, M, T);
    RedundantPads(q, ms, M, T);
    ShorterPrefix(Payload(ms, M, T, p.degree), p.data, q.data);
  }

  lemma RedundantPads(p: Sent, ms: seq<Bytes>, M: nat, T: nat)
    requires AreMessages(ms, M) && T > 0 && IsSentFor(p, ms, M, T) && p.degree < T
    ensures var s := Payload(ms, M, T, p.degree); |p.data| <= |s| && s == p.data + Zeros(|s| - |p.data|)
  {
    hide AreMessages, Payload, IsBytes;
  }

  /** Data that end in a nonzero byte are part of all data that are the same but for zeros at the end. */
  lemma ShorterPrefix(s: Bytes, p: Bytes, q: Bytes)
    requires |p| <= |s| && |q| <= |s| && s == p + Zeros(|s| - |p|) == q + Zeros(|s| - |q|)
    requires p == [] || p[|p| - 1] != 0
    ensures p <= q && p == s[..|p|] && IsTrimmedLength(s, |p|)
  {
    assert p == s[..|p|] && q == s[..|q|];
  }

  lemma RawArrival(d: nat, m: Bytes, M: nat, T: nat)
    requires d >= T && |m| <= M
    ensures Arrival(d, m, M, T) == Packet(d, Padded(m, M))
  {
    hide Padded;
  }

  lemma RawIsSent(ms: seq<Bytes>, M: nat, T: nat, i: nat)
    requires AreMessages(ms, M) && T > 0 && i < |ms|
    ensures IsSentFor(Sent(T + |ms| - 1 - i, ms[i]), ms, M, T)
  {
    hide *;
    var d := T + |ms| - 1 - i;
    MessageBytes(ms, M, i);
    RawPayload(ms, M, T, d);
    RawArrival(d, ms[i], M, T);
    SentForIs(Sent(d, ms[i]), ms, M, T);
  }

  lemma RedundantIsSent(ms: seq<Bytes>, M: nat, T: nat, degree: nat, size: nat)
    requires AreMessages(ms, M) && degree < T && IsTrimmedLength(Payload(ms, M, T, degree), size)
    ensures size <= HEADER_SIZE + M && IsSentFor(Sent(degree, Payload(ms, M, T, degree)[..size]), ms, M, T)
    ensures Trimmed(Sent(degree, Payload(ms, M, T, degree)[..size]), T)
  {
    hide AreMessages, Symbols, Payload;
    TrimmedPads(Payload(ms, M, T, degree), size);
    PayloadBytes(ms, M, T, degree);
    BytesPrefix(Payload(ms, M, T, degree), size);
  }

  lemma PayloadBytes(ms: seq<Bytes>, M: nat, T: nat, degree: nat)
    requires AreMessages(ms, M) && T > 0 && degree < T + |ms|
    ensures IsBytes(Payload(ms, M, T, degree))
  {
    hide AreMessages, Symbols, Block.F;
    FieldSize();
    var p := Payload(ms, M, T, degree);
    forall col | 0 <= col < |p| ensures p[col] < 256 {
      SymbolsInField(ms, M, T, col);
    }
  }

  /** The first packets of the block of ms, by descending degree. */
  ghost predicate AreSentFor(packets: seq<Sent>, ms: seq<Bytes>, M: nat, T: nat)
    requires AreMessages(ms, M) && T > 0
  {
    && |packets| <= T + |ms|
    && forall i :: 0 <= i < |packets| ==>
         packets[i].degree == T + |ms| - 1 - i && IsSentFor(packets[i], ms, M, T) && Trimmed(packets[i], T)
  }

  lemma OneMoreSent(packets: seq<Sent>, p: Sent, ms: seq<Bytes>, M: nat, T: nat)
    requires AreMessages(ms, M) && T > 0 && AreSentFor(packets, ms, M, T) && |packets| < T + |ms|
    requires p.degree == T + |ms| - 1 - |packets| && IsSentFor(p, ms, M, T) && Trimmed(p, T)
    ensures AreSentFor(packets + [p], ms, M, T)
  {
    hide IsSentFor, AreMessages;
  }

  lemma NoneSent(ms: seq<Bytes>, M: nat, T: nat)
    requires AreMessages(ms, M) && T > 0
    ensures AreSentFor([], ms, M, T)
  {
  }

  lemma MessageBytes(ms: seq<Bytes>, M: nat, i: nat)
    requires AreMessages(ms, M) && i < |ms|
    ensures |ms[i]| <= M && IsBytes(ms[i]) && ms[i][..|ms[i]|] == ms[i]
  {
  }

  /** The encoder's half: one packet per message, then the redundant ones. */
  method EncodeBlock(rs: Config, ms: seq<Bytes>) returns (packets: seq<Sent>)
    requires rs.Valid() && |ms| == rs.K && AreMessages(ms, rs.maxDataSize)
    ensures |packets| == rs.N && AreSentFor(packets, ms, rs.maxDataSize, rs.T())
    ensures forall i :: rs.K <= i < rs.N ==>
              packets[i].data == [] || packets[i].data[|packets[i].data| - 1] != 0
  {
    hide Config.Valid, AreMessages, AreSentFor, IsSentFor, Encoder.Valid, IsBytes, ByteCode, Payload;
    rs.Facts();
    var ec := new Encoder(rs);
    packets := [];
    NoneSent(ms, rs.maxDataSize, rs.T());
    for i := 0 to rs.K
      invariant ec.Valid(rs) && ec.messages == ms[..i] && fresh(ec) && fresh(ec.checks)
      invariant |packets| == i && AreSentFor(packets, ms, rs.maxDataSize, rs.T())
    {
      ec.Counts(rs);
      MessageBytes(ms, rs.maxDataSize, i);
      var n, degree := ec.Encode(rs, ms[i], |ms[i]|);
      RawIsSent(ms, rs.maxDataSize, rs.T(), i);
      OneMoreSent(packets, Sent(degree, ms[i]), ms, rs.maxDataSize, rs.T());
      packets := packets + [Sent(degree, ms[i])];
    }
    assert ms[..rs.K] == ms;
    packets := EmitRedundant(rs, ec, ms, packets);
    SentAreTrimmed(packets, ms, rs.maxDataSize, rs.T());
  }

  lemma SentAreTrimmed(packets: seq<Sent>, ms: seq<Bytes>, M: nat, T: nat)
    requires AreMessages(ms, M) && T > 0 && AreSentFor(packets, ms, M, T)
    ensures forall i :: |ms| <= i < |packets| ==>
              packets[i].data == [] || packets[i].data[|packets[i].data| - 1] != 0
  {
    hide AreMessages, IsSentFor;
  }

  method EmitRedundant(rs: Config, ec: Encoder, ms: seq<Bytes>, raw: seq<Sent>) returns (packets: seq<Sent>)
    requires ec.Valid(rs) && ec.messages == ms && |ms| == |raw| == rs.K && AreMessages(ms, rs.maxDataSize)
    requires rs.Valid() && AreSentFor(raw, ms, rs.maxDataSize, rs.T())
    ensures |packets| == rs.N && AreSentFor(packets, ms, rs.maxDataSize, rs.T())
  {
    hide Config.Valid, AreMessages, AreSentFor, IsSentFor, Encoder.Valid, ByteCode, Payload, IsTrimmedLength;
    rs.Facts();
    packets := raw;
    var buffer := new nat[rs.Columns()];
    for j := 0 to rs.T()
      invariant ec.Valid(rs) && ec.messages == ms && fresh(buffer)
      invariant |packets| == rs.K + j && AreSentFor(packets, ms, rs.maxDataSize, rs.T())
    {
      var err, size, degree := ec.EncodeResult(rs, j, buffer, rs.Columns());
      RedundantIsSent(ms, rs.maxDataSize, rs.T(), degree, size);
      var p := Sent(degree, buffer[..size]);
      assert buffer[..size] == buffer[..rs.Columns()][..size];
      OneMoreSent(packets, p, ms, rs.maxDataSize, rs.T());
      packets := packets + [p];
    }
  }

  /** Distinct packets of the block of ms, in any order. */
  ghost predicate Received(ps: seq<Sent>, ms: seq<Bytes>, M: nat, T: nat)
    requires AreMessages(ms, M) && T > 0
  {
    && (forall i :: 0 <= i < |ps| ==> IsSentFor(ps[i], ms, M, T))
    && (forall i, j :: 0 <= i < j < |ps| ==> ps[i].degree != ps[j].degree)
  }

  /** Received packets are legal, and the decoder sees packets of the block. */
  lemma ReceivedIsFromBlock(ps: seq<Sent>, ms: seq<Bytes>, M: nat, T: nat)
    requires AreMessages(ms, M) && T > 0 && Received(ps, ms, M, T) && T + |ms| <= 255
    ensures AllSendable(ps, T + |ms|, M, T)
    ensures var a := Arrived(ps, T + |ms|, M, T);
            FromBlock(a, ms, M, T) && Distinct(Degrees(a)) && Below(Degrees(a), T + |ms|)
  {
    hide AreMessages, Payload, Arrival, IsBytes;
  }

  /** Of up to 32 packets in a block, none is taken for a duplicate. */
  lemma {:induction false} AllAccepted(ps: seq<Packet>, M: nat, N: nat)
    requires Below(Degrees(ps), 256) && Distinct(Degrees(ps)) && Below(Degrees(ps), N) && N <= 32
    ensures Accepted(ps) == ps
  {
    hide IsSet, MaskOf, Distinct, Below;
    if ps != [] {
      var n := |ps| - 1;
      PrefixDegrees(ps, n, N);
      AllAccepted(ps[..n], M, N);
      FaithfulBelow32(Degrees(ps[..n]), ps[n].degree);
      assert ps == ps[..n] + [ps[n]];
    }
  }

  lemma PrefixDegrees(ps: seq<Packet>, n: nat, N: nat)
    requires Distinct(Degrees(ps)) && Below(Degrees(ps), N) && n < |ps| && N <= 32
    ensures var front := Degrees(ps[..n]);
            && Distinct(front) && Below(front, N) && Below(front, 256) && Below(front, 32)
            && ps[n].degree !in front && ps[n].degree < 32
  {
    var ds := Degrees(ps);
    assert Degrees(ps[..n]) == ds[..n] && ds[n] == ps[n].degree;
    PrefixExcludes(ds, n);
  }

  /** Payloads of a block are bytes of full width. */
  lemma FromBlockArrives(ps: seq<Packet>, ms: seq<Bytes>, M: nat, T: nat)
    requires AreMessages(ms, M) && T > 0 && FromBlock(ps, ms, M, T) && T + |ms| <= 255
    requires Distinct(Degrees(ps)) && Below(Degrees(ps), T + |ms|)
    ensures Arrivals(ps, M, T + |ms|)
  {
    hide AreMessages, Payload, IsBytes, Distinct;
    forall i | 0 <= i < |ps| ensures |ps[i].payload| == HEADER_SIZE + M && IsBytes(ps[i].payload) {
      PayloadBytes(ms, M, T, ps[i].degree);
    }
  }

  lemma MessageAt(ms: seq<Bytes>, M: nat, i: nat)
    requires AreMessages(ms, M) && i < |ms|
    ensures IsMessage(ms[i], M) && |ms[i]| <= M
  {
  }

  /** For blocks of up to 32 packets, any K of them hand back every message. */
  lemma BlockComesBack(ps: seq<Packet>, ms: seq<Bytes>, M: nat, T: nat, i: nat)
    requires AreMessages(ms, M) && T > 0 && FromBlock(ps, ms, M, T) && |ps| == |ms| && T + |ms| <= 32
    requires Distinct(Degrees(ps)) && Below(Degrees(ps), T + |ms|) && HEADER_SIZE + M <= INT_MAX && i < |ms|
    ensures Below(Degrees(ps), 256) && Handed(Accepted(ps), T + |ms|, M, T, T + |ms| - 1 - i, ms[i])
  {
    hide *;
    var N := T + |ms|;
    var d := N - 1 - i;
    FromBlockArrives(ps, ms, M, T);
    ArrivalsWidth(ps, M, N);
    AllAccepted(ps, M, N);
    RawPayload(ms, M, T, d);
    MessageAt(ms, M, i);
    HonestIsFromBlock(ps, ms, M, T);
    if j :| 0 <= j < |ps| && ps[j].degree == d {
      FromBlockAt(ps, ms, M, T, j);
      RawIsHanded(ps, N, M, T, j, ms[i]);
    } else {
      MissingIsListed(ps, M, N, T, d);
      var index :| 0 <= index < |LeftOut(ps, N, T)| && LeftOut(ps, N, T)[index] == d;
      LeftOutRaw(ps, N, T, index);
      ErasuresFit(ps, M, N, T);
      HonestMessage(ps, ms, N, M, T, index);
      MissingIs(ps, ms, N, T, index);
      MissingIsHanded(ps, N, M, T, index, d, ms[i]);
    }
  }

  lemma HonestIsFromBlock(ps: seq<Packet>, ms: seq<Bytes>, M: nat, T: nat)
    requires AreMessages(ms, M) && T > 0 && FromBlock(ps, ms, M, T) && |ps| == |ms| && T + |ms| <= 32
    ensures Honest(ps, ms, M, T)
  {
    hide AreMessages, FromBlock;
  }

  lemma FromBlockAt(ps: seq<Packet>, ms: seq<Bytes>, M: nat, T: nat, j: nat)
    requires AreMessages(ms, M) && T > 0 && FromBlock(ps, ms, M, T) && j < |ps|
    ensures ps[j].degree < T + |ms| && ps[j].payload == Payload(ms, M, T, ps[j].degree)
  {
    hide AreMessages, Payload;
  }

  lemma RawIsHanded(a: seq<Packet>, N: nat, M: nat, T: nat, j: nat, m: Bytes)
    requires j < |a| && IsMessage(m, M) && a[j].payload == Padded(m, M)
    ensures Handed(a, N, M, T, a[j].degree, m)
  {
    hide Padded, IsBytes;
    assert a[j] == Packet(a[j].degree, Padded(m, M));
  }

  lemma MissingIsHanded(a: seq<Packet>, N: nat, M: nat, T: nat, index: nat, d: nat, m: Bytes)
    requires Arrivals(a, M, N) && Below(Degrees(a), 256) && T <= N <= 255 && |a| + T == N
    requires index < |LeftOut(a, N, T)| && index < |ErasureList(a, N, T)| <= T && LeftOut(a, N, T)[index] == d
    requires RestoredSize(a, N, M, T, index) == |m| <= M && RestoredData(a, N, M, T, index, |m|) == m
    ensures Handed(a, N, M, T, d, m)
  {
    hide Arrivals, Below, LeftOut, ErasureList, RestoredSize, RestoredData;
    assert RestoredAs(a, N, M, T, index, d, m);
  }

  lemma ErasuresFit(ps: seq<Packet>, M: nat, N: nat, T: nat)
    requires Arrivals(ps, M, N) && Below(Degrees(ps), 256) && N <= 255 && |ps| + T == N
    ensures |ErasureList(ps, N, T)| <= T
  {
    hide MaskOf, Unset, Width, Distinct, Below;
    UnsetFits(Degrees(ps), N);
  }

  /** A raw packet carries its message. */
  lemma RawCarriesMessage(p: Sent, ms: seq<Bytes>, M: nat, T: nat)
    requires AreMessages(ms, M) && T > 0 && IsSentFor(p, ms, M, T) && p.degree >= T && HEADER_SIZE + M <= INT_MAX
    ensures p.data == ms[T + |ms| - 1 - p.degree]
  {
    hide Padded, Payload;
    RawPayload(ms, M, T, p.degree);
    PaddedInjective(p.data, ms[T + |ms| - 1 - p.degree], M);
  }

  lemma MissingIs(ps: seq<Packet>, ms: seq<Bytes>, N: nat, T: nat, index: nat)
    requires N <= 255 && Below(Degrees(ps), 256) && T + |ms| == N && index < |LeftOut(ps, N, T)|
    ensures T <= LeftOut(ps, N, T)[index] < N
    ensures MissingMessage(ps, ms, N, T, index) == ms[N - 1 - LeftOut(ps, N, T)[index]]
  {
    LeftOutRaw(ps, N, T, index);
  }

  /** A message that has not arrived is listed. */
  lemma MissingIsListed(ps: seq<Packet>, M: nat, N: nat, T: nat, d: nat)
    requires Arrivals(ps, M, N) && Below(Degrees(ps), 256) && T <= d < N <= 32
    requires forall j :: 0 <= j < |ps| ==> ps[j].degree != d
    ensures exists index :: 0 <= index < |LeftOut(ps, N, T)| && LeftOut(ps, N, T)[index] == d
  {
    hide MaskOf, Unset, IsSet, Width;
    UnsetMembers(MaskOf(Degrees(ps)), T, N);
    assert Below(Degrees(ps), 32);
    FaithfulBelow32(Degrees(ps), d);
    assert d in LeftOut(ps, N, T);
  }

  /** The decoder's half. */
  method DecodeBlock(rs: Config, received: seq<Sent>, ghost ms: seq<Bytes>) returns (messages: seq<Bytes>)
    requires rs.Valid() && rs.N <= 32 && |ms| == |received| == rs.K && AreMessages(ms, rs.maxDataSize)
    requires Received(received, ms, rs.maxDataSize, rs.T())
    ensures messages == ms
  {
    hide Config.Valid, AreMessages, Received, ByteCode, AllSendable, Arrived, Accepted, Handed, FromBlock, Below,
         Distinct;
    rs.Facts();
    ReceivedIsFromBlock(received, ms, rs.maxDataSize, rs.T());
    var decoded := Collect(rs, received);
    ghost var ps := Arrived(received, rs.N, rs.maxDataSize, rs.T());
    forall i | 0 <= i < rs.K ensures i in decoded && decoded[i] == ms[i] {
      BlockComesBack(ps, ms, rs.maxDataSize, rs.T(), i);
      assert Maps(decoded, i, ms[i]);
    }
    messages := seq(rs.K, i requires 0 <= i < rs.K => decoded[i]);
  }

  /**
   The central theorem: for all messages of legal size, any K of the N packets,
   delivered in any order, give back the messages byte for byte.
   */
  method TransmitBlock(N: nat, K: nat, M: nat, ms: seq<Bytes>, order: seq<nat>) returns (messages: seq<Bytes>)
    requires 1 <= K < N <= 32 && HEADER_SIZE + M <= INT_MAX && |ms| == K && AreMessages(ms, M)
    requires |order| == K && Distinct(order) && Below(order, N)
    ensures messages == ms
  {
    hide Config.Valid, AreMessages, Received, AreSentFor, Distinct, ByteCode;
    var rs := Init(N, K, M);
    rs.Facts();
    var packets := EncodeBlock(rs, ms);
    var received := seq(K, i requires 0 <= i < K => packets[order[i]]);
    ChosenAreReceived(packets, order, received, ms, M, rs.T());
    messages := DecodeBlock(rs, received, ms);
  }

  lemma ChosenAreReceived(packets: seq<Sent>, order: seq<nat>, received: seq<Sent>, ms: seq<Bytes>, M: nat, T: nat)
    requires AreMessages(ms, M) && T > 0 && AreSentFor(packets, ms, M, T) && |packets| == T + |ms|
    requires Distinct(order) && Below(order, |packets|) && |received| == |order|
    requires forall i :: 0 <= i < |order| ==> received[i] == packets[order[i]]
    ensures Received(received, ms, M, T)
  {
    hide AreMessages, IsSentFor;
  }
}
