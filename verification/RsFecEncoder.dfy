/**
 The sending half of src/main/tunnel/nt_rs_fec.c: every message goes out at once
 under the current block id; the K-th message of a block also sends the redundant
 packets and starts the next block. What the callback returns, call by call, is a
 parameter.
 */
module RsFecEncoder {
  import opened Block
  import opened Rs
  import opened Outcome
  import opened RoundTrip
  import opened RsFec
  import opened FecHeaders

  /** What the callback is given. */
  datatype Wire = Wire(header: FecHeader, data: Bytes)

  /** Packet index of block id, whose messages are ms. */
  ghost predicate IsPacketOf(w: Wire, rs: Config, id: nat, index: nat, ms: seq<Bytes>)
    requires rs.K < rs.N && |ms| == rs.K && AreMessages(ms, rs.maxDataSize)
  {
    && w.header == FecHeader(NT_RS_FEC_TAG, rs.N, rs.K, id, index) && index < rs.N
    && IsSentFor(Sent(rs.N - 1 - index, w.data), ms, rs.maxDataSize, rs.T())
  }

  /** Packets first, first + 1, ... of block id. */
  ghost predicate ArePacketsOf(ws: seq<Wire>, rs: Config, id: nat, first: nat, ms: seq<Bytes>)
    requires rs.K < rs.N && |ms| == rs.K && AreMessages(ms, rs.maxDataSize)
  {
    forall i :: 0 <= i < |ws| ==> IsPacketOf(ws[i], rs, id, first + i, ms)
  }

  /** ms is a block that begins with the messages so far. */
  ghost predicate Completes(ms: seq<Bytes>, begun: seq<Bytes>, rs: Config) {
    |ms| == rs.K && AreMessages(ms, rs.maxDataSize) && begun <= ms
  }

  lemma RawPacket(rs: Config, id: nat, begun: seq<Bytes>, msg: Bytes, ms: seq<Bytes>)
    requires rs.K < rs.N && Completes(ms, begun + [msg], rs)
    ensures ArePacketsOf([Wire(FecHeader(NT_RS_FEC_TAG, rs.N, rs.K, id, |begun|), msg)], rs, id, |begun|, ms)
  {
    hide AreMessages, IsSentFor;
    var i := |begun|;
    assert ms[i] == (begun + [msg])[i] == msg;
    RawIsSent(ms, rs.maxDataSize, rs.T(), i);
  }

  lemma OneMorePacket(ws: seq<Wire>, w: Wire, rs: Config, id: nat, first: nat, ms: seq<Bytes>)
    requires rs.K < rs.N && |ms| == rs.K && AreMessages(ms, rs.maxDataSize)
    requires ArePacketsOf(ws, rs, id, first, ms) && IsPacketOf(w, rs, id, first + |ws|, ms)
    ensures ArePacketsOf(ws + [w], rs, id, first, ms)
  {
    hide AreMessages, IsPacketOf;
  }

  /** What is sent as a packet of a block is all there is to it. */
  lemma PacketIsDetermined(w: Wire, w': Wire, rs: Config, id: nat, index: nat, ms: seq<Bytes>)
    requires rs.K < rs.N && |ms| == rs.K && AreMessages(ms, rs.maxDataSize) && HEADER_SIZE + rs.maxDataSize <= INT_MAX
    requires IsPacketOf(w, rs, id, index, ms) && IsPacketOf(w', rs, id, index, ms)
    requires index >= rs.K ==> w.data == [] || w.data[|w.data| - 1] != 0
    ensures w.data <= w'.data
    ensures index < rs.K ==> w.data == w'.data == ms[index]
    ensures index >= rs.K ==> IsTrimmedLength(Payload(ms, rs.maxDataSize, rs.T(), rs.N - 1 - index), |w.data|)
    ensures index >= rs.K ==> w.data == Payload(ms, rs.maxDataSize, rs.T(), rs.N - 1 - index)[..|w.data|]
  {
    hide AreMessages, Payload, IsSentFor, IsTrimmedLength;
    var d := rs.N - 1 - index;
    SentIsShortest(Sent(d, w.data), Sent(d, w'.data), ms, rs.maxDataSize, rs.T());
  }

  class Sender {
    const rs: Config
    const ec: Encoder
    var blockId: nat

    ghost predicate Valid()
      reads this, ec, ec.checks
    {
      ec.Valid(rs)
    }

    /** The messages of the block so far. */
    ghost function Begun(): seq<Bytes>
      reads this, ec
    {
      ec.messages
    }

    /** The sender's part of nt_rs_fec_init. */
    constructor (rs: Config, id: nat)
      requires rs.Valid()
      ensures Valid() && this.rs == rs && Begun() == [] && blockId == id && fresh(ec) && fresh(ec.checks)
    {
      hide Config.Valid, Encoder.Valid, ByteCode;
      rs.Facts();
      this.rs := rs;
      blockId := id;
      ec := new Encoder(rs);
    }

    /**
     nt_rs_fec_encode: the packets belong to the block in progress, whichever
     messages complete it; after K messages all N packets of it are out, and the
     next message begins a new block. The first packet that the callback does not
     accept is the last. If that is the message itself, the block stays as it is,
     even if complete; the next message then aborts the program in an ensure, as
     one of a size that rs_encode rejects does. A message goes out as it is,
     redundant data without the zeros at their end.
     */
    method Encode(input: Bytes, size: int, nextId: nat, answers: nat -> int)
        returns (aborted: bool, err: int, ws: seq<Wire>)
      requires Valid() && size <= |input| && IsBytes(input)
      modifies this`blockId, ec, ec.checks
      ensures Valid() && (aborted <==> !(0 <= size <= rs.maxDataSize) || |old(Begun())| == rs.K)
      ensures aborted ==> ws == [] && Begun() == old(Begun()) && blockId == old(blockId)
      ensures !aborted ==>
                && |ws| > 0 && err == answers(|ws| - 1) && (forall j: nat :: j < |ws| - 1 ==> answers(j) == 0)
                && forall ms | Completes(ms, old(Begun()) + [input[..size]], rs) && rs.K < rs.N ::
                     ArePacketsOf(ws, rs, old(blockId), |old(Begun())|, ms)
      ensures !aborted ==> ws[0].data == input[..size]
      ensures forall i :: 0 <= i < |ws| ==>
                ws[i].header == FecHeader(69, rs.N, rs.K, old(blockId), |old(Begun())| + i)
      ensures forall i :: 0 <= i < |ws| && ws[i].header.blockIndex >= rs.K ==>
                ws[i].data == [] || ws[i].data[|ws[i].data| - 1] != 0
      ensures !aborted && (answers(0) != 0 || |old(Begun())| + 1 < rs.K) ==>
                |ws| == 1 && Begun() == old(Begun()) + [input[..size]] && blockId == old(blockId)
      ensures !aborted && answers(0) == 0 && |old(Begun())| + 1 == rs.K ==>
                && Begun() == [] && blockId == nextId
                && |old(Begun())| + |ws| <= rs.N && (err == 0 ==> |old(Begun())| + |ws| == rs.N)
    {
      hide Config.Valid, Encoder.Valid, ByteCode, AreMessages, IsBytes, ArePacketsOf, IsPacketOf, Completes;
      ec.ValidConfig(rs);
      rs.Facts();
      ec.Counts(rs);
      ghost var begun := ec.messages;
      if 0 <= size <= rs.maxDataSize && ec.IsComplete(rs) {
        // The count would exceed K.
        return true, 0, [];
      }
      var n, degree := ec.Encode(rs, input, size);
      ec.Counts(rs);
      if n < 0 {
        return true, 0, [];
      }
      aborted := false;
      ws := [Wire(FecHeader(NT_RS_FEC_TAG, rs.N, rs.K, blockId, rs.N - 1 - degree), input[..size])];
      forall ms | Completes(ms, begun + [input[..size]], rs)
        ensures |ms| == rs.K && AreMessages(ms, rs.maxDataSize) && ArePacketsOf(ws, rs, blockId, |begun|, ms)
      {
        CompletesFacts(ms, begun + [input[..size]], rs);
        RawPacket(rs, blockId, begun, input[..size], ms);
      }
      err := answers(0);
      if err != 0 || n == 0 {
        return;
      }
      CompletesSelf(ec.messages, rs);
      ec.ValidConfig(rs);
      ghost var block := ec.messages;
      err, ws := Redundant(rs, ec, blockId, ws, answers);
      forall ms | Completes(ms, begun + [input[..size]], rs)
        ensures |ms| == rs.K && AreMessages(ms, rs.maxDataSize) && ArePacketsOf(ws, rs, blockId, |begun|, ms)
      {
        CompletesFacts(ms, block, rs);
      }
      ec.Reset(rs);
      blockId := nextId;
    }

    /**
     If the callback refuses the message that completes a block, the next message of
     legal size aborts the program.
     */
    method RefusedThenAborted(last: Bytes, next: Bytes, nextId: nat, answers: nat -> int) returns (aborted: bool)
      requires Valid() && |Begun()| + 1 == rs.K && IsBytes(last) && IsBytes(next)
      requires |last| <= rs.maxDataSize && |next| <= rs.maxDataSize && answers(0) != 0
      modifies this`blockId, ec, ec.checks
      ensures Valid() && aborted && |Begun()| == rs.K
    {
      hide Encoder.Valid, IsBytes, ArePacketsOf, Completes;
      var err, ws;
      aborted, err, ws := Encode(last, |last|, nextId, answers);
      aborted, err, ws := Encode(next, |next|, nextId, answers);
    }
  }

  lemma CompletesFacts(ms: seq<Bytes>, begun: seq<Bytes>, rs: Config)
    requires Completes(ms, begun, rs)
    ensures |ms| == rs.K && AreMessages(ms, rs.maxDataSize) && (|begun| == rs.K ==> ms == begun)
  {
    hide AreMessages;
  }

  lemma CompletesSelf(ms: seq<Bytes>, rs: Config)
    requires |ms| == rs.K && AreMessages(ms, rs.maxDataSize)
    ensures Completes(ms, ms, rs)
  {
  }

  /** Redundant packet i of the block, by way of the buffer. */
  method NextRedundant(rs: Config, ec: Encoder, id: nat, buffer: array<nat>, i: nat) returns (w: Wire)
    requires rs.Valid() && ec.Valid(rs) && |ec.messages| == rs.K && AreMessages(ec.messages, rs.maxDataSize)
    requires buffer.Length == rs.Columns() && buffer != ec.checks && i < rs.T() && rs.K < rs.N
    modifies buffer
    ensures ec.Valid(rs) && IsPacketOf(w, rs, id, rs.K + i, ec.messages)
    ensures w.header == FecHeader(69, rs.N, rs.K, id, rs.K + i)
    ensures w.data == [] || w.data[|w.data| - 1] != 0
  {
    hide *;
    rs.Facts();
    ConfigSizes(rs);
    var e, size, degree := ec.EncodeResult(rs, i, buffer, rs.Columns());
    TrimmedPacket(rs, id, ec.messages, i, buffer[..rs.Columns()], size);
    w := Wire(FecHeader(NT_RS_FEC_TAG, rs.N, rs.K, id, rs.N - 1 - degree), buffer[..size]);
    assert w.data == buffer[..rs.Columns()][..size];
  }

  lemma ConfigSizes(rs: Config)
    requires rs.K <= rs.N
    ensures rs.T() == rs.N - rs.K && rs.Columns() == HEADER_SIZE + rs.maxDataSize && NT_RS_FEC_TAG == 69
  {
  }

  lemma TrimmedPacket(rs: Config, id: nat, ms: seq<Bytes>, i: nat, payload: Bytes, size: nat)
    requires rs.K < rs.N && |ms| == rs.K && AreMessages(ms, rs.maxDataSize) && i < rs.T()
    requires payload == Payload(ms, rs.maxDataSize, rs.T(), rs.T() - 1 - i) && IsTrimmedLength(payload, size)
    ensures size <= |payload| && (payload[..size] == [] || payload[..size][|payload[..size]| - 1] != 0)
    ensures IsPacketOf(Wire(FecHeader(69, rs.N, rs.K, id, rs.K + i), payload[..size]), rs, id, rs.K + i, ms)
  {
    hide AreMessages, IsSentFor, Payload;
    RedundantIsSent(ms, rs.maxDataSize, rs.T(), rs.T() - 1 - i, size);
  }

  /** The loop of nt_rs_fec_encode over the redundant packets, up to the first that is not accepted. */
  method Redundant(rs: Config, ec: Encoder, id: nat, first: seq<Wire>, answers: nat -> int)
      returns (err: int, ws: seq<Wire>)
    requires rs.Valid() && ec.Valid(rs) && |ec.messages| == rs.K && |first| == 1
    requires AreMessages(ec.messages, rs.maxDataSize)
    requires ArePacketsOf(first, rs, id, rs.K - 1, ec.messages) && answers(0) == 0
    ensures 1 <= |ws| <= 1 + rs.T() && ArePacketsOf(ws, rs, id, rs.K - 1, ec.messages)
    ensures (err == 0 ==> |ws| == 1 + rs.T())
    ensures err == answers(|ws| - 1) && forall j: nat :: j < |ws| - 1 ==> answers(j) == 0
    ensures ws[0] == first[0]
    ensures forall i :: 1 <= i < |ws| ==> ws[i].header == FecHeader(69, rs.N, rs.K, id, rs.K - 1 + i)
    ensures forall i :: 1 <= i < |ws| ==> ws[i].data == [] || ws[i].data[|ws[i].data| - 1] != 0
  {
    hide Config.Valid, AreMessages, ArePacketsOf, IsPacketOf, Encoder.Valid, ByteCode;
    rs.Facts();
    ghost var ms := ec.messages;
    err, ws := 0, first;
    var buffer := new nat[rs.Columns()];
    for i := 0 to rs.T()
      invariant ec.Valid(rs) && ec.messages == ms && fresh(buffer) && err == 0
      invariant |ws| == 1 + i && ArePacketsOf(ws, rs, id, rs.K - 1, ms) && forall j: nat :: j <= i ==> answers(j) == 0
      invariant ws[0] == first[0]
      invariant forall j :: 1 <= j < |ws| ==> ws[j].header == FecHeader(69, rs.N, rs.K, id, rs.K - 1 + j)
      invariant forall j :: 1 <= j < |ws| ==> ws[j].data == [] || ws[j].data[|ws[j].data| - 1] != 0
    {
      var w := NextRedundant(rs, ec, id, buffer, i);
      OneMorePacket(ws, w, rs, id, rs.K - 1, ms);
      ws := ws + [w];
      err := answers(i + 1);
      if err != 0 {
        return;
      }
    }
  }
}
