/**
 src/main/rs/rs.c: encoding and decoding of blocks of variable-length packets.
 */
module Rs {
  import opened ExpLog
  import opened Primitivity
  import opened Polynomials
  import opened CodeTheory
  import opened RsCode
  import opened Block
  import opened Columns

  const E_RS_INVALID_SIZE := -1
  const E_RS_INVALID_INDEX := -2
  const E_RS_INVALID_DEGREE := -3
  const E_RS_INVALID_HEADER := -4
  const E_RS_DUPLICATE := -5

  const INT_MAX := 0x7FFF_FFFF

  /** rs_t */
  datatype Config = Config(N: nat, K: nat, maxDataSize: nat, code: Code) {

    ghost predicate Valid() {
      && 1 <= K < N <= 255
      && HEADER_SIZE + maxDataSize <= INT_MAX
      && code.Valid()
      && code.F() == Block.F()
      && code.n - code.k == N - K
    }

    lemma Facts()
      requires Valid()
      ensures 1 <= K < N <= 255 && HEADER_SIZE + maxDataSize <= INT_MAX && ByteCode(code, T())
    {
      code.Facts();
    }

    /** T_SIZE */
    function T(): nat
      requires K <= N
    {
      N - K
    }

    /** RS_MAX_ENCODED_SIZE */
    function Columns(): nat {
      HEADER_SIZE + maxDataSize
    }
  }

  /** rs_init */
  method Init(N: nat, K: nat, maxDataSize: nat) returns (rs: Config)
    requires 1 <= K < N <= 255 && HEADER_SIZE + maxDataSize <= INT_MAX
    ensures rs.Valid() && rs.N == N && rs.K == K && rs.maxDataSize == maxDataSize
  {
    FieldSize();
    GF256IsPrimitive();
    WellFormedGF256();
    hide Primitive, WellFormed;
    var exps, logs := new nat[256], new nat[256];
    var galois := Galois.Init(GF256, exps, logs);
    var genPoly := new nat[255];
    var code := RsCode.Init(255 - (N - K), galois, genPoly);
    rs := Config(N, K, maxDataSize, code);
  }

  /** The code works on bytes and has T checks. */
  ghost predicate ByteCode(c: Code, T: nat) {
    && c.Valid()
    && c.F() == Block.F()
    && c.n - c.k == T > 0
    && c.genPoly == Generator(Block.F(), T)
  }

  /** The register of one column after the given messages. */
  ghost function CheckRow(ms: seq<Bytes>, M: nat, T: nat, col: nat): (row: seq<nat>)
    requires AreMessages(ms, M) && T > 0 && col < HEADER_SIZE + M
    ensures |row| == T
  {
    Checks(Block.F(), T, Column(ms, M, col))
  }

  lemma CheckRowInField(ms: seq<Bytes>, M: nat, T: nat, col: nat)
    requires AreMessages(ms, M) && T > 0 && col < HEADER_SIZE + M
    ensures InField(Block.F(), CheckRow(ms, M, T, col))
  {
    hide Checks, AreMessages, Block.F;
    ChecksInField(Block.F(), T, Column(ms, M, col));
  }

  lemma CheckRowStep(ms: seq<Bytes>, msg: Bytes, M: nat, T: nat, col: nat)
    requires AreMessages(ms, M) && AreMessages(ms + [msg], M) && IsMessage(msg, M) && T > 0 && col < HEADER_SIZE + M
    ensures CheckRow(ms + [msg], M, T, col)
         == RegisterStep(Block.F(), Generator(Block.F(), T), CheckRow(ms, M, T, col), Padded(msg, M)[col])
  {
    hide RegisterStep, Generator, Padded, Block.F, AreMessages;
    var m := Column(ms + [msg], M, col);
    assert m[..|m| - 1] == Column(ms, M, col) by {
      hide Checks;
    }
  }

  ghost function CheckRows(ms: seq<Bytes>, M: nat, T: nat): (rows: seq<seq<nat>>)
    requires AreMessages(ms, M) && T > 0
    ensures |rows| == HEADER_SIZE + M
    ensures forall col :: 0 <= col < |rows| ==> rows[col] == CheckRow(ms, M, T, col)
  {
    seq(HEADER_SIZE + M, col requires 0 <= col < HEADER_SIZE + M => CheckRow(ms, M, T, col))
  }

  /** The registers in s are those after ms. */
  ghost predicate Holds(s: seq<nat>, ms: seq<Bytes>, M: nat, T: nat)
    requires AreMessages(ms, M) && T > 0
  {
    |s| == Offset(HEADER_SIZE + M, T) && Rows(s, HEADER_SIZE + M, T) == CheckRows(ms, M, T)
  }

  /** The registers in s after ms, of which the first i columns have been fed one more message. */
  ghost predicate Fed(s: seq<nat>, ms: seq<Bytes>, msg: Bytes, M: nat, T: nat, i: nat)
    requires AreMessages(ms, M) && AreMessages(ms + [msg], M) && T > 0
  {
    Updated(s, HEADER_SIZE + M, T, CheckRows(ms, M, T), CheckRows(ms + [msg], M, T), i)
  }

  lemma FedEnds(s: seq<nat>, ms: seq<Bytes>, msg: Bytes, M: nat, T: nat)
    requires AreMessages(ms, M) && IsMessage(msg, M) && T > 0 && |s| == Offset(HEADER_SIZE + M, T)
    ensures AreMessages(ms + [msg], M)
    ensures Fed(s, ms, msg, M, T, 0) <==> Holds(s, ms, M, T)
    ensures Fed(s, ms, msg, M, T, HEADER_SIZE + M) <==> Holds(s, ms + [msg], M, T)
  {
    assert AreMessages(ms + [msg], M);
    hide Updated, Rows, CheckRows, Offset, IsMessage;
    UpdatedEnds(s, HEADER_SIZE + M, T, CheckRows(ms, M, T), CheckRows(ms + [msg], M, T));
  }

  lemma ByteCodeFacts(c: Code, T: nat)
    requires ByteCode(c, T)
    ensures c.Valid() && c.F() == Block.F() && Primitive(c.F()) && Order(c.F()) == 256 && Units(c.F()) == 255
    ensures c.k < c.n && c.ChecksNum() == T > 0 && c.genPoly == Generator(Block.F(), T) && |c.genPoly| == T + 1
  {
    FieldSize();
    c.Facts();
  }

  /** One byte of a message into its column. */
  method EncodeByte(c: Code, T: nat, checks: array<nat>, input: nat, M: nat, col: nat, ghost ms: seq<Bytes>,
                    ghost msg: Bytes)
    requires ByteCode(c, T) && AreMessages(ms, M) && AreMessages(ms + [msg], M) && IsMessage(msg, M)
    requires T > 0 && Fed(checks[..], ms, msg, M, T, col) && col < HEADER_SIZE + M
    requires input == Padded(msg, M)[col] < 256
    modifies checks
    ensures Fed(checks[..], ms, msg, M, T, col + 1)
  {
    hide Updated, Rows, Row, CheckRow, Offset, IsMessage, AreMessages, RegisterStep, Generator, Padded, ByteCode,
         Block.F, Code.Valid, InField, CheckRows, Primitive;
    ByteCodeFacts(c, T);
    ghost var s := checks[..];
    ghost var before, after := CheckRows(ms, M, T), CheckRows(ms + [msg], M, T);
    UpdatedRow(s, HEADER_SIZE + M, T, before, after, col);
    CheckRowInField(ms, M, T, col);
    CheckRowStep(ms, msg, M, T, col);
    EncodeColumn(c, input, checks, HEADER_SIZE + M, col);
    UpdatedNext(s, checks[..], HEADER_SIZE + M, T, before, after, col);
  }

  /** The first loop of rs_encode: the size. */
  method EncodeHeader(c: Code, T: nat, M: nat, checks: array<nat>, size: nat, ghost ms: seq<Bytes>, ghost msg: Bytes)
    requires T > 0 && |msg| == size && IsMessage(msg, M) && ByteCode(c, T) && AreMessages(ms, M)
    requires AreMessages(ms + [msg], M)
    requires Fed(checks[..], ms, msg, M, T, 0)
    modifies checks
    ensures Fed(checks[..], ms, msg, M, T, HEADER_SIZE)
  {
    hide Fed, Padded, IsMessage, HeaderByte, AreMessages, ByteCode;
    for i := 0 to HEADER_SIZE
      invariant Fed(checks[..], ms, msg, M, T, i)
    {
      PaddedAt(msg, M, i);
      EncodeByte(c, T, checks, HeaderByte(size, i), M, i, ms, msg);
    }
  }

  /** The second loop: the data. */
  method EncodeData(c: Code, T: nat, M: nat, checks: array<nat>, input: seq<nat>, size: nat, ghost ms: seq<Bytes>,
                    ghost msg: Bytes)
    requires T > 0 && size <= |input| && msg == input[..size] && size <= M && IsMessage(msg, M)
    requires ByteCode(c, T) && AreMessages(ms, M) && AreMessages(ms + [msg], M)
    requires Fed(checks[..], ms, msg, M, T, HEADER_SIZE)
    modifies checks
    ensures Fed(checks[..], ms, msg, M, T, HEADER_SIZE + size)
  {
    hide Fed, Padded, IsMessage, AreMessages, ByteCode;
    for i := 0 to size
      invariant Fed(checks[..], ms, msg, M, T, HEADER_SIZE + i)
    {
      PaddedAt(msg, M, HEADER_SIZE + i);
      EncodeByte(c, T, checks, input[i], M, HEADER_SIZE + i, ms, msg);
    }
  }

  /** The third loop: padding zeros. */
  method EncodePadding(c: Code, T: nat, M: nat, checks: array<nat>, size: nat, ghost ms: seq<Bytes>, ghost msg: Bytes)
    requires T > 0 && |msg| == size <= M && IsMessage(msg, M)
    requires ByteCode(c, T) && AreMessages(ms, M) && AreMessages(ms + [msg], M)
    requires Fed(checks[..], ms, msg, M, T, HEADER_SIZE + size)
    modifies checks
    ensures Fed(checks[..], ms, msg, M, T, HEADER_SIZE + M)
  {
    hide Fed, Padded, IsMessage, AreMessages, ByteCode;
    for i := 0 to M - size
      invariant Fed(checks[..], ms, msg, M, T, HEADER_SIZE + size + i)
    {
      PaddedAt(msg, M, HEADER_SIZE + size + i);
      EncodeByte(c, T, checks, 0, M, HEADER_SIZE + size + i, ms, msg);
    }
  }

  /** r is the length of s without its trailing zeros. */
  ghost predicate IsTrimmedLength(s: seq<nat>, r: nat) {
    && r <= |s|
    && (r > 0 ==> s[r - 1] != 0)
    && forall i :: r <= i < |s| ==> s[i] == 0
  }

  lemma TrimmedPads(s: seq<nat>, r: nat)
    requires IsTrimmedLength(s, r)
    ensures r <= |s| && s[..r] + Zeros(|s| - r) == s
  {
  }

  /** Byte j of every register. */
  ghost function Slice(s: seq<nat>, columns: nat, T: nat, j: nat): (r: Bytes)
    requires |s| == Offset(columns, T) && j < T
    ensures |r| == columns && forall col :: 0 <= col < columns ==> r[col] == Row(s, columns, T, col)[j] % 256
  {
    seq(columns, col requires 0 <= col < columns => Row(s, columns, T, col)[j] % 256)
  }

  lemma SliceAt(s: seq<nat>, columns: nat, T: nat, col: nat, j: nat)
    requires |s| == Offset(columns, T) && j < T && col < columns
    ensures Offset(col, T) + j < |s| && s[Offset(col, T) + j] % 256 == Slice(s, columns, T, j)[col]
  {
    hide Offset;
    OffsetFits(col, columns, T);
  }

  /** build_redundant: copies byte j of every register and counts up to the last nonzero byte. */
  method BuildRedundant(to: array<nat>, from: array<nat>, size: nat, T: nat, j: nat) returns (validSize: nat)
    requires to != from && size <= to.Length && from.Length == Offset(size, T) && j < T
    modifies to
    ensures to[..size] == Slice(from[..], size, T, j)
    ensures IsTrimmedLength(to[..size], validSize)
    ensures forall i :: size <= i < to.Length ==> to[i] == old(to[i])
  {
    validSize := 0;
    var trailingZero := 0;
    ghost var r := Slice(from[..], size, T, j);
    hide Slice, Offset;
    for i := 0 to size
      invariant to[..i] == r[..i] && validSize + trailingZero == i && IsTrimmedLength(to[..i], validSize)
      invariant forall k :: size <= k < to.Length ==> to[k] == old(to[k])
    {
      SliceAt(from[..], size, T, i, j);
      to[i] := from[Offset(i, T) + j] % 256;
      if to[i] == 0 {
        trailingZero := trailingZero + 1;
      } else {
        validSize := validSize + 1 + trailingZero;
        trailingZero := 0;
      }
      assert to[..i + 1] == r[..i] + [r[i]];
    }
  }

  /** The redundant packets carry the registers. */
  lemma RedundantPayload(s: seq<nat>, ms: seq<Bytes>, M: nat, T: nat, j: nat)
    requires AreMessages(ms, M) && T > 0 && j < T && Holds(s, ms, M, T)
    ensures Slice(s, HEADER_SIZE + M, T, j) == Payload(ms, M, T, T - 1 - j)
  {
    var P := HEADER_SIZE + M;
    hide Row, Symbols, CheckRow, AreMessages, Offset;
    assert forall col :: 0 <= col < P ==> Rows(s, P, T)[col] == Row(s, P, T, col);
    forall col | 0 <= col < P
      ensures Slice(s, P, T, j)[col] == Payload(ms, M, T, T - 1 - j)[col]
    {
      RedundantSymbol(ms, M, T, j, col);
    }
  }

  lemma CheckRowBytes(ms: seq<Bytes>, M: nat, T: nat, col: nat)
    requires AreMessages(ms, M) && T > 0 && col < HEADER_SIZE + M
    ensures IsBytes(CheckRow(ms, M, T, col))
  {
    hide AreMessages, CheckRow, Block.F, Order;
    CheckRowInField(ms, M, T, col);
    FieldSize();
  }

  lemma CheckRowIs(ms: seq<Bytes>, M: nat, T: nat, col: nat)
    requires AreMessages(ms, M) && T > 0 && col < HEADER_SIZE + M
    ensures CheckRow(ms, M, T, col) == Checks(Block.F(), T, Column(ms, M, col))
  {
  }

  lemma ByteAt(s: seq<nat>, i: nat)
    requires IsBytes(s) && i < |s|
    ensures s[i] < 256
  {
  }

  lemma RedundantSymbol(ms: seq<Bytes>, M: nat, T: nat, j: nat, col: nat)
    requires AreMessages(ms, M) && T > 0 && j < T && col < HEADER_SIZE + M
    ensures Symbols(ms, M, T, col)[T - 1 - j] == CheckRow(ms, M, T, col)[j] < 256
  {
    hide *;
    LowSymbol(ms, M, T, T - 1 - j, col);
    CheckRowIs(ms, M, T, col);
    CheckRowBytes(ms, M, T, col);
    ByteAt(CheckRow(ms, M, T, col), j);
  }

  /** Redundant packet j, cut behind its last nonzero byte. */
  method RedundantPacket(T: nat, M: nat, j: nat, buffer: array<nat>, checks: array<nat>, ghost ms: seq<Bytes>)
      returns (size: nat)
    requires buffer != checks && HEADER_SIZE + M <= buffer.Length && j < T
    requires AreMessages(ms, M) && Holds(checks[..], ms, M, T)
    modifies buffer
    ensures buffer[..HEADER_SIZE + M] == Payload(ms, M, T, T - 1 - j)
    ensures IsTrimmedLength(Payload(ms, M, T, T - 1 - j), size)
  {
    hide Holds, AreMessages, Payload, Offset, Slice, IsTrimmedLength;
    HoldsLength(checks[..], ms, M, T);
    size := BuildRedundant(buffer, checks, HEADER_SIZE + M, T, j);
    RedundantPayload(checks[..], ms, M, T, j);
  }

  method ZeroArray(a: array<nat>)
    modifies a
    ensures forall i :: 0 <= i < a.Length ==> a[i] == 0
  {
    for i := 0 to a.Length
      invariant forall j :: 0 <= j < i ==> a[j] == 0
    {
      a[i] := 0;
    }
  }

  lemma ZeroRow(M: nat, T: nat, col: nat)
    requires T > 0 && AreMessages([], M) && col < HEADER_SIZE + M
    ensures CheckRow([], M, T, col) == Zeros(T)
  {
    hide Block.F, Padded;
    assert Column([], M, col) == [];
  }

  lemma ZeroRows(s: seq<nat>, M: nat, T: nat)
    requires T > 0 && |s| == Offset(HEADER_SIZE + M, T) && forall i :: 0 <= i < |s| ==> s[i] == 0
    ensures AreMessages([], M) && Holds(s, [], M, T)
  {
    hide Offset, Block.F, CheckRow, Column;
    forall col | 0 <= col < HEADER_SIZE + M ensures Row(s, HEADER_SIZE + M, T, col) == CheckRow([], M, T, col) {
      OffsetFits(col, HEADER_SIZE + M, T);
      ZeroRow(M, T, col);
      assert Row(s, HEADER_SIZE + M, T, col) == Zeros(T);
    }
    assert Rows(s, HEADER_SIZE + M, T) == CheckRows([], M, T);
  }

  /** Context for encoding, rs_ec_t. */
  class Encoder {
    var count: nat
    const checks: array<nat>
    ghost var messages: seq<Bytes>

    ghost predicate Valid(rs: Config)
      reads this, checks
    {
      && rs.Valid()
      && count == |messages| <= rs.K
      && AreMessages(messages, rs.maxDataSize)
      && Holds(checks[..], messages, rs.maxDataSize, rs.T())
    }

    /** rs_init_ec */
    constructor (rs: Config)
      requires rs.Valid()
      ensures Valid(rs) && messages == [] && fresh(checks)
    {
      count := 0;
      messages := [];
      checks := new nat[Offset(rs.Columns(), rs.T())];
      new;
      Reset(rs);
    }

    /** rs_reset_ec */
    method Reset(rs: Config)
      requires rs.Valid() && checks.Length == Offset(rs.Columns(), rs.T())
      modifies this, checks
      ensures Valid(rs) && messages == []
    {
      hide Holds, Config.Valid, Offset, ByteCode, AreMessages;
      rs.Facts();
      count := 0;
      messages := [];
      ZeroArray(checks);
      ZeroRows(checks[..], rs.maxDataSize, rs.T());
    }

    lemma Counts(rs: Config)
      requires Valid(rs)
      ensures count == |messages| <= rs.K && AreMessages(messages, rs.maxDataSize)
    {
    }

    lemma ValidConfig(rs: Config)
      requires Valid(rs)
      ensures rs.Valid() && checks.Length == Offset(rs.Columns(), rs.T())
    {
      hide Config.Valid, AreMessages;
      rs.Facts();
      HoldsLength(checks[..], messages, rs.maxDataSize, rs.T());
    }

    /** rs_is_ec_complete; its ensure is part of Valid. */
    predicate IsComplete(rs: Config)
      reads this
    {
      count == rs.K
    }

    /**
     rs_encode. The caller may not push a message of legal size into a complete
     context: the count would exceed K and the program abort.
     */
    method Encode(rs: Config, input: seq<nat>, size: int) returns (n: int, degree: int)
      requires Valid(rs) && size <= |input| && IsBytes(input)
      requires 0 <= size <= rs.maxDataSize ==> !IsComplete(rs)
      modifies this, checks
      ensures Valid(rs)
      ensures !(0 <= size <= rs.maxDataSize) ==>
                n == E_RS_INVALID_SIZE && messages == old(messages)
      ensures 0 <= size <= rs.maxDataSize ==>
                && messages == old(messages) + [input[..size]]
                && degree == rs.N - 1 - old(count)
                && n == if IsComplete(rs) then rs.T() else 0
    {
      hide Holds, AreMessages, ByteCode, Config.Valid, Fed;
      degree := 0;
      if size < 0 || size > rs.maxDataSize {
        return E_RS_INVALID_SIZE, degree;
      }
      rs.Facts();
      degree := rs.N - 1 - count;
      HoldsLength(checks[..], messages, rs.maxDataSize, rs.T());
      FedEnds(checks[..], messages, input[..size], rs.maxDataSize, rs.T());
      EncodeHeader(rs.code, rs.T(), rs.maxDataSize, checks, size, messages, input[..size]);
      EncodeData(rs.code, rs.T(), rs.maxDataSize, checks, input, size, messages, input[..size]);
      EncodePadding(rs.code, rs.T(), rs.maxDataSize, checks, size, messages, input[..size]);
      FedEnds(checks[..], messages, input[..size], rs.maxDataSize, rs.T());
      count := count + 1;
      messages := messages + [input[..size]];
      n := if IsComplete(rs) then rs.T() else 0;
    }

    /**
     rs_encode_result: the payload of redundant packet index, and its length
     without the trailing zeros, which are not sent.
     */
    method EncodeResult(rs: Config, index: int, buffer: array<nat>, size: int)
        returns (err: int, size': int, degree: int)
      requires Valid(rs) && size <= buffer.Length && buffer != checks
      modifies buffer
      ensures Valid(rs)
      ensures !(0 <= index < rs.T()) ==> err == E_RS_INVALID_INDEX && buffer[..] == old(buffer[..])
      ensures 0 <= index < rs.T() && size < rs.Columns() ==> err == E_RS_INVALID_SIZE && buffer[..] == old(buffer[..])
      ensures 0 <= index < rs.T() && size >= rs.Columns() ==>
                && err == 0
                && degree == rs.T() - 1 - index
                && buffer[..rs.Columns()] == Payload(messages, rs.maxDataSize, rs.T(), degree)
                && 0 <= size' && IsTrimmedLength(buffer[..rs.Columns()], size')
    {
      hide Holds, Config.Valid, AreMessages, Payload, ByteCode, Offset, IsTrimmedLength, Symbols, CheckRow, CheckRows;
      rs.Facts();
      err, size', degree := 0, size, 0;
      if index < 0 || index >= rs.T() {
        return E_RS_INVALID_INDEX, size', degree;
      }
      if size < rs.Columns() {
        return E_RS_INVALID_SIZE, size', degree;
      }
      size' := RedundantPacket(rs.T(), rs.maxDataSize, index, buffer, checks, messages);
      degree := rs.T() - 1 - index;
    }
  }

  lemma HoldsLength(s: seq<nat>, ms: seq<Bytes>, M: nat, T: nat)
    requires AreMessages(ms, M) && T > 0 && Holds(s, ms, M, T)
    ensures |s| == Offset(HEADER_SIZE + M, T)
  {
  }
}
