/**
 The arrivals at the decoder of src/main/rs/rs.c: how their bytes go into the
 syndromes of all columns, which degrees are left out, and how one byte of a
 missing message comes back.
 */
module Decoding {
  import opened Collections
  import opened Arithmetic
  import opened Bits
  import opened ExpLog
  import opened GaloisField
  import opened Polynomials
  import opened CodeTheory
  import opened Erasures
  import opened RsCode
  import opened Block
  import opened Bitmap
  import opened Columns
  import opened Rs
  import opened Missing
  import opened Detection

  // ----- The syndromes of a sequence of arrivals.

  ghost function SyndromeRow(ps: seq<Packet>, M: nat, T: nat, col: nat): (row: seq<nat>)
    requires Width(ps, M) && col < HEADER_SIZE + M
    ensures |row| == T
  {
    Syndromes(Block.F(), T, Degrees(ps), Values(ps, M, col))
  }

  ghost function SyndromeRows(ps: seq<Packet>, M: nat, T: nat): (rows: seq<seq<nat>>)
    requires Width(ps, M)
    ensures |rows| == HEADER_SIZE + M
    ensures forall col :: 0 <= col < |rows| ==> rows[col] == SyndromeRow(ps, M, T, col)
  {
    seq(HEADER_SIZE + M, col requires 0 <= col < HEADER_SIZE + M => SyndromeRow(ps, M, T, col))
  }

  lemma SyndromeRowStep(ps: seq<Packet>, p: Packet, M: nat, T: nat, col: nat)
    requires Width(ps, M) && Width(ps + [p], M) && |p.payload| == HEADER_SIZE + M && col < HEADER_SIZE + M
    ensures SyndromeRow(ps + [p], M, T, col)
         == Add(SyndromeRow(ps, M, T, col), Terms(Block.F(), T, p.payload[col], p.degree))
    ensures p.payload[col] == 0 ==> SyndromeRow(ps + [p], M, T, col) == SyndromeRow(ps, M, T, col)
  {
    hide Width, Block.F, Term, Xor;
    var f, n := Block.F(), |ps|;
    var ds, vs := Degrees(ps + [p]), Values(ps + [p], M, col);
    assert ds[..n] == Degrees(ps) && vs[..n] == Values(ps, M, col);
    forall k | 0 <= k < T
      ensures SyndromeOfList(f, ds, vs, k)
           == Xor(SyndromeOfList(f, Degrees(ps), Values(ps, M, col), k), Term(f, p.payload[col], p.degree, k))
      ensures p.payload[col] == 0 ==> Term(f, p.payload[col], p.degree, k) == 0
    {
      ZeroTerm(f, p.degree, k);
      XorZero(SyndromeOfList(f, Degrees(ps), Values(ps, M, col), k));
    }
    assert p.payload[col] == 0 ==> SyndromeRow(ps + [p], M, T, col) == SyndromeRow(ps, M, T, col) by {
      forall k | 0 <= k < T {
        XorZero(SyndromeOfList(f, Degrees(ps), Values(ps, M, col), k));
      }
    }
  }

  lemma ZeroTerm(f: Field, d: nat, k: nat)
    ensures Term(f, 0, d, k) == 0
  {
    MulZero(f, Exp(f, d * (k + 1)));
  }

  lemma SyndromeRowInField(ps: seq<Packet>, M: nat, T: nat, col: nat)
    requires Width(ps, M) && col < HEADER_SIZE + M
    ensures InField(Block.F(), SyndromeRow(ps, M, T, col))
  {
    hide Width, Block.F, SyndromeOfList;
    forall k | 0 <= k < T ensures SyndromeRow(ps, M, T, col)[k] < Order(Block.F()) {
      SyndromeListBound(Block.F(), Degrees(ps), Values(ps, M, col), k);
    }
  }

  /** The syndromes in s are those of ps. */
  ghost predicate HoldsSyndromes(s: seq<nat>, ps: seq<Packet>, M: nat, T: nat)
    requires Width(ps, M)
  {
    |s| == Offset(HEADER_SIZE + M, T) && Rows(s, HEADER_SIZE + M, T) == SyndromeRows(ps, M, T)
  }

  /** The syndromes in s are those of ps; in the first i columns, those of ps and p. */
  ghost predicate Absorbed(s: seq<nat>, ps: seq<Packet>, p: Packet, M: nat, T: nat, i: nat)
    requires Width(ps, M) && Width(ps + [p], M)
  {
    Updated(s, HEADER_SIZE + M, T, SyndromeRows(ps, M, T), SyndromeRows(ps + [p], M, T), i)
  }

  lemma AbsorbedEnds(s: seq<nat>, ps: seq<Packet>, p: Packet, M: nat, T: nat)
    requires Width(ps, M) && Width([p], M) && |s| == Offset(HEADER_SIZE + M, T)
    ensures Width(ps + [p], M)
    ensures Absorbed(s, ps, p, M, T, 0) <==> HoldsSyndromes(s, ps, M, T)
    ensures Absorbed(s, ps, p, M, T, HEADER_SIZE + M) <==> HoldsSyndromes(s, ps + [p], M, T)
  {
    assert Width(ps + [p], M) by {
      assert [p][0] == p;
    }
    hide Updated, Rows, SyndromeRows, Offset, IsBytes;
    UpdatedEnds(s, HEADER_SIZE + M, T, SyndromeRows(ps, M, T), SyndromeRows(ps + [p], M, T));
  }

  /** One byte of a packet into the syndromes of its column. */
  method AbsorbByte(c: Code, T: nat, syndromes: array<nat>, input: nat, degree: nat, M: nat, col: nat,
                    ghost ps: seq<Packet>, ghost p: Packet)
    requires ByteCode(c, T) && Width(ps, M) && Width(ps + [p], M) && |p.payload| == HEADER_SIZE + M
    requires T > 0 && Absorbed(syndromes[..], ps, p, M, T, col) && col < HEADER_SIZE + M
    requires input == p.payload[col] < 256 && degree == p.degree && degree * T < UINT32_RANGE
    modifies syndromes
    ensures Absorbed(syndromes[..], ps, p, M, T, col + 1)
  {
    hide Updated, Rows, Row, SyndromeRow, Offset, Width, ByteCode, Block.F, Code.Valid, Primitive, Add, Terms;
    ByteCodeFacts(c, T);
    ghost var s := syndromes[..];
    ghost var before, after := SyndromeRows(ps, M, T), SyndromeRows(ps + [p], M, T);
    UpdatedRow(s, HEADER_SIZE + M, T, before, after, col);
    SyndromeRowStep(ps, p, M, T, col);
    SyndromesColumn(c, input, degree, syndromes, HEADER_SIZE + M, col);
    UpdatedNext(s, syndromes[..], HEADER_SIZE + M, T, before, after, col);
  }

  /** What a packet with the given data stands for: the bytes that are not sent are zero. */
  function Arrival(degree: nat, data: Bytes, M: nat, T: nat): (p: Packet)
    requires |data| <= if degree >= T then M else HEADER_SIZE + M
    ensures p.degree == degree && |p.payload| == HEADER_SIZE + M
  {
    Packet(degree, if degree >= T then Padded(data, M) else data + Zeros(HEADER_SIZE + M - |data|))
  }

  lemma ArrivalAt(degree: nat, data: Bytes, M: nat, T: nat, col: nat)
    requires |data| <= (if degree >= T then M else HEADER_SIZE + M) && IsBytes(data) && col < HEADER_SIZE + M
    ensures var offset := if degree >= T then HEADER_SIZE else 0;
            Arrival(degree, data, M, T).payload[col] < 256
            && Arrival(degree, data, M, T).payload[col]
               == if col < offset then HeaderByte(|data|, col)
                  else if col < offset + |data| then data[col - offset]
                  else 0
  {
    hide HeaderByte;
    if degree >= T {
      PaddedAt(data, M, col);
    }
  }

  lemma ArrivalWidth(degree: nat, data: Bytes, M: nat, T: nat)
    requires |data| <= (if degree >= T then M else HEADER_SIZE + M) && IsBytes(data)
    ensures Width([Arrival(degree, data, M, T)], M)
  {
    hide HeaderByte, Padded;
    var p := Arrival(degree, data, M, T);
    forall col | 0 <= col < |p.payload| ensures p.payload[col] < 256 {
      ArrivalAt(degree, data, M, T, col);
    }
  }

  /** The loop of rs_decode over the size of a raw packet. */
  method AbsorbHeader(c: Code, T: nat, M: nat, syndromes: array<nat>, size: nat, degree: nat, ghost data: Bytes,
                      ghost ps: seq<Packet>, ghost p: Packet)
    requires degree >= T > 0 && |data| == size <= M && IsBytes(data) && p == Arrival(degree, data, M, T)
    requires ByteCode(c, T) && Width(ps, M) && Width(ps + [p], M) && degree * T < UINT32_RANGE
    requires Absorbed(syndromes[..], ps, p, M, T, 0)
    modifies syndromes
    ensures Absorbed(syndromes[..], ps, p, M, T, HEADER_SIZE)
  {
    hide Absorbed, Arrival, IsBytes, HeaderByte, Width, ByteCode;
    for i := 0 to HEADER_SIZE
      invariant Absorbed(syndromes[..], ps, p, M, T, i)
    {
      ArrivalAt(degree, data, M, T, i);
      AbsorbByte(c, T, syndromes, HeaderByte(size, i), degree, M, i, ps, p);
    }
  }

  /** The loop of rs_decode over the data of a packet; the rest of its columns is zero. */
  method AbsorbData(c: Code, T: nat, M: nat, syndromes: array<nat>, input: seq<nat>, size: nat, degree: nat,
                    offset: nat, ghost data: Bytes, ghost ps: seq<Packet>, ghost p: Packet)
    requires T > 0 && size <= |input| && data == input[..size] && IsBytes(data)
    requires offset == (if degree >= T then HEADER_SIZE else 0) && offset + size <= HEADER_SIZE + M
    requires p == Arrival(degree, data, M, T)
    requires ByteCode(c, T) && Width(ps, M) && Width(ps + [p], M) && degree * T < UINT32_RANGE
    requires Absorbed(syndromes[..], ps, p, M, T, offset)
    modifies syndromes
    ensures Absorbed(syndromes[..], ps, p, M, T, HEADER_SIZE + M)
  {
    hide Absorbed, Arrival, IsBytes, HeaderByte, Width, ByteCode;
    for i := 0 to size
      invariant Absorbed(syndromes[..], ps, p, M, T, offset + i)
    {
      ArrivalAt(degree, data, M, T, offset + i);
      AbsorbByte(c, T, syndromes, input[i], degree, M, offset + i, ps, p);
    }
    SkipZeros(syndromes[..], degree, data, ps, p, M, T, offset + size);
  }

  lemma SkipZeros(s: seq<nat>, degree: nat, data: Bytes, ps: seq<Packet>, p: Packet, M: nat, T: nat, i: nat)
    requires |data| <= (if degree >= T then M else HEADER_SIZE + M) && IsBytes(data) && p == Arrival(degree, data, M, T)
    requires Width(ps, M) && Width(ps + [p], M) && i == (if degree >= T then HEADER_SIZE else 0) + |data|
    requires Absorbed(s, ps, p, M, T, i)
    ensures Absorbed(s, ps, p, M, T, HEADER_SIZE + M)
  {
    hide Updated, Arrival, IsBytes, HeaderByte, Width, SyndromeRow;
    var before, after := SyndromeRows(ps, M, T), SyndromeRows(ps + [p], M, T);
    forall col | i <= col < HEADER_SIZE + M ensures after[col] == before[col] {
      ArrivalAt(degree, data, M, T, col);
      SyndromeRowStep(ps, p, M, T, col);
    }
    UpdatedSkip(s, HEADER_SIZE + M, T, before, after, i);
  }

  /** The two loops of rs_decode that list the degrees not received. */
  method BuildErasures(mask: Mask, N: nat, T: nat, erasureDegrees: array<nat>) returns (rawNum: nat, num: nat)
    requires mask.Valid() && T <= N <= 256 && |Unset(mask, 0, N)| <= erasureDegrees.Length
    modifies erasureDegrees
    ensures rawNum == |Unset(mask, T, N)|
    ensures num == if rawNum == 0 then 0 else |Unset(mask, 0, N)|
    ensures num <= erasureDegrees.Length && erasureDegrees[..num] == if rawNum == 0 then [] else Unset(mask, 0, N)
  {
    hide IsSet;
    num := 0;
    for i := N downto T
      invariant num == |Unset(mask, i, N)| <= erasureDegrees.Length && erasureDegrees[..num] == Unset(mask, i, N)
    {
      UnsetPrefix(mask, 0, i, N);
      if !IsSet(mask, i) {
        erasureDegrees[num] := i;
        num := num + 1;
      }
    }
    rawNum := num;
    if num == 0 {
      return;
    }
    for i := T downto 0
      invariant num == |Unset(mask, i, N)| <= erasureDegrees.Length && erasureDegrees[..num] == Unset(mask, i, N)
    {
      UnsetPrefix(mask, 0, i, N);
      if !IsSet(mask, i) {
        erasureDegrees[num] := i;
        num := num + 1;
      }
    }
  }

  /** What the decoder knows of its arrivals. */
  ghost predicate Arrivals(ps: seq<Packet>, M: nat, N: nat) {
    Width(ps, M) && Distinct(Degrees(ps)) && Below(Degrees(ps), N) && N <= 255 && Below(Degrees(ps), 256)
  }

  /** The degrees left out, as the bitmap shows them. */
  function LeftOut(ps: seq<Packet>, N: nat, lo: nat): seq<nat>
    requires N <= 255 && Below(Degrees(ps), 256)
  {
    Unset(MaskOf(Degrees(ps)), lo, N)
  }

  /** The erasure list of a complete context. */
  ghost function ErasureList(ps: seq<Packet>, N: nat, T: nat): seq<nat>
    requires N <= 255 && Below(Degrees(ps), 256)
  {
    if LeftOut(ps, N, T) == [] then [] else LeftOut(ps, N, 0)
  }

  lemma NewArrival(ps: seq<Packet>, p: Packet, M: nat, N: nat)
    requires Arrivals(ps, M, N) && Width([p], M) && p.degree < N
    requires !IsSet(MaskOf(Degrees(ps)), p.degree)
    ensures Arrivals(ps + [p], M, N) && Degrees(ps + [p]) == Degrees(ps) + [p.degree]
    ensures MaskOf(Degrees(ps + [p])) == Set(MaskOf(Degrees(ps)), p.degree)
  {
    hide IsSet, IsBytes, Alias;
    var ds := Degrees(ps);
    assert Degrees(ps + [p]) == ds + [p.degree];
    MaskAnswers(ds, p.degree);
    forall i | 0 <= i < |ds| ensures ds[i] != p.degree {
      AliasSelf(p.degree);
    }
    assert Width(ps + [p], M) by {
      assert [p][0] == p;
    }
    assert (ds + [p.degree])[..|ds|] == ds;
  }

  lemma ArrivalsWidth(ps: seq<Packet>, M: nat, N: nat)
    requires Arrivals(ps, M, N)
    ensures Width(ps, M) && Below(Degrees(ps), 256) && N <= 255
  {
  }

  lemma BytesPrefix(s: seq<nat>, n: nat)
    requires IsBytes(s) && n <= |s|
    ensures IsBytes(s[..n])
  {
  }

  /** The bytes of one packet into the syndromes of all columns. */
  method AbsorbPacket(c: Code, T: nat, M: nat, syndromes: array<nat>, input: seq<nat>, size: nat, degree: nat,
                      ghost ps: seq<Packet>, ghost p: Packet)
    requires T > 0 && size <= |input| && IsBytes(input[..size]) && ByteCode(c, T) && degree * T < UINT32_RANGE
    requires size <= (if degree >= T then M else HEADER_SIZE + M) && p == Arrival(degree, input[..size], M, T)
    requires Width(ps, M) && Width([p], M) && Width(ps + [p], M) && HoldsSyndromes(syndromes[..], ps, M, T)
    modifies syndromes
    ensures HoldsSyndromes(syndromes[..], ps + [p], M, T)
  {
    hide IsBytes, Arrival, Absorbed, Width, ByteCode, HoldsSyndromes;
    HoldsSyndromesLength(syndromes[..], ps, M, T);
    AbsorbedEnds(syndromes[..], ps, p, M, T);
    var offset := 0;
    if degree >= T {
      AbsorbHeader(c, T, M, syndromes, size, degree, input[..size], ps, p);
      offset := HEADER_SIZE;
    }
    AbsorbData(c, T, M, syndromes, input, size, degree, offset, input[..size], ps, p);
    AbsorbedEnds(syndromes[..], ps, p, M, T);
  }

  lemma HoldsSyndromesLength(s: seq<nat>, ps: seq<Packet>, M: nat, T: nat)
    requires Width(ps, M) && HoldsSyndromes(s, ps, M, T)
    ensures |s| == Offset(HEADER_SIZE + M, T)
  {
  }

  /** The erasure list of a complete context, from its bitmap. */
  method ListErasures(mask: Mask, N: nat, T: nat, K: nat, erasureDegrees: array<nat>, ghost ps: seq<Packet>,
                      ghost M: nat)
      returns (rawNum: nat, num: nat)
    requires Arrivals(ps, M, N) && mask == MaskOf(Degrees(ps)) && |ps| == K && T == N - K == erasureDegrees.Length
    modifies erasureDegrees
    ensures rawNum == |LeftOut(ps, N, T)| && num == |ErasureList(ps, N, T)| <= T
    ensures erasureDegrees[..num] == ErasureList(ps, N, T)
  {
    hide MaskOf, Unset, Width, Distinct, Below;
    UnsetFits(Degrees(ps), N);
    rawNum, num := BuildErasures(mask, N, T, erasureDegrees);
  }

  lemma SmallProduct(a: nat, b: nat, n: nat)
    requires a < n && b < n && n <= 255
    ensures a * b < UINT32_RANGE
  {
    MulMonotone(a, b, 255);
  }

  // ----- Restoring one byte of a missing message.

  /** K packets of the block of ms have arrived, and the block is small enough for the bitmap. */
  ghost predicate Honest(ps: seq<Packet>, ms: seq<Bytes>, M: nat, T: nat) {
    && T > 0
    && AreMessages(ms, M)
    && |ps| == |ms| && T + |ms| <= 32
    && FromBlock(ps, ms, M, T)
  }

  lemma UnsetLocatable(mask: Mask, N: nat)
    requires mask.Valid() && N <= 255
    ensures Distinct(Unset(mask, 0, N)) && Below(Unset(mask, 0, N), 255)
  {
    hide Unset, IsSet;
    UnsetMembers(mask, 0, N);
    var ds := Unset(mask, 0, N);
    DescendingIsDistinct(ds);
    forall i | 0 <= i < |ds| ensures ds[i] < 255 {
      assert ds[i] in ds;
    }
  }

  lemma LocatableErasures(ps: seq<Packet>, M: nat, N: nat, T: nat)
    requires Arrivals(ps, M, N)
    ensures Below(Degrees(ps), 256) && N <= 255 && Locatable(Block.F(), ErasureList(ps, N, T))
  {
    hide Unset, MaskOf, Width, Block.F, Units;
    FieldSize();
    UnsetLocatable(MaskOf(Degrees(ps)), N);
  }

  lemma DescendingIsDistinct(s: seq<nat>)
    requires Descending(s)
    ensures Distinct(s)
  {
  }

  /** With K honest arrivals the erasure list is the complement, if a message is missing. */
  lemma HonestErasures(ps: seq<Packet>, ms: seq<Bytes>, M: nat, N: nat, T: nat)
    requires Arrivals(ps, M, N) && Honest(ps, ms, M, T) && T + |ms| == N && ErasureList(ps, N, T) != []
    ensures ErasureList(ps, N, T) == LeftOut(ps, N, 0)
    ensures IsComplement(ErasureList(ps, N, T), Degrees(ps), N) && |ErasureList(ps, N, T)| == T
  {
    hide Unset, MaskOf, Width, AreMessages, FromBlock;
    UnsetIsComplement(Degrees(ps), N);
  }

  /** The syndromes of a column are those of its erased symbols. */
  lemma HonestColumn(ps: seq<Packet>, ms: seq<Bytes>, M: nat, N: nat, T: nat, col: nat)
    requires Arrivals(ps, M, N) && Honest(ps, ms, M, T) && T + |ms| == N && ErasureList(ps, N, T) != []
    requires col < HEADER_SIZE + M
    ensures Width(ps, M) && Below(ErasureList(ps, N, T), N)
    ensures var values := Pick(Symbols(ms, M, T, col), ErasureList(ps, N, T));
            SyndromeRow(ps, M, T, col) == Syndromes(Block.F(), T, ErasureList(ps, N, T), values)
            && InField(Block.F(), values)
  {
    hide *;
    ArrivalsWidth(ps, M, N);
    HonestErasures(ps, ms, M, N, T);
    HonestMessages(ps, ms, M, T);
    HonestFrom(ps, ms, M, N, T);
    ArrivalSyndromes(ps, ms, M, T, col, ErasureList(ps, N, T));
    RowIsSyndromes(ps, M, T, col);
    SymbolsInField(ms, M, T, col);
    PickInField(Block.F(), Symbols(ms, M, T, col), ErasureList(ps, N, T));
  }

  lemma HonestFrom(ps: seq<Packet>, ms: seq<Bytes>, M: nat, N: nat, T: nat)
    requires Arrivals(ps, M, N) && Honest(ps, ms, M, T) && IsComplement(ErasureList(ps, N, T), Degrees(ps), N)
    ensures Width(ps, M) && Distinct(Degrees(ps)) && FromBlock(ps, ms, M, T) && Below(ErasureList(ps, N, T), N)
  {
    hide AreMessages, Width, FromBlock, ErasureList;
  }

  lemma RowIsSyndromes(ps: seq<Packet>, M: nat, T: nat, col: nat)
    requires Width(ps, M) && col < HEADER_SIZE + M
    ensures SyndromeRow(ps, M, T, col) == Syndromes(Block.F(), T, Degrees(ps), Values(ps, M, col))
  {
    hide Block.F, SyndromeOfList;
  }

  lemma PickInField(f: Field, w: seq<nat>, degrees: seq<nat>)
    requires InField(f, w) && Below(degrees, |w|)
    ensures InField(f, Pick(w, degrees))
  {
    hide Order;
  }

  lemma SymbolsInField(ms: seq<Bytes>, M: nat, T: nat, col: nat)
    requires AreMessages(ms, M) && T > 0 && col < HEADER_SIZE + M
    ensures InField(Block.F(), Symbols(ms, M, T, col))
  {
    hide Codeword, AreMessages, Block.F, Checks, Padded;
    ColumnBytes(ms, M, col);
    ChecksInField(Block.F(), T, Column(ms, M, col));
    var w := Symbols(ms, M, T, col);
    forall d | 0 <= d < |w| ensures w[d] < Order(Block.F()) {
      CodewordAt(Block.F(), T, Column(ms, M, col), d);
    }
  }

  /** What rscode_decode_erasure makes of column col for the missing symbol index. */
  ghost function RestoredByte(ps: seq<Packet>, N: nat, M: nat, T: nat, col: nat, index: nat): (b: nat)
    requires Arrivals(ps, M, N) && col < HEADER_SIZE + M && Below(Degrees(ps), 256) && N <= 255
    requires index < |ErasureList(ps, N, T)| <= T
    ensures b < 256
  {
    hide Units, ErasureList, Arrivals, Locatable, Solution, Block.F;
    FieldSize();
    LocatableErasures(ps, M, N, T);
    ArrivalsWidth(ps, M, N);
    var ds := ErasureList(ps, N, T);
    Solution(Block.F(), ds, SyndromeRow(ps, M, T, col)[..|ds|], index)
  }

  lemma RestoredByteIs(ps: seq<Packet>, N: nat, M: nat, T: nat, col: nat, index: nat)
    requires Arrivals(ps, M, N) && Width(ps, M) && col < HEADER_SIZE + M && Below(Degrees(ps), 256) && N <= 255
    requires index < |ErasureList(ps, N, T)| <= T && Locatable(Block.F(), ErasureList(ps, N, T))
    ensures RestoredByte(ps, N, M, T, col, index)
         == Solution(Block.F(), ErasureList(ps, N, T), SyndromeRow(ps, M, T, col)[..|ErasureList(ps, N, T)|], index)
  {
  }

  /** If the arrivals are honest, it is the byte that was sent. */
  lemma HonestByte(ps: seq<Packet>, ms: seq<Bytes>, N: nat, M: nat, T: nat, col: nat, index: nat)
    requires Arrivals(ps, M, N) && Width(ps, M) && col < HEADER_SIZE + M && Below(Degrees(ps), 256) && N <= 255
    requires Honest(ps, ms, M, T) && T + |ms| == N && index < |ErasureList(ps, N, T)| <= T
    ensures ErasureList(ps, N, T)[index] < N
    ensures RestoredByte(ps, N, M, T, col, index) == Symbols(ms, M, T, col)[ErasureList(ps, N, T)[index]]
  {
    hide *;
    HonestErasures(ps, ms, M, N, T);
    HonestMessages(ps, ms, M, T);
    HonestColumn(ps, ms, M, N, T, col);
    LocatableErasures(ps, M, N, T);
    RestoredByteIs(ps, N, M, T, col, index);
    var ds := ErasureList(ps, N, T);
    var values := Pick(Symbols(ms, M, T, col), ds);
    assert SyndromeRow(ps, M, T, col)[..T] == SyndromeRow(ps, M, T, col);
    BoundAt(ds, N, index);
    ValueInField(Block.F(), values, index);
    ErasureSolved(Block.F(), ds, values, index);
  }

  lemma HonestMessages(ps: seq<Packet>, ms: seq<Bytes>, M: nat, T: nat)
    requires Honest(ps, ms, M, T)
    ensures T > 0 && AreMessages(ms, M) && T + |ms| <= 32
  {
  }

  lemma BoundAt(ds: seq<nat>, N: nat, i: nat)
    requires Below(ds, N) && i < |ds|
    ensures ds[i] < N
  {
  }

  /** One call of rscode_decode_erasure, on the syndromes of one column. */
  method RestoreByte(c: Code, N: nat, T: nat, M: nat, syndromes: array<nat>, erasureDegrees: array<nat>, num: nat,
                     index: nat, col: nat, ghost ps: seq<Packet>)
      returns (value: nat)
    requires ByteCode(c, T) && Arrivals(ps, M, N) && Width(ps, M) && HoldsSyndromes(syndromes[..], ps, M, T)
    requires N <= 255 && Below(Degrees(ps), 256) && index < num == |ErasureList(ps, N, T)| <= T
    requires num <= erasureDegrees.Length && erasureDegrees[..num] == ErasureList(ps, N, T)
    requires col < HEADER_SIZE + M
    ensures value == RestoredByte(ps, N, M, T, col, index)
  {
    hide *;
    ByteCodeFacts(c, T);
    LocatableErasures(ps, M, N, T);
    ColumnSlice(syndromes, ps, M, T, col, num);
    RestoredByteIs(ps, N, M, T, col, index);
    value := DecodeErasure(c, syndromes, Offset(col, T), erasureDegrees, num, index);
  }

  lemma ColumnSlice(syndromes: array<nat>, ps: seq<Packet>, M: nat, T: nat, col: nat, num: nat)
    requires Width(ps, M) && HoldsSyndromes(syndromes[..], ps, M, T) && num <= T && col < HEADER_SIZE + M
    ensures Offset(col, T) + T <= syndromes.Length
    ensures syndromes[Offset(col, T)..Offset(col, T) + num] == SyndromeRow(ps, M, T, col)[..num]
    ensures InField(Block.F(), syndromes[Offset(col, T)..Offset(col, T) + num])
  {
    hide *;
    var P := HEADER_SIZE + M;
    HeldRow(syndromes[..], ps, M, T, col);
    OffsetFits(col, P, T);
    SliceIsRow(syndromes, P, T, col);
    SyndromeRowInField(ps, M, T, col);
    PrefixInField(Block.F(), SyndromeRow(ps, M, T, col), num);
    assert syndromes[Offset(col, T)..Offset(col, T) + num] == syndromes[Offset(col, T)..Offset(col, T) + T][..num];
  }

  lemma HeldRow(s: seq<nat>, ps: seq<Packet>, M: nat, T: nat, col: nat)
    requires Width(ps, M) && HoldsSyndromes(s, ps, M, T) && col < HEADER_SIZE + M
    ensures |s| == Offset(HEADER_SIZE + M, T) && Row(s, HEADER_SIZE + M, T, col) == SyndromeRow(ps, M, T, col)
  {
    hide Offset, Width, SyndromeRow, Row;
    assert Rows(s, HEADER_SIZE + M, T)[col] == Row(s, HEADER_SIZE + M, T, col);
  }

  lemma PrefixInField(f: Field, p: Poly, n: nat)
    requires InField(f, p) && n <= |p|
    ensures InField(f, p[..n])
  {
  }

  // ----- Restoring a missing message.

  /** The 32-bit size made of four bytes, least significant first. */
  function HeaderValue(h: seq<nat>): nat
    requires |h| == HEADER_SIZE
  {
    h[0] + 0x100 * h[1] + 0x1_0000 * h[2] + 0x100_0000 * h[3]
  }

  /** The value of a 32-bit word read as an int. */
  function Int32(u: nat): int {
    if u < 0x8000_0000 then u else u - 0x1_0000_0000
  }

  lemma HeaderBytes(size: nat)
    ensures HeaderByte(size, 0) == size % 256 && HeaderByte(size, 1) == size / 256 % 256
    ensures HeaderByte(size, 2) == size / 256 / 256 % 256 && HeaderByte(size, 3) == size / 256 / 256 / 256 % 256
  {
    var a := size / 256;
    assert HeaderByte(a, 0) == a % 256;
    assert HeaderByte(a / 256, 0) == a / 256 % 256;
    assert HeaderByte(a / 256 / 256, 0) == a / 256 / 256 % 256;
    assert HeaderByte(a, 1) == HeaderByte(a / 256, 0);
    assert HeaderByte(a / 256, 1) == HeaderByte(a / 256 / 256, 0);
    assert HeaderByte(a, 2) == HeaderByte(a / 256, 1);
  }

  lemma FourBytes(size: nat, a: nat, b: nat, c: nat)
    requires size <= INT_MAX && a == size / 256 && b == a / 256 && c == b / 256
    ensures size % 256 + 0x100 * (a % 256) + 0x1_0000 * (b % 256) + 0x100_0000 * (c % 256) == size
  {
    assert b == 256 * c + b % 256;
    assert a == 256 * b + a % 256;
    assert c < 128;
  }

  lemma HeaderRoundTrip(size: nat)
    requires size <= INT_MAX
    ensures Int32(HeaderValue(Header(size))) == size
  {
    hide HeaderByte;
    HeaderBytes(size);
    FourBytes(size, size / 256, size / 256 / 256, size / 256 / 256 / 256);
  }

  /** The restored bytes from column lo up to and not including hi. */
  ghost function RestoredBytes(ps: seq<Packet>, N: nat, M: nat, T: nat, index: nat, lo: nat, hi: nat): (bs: Bytes)
    requires Arrivals(ps, M, N) && Below(Degrees(ps), 256) && N <= 255 && index < |ErasureList(ps, N, T)| <= T
    requires lo <= hi <= HEADER_SIZE + M
    ensures |bs| == hi - lo
  {
    if lo == hi then []
    else RestoredBytes(ps, N, M, T, index, lo, hi - 1) + [RestoredByte(ps, N, M, T, hi - 1, index)]
  }

  lemma {:induction false} RestoredByteAt(ps: seq<Packet>, N: nat, M: nat, T: nat, index: nat, lo: nat, hi: nat, i: nat)
    requires Arrivals(ps, M, N) && Below(Degrees(ps), 256) && N <= 255 && index < |ErasureList(ps, N, T)| <= T
    requires lo <= hi <= HEADER_SIZE + M && i < hi - lo
    ensures RestoredBytes(ps, N, M, T, index, lo, hi)[i] == RestoredByte(ps, N, M, T, lo + i, index)
  {
    hide RestoredByte, Arrivals, Below, ErasureList;
    if i < hi - 1 - lo {
      RestoredByteAt(ps, N, M, T, index, lo, hi - 1, i);
    }
  }

  /** The size that the restored header stands for; it may be negative. */
  ghost function RestoredSize(ps: seq<Packet>, N: nat, M: nat, T: nat, index: nat): int
    requires Arrivals(ps, M, N) && Below(Degrees(ps), 256) && N <= 255 && index < |ErasureList(ps, N, T)| <= T
  {
    Int32(HeaderValue(RestoredBytes(ps, N, M, T, index, 0, HEADER_SIZE)))
  }

  /** The data of the given size. */
  ghost function RestoredData(ps: seq<Packet>, N: nat, M: nat, T: nat, index: nat, size: nat): (bs: Bytes)
    requires Arrivals(ps, M, N) && Below(Degrees(ps), 256) && N <= 255 && index < |ErasureList(ps, N, T)| <= T
    requires size <= M
    ensures |bs| == size
  {
    RestoredBytes(ps, N, M, T, index, HEADER_SIZE, HEADER_SIZE + size)
  }

  /** The missing message that erasure index stands for. */
  ghost function MissingMessage(ps: seq<Packet>, ms: seq<Bytes>, N: nat, T: nat, index: nat): Bytes
    requires N <= 255 && Below(Degrees(ps), 256) && T + |ms| == N && index < |LeftOut(ps, N, T)|
  {
    var d := LeftOut(ps, N, T)[index];
    LeftOutRaw(ps, N, T, index);
    ms[N - 1 - d]
  }

  /** The raw degrees come first in the erasure list. */
  lemma LeftOutRaw(ps: seq<Packet>, N: nat, T: nat, index: nat)
    requires N <= 255 && Below(Degrees(ps), 256) && T <= N && index < |LeftOut(ps, N, T)|
    ensures index < |ErasureList(ps, N, T)| && ErasureList(ps, N, T)[index] == LeftOut(ps, N, T)[index]
    ensures T <= LeftOut(ps, N, T)[index] < N
  {
    hide Unset, MaskOf, IsSet;
    var mask := MaskOf(Degrees(ps));
    UnsetMembers(mask, T, N);
    UnsetPrefix(mask, 0, T, N);
    assert LeftOut(ps, N, T)[index] in LeftOut(ps, N, T);
  }

  /** Erasure index is a missing message that rs_decode_result can be asked for. */
  ghost predicate CanRestore(ps: seq<Packet>, N: nat, M: nat, T: nat, index: nat) {
    && Arrivals(ps, M, N) && Below(Degrees(ps), 256) && T <= N <= 255
    && index < |LeftOut(ps, N, T)| && index < |ErasureList(ps, N, T)| <= T
  }

  /** A byte of the missing message. */
  lemma HonestMessageByte(ps: seq<Packet>, ms: seq<Bytes>, N: nat, M: nat, T: nat, col: nat, index: nat)
    requires Arrivals(ps, M, N) && Width(ps, M) && N <= 255 && Below(Degrees(ps), 256) && col < HEADER_SIZE + M
    requires Honest(ps, ms, M, T) && T + |ms| == N
    requires index < |LeftOut(ps, N, T)| && index < |ErasureList(ps, N, T)| <= T
    ensures IsMessage(MissingMessage(ps, ms, N, T, index), M)
    ensures RestoredByte(ps, N, M, T, col, index) == Padded(MissingMessage(ps, ms, N, T, index), M)[col]
  {
    hide ErasureList, Width, FromBlock, Symbols, Arrivals, LeftOut, RestoredByte, Padded, IsMessage, Below;
    LeftOutRaw(ps, N, T, index);
    HonestByte(ps, ms, N, M, T, col, index);
    RawSymbol(ms, M, T, LeftOut(ps, N, T)[index], col);
  }

  /** For honest arrivals, what is restored is the missing message. */
  lemma HonestMessage(ps: seq<Packet>, ms: seq<Bytes>, N: nat, M: nat, T: nat, index: nat)
    requires Arrivals(ps, M, N) && Width(ps, M) && N <= 255 && Below(Degrees(ps), 256)
    requires Honest(ps, ms, M, T) && T + |ms| == N && HEADER_SIZE + M <= INT_MAX
    requires index < |LeftOut(ps, N, T)| && index < |ErasureList(ps, N, T)| <= T
    ensures RestoredSize(ps, N, M, T, index) == |MissingMessage(ps, ms, N, T, index)| <= M
    ensures RestoredData(ps, N, M, T, index, |MissingMessage(ps, ms, N, T, index)|) ==
              MissingMessage(ps, ms, N, T, index)
  {
    hide ErasureList, Width, Honest, Arrivals, LeftOut, RestoredByte, MissingMessage, HeaderByte, HeaderValue, Int32,
         IsMessage, Below, Padded;
    var m, h := MissingMessage(ps, ms, N, T, index), RestoredBytes(ps, N, M, T, index, 0, HEADER_SIZE);
    HonestMessageByte(ps, ms, N, M, T, 0, index);
    MessageBound(m, M);
    forall i | 0 <= i < HEADER_SIZE ensures h[i] == Header(|m|)[i] {
      RestoredByteAt(ps, N, M, T, index, 0, HEADER_SIZE, i);
      HonestMessageByte(ps, ms, N, M, T, i, index);
      PaddedAt(m, M, i);
    }
    assert h == Header(|m|);
    HeaderRoundTrip(|m|);
    var data := RestoredData(ps, N, M, T, index, |m|);
    forall i | 0 <= i < |m| ensures data[i] == m[i] {
      RestoredByteAt(ps, N, M, T, index, HEADER_SIZE, HEADER_SIZE + |m|, i);
      HonestMessageByte(ps, ms, N, M, T, HEADER_SIZE + i, index);
      PaddedAt(m, M, HEADER_SIZE + i);
    }
  }

  lemma MessageBound(m: Bytes, M: nat)
    requires IsMessage(m, M)
    ensures |m| <= M
  {
  }

  /** The first loop of rs_decode_result; the bytes do not overlap, so their or is their sum. */
  method RestoreHeader(c: Code, N: nat, T: nat, M: nat, syndromes: array<nat>, erasureDegrees: array<nat>, num: nat,
                       index: nat, ghost ps: seq<Packet>)
      returns (size: nat)
    requires ByteCode(c, T) && Arrivals(ps, M, N) && Width(ps, M) && HoldsSyndromes(syndromes[..], ps, M, T)
    requires N <= 255 && Below(Degrees(ps), 256) && index < num == |ErasureList(ps, N, T)| <= T
    requires num <= erasureDegrees.Length && erasureDegrees[..num] == ErasureList(ps, N, T)
    ensures Int32(size) == RestoredSize(ps, N, M, T, index)
  {
    hide ErasureList, Width, Arrivals, HoldsSyndromes, ByteCode, RestoredByte, Below, Int32;
    size := 0;
    ghost var h := RestoredBytes(ps, N, M, T, index, 0, HEADER_SIZE);
    var weight := 1;
    for i := 0 to HEADER_SIZE
      invariant i == 0 ==> size == 0 && weight == 1
      invariant i == 1 ==> size == h[0] && weight == 0x100
      invariant i == 2 ==> size == h[0] + 0x100 * h[1] && weight == 0x1_0000
      invariant i == 3 ==> size == h[0] + 0x100 * h[1] + 0x1_0000 * h[2] && weight == 0x100_0000
      invariant i == 4 ==> size == HeaderValue(h)
    {
      RestoredByteAt(ps, N, M, T, index, 0, HEADER_SIZE, i);
      var s := RestoreByte(c, N, T, M, syndromes, erasureDegrees, num, index, i, ps);
      size := size + s * weight;
      weight := weight * 256;
    }
  }

  /** The second loop of rs_decode_result. */
  method RestoreData(c: Code, N: nat, T: nat, M: nat, syndromes: array<nat>, erasureDegrees: array<nat>, num: nat,
                     index: nat, buffer: array<nat>, size: nat, ghost ps: seq<Packet>)
    requires ByteCode(c, T) && Arrivals(ps, M, N) && Width(ps, M) && HoldsSyndromes(syndromes[..], ps, M, T)
    requires N <= 255 && Below(Degrees(ps), 256) && index < num == |ErasureList(ps, N, T)| <= T
    requires num <= erasureDegrees.Length && erasureDegrees[..num] == ErasureList(ps, N, T)
    requires size <= M && size <= buffer.Length && buffer != syndromes && buffer != erasureDegrees
    modifies buffer
    ensures buffer[..size] == RestoredData(ps, N, M, T, index, size)
  {
    hide ErasureList, Width, Arrivals, HoldsSyndromes, ByteCode, RestoredByte, Below;
    for i := 0 to size
      invariant buffer[..i] == RestoredData(ps, N, M, T, index, size)[..i]
    {
      RestoredByteAt(ps, N, M, T, index, HEADER_SIZE, HEADER_SIZE + size, i);
      var s := RestoreByte(c, N, T, M, syndromes, erasureDegrees, num, index, HEADER_SIZE + i, ps);
      buffer[i] := s % 256;
    }
  }

  /**
   The part of rs_decode_result behind its argument checks: what the restored
   header and data say, and for honest arrivals that is the missing message. The
   size is refused exactly if it is too large; a negative one is not.
   */
  method RestoreMessage(c: Code, N: nat, T: nat, M: nat, syndromes: array<nat>, erasureDegrees: array<nat>, num: nat,
                        index: nat, buffer: array<nat>, ghost ps: seq<Packet>)
      returns (err: int, size: int)
    requires ByteCode(c, T) && Arrivals(ps, M, N) && Width(ps, M) && HoldsSyndromes(syndromes[..], ps, M, T)
    requires N <= 255 && Below(Degrees(ps), 256) && index < num == |ErasureList(ps, N, T)| <= T <= N
    requires num <= erasureDegrees.Length && erasureDegrees[..num] == ErasureList(ps, N, T)
    requires index < |LeftOut(ps, N, T)| && HEADER_SIZE + M <= INT_MAX
    requires M <= buffer.Length && buffer != syndromes && buffer != erasureDegrees
    modifies buffer
    ensures size == RestoredSize(ps, N, M, T, index)
    ensures err == if size <= M then 0 else E_RS_INVALID_HEADER
    ensures 0 <= size <= M ==> buffer[..size] == RestoredData(ps, N, M, T, index, size)
    ensures forall ms | Honest(ps, ms, M, T) && T + |ms| == N ::
              err == 0 && 0 <= size <= M && buffer[..size] == MissingMessage(ps, ms, N, T, index)
  {
    hide ErasureList, Width, Arrivals, HoldsSyndromes, ByteCode, RestoredData, RestoredSize, Below, Honest, LeftOut,
         MissingMessage, Int32;
    var u := RestoreHeader(c, N, T, M, syndromes, erasureDegrees, num, index, ps);
    size := Int32(u);
    forall ms | Honest(ps, ms, M, T) && T + |ms| == N
      ensures size == |MissingMessage(ps, ms, N, T, index)| <= M
      ensures RestoredData(ps, N, M, T, index, size) == MissingMessage(ps, ms, N, T, index)
    {
      HonestMessage(ps, ms, N, M, T, index);
    }
    if size > M {
      return E_RS_INVALID_HEADER, size;
    }
    err := 0;
    if size >= 0 {
      RestoreData(c, N, T, M, syndromes, erasureDegrees, num, index, buffer, size, ps);
    }
  }

  lemma NoArrivals(s: seq<nat>, M: nat, N: nat, T: nat)
    requires N <= 255 && |s| == Offset(HEADER_SIZE + M, T) && forall i :: 0 <= i < |s| ==> s[i] == 0
    ensures Arrivals([], M, N) && Width([], M) && MaskOf(Degrees([])) == Empty() && HoldsSyndromes(s, [], M, T)
  {
    hide Offset, Block.F;
    assert Degrees([]) == [];
    forall col | 0 <= col < HEADER_SIZE + M ensures Row(s, HEADER_SIZE + M, T, col) == SyndromeRow([], M, T, col) {
      OffsetFits(col, HEADER_SIZE + M, T);
      assert Values([], M, col) == [];
    }
    assert Rows(s, HEADER_SIZE + M, T) == SyndromeRows([], M, T);
  }
}
