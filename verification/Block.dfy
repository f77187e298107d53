/**
 What a block of src/main/rs/rs.c is: K messages, padded to equal length behind a
 length header and striped over one code per byte column, and the packets that
 are sent for it.
 */
module Block {
  import opened Collections
  import opened ExpLog
  import opened GaloisField
  import opened Primitivity
  import opened Polynomials
  import opened CodeTheory
  import opened Erasures

  const HEADER_SIZE := 4

  type Bytes = seq<nat>

  ghost predicate IsBytes(s: seq<nat>) {
    forall i :: 0 <= i < |s| ==> s[i] < 256
  }

  /** Byte i of a size, least significant first. */
  function HeaderByte(size: nat, i: nat): (b: nat)
    ensures b < 256
  {
    if i == 0 then size % 256 else HeaderByte(size / 256, i - 1)
  }

  function Header(size: nat): (h: Bytes)
    ensures |h| == HEADER_SIZE && IsBytes(h)
  {
    [HeaderByte(size, 0), HeaderByte(size, 1), HeaderByte(size, 2), HeaderByte(size, 3)]
  }

  /** Header, data and padding of a message, for a maximal data size M. */
  function Padded(msg: Bytes, M: nat): (r: Bytes)
    requires |msg| <= M
    ensures |r| == HEADER_SIZE + M
  {
    Header(|msg|) + msg + Zeros(M - |msg|)
  }

  ghost predicate IsMessage(msg: Bytes, M: nat) {
    |msg| <= M && IsBytes(msg)
  }

  ghost predicate AreMessages(ms: seq<Bytes>, M: nat) {
    forall i :: 0 <= i < |ms| ==> IsMessage(ms[i], M)
  }

  lemma PaddedAt(msg: Bytes, M: nat, col: nat)
    requires IsMessage(msg, M) && col < HEADER_SIZE + M
    ensures Padded(msg, M)[col] < 256
    ensures Padded(msg, M)[col] == if col < HEADER_SIZE then HeaderByte(|msg|, col)
                                   else if col < HEADER_SIZE + |msg| then msg[col - HEADER_SIZE]
                                   else 0
  {
    hide HeaderByte;
  }

  lemma PaddedBytes(msg: Bytes, M: nat)
    requires IsMessage(msg, M)
    ensures IsBytes(Padded(msg, M))
  {
  }

  /** Byte col of every message. */
  ghost function Column(ms: seq<Bytes>, M: nat, col: nat): (c: seq<nat>)
    requires AreMessages(ms, M) && col < HEADER_SIZE + M
    ensures |c| == |ms| && forall i :: 0 <= i < |ms| ==> c[i] == Padded(ms[i], M)[col]
  {
    seq(|ms|, i requires 0 <= i < |ms| => Padded(ms[i], M)[col])
  }

  ghost function F(): Field {
    GF256IsPrimitive();
    GF256
  }

  lemma FieldSize()
    ensures Order(F()) == 256 && Units(F()) == 255
  {
    WellFormedGF256();
  }

  lemma BytesInField(s: seq<nat>)
    requires IsBytes(s)
    ensures InField(F(), s)
  {
    FieldSize();
  }

  lemma ColumnBytes(ms: seq<Bytes>, M: nat, col: nat)
    requires AreMessages(ms, M) && col < HEADER_SIZE + M
    ensures IsBytes(Column(ms, M, col)) && InField(F(), Column(ms, M, col))
  {
    forall i | 0 <= i < |ms| ensures Column(ms, M, col)[i] < 256 {
      PaddedBytes(ms[i], M);
    }
    BytesInField(Column(ms, M, col));
  }

  /** The symbols of column col by degree. */
  ghost function Symbols(ms: seq<Bytes>, M: nat, T: nat, col: nat): (w: Poly)
    requires AreMessages(ms, M) && col < HEADER_SIZE + M && T > 0
    ensures |w| == T + |ms|
  {
    Codeword(F(), T, Column(ms, M, col))
  }

  /** The full payload of the packet of the given degree. */
  ghost function Payload(ms: seq<Bytes>, M: nat, T: nat, degree: nat): (p: Bytes)
    requires AreMessages(ms, M) && T > 0 && degree < T + |ms|
    ensures |p| == HEADER_SIZE + M
    ensures forall col :: 0 <= col < |p| ==> p[col] == Symbols(ms, M, T, col)[degree]
  {
    hide AreMessages, Symbols;
    seq(HEADER_SIZE + M, col requires 0 <= col < HEADER_SIZE + M => Symbols(ms, M, T, col)[degree])
  }

  lemma SymbolsAre(ms: seq<Bytes>, M: nat, T: nat, col: nat)
    requires AreMessages(ms, M) && col < HEADER_SIZE + M && T > 0
    ensures Symbols(ms, M, T, col) == Codeword(F(), T, Column(ms, M, col))
  {
  }

  lemma RawSymbol(ms: seq<Bytes>, M: nat, T: nat, degree: nat, col: nat)
    requires AreMessages(ms, M) && T > 0 && T <= degree < T + |ms| && col < HEADER_SIZE + M
    ensures Symbols(ms, M, T, col)[degree] == Column(ms, M, col)[T + |ms| - 1 - degree]
  {
    hide *;
    SymbolsAre(ms, M, T, col);
    CodewordAt(F(), T, Column(ms, M, col), degree);
  }

  lemma LowSymbol(ms: seq<Bytes>, M: nat, T: nat, degree: nat, col: nat)
    requires AreMessages(ms, M) && degree < T && col < HEADER_SIZE + M
    ensures Symbols(ms, M, T, col)[degree] == Checks(F(), T, Column(ms, M, col))[T - 1 - degree]
  {
    hide *;
    SymbolsAre(ms, M, T, col);
    CodewordAt(F(), T, Column(ms, M, col), degree);
  }

  /** The packets of degree T and above carry the messages, first message first. */
  lemma RawPayload(ms: seq<Bytes>, M: nat, T: nat, degree: nat)
    requires AreMessages(ms, M) && T > 0 && T <= degree < T + |ms|
    ensures Payload(ms, M, T, degree) == Padded(ms[T + |ms| - 1 - degree], M)
  {
    hide Symbols, Header, IsBytes;
    var p, i := Payload(ms, M, T, degree), T + |ms| - 1 - degree;
    forall col | 0 <= col < |p| ensures p[col] == Padded(ms[i], M)[col] {
      RawSymbol(ms, M, T, degree, col);
    }
  }

  // ----- Arrivals at the decoder.

  /** A packet as the decoder sees it: its payload has the full width. */
  datatype Packet = Packet(degree: nat, payload: Bytes)

  function Degrees(ps: seq<Packet>): (ds: seq<nat>)
    ensures |ds| == |ps| && forall i :: 0 <= i < |ps| ==> ds[i] == ps[i].degree
  {
    seq(|ps|, i requires 0 <= i < |ps| => ps[i].degree)
  }

  ghost predicate Width(ps: seq<Packet>, M: nat) {
    forall i :: 0 <= i < |ps| ==> |ps[i].payload| == HEADER_SIZE + M && IsBytes(ps[i].payload)
  }

  ghost function Values(ps: seq<Packet>, M: nat, col: nat): (vs: seq<nat>)
    requires Width(ps, M) && col < HEADER_SIZE + M
    ensures |vs| == |ps| && forall i :: 0 <= i < |ps| ==> vs[i] == ps[i].payload[col]
  {
    seq(|ps|, i requires 0 <= i < |ps| => ps[i].payload[col])
  }

  /** All the packets are packets of the block of ms. */
  ghost predicate FromBlock(ps: seq<Packet>, ms: seq<Bytes>, M: nat, T: nat)
    requires AreMessages(ms, M) && T > 0
  {
    forall i :: 0 <= i < |ps| ==>
      ps[i].degree < T + |ms| && ps[i].payload == Payload(ms, M, T, ps[i].degree)
  }

  ghost predicate Below(degrees: seq<nat>, N: nat) {
    forall i :: 0 <= i < |degrees| ==> degrees[i] < N
  }

  /** The degrees below N that received leaves out, each once. */
  ghost predicate IsComplement(erased: seq<nat>, received: seq<nat>, N: nat) {
    && Distinct(erased)
    && Below(erased, N)
    && (forall d :: 0 <= d < N ==> (d in received <==> d !in erased))
  }

  /** The symbols of w at the given degrees. */
  ghost function Pick(w: seq<nat>, degrees: seq<nat>): (vs: seq<nat>)
    requires Below(degrees, |w|)
    ensures |vs| == |degrees| && forall i :: 0 <= i < |degrees| ==> vs[i] == w[degrees[i]]
  {
    seq(|degrees|, i requires 0 <= i < |degrees| => w[degrees[i]])
  }

  lemma PickedSyndrome(f: Field, w: seq<nat>, degrees: seq<nat>, k: nat)
    requires Below(degrees, |w|) && Distinct(degrees)
    ensures SyndromeOfList(f, degrees, Pick(w, degrees), k) == SyndromeOfSet(f, w, Elements(degrees), |w|, k)
  {
    hide SyndromeOfList, SyndromeOfSet, Distinct;
    ListIsSet(f, w, degrees, Pick(w, degrees), k);
  }

  lemma ComplementSets(erased: seq<nat>, received: seq<nat>, N: nat)
    requires IsComplement(erased, received, N)
    ensures Distinct(erased) && Below(erased, N)
    ensures forall d :: 0 <= d < N ==> (d in Elements(received) <==> d !in Elements(erased))
  {
  }

  /** For one column: the syndromes of what arrived are the syndromes of what did not. */
  lemma ColumnSyndromes(f: Field, T: nat, m: seq<nat>, received: seq<nat>, erased: seq<nat>, k: nat)
    requires T > 0 && k < T && InField(f, m) && Distinct(received) && Below(received, T + |m|)
    requires IsComplement(erased, received, T + |m|) && Below(erased, T + |m|)
    ensures SyndromeOfList(f, received, Pick(Codeword(f, T, m), received), k)
         == SyndromeOfList(f, erased, Pick(Codeword(f, T, m), erased), k)
  {
    hide *;
    ComplementSets(erased, received, T + |m|);
    PickedSyndrome(f, Codeword(f, T, m), received, k);
    PickedSyndrome(f, Codeword(f, T, m), erased, k);
    ReceivedIsErased(f, T, m, Elements(received), Elements(erased), k);
  }

  lemma ArrivalsPicked(ps: seq<Packet>, ms: seq<Bytes>, M: nat, T: nat, col: nat)
    requires AreMessages(ms, M) && Width(ps, M) && col < HEADER_SIZE + M && T > 0 && FromBlock(ps, ms, M, T)
    ensures Below(Degrees(ps), T + |ms|) && Values(ps, M, col) == Pick(Symbols(ms, M, T, col), Degrees(ps))
  {
    hide Symbols, AreMessages;
  }

  /** The syndromes of what arrived are the syndromes of what did not. */
  lemma ArrivalSyndromes(ps: seq<Packet>, ms: seq<Bytes>, M: nat, T: nat, col: nat, erased: seq<nat>)
    requires AreMessages(ms, M) && Width(ps, M) && col < HEADER_SIZE + M && T > 0
    requires FromBlock(ps, ms, M, T) && Distinct(Degrees(ps)) && IsComplement(erased, Degrees(ps), T + |ms|)
    ensures Syndromes(F(), T, Degrees(ps), Values(ps, M, col))
         == Syndromes(F(), T, erased, Pick(Symbols(ms, M, T, col), erased))
  {
    hide SyndromeOfList, Codeword, Distinct, F, AreMessages, Width, FromBlock;
    ColumnBytes(ms, M, col);
    ArrivalsPicked(ps, ms, M, T, col);
    forall k | 0 <= k < T
      ensures SyndromeOfList(F(), Degrees(ps), Values(ps, M, col), k)
           == SyndromeOfList(F(), erased, Pick(Symbols(ms, M, T, col), erased), k)
    {
      ColumnSyndromes(F(), T, Column(ms, M, col), Degrees(ps), erased, k);
    }
  }
}
