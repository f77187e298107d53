/**
 Which block sizes src/main/rs/rs.c can carry: its bitmap takes degree 32 for
 degree 0, so a block comes back from any K of its N packets exactly if N is at
 most 32.
 */
module BlockSizes {
  import opened Collections
  import opened Bits
  import opened ExpLog
  import opened GaloisField
  import opened Polynomials
  import opened CodeTheory
  import opened Erasures
  import opened Block
  import opened Bitmap
  import opened Rs
  import opened Missing
  import opened Decoding
  import opened RsDecoder
  import opened Outcome
  import opened RoundTrip
  import opened WholeWord

  /** Any K distinct packets of a block of K messages. */
  ghost predicate AreOfBlock(ps: seq<Packet>, ms: seq<Bytes>, N: nat, K: nat, M: nat)
    requires K < N <= 255
  {
    && HEADER_SIZE + M <= INT_MAX && |ms| == |ps| == K && AreMessages(ms, M) && FromBlock(ps, ms, M, N - K)
    && Distinct(Degrees(ps)) && Below(Degrees(ps), N) && Below(Degrees(ps), 256)
  }

  /** Every block of K messages comes back, whole, from every K of its N packets in every order. */
  ghost predicate Recovers(N: nat, K: nat)
    requires K < N <= 255
  {
    forall M: nat, ms: seq<Bytes>, ps: seq<Packet>, i: nat | AreOfBlock(ps, ms, N, K, M) && i < K ::
      Handed(Accepted(ps), N, M, N - K, N - 1 - i, ms[i])
  }

  // ----- Two packets or more: the packet of degree 32 is refused.

  /** Of ps, a was accepted, and nothing of degree 32 among it. */
  ghost predicate Without32(ps: seq<Packet>, a: seq<Packet>) {
    && ps != [] && a != [] && a[0] == ps[0] && |a| <= |ps|
    && (forall j :: 0 <= j < |a| ==> a[j].degree != 32 && a[j] in ps)
    && (forall j :: 0 <= j < |ps| && ps[j].degree == 32 ==> |a| < |ps|)
  }

  lemma Without32Step(ps: seq<Packet>, a: seq<Packet>, p: Packet)
    requires Without32(ps, a)
    ensures Without32(ps + [p], a) && (p.degree != 32 ==> Without32(ps + [p], a + [p]))
  {
    var all := ps + [p];
    assert forall q :: q in ps ==> q in all;
    assert all[|ps|] == p;
    forall j | 0 <= j < |all| && all[j].degree == 32 && p.degree != 32 ensures |a + [p]| < |all| {
      assert ps[j].degree == 32;
    }
  }

  lemma {:induction false} Degree32Refused(ps: seq<Packet>)
    requires Below(Degrees(ps), 256) && ps != [] && ps[0].degree == 0
    ensures Without32(ps, Accepted(ps))
  {
    hide *;
    if |ps| == 1 {
      FirstAccepted(ps);
      Without32One(ps);
    } else {
      var front, p := ps[..|ps| - 1], ps[|ps| - 1];
      AcceptedLast(ps);
      Degree32Refused(front);
      var a := Accepted(front);
      assert front + [p] == ps;
      Without32Step(front, a, p);
      if p.degree == 32 {
        Without32First(front, a);
        ZeroLooksLike32(a);
      }
    }
  }

  lemma Without32One(ps: seq<Packet>)
    requires |ps| == 1 && ps[0].degree == 0
    ensures Without32(ps, ps)
  {
  }

  lemma Without32First(ps: seq<Packet>, a: seq<Packet>)
    requires Without32(ps, a)
    ensures a != [] && ps != [] && a[0] == ps[0]
  {
  }

  lemma FirstAccepted(ps: seq<Packet>)
    requires Below(Degrees(ps), 256) && |ps| == 1
    ensures Accepted(ps) == ps
  {
    hide *;
    AcceptedLast(ps);
    NoneAccepted();
    EmptyFront(ps);
    NoneSet(ps[0].degree);
  }

  lemma EmptyFront(ps: seq<Packet>)
    requires |ps| == 1
    ensures ps[..|ps| - 1] == [] && [] + [ps[0]] == ps
  {
  }

  lemma NoneSet(d: nat)
    requires d < 256
    ensures Below(Degrees([]), 256) && !IsSet(MaskOf(Degrees([])), d)
  {
    hide IsSet;
    EmptyAnswers(d);
    assert Degrees([]) == [];
  }

  lemma ZeroLooksLike32(a: seq<Packet>)
    requires Below(Degrees(a), 256) && a != [] && a[0].degree == 0
    ensures IsSet(MaskOf(Degrees(a)), 32)
  {
    hide IsSet, MaskOf;
    assert Alias(Degrees(a)[0], 32);
    MaskAnswers(Degrees(a), 32);
  }

  /** Degrees 0 and 32, and others that leave out N - 1. */
  ghost function ZeroAnd32(K: nat): (ds: seq<nat>)
    requires K >= 2
    ensures |ds| == K && ds[0] == 0 && ds[1] == 32 && Distinct(ds)
    ensures forall j :: 0 <= j < K ==> ds[j] == 32 || ds[j] < K
  {
    seq(K, (i: nat) => if i == 0 then 0 else if i == 1 then 32 else if i - 1 < 32 then i - 1 else i)
  }

  /** The packets of the given degrees. */
  ghost function PacketsAt(ds: seq<nat>, ms: seq<Bytes>, M: nat, T: nat): (ps: seq<Packet>)
    requires AreMessages(ms, M) && T > 0 && Below(ds, T + |ms|)
    ensures |ps| == |ds| && forall j :: 0 <= j < |ds| ==> ps[j] == Packet(ds[j], Payload(ms, M, T, ds[j]))
  {
    seq(|ds|, i requires 0 <= i < |ds| => Packet(ds[i], Payload(ms, M, T, ds[i])))
  }

  lemma PacketsFromBlock(ds: seq<nat>, ms: seq<Bytes>, M: nat, T: nat)
    requires AreMessages(ms, M) && T > 0 && Below(ds, T + |ms|)
    ensures FromBlock(PacketsAt(ds, ms, M, T), ms, M, T) && Degrees(PacketsAt(ds, ms, M, T)) == ds
  {
    hide AreMessages, Payload;
    var ps := PacketsAt(ds, ms, M, T);
    assert Degrees(ps) == ds;
    hide PacketsAt;
    forall j | 0 <= j < |ps| ensures ps[j].degree < T + |ms| && ps[j].payload == Payload(ms, M, T, ps[j].degree) {
      assert ds[j] < T + |ms|;
    }
  }

  lemma PacketsAreOfBlock(ds: seq<nat>, ms: seq<Bytes>, N: nat, K: nat, M: nat)
    requires K < N <= 255 && HEADER_SIZE + M <= INT_MAX && |ms| == |ds| == K && AreMessages(ms, M) && Distinct(ds)
    requires Below(ds, N)
    ensures AreOfBlock(PacketsAt(ds, ms, M, N - K), ms, N, K, M)
  {
    hide AreMessages, FromBlock, Distinct, PacketsAt;
    PacketsFromBlock(ds, ms, M, N - K);
  }

  /** K packets with degrees 0 and 32 among them leave the context incomplete, and a message is lost. */
  lemma TwoPacketsLose(N: nat, K: nat)
    requires 2 <= K < N <= 255 && N > 32
    ensures !Recovers(N, K)
  {
    hide Accepted, Payload, AreOfBlock;
    var ms := seq(K, (i: nat) => []);
    var ds, T := ZeroAnd32(K), N - K;
    PacketsAreOfBlock(ds, ms, N, K, 0);
    var ps := PacketsAt(ds, ms, 0, T);
    OfBlockBelow(ps, ms, N, K, 0);
    Degree32Refused(ps);
    var a := Accepted(ps);
    assert ps[1].degree == 32;
    var r := if T <= 32 then 32 else N - 1;
    forall j | 0 <= j < |a| ensures a[j].degree != r {
      assert a[j] in ps;
    }
    NotHanded(a, N, 0, T, r, ms[N - 1 - r]);
  }

  lemma OfBlockBelow(ps: seq<Packet>, ms: seq<Bytes>, N: nat, K: nat, M: nat)
    requires K < N <= 255 && AreOfBlock(ps, ms, N, K, M)
    ensures Below(Degrees(ps), 256)
  {
  }

  lemma NotHanded(a: seq<Packet>, N: nat, M: nat, T: nat, d: nat, m: Bytes)
    requires |a| + T != N && forall j :: 0 <= j < |a| ==> a[j].degree != d
    ensures !Handed(a, N, M, T, d, m)
  {
  }

  /** On the decoder itself: after the packet of degree 0, that of degree 32 is turned away as a duplicate. */
  method RefuseDegree32(rs: Config, dc: Decoder, p0: Sent, p32: Sent) returns (n: int)
    requires rs.Valid() && rs.N > 32 && rs.K >= 2 && dc.Valid(rs) && dc.arrivals == [] && rs.K < rs.N
    requires p0.degree == 0 && p32.degree == 32
    requires Sendable(p0, rs.N, rs.maxDataSize, rs.T()) && Sendable(p32, rs.N, rs.maxDataSize, rs.T())
    modifies dc, dc.syndromes, dc.erasureDegrees
    ensures n == E_RS_DUPLICATE && dc.Valid(rs) && |dc.arrivals| == 1 && !dc.IsComplete(rs)
  {
    hide Config.Valid, Decoder.Valid, ByteCode, IsBytes, Arrival, IsSet, MaskOf, LeftOut, Below, Arrivals, Sendable,
         Seen;
    rs.Facts();
    SentFacts(p0, rs.N, rs.maxDataSize, rs.T());
    SentFacts(p32, rs.N, rs.maxDataSize, rs.T());
    dc.Counts(rs);
    NoneSet(0);
    var first, isRaw := dc.Decode(rs, p0.data, |p0.data|, p0.degree);
    dc.Counts(rs);
    ZeroLooksLike32(dc.arrivals);
    n, isRaw := dc.Decode(rs, p32.data, |p32.data|, p32.degree);
    dc.Counts(rs);
  }

  // ----- One packet: the solver does not know that degree 32 is missing.

  /** A word that carries one nonzero message symbol has no zero symbol. */
  lemma OneSymbolWord(f: Field, T: nat, x: nat, d: nat)
    requires T > 0 && 0 < x < Order(f) && d <= T < Units(f)
    ensures Codeword(f, T, [x])[d] != 0
  {
    hide Codeword, SyndromeOfList, Dot, Sigma, Divisor, Term, Mul, Units;
    var w := Codeword(f, T, [x]);
    CodewordAt(f, T, [x], T);
    if d < T && w[d] == 0 {
      var others := AllBut(T, d);
      AllButIsComplement(T, d);
      var values := Pick(w, others);
      forall k | 0 <= k < T ensures SyndromeOfList(f, others, values, k) == 0 {
        ColumnSyndromes(f, T, [x], [d], others, k);
        OneSymbol(f, d, Pick(w, [d]), k);
        ZeroTerm(f, d, k);
      }
      assert Syndromes(f, T, others, values) == Zeros(T);
      ErasureEquation(f, others, values, T - 1);
      DotZeros(f, Sigma(f, others, T - 1));
      DivisorNonzero(f, others, T - 1);
      NoZeroDivisors(f, x, Divisor(f, others, T - 1));
    }
  }

  lemma OneSymbol(f: Field, d: nat, values: seq<nat>, k: nat)
    requires |values| == 1
    ensures SyndromeOfList(f, [d], values, k) == Term(f, values[0], d, k)
  {
    hide Term, Xor;
    assert [d][..0] == [] && values[..0] == [];
    XorZero(Term(f, values[0], d, k));
  }

  /** The degrees up to T without d. */
  ghost function AllBut(T: nat, d: nat): (ds: seq<nat>)
    requires d < T
    ensures |ds| == T && forall i :: 0 <= i < T ==> ds[i] == if i < d then i else i + 1
  {
    seq(T, (i: nat) => if i < d then i else i + 1)
  }

  lemma AllButIsComplement(T: nat, d: nat)
    requires d < T
    ensures Distinct(AllBut(T, d)) && IsComplement(AllBut(T, d), [d], T + 1) && AllBut(T, d)[T - 1] == T
  {
    var ds := AllBut(T, d);
    forall e: nat | e < T + 1 ensures e in [d] <==> e !in ds {
      if e != d {
        assert ds[if e < d then e else e - 1] == e;
      }
    }
  }

  // ----- The one packet of degree 0, with degree 32 overlooked.

  /** A block of one message of one byte, of which the packet of degree 0 arrives. */
  ghost function OneByte(): (ms: seq<Bytes>)
    ensures |ms| == 1 && AreMessages(ms, 1)
  {
    [[0]]
  }

  ghost function Packet0(T: nat): (ps: seq<Packet>)
    requires T > 0
  {
    PacketsAt([0], OneByte(), 1, T)
  }

  lemma Packet0Facts(N: nat)
    requires 32 < N <= 255
    ensures AreOfBlock(Packet0(N - 1), OneByte(), N, 1, 1)
    ensures Below(Degrees(Packet0(N - 1)), 256) && Degrees(Packet0(N - 1)) == [0]
    ensures Accepted(Packet0(N - 1)) == Packet0(N - 1)
    ensures Arrivals(Packet0(N - 1), 1, N)
  {
    hide Accepted, AreOfBlock, AreMessages, Payload, FromBlock, Arrivals;
    PacketsAreOfBlock([0], OneByte(), N, 1, 1);
    OfBlockBelow(Packet0(N - 1), OneByte(), N, 1, 1);
    OfBlockArrives(Packet0(N - 1), OneByte(), N, 1, 1);
    FirstAccepted(Packet0(N - 1));
  }

  lemma OfBlockArrives(ps: seq<Packet>, ms: seq<Bytes>, N: nat, K: nat, M: nat)
    requires K < N <= 255 && AreOfBlock(ps, ms, N, K, M)
    ensures AreMessages(ms, M) && |ms| == |ps| == K && FromBlock(ps, ms, M, N - K) && Distinct(Degrees(ps))
    ensures Below(Degrees(ps), N)
    ensures Arrivals(ps, M, N)
  {
    hide AreMessages, FromBlock, Arrivals, Distinct;
    FromBlockArrives(ps, ms, M, N - K);
  }

  /** After degree 0 alone, the decoder lists all degrees as missing but 0 and 32. */
  lemma ListedAfter0(lo: nat, N: nat)
    requires 32 < N <= 255 && Below([0], 256)
    ensures forall d: nat :: d in Unset(MaskOf([0]), lo, N) <==> lo <= d < N && d != 0 && d != 32
  {
    hide Unset, MaskOf, IsSet;
    UnsetMembers(MaskOf([0]), lo, N);
    forall d: nat | d < N ensures IsSet(MaskOf([0]), d) <==> d == 0 || d == 32 {
      MaskAnswers([0], d);
      assert [0][0] == 0;
      assert Alias(0, d) <==> d == 0 || d == 32;
    }
  }

  lemma ColumnOfSize1(T: nat)
    requires T > 0
    ensures Column(OneByte(), 1, 0) == [1]
    ensures Symbols(OneByte(), 1, T, 0) == Codeword(Block.F(), T, [1])
  {
    hide Codeword, Block.F;
    assert Padded([0], 1)[0] == HeaderByte(1, 0) == 1;
  }

  lemma PrefixSyndromes(f: Field, T: nat, e: nat, ds: seq<nat>, vs: seq<nat>)
    requires |ds| == |vs| && e <= T
    ensures Syndromes(f, T, ds, vs)[..e] == Syndromes(f, e, ds, vs)
  {
    hide SyndromeOfList;
  }

  /** The erasures that are listed and the one that is not are the complement of what arrived. */
  lemma ListedAnd32(N: nat)
    requires 33 < N <= 255 && Below([0], 256)
    ensures var e := Unset(MaskOf([0]), 0, N);
            && Distinct(e) && Below(e, N) && 32 !in e && IsComplement(e + [32], [0], N)
            && |e| <= N - 1 && Unset(MaskOf([0]), N - 1, N) != []
  {
    hide Unset, MaskOf, IsSet;
    var e := Unset(MaskOf([0]), 0, N);
    ListedAfter0(0, N);
    ListedAfter0(N - 1, N);
    UnsetMembers(MaskOf([0]), 0, N);
    DescendingIsDistinct(e);
    forall i | 0 <= i < |e| ensures e[i] < N {
      assert e[i] in e;
    }
    assert 32 !in e;
    UnsetFits([0], N);
    assert N - 1 in Unset(MaskOf([0]), N - 1, N);
  }

  /** The syndromes of column 0 are those of all erasures. */
  lemma Column0Syndromes(N: nat, all: seq<nat>)
    requires 33 < N <= 255 && IsComplement(all, [0], N)
    ensures Width(Packet0(N - 1), 1) && Below(all, N)
    ensures SyndromeRow(Packet0(N - 1), 1, N - 1, 0)
         == Syndromes(Block.F(), N - 1, all, Pick(Codeword(Block.F(), N - 1, [1]), all))
  {
    hide AreMessages, FromBlock, Arrivals, Width, Codeword, Syndromes, SyndromeRow, Block.F, Symbols, Packet0, OneByte,
         Distinct, IsComplement, Below, AreOfBlock, Accepted;
    Packet0Facts(N);
    OfBlockArrives(Packet0(N - 1), OneByte(), N, 1, 1);
    ArrivalsWidth(Packet0(N - 1), 1, N);
    ColumnOfSize1(N - 1);
    ComplementBelow(all, [0], N);
    ArrivalSyndromes(Packet0(N - 1), OneByte(), 1, N - 1, 0, all);
    RowIsSyndromes(Packet0(N - 1), 1, N - 1, 0);
  }

  lemma OneMoreErased(f: Field, T: nat, w: seq<nat>, order: seq<nat>, i: nat)
    requires Below(order, |w|) && i < |order|
    ensures Below(order[..i], |w|) && Below(order[..i + 1], |w|)
    ensures Syndromes(f, T, order[..i + 1], Pick(w, order[..i + 1]))
         == Add(Syndromes(f, T, order[..i], Pick(w, order[..i])), Terms(f, T, w[order[i]], order[i]))
  {
    hide Xor, Term;
    var ds, vs := order[..i + 1], Pick(w, order[..i + 1]);
    assert ds[..i] == order[..i] && vs[..i] == Pick(w, order[..i]);
  }

  /** Those of the listed erasures plus that of degree 32. */
  lemma SpoiltSyndromes(N: nat, e: seq<nat>)
    requires 33 < N <= 255 && Below(e, N) && IsComplement(e + [32], [0], N) && |e| <= N - 1
    ensures var w := Codeword(Block.F(), N - 1, [1]);
            && Width(Packet0(N - 1), 1)
            && SyndromeRow(Packet0(N - 1), 1, N - 1, 0)[..|e|]
               == Add(Syndromes(Block.F(), |e|, e, Pick(w, e)), Terms(Block.F(), |e|, w[32], 32))
  {
    hide Width, Codeword, Syndromes, SyndromeRow, SyndromeOfList, Term, Xor, Primitive, Units, Block.F, Terms, Add,
         Packet0, IsComplement, Below, Distinct;
    var w, all := Codeword(Block.F(), N - 1, [1]), e + [32];
    Column0Syndromes(N, all);
    PrefixSyndromes(Block.F(), N - 1, |e|, all, Pick(w, all));
    OneMoreErased(Block.F(), |e|, w, all, |e|);
    assert all[..|e|] == e && all[..|e| + 1] == all;
  }

  lemma ComplementBelow(erased: seq<nat>, received: seq<nat>, N: nat)
    requires IsComplement(erased, received, N)
    ensures Below(erased, N)
  {
  }

  lemma CanRestoreFacts(ps: seq<Packet>, N: nat, M: nat, T: nat, index: nat)
    requires CanRestore(ps, N, M, T, index)
    ensures Arrivals(ps, M, N) && Below(Degrees(ps), 256) && T <= N <= 255
    ensures index < |LeftOut(ps, N, T)| && index < |ErasureList(ps, N, T)| <= T
  {
  }

  lemma ErasuresOf0(N: nat)
    requires 33 < N <= 255 && Below([0], 256) && Below(Degrees(Packet0(N - 1)), 256) && Degrees(Packet0(N - 1)) == [0]
    requires Unset(MaskOf([0]), N - 1, N) != []
    ensures ErasureList(Packet0(N - 1), N, N - 1) == Unset(MaskOf([0]), 0, N)
  {
    hide Unset, MaskOf, Packet0;
  }

  lemma OneByteWord(N: nat)
    requires 33 < N <= 255
    ensures var w := Codeword(Block.F(), N - 1, [1]);
            0 < w[32] < Order(Block.F()) && w[N - 1] == 1 && 32 < Units(Block.F())
  {
    hide Codeword, Block.F, Units, Order;
    FieldSize();
    OneSymbolWord(Block.F(), N - 1, 1, 32);
    CodewordAt(Block.F(), N - 1, [1], N - 1);
    CodewordSymbol(Block.F(), N - 1, [1], 32);
  }

  /** So column 0 of the message is restored wrongly. */
  lemma WrongByte(N: nat, index: nat)
    requires 33 < N <= 255 && Arrivals(Packet0(N - 1), 1, N) && Below(Degrees(Packet0(N - 1)), 256)
    requires CanRestore(Packet0(N - 1), N, 1, N - 1, index) && LeftOut(Packet0(N - 1), N, N - 1)[index] == N - 1
    ensures RestoredByte(Packet0(N - 1), N, 1, N - 1, 0, index) != 1
  {
    hide AreMessages, FromBlock, Arrivals, Width, Codeword, Syndromes, SyndromeRow, Block.F, Terms, Add, Symbols,
         Packet0, OneByte, Distinct, IsComplement, Below, AreOfBlock, Accepted, LeftOut, ErasureList, RestoredByte,
         Solution, Locatable, CanRestore, Unset, MaskOf, Units;
    var f, w, ps, T := Block.F(), Codeword(Block.F(), N - 1, [1]), Packet0(N - 1), N - 1;
    CanRestoreFacts(ps, N, 1, T, index);
    Packet0Facts(N);
    ArrivalsWidth(ps, 1, N);
    ListedAnd32(N);
    ErasuresOf0(N);
    var e := ErasureList(ps, N, T);
    LeftOutRaw(ps, N, T, index);
    SpoiltSyndromes(N, e);
    LocatableErasures(ps, 1, N, T);
    RestoredByteIs(ps, N, 1, T, 0, index);
    OneByteWord(N);
    UnlistedSymbolSpoils(f, e, Pick(w, e), index, 32, w[32]);
  }

  lemma SizeOne(h: seq<nat>)
    requires |h| == HEADER_SIZE && IsBytes(h) && Int32(HeaderValue(h)) == 1
    ensures h[0] == 1
  {
  }

  /** A single packet of degree 0 does not bring back the message. */
  lemma OnePacketLoses(N: nat)
    requires 32 < N <= 255
    ensures !Recovers(N, 1)
  {
    hide Accepted, AreOfBlock, CanRestore, RestoredSize, RestoredData, LeftOut, Packet0, OneByte;
    var ps, ms := Packet0(N - 1), OneByte();
    Packet0Facts(N);
    assert ps[0].degree == Degrees(ps)[0];
    if Handed(Accepted(ps), N, 1, N - 1, N - 1, ms[0]) {
      var index: nat :| RestoredAs(ps, N, 1, N - 1, index, N - 1, ms[0]);
      NotRestored(N, index);
    }
  }

  lemma NotRestored(N: nat, index: nat)
    requires 32 < N <= 255
    ensures !RestoredAs(Packet0(N - 1), N, 1, N - 1, index, N - 1, OneByte()[0])
  {
    hide Arrivals, RestoredByte, RestoredData, ErasureList, Packet0, Below;
    var ps := Packet0(N - 1);
    Packet0Facts(N);
    if RestoredAs(ps, N, 1, N - 1, index, N - 1, OneByte()[0]) {
      OnlyListed(N, index);
      var h := RestoredBytes(ps, N, 1, N - 1, index, 0, HEADER_SIZE);
      forall i | 0 <= i < |h| ensures h[i] < 256 {
        RestoredByteAt(ps, N, 1, N - 1, index, 0, HEADER_SIZE, i);
      }
      SizeOne(h);
      RestoredByteAt(ps, N, 1, N - 1, index, 0, HEADER_SIZE, 0);
      WrongByte(N, index);
    }
  }

  /** With 33 packets, the message is not even listed. */
  lemma OnlyListed(N: nat, index: nat)
    requires 32 < N <= 255 && Below([0], 256) && Below(Degrees(Packet0(N - 1)), 256) && Degrees(Packet0(N - 1)) == [0]
    requires index < |LeftOut(Packet0(N - 1), N, N - 1)| && LeftOut(Packet0(N - 1), N, N - 1)[index] == N - 1
    ensures N != 33
  {
    hide Unset, MaskOf, Packet0;
    ListedAfter0(N - 1, N);
    assert LeftOut(Packet0(N - 1), N, N - 1)[index] in Unset(MaskOf([0]), N - 1, N);
  }

  // ----- The exact condition.

  lemma SmallBlockComesBack(ps: seq<Packet>, ms: seq<Bytes>, N: nat, K: nat, M: nat, i: nat)
    requires 1 <= K < N <= 32 && AreOfBlock(ps, ms, N, K, M) && i < K
    ensures |ms| == K && Below(Degrees(ps), 256) && Handed(Accepted(ps), N, M, N - K, N - 1 - i, ms[i])
  {
    hide *;
    OfBlockSize(ps, ms, N, K, M);
    OfBlockArrives(ps, ms, N, K, M);
    BlockComesBack(ps, ms, M, N - K, i);
  }

  lemma SmallBlocksRecover(N: nat, K: nat)
    requires 1 <= K < N <= 32
    ensures Recovers(N, K)
  {
    hide AreOfBlock, Handed, Accepted, AreMessages, FromBlock, Below, Distinct;
    forall M: nat, ms: seq<Bytes>, ps: seq<Packet>, i: nat | AreOfBlock(ps, ms, N, K, M) && i < K
      ensures |ms| == K && Below(Degrees(ps), 256) && Handed(Accepted(ps), N, M, N - K, N - 1 - i, ms[i])
    {
      SmallBlockComesBack(ps, ms, N, K, M, i);
    }
  }

  lemma OfBlockSize(ps: seq<Packet>, ms: seq<Bytes>, N: nat, K: nat, M: nat)
    requires K < N <= 255 && AreOfBlock(ps, ms, N, K, M)
    ensures HEADER_SIZE + M <= INT_MAX && |ms| == K
  {
  }

  /** Blocks of up to 32 packets are exactly those that come back from any K of their packets. */
  lemma RecoversIff32(N: nat, K: nat)
    requires 1 <= K < N <= 255
    ensures Recovers(N, K) <==> N <= 32
  {
    hide Recovers;
    if N <= 32 {
      SmallBlocksRecover(N, K);
    } else if K == 1 {
      OnePacketLoses(N);
    } else {
      TwoPacketsLose(N, K);
    }
  }
}
