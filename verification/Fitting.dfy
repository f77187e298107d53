/**
 What src/main/rs/rs.c restores when its arrivals are not packets of one block: in
 every column any K of them fit exactly one codeword, and the restored bytes are
 its symbols.
 */
module Fitting {
  import opened Collections
  import opened ExpLog
  import opened GaloisField
  import opened Polynomials
  import opened CodeTheory
  import opened Erasures
  import opened Block
  import opened Bitmap
  import opened Missing
  import opened Detection
  import opened Decoding
  import opened RsDecoder

  /** K packets of a block that the bitmap can tell apart have arrived. */
  ghost predicate Enough(ps: seq<Packet>, N: nat, M: nat, T: nat) {
    Arrivals(ps, M, N) && N <= 32 && 0 < T <= N && |ps| + T == N
  }

  /** w is a codeword that agrees with every arrival in column col. */
  ghost predicate FitsColumn(w: seq<nat>, ps: seq<Packet>, N: nat, M: nat, T: nat, col: nat)
    requires Width(ps, M) && col < HEADER_SIZE + M
  {
    |w| == N && Fits(Block.F(), T, w, Degrees(ps), Values(ps, M, col))
  }

  lemma EnoughFacts(ps: seq<Packet>, N: nat, M: nat, T: nat)
    requires Enough(ps, N, M, T)
    ensures Width(ps, M) && Distinct(Degrees(ps)) && Below(Degrees(ps), N) && Below(Degrees(ps), 256)
    ensures N <= Units(Block.F())
    ensures IsComplement(LeftOut(ps, N, 0), Degrees(ps), N) && |LeftOut(ps, N, 0)| == T
    ensures Locatable(Block.F(), LeftOut(ps, N, 0))
    ensures ErasureList(ps, N, T) == if LeftOut(ps, N, T) == [] then [] else LeftOut(ps, N, 0)
  {
    hide Unset, MaskOf, Width, Block.F, Units;
    FieldSize();
    UnsetIsComplement(Degrees(ps), N);
    UnsetLocatable(MaskOf(Degrees(ps)), N);
  }

  lemma ValuesInField(ps: seq<Packet>, M: nat, col: nat)
    requires Width(ps, M) && col < HEADER_SIZE + M
    ensures InField(Block.F(), Values(ps, M, col))
  {
    hide Block.F;
    FieldSize();
  }

  /** The word of a column is unique, and what is restored are its symbols. */
  lemma ColumnFits(ps: seq<Packet>, N: nat, M: nat, T: nat, col: nat) returns (w: seq<nat>)
    requires Enough(ps, N, M, T) && Width(ps, M) && col < HEADER_SIZE + M && Below(Degrees(ps), 256)
    ensures FitsColumn(w, ps, N, M, T, col) && forall v :: FitsColumn(v, ps, N, M, T, col) ==> v == w
    ensures forall i :: 0 <= i < |ErasureList(ps, N, T)| ==>
              ErasureList(ps, N, T)[i] < N && |ErasureList(ps, N, T)| <= T && Arrivals(ps, M, N)
              && RestoredByte(ps, N, M, T, col, i) == w[ErasureList(ps, N, T)[i]]
  {
    hide Block.F, Width, Units, Fits, Locatable, Solution, SyndromeRow, Syndromes, LeftOut, ErasureList, InField,
         Arrivals, Distinct, Below;
    EnoughFacts(ps, N, M, T);
    EnoughArrives(ps, N, M, T);
    ValuesInField(ps, M, col);
    var ds := LeftOut(ps, N, 0);
    w := FitsOneWord(Block.F(), T, N, Degrees(ps), Values(ps, M, col), ds);
    RowIsSyndromes(ps, M, T, col);
    forall i | 0 <= i < |ErasureList(ps, N, T)|
      ensures ErasureList(ps, N, T)[i] < N && RestoredByte(ps, N, M, T, col, i) == w[ErasureList(ps, N, T)[i]]
    {
      RestoredByteIs(ps, N, M, T, col, i);
      BoundAt(ds, N, i);
      assert SyndromeRow(ps, M, T, col)[..T] == SyndromeRow(ps, M, T, col);
    }
  }

  lemma EnoughArrives(ps: seq<Packet>, N: nat, M: nat, T: nat)
    requires Enough(ps, N, M, T)
    ensures Arrivals(ps, M, N) && N <= 32 && 0 < T <= N && |ps| + T == N
  {
  }

  /** The words of the header columns. */
  ghost predicate FitHeader(ws: seq<seq<nat>>, ps: seq<Packet>, N: nat, M: nat, T: nat)
    requires Width(ps, M)
  {
    |ws| == HEADER_SIZE && forall col :: 0 <= col < HEADER_SIZE ==>
        |ws[col]| == N && FitsColumn(ws[col], ps, N, M, T, col)
  }

  /** What the words have at degree d. */
  ghost function At(ws: seq<seq<nat>>, d: nat): (h: seq<nat>)
    requires forall i :: 0 <= i < |ws| ==> d < |ws[i]|
    ensures |h| == |ws| && forall i :: 0 <= i < |ws| ==> h[i] == ws[i][d]
  {
    seq(|ws|, i requires 0 <= i < |ws| => ws[i][d])
  }

  lemma HeaderWords(ps: seq<Packet>, N: nat, M: nat, T: nat, index: nat, ws: seq<seq<nat>>)
    requires Enough(ps, N, M, T) && Width(ps, M) && Below(Degrees(ps), 256) && CanRestore(ps, N, M, T, index)
    requires FitHeader(ws, ps, N, M, T)
    ensures ErasureList(ps, N, T)[index] < N && |ws| == HEADER_SIZE && forall i :: 0 <= i < |ws| ==> |ws[i]| == N
    ensures RestoredBytes(ps, N, M, T, index, 0, HEADER_SIZE) == At(ws, ErasureList(ps, N, T)[index])
    ensures IsBytes(RestoredBytes(ps, N, M, T, index, 0, HEADER_SIZE))
  {
    hide Width, ErasureList, LeftOut, Arrivals, RestoredByte, Enough, FitsColumn, Below;
    forall col | 0 <= col < HEADER_SIZE
      ensures ErasureList(ps, N, T)[index] < N
      ensures RestoredByte(ps, N, M, T, col, index) == ws[col][ErasureList(ps, N, T)[index]]
    {
      var w := ColumnFits(ps, N, M, T, col);
    }
    var h := RestoredBytes(ps, N, M, T, index, 0, HEADER_SIZE);
    forall i | 0 <= i < HEADER_SIZE ensures h[i] == RestoredByte(ps, N, M, T, i, index) {
      RestoredByteAt(ps, N, M, T, index, 0, HEADER_SIZE, i);
    }
  }

  /**
   So, whatever the arrivals: the size that rs_decode_result reads is the one in the
   header symbols of the words that the arrivals fit, and it passes as negative if
   and only if the fourth of them is 128 or more.
   */
  lemma SizeIsOfWords(ps: seq<Packet>, N: nat, M: nat, T: nat, index: nat, ws: seq<seq<nat>>)
    requires Enough(ps, N, M, T) && Width(ps, M) && Below(Degrees(ps), 256) && CanRestore(ps, N, M, T, index)
    requires FitHeader(ws, ps, N, M, T)
    ensures ErasureList(ps, N, T)[index] < N && |ws| == HEADER_SIZE && forall i :: 0 <= i < |ws| ==> |ws[i]| == N
    ensures RestoredSize(ps, N, M, T, index) == Int32(HeaderValue(At(ws, ErasureList(ps, N, T)[index])))
    ensures RestoredSize(ps, N, M, T, index) < 0 <==> ws[3][ErasureList(ps, N, T)[index]] >= 128
  {
    hide Width, ErasureList, LeftOut, Arrivals, RestoredBytes, Enough, FitHeader, Below, HeaderValue, Int32;
    HeaderWords(ps, N, M, T, index, ws);
    SignOfHeader(RestoredBytes(ps, N, M, T, index, 0, HEADER_SIZE));
  }

  lemma FitsLength(w: seq<nat>, ps: seq<Packet>, N: nat, M: nat, T: nat, col: nat)
    requires Width(ps, M) && col < HEADER_SIZE + M && FitsColumn(w, ps, N, M, T, col)
    ensures |w| == N
  {
  }

  lemma SignOfHeader(h: seq<nat>)
    requires |h| == HEADER_SIZE && h[0] < 256 && h[1] < 256 && h[2] < 256 && h[3] < 256
    ensures Int32(HeaderValue(h)) < 0 <==> h[3] >= 128
  {
  }

  /** And the data are the symbols of the words behind the header. */
  lemma DataIsOfWords(ps: seq<Packet>, N: nat, M: nat, T: nat, index: nat, size: nat, i: nat, w: seq<nat>)
    requires Enough(ps, N, M, T) && Width(ps, M) && Below(Degrees(ps), 256) && CanRestore(ps, N, M, T, index)
    requires i < size <= M && FitsColumn(w, ps, N, M, T, HEADER_SIZE + i)
    ensures ErasureList(ps, N, T)[index] < |w|
    ensures RestoredData(ps, N, M, T, index, size)[i] == w[ErasureList(ps, N, T)[index]]
  {
    hide Width, ErasureList, LeftOut, Arrivals, RestoredByte, Enough, FitsColumn, Below;
    var v := ColumnFits(ps, N, M, T, HEADER_SIZE + i);
    FitsLength(w, ps, N, M, T, HEADER_SIZE + i);
    RestoredByteAt(ps, N, M, T, index, HEADER_SIZE, HEADER_SIZE + size, i);
  }
}
