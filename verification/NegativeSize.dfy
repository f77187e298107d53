/**
 A packet of a block of one message and one redundant packet that makes
 rs_decode_result of src/main/rs/rs.c return a negative size without an error.
 */
module NegativeSize {
  import opened Bits
  import opened ExpLog
  import opened Primitivity
  import opened GaloisField
  import opened Polynomials
  import opened Erasures
  import opened Block
  import opened Bitmap
  import opened Missing
  import opened Decoding

  /** 128 times X is 0x1D. */
  lemma TopByteDoubled()
    ensures Mul(Block.F(), 128, Exp(Block.F(), 1)) == 0x1D
  {
    hide Exp, Mul, ByteValue, Step;
    SevenSteps();
    MulPowers(Block.F(), 7, 1);
  }

  lemma SevenSteps()
    ensures Exp(GF256, 7) == 128 && Exp(GF256, 8) == 0x1D
  {
    hide Exp, ByteValue, Step;
    EvaluateSteps();
    ExpZero(GF256);
    ByteValueOne(1);
    ThreeExp(1, 0);
    ThreeExp(Three(1), 3);
    StepExp(Three(Three(1)), 6);
    StepExp(Step(Three(Three(1))), 7);
    ByteValues();
  }

  lemma ByteValues()
    ensures ByteValue(128) == 128 && ByteValue(0x1D) == 0x1D
  {
  }

  lemma EvaluateSteps()
    ensures Step(Three(Three(1))) == 128 && Step(Step(Three(Three(1)))) == 0x1D
  {
  }

  /** One erasure at degree 1: the solver divides by X. */
  lemma OneErasure(f: Field, s: nat, v: nat)
    requires v < Order(f) && Mul(f, v, Exp(f, 1)) == s && Locatable(f, [1])
    ensures Solution(f, [1], [s], 0) == v
  {
    hide Mul, Exp, Xor, Units, Solution;
    MulBound(f, v, s);
    assert Others(f, [1], 0, 1) == [];
    ExpUnit(f, 1);
    OneInField(f);
    EvalSingle(f, 1, Exp(f, 1));
    assert Sigma(f, [1], 0) == [1];
    MulOne(f, Exp(f, 1));
    MulOne(f, s);
    assert [s][..0] == [] && [1][..0] == [];
    XorZero(s);
    SolutionIsUnique(f, [1], [s], 0, v);
  }

  lemma MulBound(f: Field, v: nat, s: nat)
    requires Mul(f, v, Exp(f, 1)) == s
    ensures s < Order(f)
  {
    hide Exp;
  }

  /** The one arrival: a redundant packet whose first three bytes are zero, the fourth 0x1D, and the rest zero. */
  ghost function Forged(M: nat): (ps: seq<Packet>)
    ensures |ps| == 1 && ps[0].degree == 0 && |ps[0].payload| == HEADER_SIZE + M
    ensures forall i :: 0 <= i < HEADER_SIZE + M ==> ps[0].payload[i] == if i == 3 then 0x1D else 0
  {
    [Packet(0, seq(HEADER_SIZE + M, i => if i == 3 then 0x1D else 0))]
  }

  lemma ForgedArrives(M: nat)
    ensures Arrivals(Forged(M), M, 2) && Below(Degrees(Forged(M)), 256) && Degrees(Forged(M)) == [0]
  {
    assert Degrees(Forged(M)) == [0];
  }

  /** The message, of degree 1, is listed as missing. */
  lemma ForgedErasures(M: nat)
    requires Below([0], 256) && Below(Degrees(Forged(M)), 256) && Degrees(Forged(M)) == [0]
    ensures LeftOut(Forged(M), 2, 1) == [1] && ErasureList(Forged(M), 2, 1) == [1]
  {
    hide IsSet, MaskOf, Forged;
    FaithfulBelow32([0], 0);
    FaithfulBelow32([0], 1);
    assert 0 in [0] && 1 !in [0];
    var mask := MaskOf([0]);
    assert Unset(mask, 2, 2) == [];
    assert Unset(mask, 1, 2) == [1];
    assert Unset(mask, 0, 2) == [1];
  }

  /** Byte 3 of the header comes out as 128, the others as 0. */
  lemma ForgedByte(M: nat, col: nat)
    requires col < HEADER_SIZE
    ensures CanRestore(Forged(M), 2, M, 1, 0)
    ensures RestoredByte(Forged(M), 2, M, 1, col, 0) == if col == 3 then 128 else 0
  {
    hide Forged, Arrivals, Below, Mul, Exp, Solution, Locatable, RestoredByte, Syndromes, Block.F, LeftOut, ErasureList,
         SyndromeRow, Units;
    var ps, f := Forged(M), Block.F();
    ForgedArrives(M);
    ForgedErasures(M);
    ArrivalsWidth(ps, M, 2);
    LocatableErasures(ps, M, 2, 1);
    RestoredByteIs(ps, 2, M, 1, col, 0);
    var v := if col == 3 then 0x1D else 0;
    ForgedSyndrome(M, col, v);
    FieldSize();
    TopByteDoubled();
    MulZero(f, Exp(f, 1));
    OneErasure(f, v, if col == 3 then 128 else 0);
    assert [v][..1] == [v];
  }

  lemma ForgedSyndrome(M: nat, col: nat, v: nat)
    requires col < HEADER_SIZE && v == if col == 3 then 0x1D else 0
    ensures Width(Forged(M), M) && SyndromeRow(Forged(M), M, 1, col) == [v]
  {
    hide Mul, Exp, Xor, Block.F;
    var ps, f := Forged(M), Block.F();
    ForgedArrives(M);
    var values := Values(ps, M, col);
    assert values == [v] && values[..0] == [] && Degrees(ps)[..0] == [];
    ExpZero(f);
    FieldSize();
    MulOne(f, v);
    XorZero(v);
    assert Term(f, v, 0, 0) == v;
    assert SyndromeOfList(f, Degrees(ps)[..0], values[..0], 0) == 0;
    assert SyndromeOfList(f, Degrees(ps), values, 0) == v;
  }

  /**
   The size that comes back is -2^31, which is no error: the size test of
   rs_decode_result has no lower bound.
   */
  lemma NegativeSizeRestored(M: nat)
    ensures CanRestore(Forged(M), 2, M, 1, 0)
    ensures RestoredSize(Forged(M), 2, M, 1, 0) == -0x8000_0000 <= M
  {
    hide Forged, Arrivals, Below, RestoredByte, LeftOut, ErasureList;
    var ps := Forged(M);
    ForgedByte(M, 0);
    ForgedByte(M, 1);
    ForgedByte(M, 2);
    ForgedByte(M, 3);
    RestoredByteAt(ps, 2, M, 1, 0, 0, HEADER_SIZE, 0);
    RestoredByteAt(ps, 2, M, 1, 0, 0, HEADER_SIZE, 1);
    RestoredByteAt(ps, 2, M, 1, 0, 0, HEADER_SIZE, 2);
    RestoredByteAt(ps, 2, M, 1, 0, 0, HEADER_SIZE, 3);
  }
}
