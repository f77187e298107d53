/**
 X generates both predefined fields of src/main/rs/galois.h.
 */
module Primitivity {
  import opened Arithmetic
  import opened Bits
  import opened ExpLog

  /** GF(2^4) modulo X^4 + X + 1. */
  const GF16 := Params(4, 0x13)

  /** GF(2^8) modulo X^8 + X^4 + X^3 + X^2 + 1. */
  const GF256 := Params(8, 0x11D)

  lemma ShiftGF16()
    ensures TimesX(GF16, 1) == 2 && TimesX(GF16, 2) == 4 && TimesX(GF16, 4) == 8 && TimesX(GF16, 3) == 6
    ensures TimesX(GF16, 6) == 12 && TimesX(GF16, 5) == 10 && TimesX(GF16, 7) == 14
  {
  }

  lemma ReduceNibble(b0: bool, b1: bool, b2: bool)
    ensures TimesX(GF16, Cons(b0, Cons(b1, Cons(b2, Cons(true, 0))))) == Cons(true, Cons(!b0, Cons(b1, Cons(b2, 0))))
  {
    var u4 := Cons(true, 0);
    var t3, u3 := Cons(b2, u4), Cons(false, u4);
    var t2, u2 := Cons(b1, t3), Cons(false, u3);
    var t1, u1 := Cons(b0, t2), Cons(true, u2);
    assert TopSet(t1, 3) by {
      assert Pow2(3) == 8;
    }
    assert 0x13 == Cons(true, u1) && 2 * t1 == Cons(false, t1) && Cons(false, 0) == 0;
    hide Xor, Cons, TopSet;
    XorCons(false, t1, true, u1);
    XorCons(b0, t2, true, u2);
    XorCons(b1, t3, false, u3);
    XorCons(b2, u4, false, u4);
    XorSelf(u4);
  }

  lemma ReduceGF16()
    ensures TimesX(GF16, 8) == 3 && TimesX(GF16, 12) == 11 && TimesX(GF16, 11) == 5 && TimesX(GF16, 10) == 7
    ensures TimesX(GF16, 14) == 15 && TimesX(GF16, 15) == 13 && TimesX(GF16, 13) == 9 && TimesX(GF16, 9) == 1
  {
    hide TimesX;
    ReduceNibble(false, false, false);
    ReduceNibble(false, false, true);
    ReduceNibble(true, true, false);
    ReduceNibble(false, true, false);
    ReduceNibble(false, true, true);
    ReduceNibble(true, true, true);
    ReduceNibble(true, false, true);
    ReduceNibble(true, false, false);
  }

  lemma GF16IsPrimitive()
    ensures Primitive(GF16)
  {
    assert WellFormed(GF16) && Units(GF16) == 15 by {
      assert Pow2(4) == 16;
    }
    hide TimesX, WellFormed, Units;
    ShiftGF16();
    ReduceGF16();
    assert Exp(GF16, 1) == 2 && Exp(GF16, 2) == 4 && Exp(GF16, 3) == 8 && Exp(GF16, 4) == 3 && Exp(GF16, 5) == 6;
    assert Exp(GF16, 6) == 12 && Exp(GF16, 7) == 11 && Exp(GF16, 8) == 5 && Exp(GF16, 9) == 10 && Exp(GF16, 10) == 7;
    assert Exp(GF16, 11) == 14 && Exp(GF16, 12) == 15 && Exp(GF16, 13) == 13 && Exp(GF16, 14) == 9
        && Exp(GF16, 15) == 1;
  }

  // The orbit of X in GF(2^8) is evaluated on bytes, which the solver computes with directly.

  /** The number a byte stands for. */
  function ByteValue(x: bv8): nat {
    Cons(x & 1 != 0, Cons(x & 2 != 0, Cons(x & 4 != 0, Cons(x & 8 != 0,
    Cons(x & 16 != 0, Cons(x & 32 != 0, Cons(x & 64 != 0, Cons(x & 128 != 0, 0))))))))
  }

  /** TimesX on bytes. */
  function Step(x: bv8): bv8 {
    if x & 0x80 == 0 then x << 1 else (x << 1) ^ 0x1D
  }

  function Three(x: bv8): bv8 { Step(Step(Step(x))) }
  function Fifteen(x: bv8): bv8 { Three(Three(Three(Three(Three(x))))) }
  function Seventeen(x: bv8): bv8 { Step(Step(Fifteen(x))) }
  function FiftyOne(x: bv8): bv8 { Seventeen(Seventeen(Seventeen(x))) }
  function EightyFive(x: bv8): bv8 { Seventeen(Seventeen(FiftyOne(x))) }

  lemma Evaluate15() ensures Fifteen(1) == 38 {}
  lemma Evaluate51() ensures FiftyOne(1) == 10 {}
  lemma Evaluate85() ensures EightyFive(1) == 214 {}
  lemma Evaluate170() ensures EightyFive(214) == 215 {}
  lemma Evaluate255() ensures EightyFive(215) == 1 {}


  lemma StepHigh(b0: bool, b1: bool, b2: bool, b3: bool, b4: bool, b5: bool, b6: bool)
    ensures Xor(Cons(false, Cons(b0, Cons(b1, Cons(b2, Cons(b3, Cons(b4, Cons(b5, Cons(b6, Cons(true, 0))))))))), 0x11D)
         == Cons(true, Cons(b0, Cons(!b1, Cons(!b2, Cons(!b3, Cons(b4, Cons(b5, Cons(b6, 0))))))))
  {
    var t9, u9 := Cons(true, 0), Cons(true, 0);
    var t8, u8 := Cons(b6, t9), Cons(false, u9);
    var t7, u7 := Cons(b5, t8), Cons(false, u8);
    var t6, u6 := Cons(b4, t7), Cons(false, u7);
    var t5, u5 := Cons(b3, t6), Cons(true, u6);
    var t4, u4 := Cons(b2, t5), Cons(true, u5);
    var t3, u3 := Cons(b1, t4), Cons(true, u4);
    var t2, u2 := Cons(b0, t3), Cons(false, u3);
    assert 0x11D == Cons(true, u2);
    assert Cons(false, 0) == 0;
    hide Xor, Cons;
    XorCons(false, t2, true, u2);
    XorCons(b0, t3, false, u3);
    XorCons(b1, t4, true, u4);
    XorCons(b2, t5, true, u5);
    XorCons(b3, t6, true, u6);
    XorCons(b4, t7, false, u7);
    XorCons(b5, t8, false, u8);
    XorCons(b6, t9, false, u9);
    XorSelf(t9);
  }

  lemma StepBits(x: bv8)
    requires x & 128 != 0
    ensures Step(x) & 1 != 0 && (Step(x) & 2 != 0) == (x & 1 != 0) && (Step(x) & 4 != 0) == !(x & 2 != 0)
    ensures (Step(x) & 8 != 0) == !(x & 4 != 0) && (Step(x) & 16 != 0) == !(x & 8 != 0)
    ensures (Step(x) & 32 != 0) == (x & 16 != 0) && (Step(x) & 64 != 0) == (x & 32 != 0)
    ensures (Step(x) & 128 != 0) == (x & 64 != 0)
  {
  }

  lemma ByteTop(x: bv8)
    ensures TopSet(ByteValue(x), 7) == (x & 128 != 0)
  {
  }

  lemma StepIsTimesX(x: bv8)
    ensures TimesX(GF256, ByteValue(x)) == ByteValue(Step(x))
  {
    ByteTop(x);
    if x & 128 != 0 {
      assert 2 * ByteValue(x) == Cons(false, ByteValue(x));
      hide Xor, Cons, TopSet, Step;
      StepBits(x);
      StepHigh(x & 1 != 0, x & 2 != 0, x & 4 != 0, x & 8 != 0, x & 16 != 0, x & 32 != 0, x & 64 != 0);
    } else {
      hide TopSet;
      ShiftValue(x);
      hide ByteValue;
    }
  }

  lemma ShiftValue(x: bv8)
    requires x & 128 == 0
    ensures ByteValue(x << 1) == 2 * ByteValue(x)
  {
  }

  lemma StepExp(x: bv8, i: nat)
    requires ByteValue(x) == Exp(GF256, i)
    ensures ByteValue(Step(x)) == Exp(GF256, i + 1)
  {
    hide TimesX, ByteValue, Step;
    StepIsTimesX(x);
  }

  lemma ThreeExp(x: bv8, i: nat)
    requires ByteValue(x) == Exp(GF256, i)
    ensures ByteValue(Three(x)) == Exp(GF256, i + 3)
  {
    hide ByteValue, Step, Exp;
    StepExp(x, i);
    StepExp(Step(x), i + 1);
    StepExp(Step(Step(x)), i + 2);
  }

  lemma SeventeenExp(x: bv8, i: nat)
    requires ByteValue(x) == Exp(GF256, i)
    ensures ByteValue(Fifteen(x)) == Exp(GF256, i + 15)
    ensures ByteValue(Seventeen(x)) == Exp(GF256, i + 17)
  {
    hide ByteValue, Step, Exp, Three;
    ThreeExp(x, i);
    ThreeExp(Three(x), i + 3);
    ThreeExp(Three(Three(x)), i + 6);
    ThreeExp(Three(Three(Three(x))), i + 9);
    ThreeExp(Three(Three(Three(Three(x)))), i + 12);
    StepExp(Fifteen(x), i + 15);
    StepExp(Step(Fifteen(x)), i + 16);
  }

  lemma EightyFiveExp(x: bv8, i: nat)
    requires ByteValue(x) == Exp(GF256, i)
    ensures ByteValue(FiftyOne(x)) == Exp(GF256, i + 51)
    ensures ByteValue(EightyFive(x)) == Exp(GF256, i + 85)
  {
    hide ByteValue, Exp, Fifteen, Seventeen;
    SeventeenExp(x, i);
    SeventeenExp(Seventeen(x), i + 17);
    SeventeenExp(Seventeen(Seventeen(x)), i + 34);
    SeventeenExp(FiftyOne(x), i + 51);
    SeventeenExp(Seventeen(FiftyOne(x)), i + 68);
  }

  lemma ByteValueOne(x: bv8)
    ensures ByteValue(x) == 1 <==> x == 1
  {
  }

  lemma WellFormedGF256()
    ensures WellFormed(GF256) && Units(GF256) == 255
  {
    assert Pow2(5) == 32;
    assert Pow2(8) == 256;
    assert Pow2(9) == 512;
  }

  /** X^255 is 1; X^15, X^51 and X^85 are not. */
  lemma KeyPowers()
    ensures Exp(GF256, 255) == 1
    ensures Exp(GF256, 15) != 1 && Exp(GF256, 51) != 1 && Exp(GF256, 85) != 1
  {
    hide ByteValue, Exp, Fifteen, Seventeen, FiftyOne, EightyFive;
    ByteValueOne(1);
    ByteValueOne(10);
    ByteValueOne(38);
    ByteValueOne(214);
    ExpZero(GF256);
    Evaluate15();
    Evaluate51();
    Evaluate85();
    Evaluate170();
    Evaluate255();
    SeventeenExp(1, 0);
    EightyFiveExp(1, 0);
    EightyFiveExp(214, 85);
    EightyFiveExp(215, 170);
  }

  /** If X^i is 1, so is X^m for every multiple m of i, and X^m is X^(m mod i). */
  lemma {:induction false} ReduceByOrder(f: Params, i: nat, m: nat)
    requires WellFormed(f) && i > 0 && Exp(f, i) == 1
    ensures Exp(f, m) == Exp(f, Mod(m, i))
    decreases m
  {
    hide Exp, Mod;
    ExpZero(f);
    if m < i {
      ModSmall(m, i);
    } else {
      ModStep(m, i);
      ReduceByOrder(f, i, m - i);
      ExpShift(f, i, 0, m - i);
    }
  }

  /** A proper divisor of 255 divides 15, 51 or 85. */
  lemma ProperDivisor(i: nat, q: nat)
    requires i * q == 255 && q > 1
    ensures i > 0 && (Mod(15, i) == 0 || Mod(51, i) == 0 || Mod(85, i) == 0)
  {
    if i > 16 {
      assert q <= 15 by {
        if q > 15 {
          MultipleIsLarge(q, i - 16);
          Distribute(q, i, 16);
        }
      }
      assert q == 2 || q == 3 || q == 4 || q == 5 || q == 6 || q == 7 || q == 8 || q == 9 || q == 10
          || q == 11 || q == 12 || q == 13 || q == 14 || q == 15;
    } else {
      assert i == 0 || i == 1 || i == 2 || i == 3 || i == 4 || i == 5 || i == 6 || i == 7 || i == 8 || i == 9
          || i == 10 || i == 11 || i == 12 || i == 13 || i == 14 || i == 15 || i == 16;
    }
  }

  lemma {:induction false} NoSmallerOrder(i: nat)
    requires 0 < i < 255
    ensures Exp(GF256, i) != 1
  {
    WellFormedGF256();
    hide Exp, Mod;
    if Exp(GF256, i) == 1 {
      KeyPowers();
      ReduceByOrder(GF256, i, 255);
      if Mod(255, i) != 0 {
        NoSmallerOrder(Mod(255, i));
      } else {
        ExpZero(GF256);
        var q := ExactQuotient(255, i);
        ProperDivisor(i, q);
        ReduceByOrder(GF256, i, 15);
        ReduceByOrder(GF256, i, 51);
        ReduceByOrder(GF256, i, 85);
      }
    }
  }

  lemma GF256IsPrimitive()
    ensures Primitive(GF256)
  {
    WellFormedGF256();
    KeyPowers();
    hide Exp, Units, WellFormed;
    forall i | 0 < i < 255 ensures Exp(GF256, i) != 1 {
      NoSmallerOrder(i);
    }
  }
}
