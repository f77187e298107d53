/**
 A field in which the 32-bit exponents of rscode_decode_syndromes go wrong: GF(2^17)
 modulo X^17 + X^3 + 1, the smallest degree in which a product can wrap.
 */
module WideField {
  import opened Arithmetic
  import opened Bits
  import opened ExpLog
  import opened Primitivity

  const WIDE := Params(17, 0x20009)

  lemma WellFormedWide()
    ensures WellFormed(WIDE) && Units(WIDE) == 131071 && Pow2(16) == 0x1_0000
  {
    assert Pow2(8) == 256;
    assert Pow2(16) == 0x1_0000;
    assert Pow2(17) == 0x2_0000;
    assert Pow2(18) == 0x4_0000;
  }

  // ----- Powers of X of high degree.

  lemma {:induction false} ReduceExp(n: nat)
    requires n >= 17
    ensures Exp(WIDE, n) == Xor(Exp(WIDE, n - 14), Exp(WIDE, n - 17))
  {
    hide Xor, TimesX, WellFormed, Exp, Pow2;
    WellFormedWide();
    if n == 17 {
      FirstReduction();
    } else {
      ReduceExp(n - 1);
      ExpBound(WIDE, n - 15);
      ExpBound(WIDE, n - 18);
      TimesXLinear(WIDE, Exp(WIDE, n - 15), Exp(WIDE, n - 18));
      NextExp(n - 1);
      NextExp(n - 15);
      NextExp(n - 18);
    }
  }

  lemma NextExp(n: nat)
    ensures Exp(WIDE, n + 1) == TimesX(WIDE, Exp(WIDE, n))
  {
  }

  lemma {:induction false} LowExp(n: nat)
    requires n <= 16
    ensures Exp(WIDE, n) == Pow2(n)
  {
    if n > 0 {
      LowExp(n - 1);
      PowersRise(n - 1, 16);
    }
  }

  lemma {:induction false} PowersRise(i: nat, j: nat)
    requires i < j
    ensures Pow2(i) < Pow2(j)
  {
    if i < j - 1 {
      PowersRise(i, j - 1);
    }
  }

  lemma FirstReduction()
    ensures Exp(WIDE, 17) == Xor(Exp(WIDE, 3), Exp(WIDE, 0))
  {
    WellFormedWide();
    LowExp(16);
    LowExp(3);
    var top, low := Pow2(17), Xor(Pow2(3), 1);
    assert Pow2(17) == 2 * Pow2(16) && Pow2(3) == 8 && low == 9;
    TopAlone();
    assert Exp(WIDE, 17) == Xor(2 * Exp(WIDE, 16), 0x20009);
  }

  lemma TopAlone()
    ensures Xor(0x2_0000, 0x20009) == 9
  {
    assert Xor(0x2000, 0x2000) == 0 by {
      XorSelf(0x2000);
    }
    hide Xor;
    XorCons(false, 0x2000, true, 0x2000);
    XorCons(false, 0x4000, false, 0x4001);
    XorCons(false, 0x8000, false, 0x8002);
    XorCons(false, 0x1_0000, true, 0x1_0004);
  }

  // ----- Elements as sums of powers of X, one for every bit.

  predicate Low(x: bv17) {
    x & 1 == 1
  }

  function Rest(x: bv17): bv17 {
    x >> 1
  }

  function Plus(x: bv17, y: bv17): bv17 {
    x ^ y
  }

  /** The sum of X^n, X^(n + 1), ... for the bits of x from the lowest on. */
  function Sum(x: bv17, n: nat): nat
    decreases 17 - n
  {
    if n >= 17 then 0 else Xor(if Low(x) then Exp(WIDE, n) else 0, Sum(Rest(x), n + 1))
  }

  lemma ZeroBits()
    ensures !Low(0) && Rest(0) == 0
  {
  }

  lemma {:induction false} SumZero(n: nat)
    ensures Sum(0, n) == 0
    decreases 17 - n
  {
    ZeroBits();
    hide Low, Rest;
    if n < 17 {
      SumZero(n + 1);
      XorZero(0);
    }
  }

  lemma {:induction false} SumBound(x: bv17, n: nat)
    ensures Sum(x, n) < Order(WIDE)
    decreases 17 - n
  {
    WellFormedWide();
    OrderPositive();
    hide Exp, Xor, Pow2, Low, Rest;
    if n < 17 {
      SumBound(Rest(x), n + 1);
      ExpBound(WIDE, n);
      XorBound(if Low(x) then Exp(WIDE, n) else 0, Sum(Rest(x), n + 1), 17);
    }
  }

  lemma OrderPositive()
    ensures Order(WIDE) > 0
  {
  }

  lemma LowBitOfXor(x: bv17, y: bv17)
    ensures Low(Plus(x, y)) == (Low(x) != Low(y)) && Rest(Plus(x, y)) == Plus(Rest(x), Rest(y))
  {
  }

  lemma {:induction false} SumOfXor(x: bv17, y: bv17, n: nat)
    ensures Sum(Plus(x, y), n) == Xor(Sum(x, n), Sum(y, n))
    decreases 17 - n
  {
    hide Exp, Xor, Low, Rest, Plus;
    if n >= 17 {
      XorZero(0);
    } else {
      LowBitOfXor(x, y);
      SumOfXor(Rest(x), Rest(y), n + 1);
      var e := Exp(WIDE, n);
      XorSelf(e);
      XorZero(e);
      XorZero(0);
      XorInterchange(if Low(x) then e else 0, if Low(y) then e else 0, Sum(Rest(x), n + 1), Sum(Rest(y), n + 1));
    }
  }

  /** A single bit. */
  function Bit(k: nat): bv17
    requires k < 17
  {
    1 << k
  }

  lemma BitShift(k: nat)
    requires k < 17
    ensures (Low(Bit(k)) <==> k == 0) && Rest(Bit(k)) == if k == 0 then 0 else Bit(k - 1)
  {
    assert k == 0 || k == 1 || k == 2 || k == 3 || k == 4 || k == 5 || k == 6 || k == 7 || k == 8 || k == 9 || k == 10
        || k == 11 || k == 12 || k == 13 || k == 14 || k == 15 || k == 16;
  }

  lemma {:induction false} SumOfBit(k: nat, n: nat)
    requires k + n < 17
    ensures Sum(Bit(k), n) == Exp(WIDE, n + k)
  {
    hide Exp, Xor, Bit, Low, Rest;
    BitShift(k);
    if k == 0 {
      SumZero(n + 1);
      XorZero(Exp(WIDE, n));
    } else {
      SumOfBit(k - 1, n + 1);
      XorZero(Sum(Bit(k - 1), n + 1));
    }
  }

  // ----- Squaring adds no cross terms.

  lemma {:induction false} DistributesLeft(a: nat, b: nat, c: nat)
    requires a < Order(WIDE) && b < Order(WIDE)
    ensures ShiftXorMul(WIDE, Xor(a, b), c) == Xor(ShiftXorMul(WIDE, a, c), ShiftXorMul(WIDE, b, c))
    decreases c
  {
    WellFormedWide();
    hide Xor, TimesX, LowTerm, WellFormed, Order;
    if c == 0 {
      XorZero(0);
    } else {
      DistributesLeft(a, b, c / 2);
      ShiftXorBound(WIDE, a, c / 2);
      ShiftXorBound(WIDE, b, c / 2);
      var p, q := ShiftXorMul(WIDE, a, c / 2), ShiftXorMul(WIDE, b, c / 2);
      TimesXLinear(WIDE, p, q);
      LowTermSum(a, b, c);
      XorInterchange(LowTerm(a, c), LowTerm(b, c), TimesX(WIDE, p), TimesX(WIDE, q));
    }
  }

  lemma LowTermSum(a: nat, b: nat, c: nat)
    ensures LowTerm(Xor(a, b), c) == Xor(LowTerm(a, c), LowTerm(b, c))
  {
    hide Xor;
    XorZero(0);
  }

  /** A power times a sum, from either side. */
  lemma {:induction false} PowerTimesSum(m: nat, x: bv17, n: nat)
    ensures ShiftXorMul(WIDE, Exp(WIDE, m), Sum(x, n)) == ShiftXorMul(WIDE, Sum(x, n), Exp(WIDE, m))
    decreases 17 - n
  {
    WellFormedWide();
    hide Exp, Xor, ShiftXorMul, WellFormed, Order, Low, Rest;
    ExpBound(WIDE, m);
    ShiftXorZero(WIDE, Exp(WIDE, m));
    TimesNothing(Exp(WIDE, m));
    if n < 17 {
      PowerTimesSum(m, Rest(x), n + 1);
      var first, rest := if Low(x) then Exp(WIDE, n) else 0, Sum(Rest(x), n + 1);
      OrderPositive();
      ExpBound(WIDE, n);
      SumBound(Rest(x), n + 1);
      ShiftXorDistributes(WIDE, Exp(WIDE, m), first, rest);
      DistributesLeft(first, rest, Exp(WIDE, m));
      ShiftXorExp(WIDE, m, n);
      ShiftXorExp(WIDE, n, m);
    }
  }

  lemma TimesNothing(a: nat)
    ensures ShiftXorMul(WIDE, a, 0) == 0
  {
  }

  /** The sum of the squares of the powers. */
  function Squares(x: bv17, n: nat): nat
    decreases 17 - n
  {
    if n >= 17 then 0 else Xor(if Low(x) then Exp(WIDE, 2 * n) else 0, Squares(Rest(x), n + 1))
  }

  lemma {:induction false} SquareOfSum(x: bv17, n: nat)
    ensures ShiftXorMul(WIDE, Sum(x, n), Sum(x, n)) == Squares(x, n)
    decreases 17 - n
  {
    WellFormedWide();
    hide Exp, Xor, ShiftXorMul, WellFormed, Order, Low, Rest;
    TimesNothing(0);
    if n < 17 {
      SquareOfSum(Rest(x), n + 1);
      XorZero(Sum(Rest(x), n + 1));
      XorZero(Squares(Rest(x), n + 1));
      if Low(x) {
        SquareOfTwo(n, Rest(x));
      }
    }
  }

  lemma SquareOfTwo(n: nat, x: bv17)
    requires n < 17
    ensures var s, t := Exp(WIDE, n), Sum(x, n + 1);
            ShiftXorMul(WIDE, Xor(s, t), Xor(s, t)) == Xor(Exp(WIDE, 2 * n), ShiftXorMul(WIDE, t, t))
  {
    WellFormedWide();
    hide Exp, Xor, ShiftXorMul, WellFormed, Sum;
    var s, t := Exp(WIDE, n), Sum(x, n + 1);
    ExpBound(WIDE, n);
    SumBound(x, n + 1);
    XorBound(s, t, 17);
    ShiftXorDistributes(WIDE, Xor(s, t), s, t);
    DistributesLeft(s, t, s);
    DistributesLeft(s, t, t);
    PowerTimesSum(n, x, n + 1);
    ShiftXorExp(WIDE, n, n);
    var ss, st, tt := ShiftXorMul(WIDE, s, s), ShiftXorMul(WIDE, s, t), ShiftXorMul(WIDE, t, t);
    XorAssociates(ss, st, Xor(st, tt));
    XorCancels(st, tt);
  }

  /** X^(2 n), reduced. */
  function Twice(n: nat): bv17
    requires n < 17
  {
    if n <= 8 then Bit(2 * n)
    else if n <= 15 then Plus(Bit(2 * n - 14), Bit(2 * n - 17))
    else Plus(Plus(Bit(4), Bit(1)), Bit(15))
  }

  lemma SumOfTwice(n: nat)
    requires n < 17
    ensures Sum(Twice(n), 0) == Exp(WIDE, 2 * n)
  {
    hide Exp, Xor, Bit, Sum, Plus;
    if n <= 8 {
      SumOfBit(2 * n, 0);
    } else if n <= 15 {
      SumOfBit(2 * n - 14, 0);
      SumOfBit(2 * n - 17, 0);
      SumOfXor(Bit(2 * n - 14), Bit(2 * n - 17), 0);
      ReduceExp(2 * n);
    } else {
      SumOfBit(4, 0);
      SumOfBit(1, 0);
      SumOfBit(15, 0);
      SumOfXor(Bit(4), Bit(1), 0);
      SumOfXor(Plus(Bit(4), Bit(1)), Bit(15), 0);
      ReduceExp(32);
      ReduceExp(18);
    }
  }

  function Squared(x: bv17, n: nat): bv17
    decreases 17 - n
  {
    if n >= 17 then 0 else Plus(if Low(x) then Twice(n) else 0, Squared(Rest(x), n + 1))
  }

  lemma {:induction false} SumOfSquared(x: bv17, n: nat)
    ensures Sum(Squared(x, n), 0) == Squares(x, n)
    decreases 17 - n
  {
    SumZero(0);
    hide Exp, Xor, Sum, Twice, Low, Rest, Plus;
    if n < 17 {
      SumOfSquared(Rest(x), n + 1);
      SumOfTwice(n);
      SumOfXor(if Low(x) then Twice(n) else 0, Squared(Rest(x), n + 1), 0);
    }
  }

  lemma Frobenius(n: nat, x: bv17)
    requires Exp(WIDE, n) == Sum(x, 0)
    ensures Exp(WIDE, 2 * n) == Sum(Squared(x, 0), 0)
  {
    WellFormedWide();
    hide Exp, Xor, ShiftXorMul, WellFormed, Squared, Sum;
    SquareOfSum(x, 0);
    SumOfSquared(x, 0);
    ShiftXorExp(WIDE, n, n);
  }

  // X, squared seventeen times, bit by bit.

  lemma {:induction false} SquaredZero(n: nat)
    ensures Squared(0, n) == 0
    decreases 17 - n
  {
    ZeroBits();
    NothingPlus();
    hide Low, Rest, Plus;
    if n < 17 {
      SquaredZero(n + 1);
    }
  }

  lemma NothingPlus()
    ensures Plus(0, 0) == 0
  {
  }

  lemma PlusFacts(a: bv17, b: bv17, c: bv17, d: bv17)
    ensures Plus(Plus(a, b), Plus(c, d)) == Plus(Plus(a, c), Plus(b, d)) && Plus(a, 0) == a == Plus(0, a)
    ensures Plus(Plus(a, b), Plus(a, d)) == Plus(b, d)
  {
  }

  lemma {:induction false} SquaredOfPlus(x: bv17, y: bv17, n: nat)
    ensures Squared(Plus(x, y), n) == Plus(Squared(x, n), Squared(y, n))
    decreases 17 - n
  {
    NothingPlus();
    hide Low, Rest, Plus, Twice;
    if n < 17 {
      LowBitOfXor(x, y);
      SquaredOfPlus(Rest(x), Rest(y), n + 1);
      var m, p, q := Twice(n), Squared(Rest(x), n + 1), Squared(Rest(y), n + 1);
      PlusFacts(m, p, m, q);
      PlusFacts(m, p, 0, q);
      PlusFacts(0, p, m, q);
      PlusFacts(0, p, 0, q);
      PlusFacts(Plus(p, q), 0, 0, 0);
      PlusFacts(m, 0, 0, 0);
    }
  }

  lemma {:induction false} SquaredBit(k: nat, n: nat)
    requires k + n < 17
    ensures Squared(Bit(k), n) == Twice(n + k)
  {
    BitShift(k);
    hide Low, Rest, Plus, Twice, Bit;
    if k == 0 {
      SquaredZero(n + 1);
      PlusFacts(Twice(n), 0, 0, 0);
    } else {
      SquaredBit(k - 1, n + 1);
      PlusFacts(Twice(n + k), 0, 0, 0);
    }
  }

  /** One bit more. */
  lemma MoreSquared(x: bv17, s: bv17, k: nat, y: bv17, t: bv17)
    requires k < 17 && Squared(x, 0) == s && y == Plus(x, Bit(k)) && t == Plus(s, Twice(k))
    ensures Squared(y, 0) == t
  {
    hide Plus, Twice, Bit, Squared;
    SquaredBit(k, 0);
    SquaredOfPlus(x, Bit(k), 0);
  }

  lemma Square0()
    ensures Squared(0x2, 0) == 0x4
  {
    hide Squared;
    SquaredZero(0);
    MoreSquared(0x0, 0x0, 1, 0x2, 0x4);
  }

  lemma Square1()
    ensures Squared(0x4, 0) == 0x10
  {
    hide Squared;
    SquaredZero(0);
    MoreSquared(0x0, 0x0, 2, 0x4, 0x10);
  }

  lemma Square2()
    ensures Squared(0x10, 0) == 0x100
  {
    hide Squared;
    SquaredZero(0);
    MoreSquared(0x0, 0x0, 4, 0x10, 0x100);
  }

  lemma Square3()
    ensures Squared(0x100, 0) == 0x10000
  {
    hide Squared;
    SquaredZero(0);
    MoreSquared(0x0, 0x0, 8, 0x100, 0x10000);
  }

  lemma Square4()
    ensures Squared(0x10000, 0) == 0x8012
  {
    hide Squared;
    SquaredZero(0);
    MoreSquared(0x0, 0x0, 16, 0x10000, 0x8012);
  }

  lemma Square5()
    ensures Squared(0x8012, 0) == 0x12104
  {
    hide Squared;
    SquaredZero(0);
    MoreSquared(0x0, 0x0, 1, 0x2, 0x4);
    MoreSquared(0x2, 0x4, 4, 0x12, 0x104);
    MoreSquared(0x12, 0x104, 15, 0x8012, 0x12104);
  }

  lemma Square6()
    ensures Squared(0x12104, 0) == 0x19202
  {
    hide Squared;
    SquaredZero(0);
    MoreSquared(0x0, 0x0, 2, 0x4, 0x10);
    MoreSquared(0x4, 0x10, 8, 0x104, 0x10010);
    MoreSquared(0x104, 0x10010, 13, 0x2104, 0x11210);
    MoreSquared(0x2104, 0x11210, 16, 0x12104, 0x19202);
  }

  lemma Square7()
    ensures Squared(0x19202, 0) == 0x1A484
  {
    hide Squared;
    SquaredZero(0);
    MoreSquared(0x0, 0x0, 1, 0x2, 0x4);
    MoreSquared(0x2, 0x4, 9, 0x202, 0x16);
    MoreSquared(0x202, 0x16, 12, 0x1202, 0x496);
    MoreSquared(0x1202, 0x496, 15, 0x9202, 0x12496);
    MoreSquared(0x9202, 0x12496, 16, 0x19202, 0x1A484);
  }

  lemma Square8()
    ensures Squared(0x1A484, 0) == 0x1F24A
  {
    hide Squared;
    SquaredZero(0);
    MoreSquared(0x0, 0x0, 2, 0x4, 0x10);
    MoreSquared(0x4, 0x10, 7, 0x84, 0x4010);
    MoreSquared(0x84, 0x4010, 10, 0x484, 0x4058);
    MoreSquared(0x484, 0x4058, 13, 0x2484, 0x5258);
    MoreSquared(0x2484, 0x5258, 15, 0xA484, 0x17258);
    MoreSquared(0xA484, 0x17258, 16, 0x1A484, 0x1F24A);
  }

  lemma Half9()
    ensures Squared(0x24A, 0) == 0x1056
  {
    hide Squared;
    SquaredZero(0);
    MoreSquared(0x0, 0x0, 1, 0x2, 0x4);
    MoreSquared(0x2, 0x4, 3, 0xA, 0x44);
    MoreSquared(0xA, 0x44, 6, 0x4A, 0x1044);
    MoreSquared(0x4A, 0x1044, 9, 0x24A, 0x1056);
  }

  lemma Square9()
    ensures Squared(0x1F24A, 0) == 0x1EEC4
  {
    hide Squared;
    Half9();
    MoreSquared(0x24A, 0x1056, 12, 0x124A, 0x14D6);
    MoreSquared(0x124A, 0x14D6, 13, 0x324A, 0x6D6);
    MoreSquared(0x324A, 0x6D6, 14, 0x724A, 0x4ED6);
    MoreSquared(0x724A, 0x4ED6, 15, 0xF24A, 0x16ED6);
    MoreSquared(0xF24A, 0x16ED6, 16, 0x1F24A, 0x1EEC4);
  }

  lemma Half10()
    ensures Squared(0x6C4, 0) == 0x504A
  {
    hide Squared;
    SquaredZero(0);
    MoreSquared(0x0, 0x0, 2, 0x4, 0x10);
    MoreSquared(0x4, 0x10, 6, 0x44, 0x1010);
    MoreSquared(0x44, 0x1010, 7, 0xC4, 0x5010);
    MoreSquared(0xC4, 0x5010, 9, 0x2C4, 0x5002);
    MoreSquared(0x2C4, 0x5002, 10, 0x6C4, 0x504A);
  }

  lemma Square10()
    ensures Squared(0x1EEC4, 0) == 0x1AB78
  {
    hide Squared;
    Half10();
    MoreSquared(0x6C4, 0x504A, 11, 0xEC4, 0x516A);
    MoreSquared(0xEC4, 0x516A, 13, 0x2EC4, 0x436A);
    MoreSquared(0x2EC4, 0x436A, 14, 0x6EC4, 0xB6A);
    MoreSquared(0x6EC4, 0xB6A, 15, 0xEEC4, 0x12B6A);
    MoreSquared(0xEEC4, 0x12B6A, 16, 0x1EEC4, 0x1AB78);
  }

  lemma Half11()
    ensures Squared(0x178, 0) == 0x11540
  {
    hide Squared;
    SquaredZero(0);
    MoreSquared(0x0, 0x0, 3, 0x8, 0x40);
    MoreSquared(0x8, 0x40, 4, 0x18, 0x140);
    MoreSquared(0x18, 0x140, 5, 0x38, 0x540);
    MoreSquared(0x38, 0x540, 6, 0x78, 0x1540);
    MoreSquared(0x78, 0x1540, 8, 0x178, 0x11540);
  }

  lemma Square11()
    ensures Squared(0x1AB78, 0) == 0xA660
  {
    hide Squared;
    Half11();
    MoreSquared(0x178, 0x11540, 9, 0x378, 0x11552);
    MoreSquared(0x378, 0x11552, 11, 0xB78, 0x11472);
    MoreSquared(0xB78, 0x11472, 13, 0x2B78, 0x10672);
    MoreSquared(0x2B78, 0x10672, 15, 0xAB78, 0x2672);
    MoreSquared(0xAB78, 0x2672, 16, 0x1AB78, 0xA660);
  }

  lemma Square12()
    ensures Squared(0xA660, 0) == 0x1265A
  {
    hide Squared;
    SquaredZero(0);
    MoreSquared(0x0, 0x0, 5, 0x20, 0x400);
    MoreSquared(0x20, 0x400, 6, 0x60, 0x1400);
    MoreSquared(0x60, 0x1400, 9, 0x260, 0x1412);
    MoreSquared(0x260, 0x1412, 10, 0x660, 0x145A);
    MoreSquared(0x660, 0x145A, 13, 0x2660, 0x65A);
    MoreSquared(0x2660, 0x65A, 15, 0xA660, 0x1265A);
  }

  lemma Half13()
    ensures Squared(0x5A, 0) == 0x1144
  {
    hide Squared;
    SquaredZero(0);
    MoreSquared(0x0, 0x0, 1, 0x2, 0x4);
    MoreSquared(0x2, 0x4, 3, 0xA, 0x44);
    MoreSquared(0xA, 0x44, 4, 0x1A, 0x144);
    MoreSquared(0x1A, 0x144, 6, 0x5A, 0x1144);
  }

  lemma Square13()
    ensures Squared(0x1265A, 0) == 0x830C
  {
    hide Squared;
    Half13();
    MoreSquared(0x5A, 0x1144, 9, 0x25A, 0x1156);
    MoreSquared(0x25A, 0x1156, 10, 0x65A, 0x111E);
    MoreSquared(0x65A, 0x111E, 13, 0x265A, 0x31E);
    MoreSquared(0x265A, 0x31E, 16, 0x1265A, 0x830C);
  }

  lemma Square14()
    ensures Squared(0x830C, 0) == 0x2042
  {
    hide Squared;
    SquaredZero(0);
    MoreSquared(0x0, 0x0, 2, 0x4, 0x10);
    MoreSquared(0x4, 0x10, 3, 0xC, 0x50);
    MoreSquared(0xC, 0x50, 8, 0x10C, 0x10050);
    MoreSquared(0x10C, 0x10050, 9, 0x30C, 0x10042);
    MoreSquared(0x30C, 0x10042, 15, 0x830C, 0x2042);
  }

  lemma Square15()
    ensures Squared(0x2042, 0) == 0x204
  {
    hide Squared;
    SquaredZero(0);
    MoreSquared(0x0, 0x0, 1, 0x2, 0x4);
    MoreSquared(0x2, 0x4, 6, 0x42, 0x1004);
    MoreSquared(0x42, 0x1004, 13, 0x2042, 0x204);
  }

  lemma Square16()
    ensures Squared(0x204, 0) == 0x2
  {
    hide Squared;
    SquaredZero(0);
    MoreSquared(0x0, 0x0, 2, 0x4, 0x10);
    MoreSquared(0x4, 0x10, 9, 0x204, 0x2);
  }

  lemma BitOne()
    ensures Bit(1) == 2
  {
  }

  lemma SeventeenSquares()
    ensures Exp(WIDE, 131072) == Exp(WIDE, 1)
  {
    hide Exp, Xor, Squared, Sum, Bit;
    Square0();
    Square1();
    Square2();
    Square3();
    Square4();
    Square5();
    Square6();
    Square7();
    Square8();
    Square9();
    Square10();
    Square11();
    Square12();
    Square13();
    Square14();
    Square15();
    Square16();
    SumOfBit(1, 0);
    BitOne();
    Frobenius(1, 0x2);
    Frobenius(2, 0x4);
    Frobenius(4, 0x10);
    Frobenius(8, 0x100);
    Frobenius(16, 0x10000);
    Frobenius(32, 0x8012);
    Frobenius(64, 0x12104);
    Frobenius(128, 0x19202);
    Frobenius(256, 0x1A484);
    Frobenius(512, 0x1F24A);
    Frobenius(1024, 0x1EEC4);
    Frobenius(2048, 0x1AB78);
    Frobenius(4096, 0xA660);
    Frobenius(8192, 0x1265A);
    Frobenius(16384, 0x830C);
    Frobenius(32768, 0x2042);
    Frobenius(65536, 0x204);
  }

  // ----- X has order 2^17 - 1, which is prime.

  lemma OnlyZeroVanishes(a: nat)
    requires TimesX(WIDE, a) == 0
    ensures a == 0
  {
    XorParts(2 * a, 0x20009);
  }

  lemma FullTurn()
    ensures Exp(WIDE, 131071) == 1
  {
    WellFormedWide();
    hide Exp, Xor, WellFormed, TimesX, Pow2;
    SeventeenSquares();
    NextExp(131071);
    NextExp(0);
    ExpZero(WIDE);
    ExpBound(WIDE, 131071);
    OneBelowOrder();
    var a := Exp(WIDE, 131071);
    TimesXLinear(WIDE, a, 1);
    XorSelf(TimesX(WIDE, a));
    OnlyZeroVanishes(Xor(a, 1));
    XorZeroMeansEqual(a, 1);
  }

  lemma OneBelowOrder()
    ensures 1 < Order(WIDE)
  {
  }

  // 131071 has no divisor from 2 to 362, the integer part of its square root.

  lemma NoDivisor1(d: nat) requires 2 <= d <= 40 ensures 131071 % d != 0 {}
  lemma NoDivisor2(d: nat) requires 41 <= d <= 80 ensures 131071 % d != 0 {}
  lemma NoDivisor3(d: nat) requires 81 <= d <= 120 ensures 131071 % d != 0 {}
  lemma NoDivisor4(d: nat) requires 121 <= d <= 180 ensures 131071 % d != 0 {}
  lemma NoDivisor5(d: nat) requires 181 <= d <= 240 ensures 131071 % d != 0 {}
  lemma NoDivisor6(d: nat) requires 241 <= d <= 300 ensures 131071 % d != 0 {}
  lemma NoDivisor7(d: nat) requires 301 <= d <= 362 ensures 131071 % d != 0 {}

  lemma NoSmallDivisor(d: nat)
    requires 2 <= d <= 362
    ensures Mod(131071, d) != 0
  {
    if d <= 40 {
      NoDivisor1(d);
    } else if d <= 80 {
      NoDivisor2(d);
    } else if d <= 120 {
      NoDivisor3(d);
    } else if d <= 180 {
      NoDivisor4(d);
    } else if d <= 240 {
      NoDivisor5(d);
    } else if d <= 300 {
      NoDivisor6(d);
    } else {
      NoDivisor7(d);
    }
  }

  lemma MultipleHasNoRest(i: nat, q: nat, n: nat)
    requires i > 0 && i * q == n
    ensures Mod(n, i) == 0
  {
    DivideAndRemain(n, i);
    DivisionIsUnique(i, q, 0, n / i, n % i);
  }

  /** 131071 is prime. */
  lemma Prime(i: nat)
    requires 1 < i < 131071
    ensures Mod(131071, i) != 0
  {
    hide Mod;
    if Mod(131071, i) == 0 {
      var q := ExactQuotient(131071, i);
      if i <= 362 {
        NoSmallDivisor(i);
      } else {
        LargeFactor(131071, i, q);
        MultipleHasNoRest(q, i, 131071);
        NoSmallDivisor(q);
      }
    }
  }

  lemma LargeFactor(n: nat, i: nat, q: nat)
    requires 362 < i < n < 363 * 363 && i * q == n
    ensures 2 <= q <= 362 && q * i == n
  {
    if q > 362 {
      MulMonotone(i, 363, q);
    }
    assert q != 0 && q != 1;
  }

  lemma {:induction false} NoSmallerOrder(i: nat)
    requires 0 < i < 131071
    ensures Exp(WIDE, i) != 1
  {
    WellFormedWide();
    hide Exp, Mod, WellFormed, TimesX;
    if Exp(WIDE, i) == 1 {
      FullTurn();
      ReduceByOrder(WIDE, i, 131071);
      if Mod(131071, i) != 0 {
        NoSmallerOrder(Mod(131071, i));
      } else if i > 1 {
        Prime(i);
      } else {
        FirstPower();
      }
    }
  }

  lemma FirstPower()
    ensures Exp(WIDE, 1) != 1
  {
    LowExp(1);
  }

  /** X generates GF(2^17). */
  lemma WideIsPrimitive()
    ensures Primitive(WIDE)
  {
    WellFormedWide();
    FullTurn();
    hide Exp, Units, WellFormed;
    forall i | 0 < i < 131071 ensures Exp(WIDE, i) != 1 {
      NoSmallerOrder(i);
    }
  }
}
