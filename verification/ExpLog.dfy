/**
 Polynomials over GF(2), written as the bits of a natural, modulo a polynomial:
 shift-and-xor multiplication, the powers of X and, when X generates every
 nonzero element, the discrete logarithm. The exp/log tables of
 src/main/rs/galois.c hold these powers and logarithms.
 */
module ExpLog {
  import opened Collections
  import opened Arithmetic
  import opened Bits

  /** A degree and a reducing polynomial with exactly degree + 1 bits. */
  datatype Params = Params(degree: nat, poly: nat)

  ghost predicate WellFormed(f: Params) {
    && 1 <= f.degree <= 31
    && Pow2(f.degree) <= f.poly < Pow2(f.degree + 1)
  }

  function Order(f: Params): (r: nat)
    ensures r > 0
  {
    Pow2(f.degree)
  }

  /** Number of nonzero elements. */
  function Units(f: Params): nat {
    Order(f) - 1
  }

  /** Whether the bit of weight Pow2(n) is the top bit of a. */
  predicate TopSet(a: nat, n: nat) {
    a >= Pow2(n)
  }

  /** Multiplication by X: a shift, and a reduction if the top bit was set. */
  function TimesX(f: Params, a: nat): nat
    requires f.degree > 0
  {
    if TopSet(a, f.degree - 1) then Xor(2 * a, f.poly) else 2 * a
  }

  /** The power X^i. */
  function Exp(f: Params, i: nat): nat
    requires f.degree > 0
  {
    if i == 0 then 1 else TimesX(f, Exp(f, i - 1))
  }

  /** The contribution of the low bit of b to the product a * b. */
  function LowTerm(a: nat, b: nat): nat {
    if Odd(b) then a else 0
  }

  /** Shift-and-xor multiplication modulo the polynomial, over the bits of b. */
  function ShiftXorMul(f: Params, a: nat, b: nat): nat
    requires f.degree > 0
    decreases b
  {
    if b == 0 then 0
    else Xor(LowTerm(a, b), TimesX(f, ShiftXorMul(f, a, b / 2)))
  }

  /** X has order 2^degree - 1. */
  ghost predicate Primitive(f: Params)
  {
    && WellFormed(f)
    && Exp(f, Units(f)) == 1
    && forall i :: 0 < i < Units(f) ==> Exp(f, i) != 1
  }

  // ----- Multiplication by X is linear and stays in the field.

  lemma TimesXBound(f: Params, a: nat)
    requires WellFormed(f) && a < Order(f)
    ensures TimesX(f, a) < Order(f)
  {
    if a >= Pow2(f.degree - 1) {
      XorDropsTop(2 * a, f.poly, f.degree);
    }
  }

  lemma {:induction false} ExpBound(f: Params, i: nat)
    requires WellFormed(f)
    ensures Exp(f, i) < Order(f)
  {
    if i != 0 {
      ExpBound(f, i - 1);
      TimesXBound(f, Exp(f, i - 1));
    }
  }

  /** TimesX as the tables compute it: the bit that leaves decides the reduction. */
  lemma TimesXBySign(f: Params, a: nat)
    requires f.degree > 0
    ensures Xor(a * 2, if ShiftRight(a, f.degree - 1) == 0 then 0 else f.poly) == TimesX(f, a)
  {
    hide Xor;
    ShiftedOut(a, f.degree - 1);
    XorZero(2 * a);
  }

  lemma ExpZero(f: Params)
    requires f.degree > 0
    ensures Exp(f, 0) == 1
  {
  }

  /** The reduction term of TimesX: the polynomial if the top bit is set. */
  function Reduction(f: Params, a: nat): nat
    requires f.degree > 0
  {
    if TopSet(a, f.degree - 1) then f.poly else 0
  }

  lemma TimesXParts(f: Params, a: nat)
    requires f.degree > 0
    ensures TimesX(f, a) == Xor(2 * a, Reduction(f, a))
  {
    XorZero(2 * a);
  }

  lemma TopOfXor(a: nat, b: nat, n: nat)
    requires a < Pow2(n + 1) && b < Pow2(n + 1)
    ensures TopSet(Xor(a, b), n) == (TopSet(a, n) != TopSet(b, n))
  {
    hide Xor, Pow2;
    if !TopSet(a, n) && !TopSet(b, n) {
      XorBound(a, b, n);
    } else if !TopSet(a, n) {
      XorKeepsTop(a, b, n);
    } else if !TopSet(b, n) {
      XorKeepsTop(b, a, n);
      XorCommutes(a, b);
    } else {
      XorDropsTop(a, b, n);
    }
  }

  lemma ReductionLinear(f: Params, a: nat, b: nat)
    requires f.degree > 0 && a < Order(f) && b < Order(f)
    ensures Reduction(f, Xor(a, b)) == Xor(Reduction(f, a), Reduction(f, b))
  {
    hide Xor, Pow2;
    TopOfXor(a, b, f.degree - 1);
    hide TopSet;
    XorZero(0);
    XorZero(f.poly);
    XorSelf(f.poly);
  }

  lemma TimesXLinear(f: Params, a: nat, b: nat)
    requires f.degree > 0 && a < Order(f) && b < Order(f)
    ensures TimesX(f, Xor(a, b)) == Xor(TimesX(f, a), TimesX(f, b))
  {
    hide Xor, TimesX, Reduction;
    TimesXParts(f, a);
    TimesXParts(f, b);
    TimesXParts(f, Xor(a, b));
    ReductionLinear(f, a, b);
    XorDoubles(a, b);
    XorInterchange(2 * a, 2 * b, Reduction(f, a), Reduction(f, b));
  }

  // ----- Shift-and-xor multiplication is linear in both arguments.

  lemma {:induction false} ShiftXorBound(f: Params, a: nat, b: nat)
    requires WellFormed(f) && a < Order(f)
    ensures ShiftXorMul(f, a, b) < Order(f)
    decreases b
  {
    if b != 0 {
      ShiftXorBound(f, a, b / 2);
      TimesXBound(f, ShiftXorMul(f, a, b / 2));
      XorBound(LowTerm(a, b), TimesX(f, ShiftXorMul(f, a, b / 2)), f.degree);
    }
  }

  /** One unfolding of the product, valid for b == 0 too. */
  lemma ShiftXorUnfold(f: Params, a: nat, b: nat)
    requires WellFormed(f)
    ensures ShiftXorMul(f, a, b) == Xor(LowTerm(a, b), TimesX(f, ShiftXorMul(f, a, b / 2)))
  {
  }

  lemma LowTermLinear(a: nat, b: nat, c: nat)
    ensures LowTerm(a, Xor(b, c)) == Xor(LowTerm(a, b), LowTerm(a, c))
  {
    hide Xor, Odd;
    XorParts(b, c);
    XorSelf(a);
    XorZero(a);
    XorZero(0);
  }

  lemma {:induction false} ShiftXorDistributes(f: Params, a: nat, b: nat, c: nat)
    requires WellFormed(f) && a < Order(f)
    ensures ShiftXorMul(f, a, Xor(b, c)) == Xor(ShiftXorMul(f, a, b), ShiftXorMul(f, a, c))
    decreases b + c
  {
    hide Xor, TimesX, LowTerm;
    if b == 0 || c == 0 {
      XorZero(b);
      XorZero(c);
      XorZero(ShiftXorMul(f, a, b));
      XorZero(ShiftXorMul(f, a, c));
    } else {
      ShiftXorDistributes(f, a, b / 2, c / 2);
      ShiftXorDistributesStep(f, a, b, c);
    }
  }

  lemma ShiftXorDistributesStep(f: Params, a: nat, b: nat, c: nat)
    requires WellFormed(f) && a < Order(f)
    requires ShiftXorMul(f, a, Xor(b / 2, c / 2)) == Xor(ShiftXorMul(f, a, b / 2), ShiftXorMul(f, a, c / 2))
    ensures ShiftXorMul(f, a, Xor(b, c)) == Xor(ShiftXorMul(f, a, b), ShiftXorMul(f, a, c))
  {
    hide Xor, TimesX, ShiftXorMul, LowTerm;
    var pb, pc := ShiftXorMul(f, a, b / 2), ShiftXorMul(f, a, c / 2);
    XorParts(b, c);
    ShiftXorBound(f, a, b / 2);
    ShiftXorBound(f, a, c / 2);
    TimesXLinear(f, pb, pc);
    ShiftXorUnfold(f, a, b);
    ShiftXorUnfold(f, a, c);
    ShiftXorUnfold(f, a, Xor(b, c));
    LowTermLinear(a, b, c);
    XorInterchange(LowTerm(a, b), LowTerm(a, c), TimesX(f, pb), TimesX(f, pc));
  }

  lemma {:induction false} ShiftXorTimesX(f: Params, a: nat, b: nat)
    requires WellFormed(f) && a < Order(f)
    ensures ShiftXorMul(f, TimesX(f, a), b) == TimesX(f, ShiftXorMul(f, a, b))
    decreases b
  {
    if b != 0 {
      var low := LowTerm(a, b);
      var rest := TimesX(f, ShiftXorMul(f, a, b / 2));
      hide Xor, TimesX;
      ShiftXorTimesX(f, a, b / 2);
      ShiftXorBound(f, a, b / 2);
      TimesXBound(f, ShiftXorMul(f, a, b / 2));
      TimesXLinear(f, low, rest);
      TimesXZero(f);
    } else {
      TimesXZero(f);
    }
  }

  lemma TimesXZero(f: Params)
    requires f.degree > 0
    ensures TimesX(f, 0) == 0
  {
  }

  lemma {:induction false} ShiftXorOne(f: Params, b: nat)
    requires WellFormed(f) && b < Order(f)
    ensures ShiftXorMul(f, 1, b) == b
  {
    hide Xor, TimesX, WellFormed;
    if b != 0 {
      ShiftXorOne(f, b / 2);
      DoubledBelowTop(f, b / 2);
      BitAndRest(b);
    }
  }

  lemma DoubledBelowTop(f: Params, a: nat)
    requires WellFormed(f) && 2 * a < Order(f)
    ensures TimesX(f, a) == 2 * a
  {
  }

  lemma BitAndRest(b: nat)
    ensures Xor(LowTerm(1, b), 2 * (b / 2)) == b
  {
    hide Xor;
    XorCons(Odd(b), 0, false, b / 2);
    XorZero(b / 2);
  }

  lemma {:induction false} ShiftXorZero(f: Params, b: nat)
    requires WellFormed(f)
    ensures ShiftXorMul(f, 0, b) == 0
  {
    if b != 0 {
      ShiftXorZero(f, b / 2);
    }
  }

  // ----- Powers of X.

  lemma {:induction false} ShiftXorExp(f: Params, i: nat, j: nat)
    requires WellFormed(f)
    ensures ShiftXorMul(f, Exp(f, i), Exp(f, j)) == Exp(f, i + j)
  {
    hide Xor, TimesX, ShiftXorMul;
    ExpBound(f, j);
    if i == 0 {
      ShiftXorOne(f, Exp(f, j));
    } else {
      ExpBound(f, i - 1);
      ShiftXorTimesX(f, Exp(f, i - 1), Exp(f, j));
      ShiftXorExp(f, i - 1, j);
    }
  }

  lemma {:induction false} ExpPeriod(f: Params, i: nat)
    requires Primitive(f)
    ensures Exp(f, i + Units(f)) == Exp(f, i)
  {
    hide TimesX;
    if i != 0 {
      ExpPeriod(f, i - 1);
    }
  }

  /** Exponents only matter modulo the number of units. */
  lemma {:induction false} ExpMod(f: Params, i: nat)
    requires Primitive(f)
    ensures Units(f) > 0 && Exp(f, Mod(i, Units(f))) == Exp(f, i)
    decreases i
  {
    UnitsPositive(f);
    var n := Units(f);
    hide Units, Exp, Mod;
    if i >= n {
      ModStep(i, n);
      ExpPeriod(f, i - n);
      ExpMod(f, i - n);
    } else {
      ModSmall(i, n);
    }
  }

  lemma UnitsPositive(f: Params)
    requires WellFormed(f)
    ensures Units(f) > 0
  {
  }

  lemma {:induction false} ExpNonzero(f: Params, i: nat, j: nat)
    requires WellFormed(f) && i <= j && Exp(f, j) != 0
    ensures Exp(f, i) != 0
    decreases j - i
  {
    if i < j {
      ExpNonzero(f, i + 1, j);
    }
  }

  /** Equal powers stay equal under further multiplication by X. */
  lemma {:induction false} ExpShift(f: Params, i: nat, j: nat, k: nat)
    requires WellFormed(f) && Exp(f, i) == Exp(f, j)
    ensures Exp(f, i + k) == Exp(f, j + k)
  {
    hide TimesX;
    if k != 0 {
      ExpShift(f, i, j, k - 1);
    }
  }

  lemma ExpInjective(f: Params, i: nat, j: nat)
    requires Primitive(f) && i < j < Units(f)
    ensures Exp(f, i) != Exp(f, j)
  {
    hide Exp, Units;
    if Exp(f, i) == Exp(f, j) {
      ExpShift(f, i, j, Units(f) - j);
    }
  }

  lemma ExpUnit(f: Params, i: nat)
    requires Primitive(f)
    ensures 0 < Exp(f, i) < Order(f)
  {
    hide Exp, TimesX, Mod;
    ExpMod(f, i);
    ExpBound(f, i);
    ExpNonzero(f, Mod(i, Units(f)), Units(f));
  }

  // ----- Every nonzero element is a power of X.

  ghost function Powers(f: Params, n: nat): set<nat>
    requires f.degree > 0
  {
    set i | 0 <= i < n :: Exp(f, i)
  }

  lemma {:induction false} PowersSize(f: Params, n: nat)
    requires Primitive(f) && n <= Units(f)
    ensures f.degree > 0 && |Powers(f, n)| == n
  {
    hide Exp, Units, Primitive;
    DegreePositive(f);
    if n == 0 {
      assert Powers(f, n) == {};
    } else {
      PowersSize(f, n - 1);
      forall i | 0 <= i < n - 1 ensures Exp(f, i) != Exp(f, n - 1) {
        ExpInjective(f, i, n - 1);
      }
      PowersGrow(f, n - 1);
    }
  }

  lemma DegreePositive(f: Params)
    requires Primitive(f)
    ensures f.degree > 0
  {
  }

  lemma PowersGrow(f: Params, n: nat)
    requires f.degree > 0
    ensures Powers(f, n + 1) == Powers(f, n) + {Exp(f, n)}
  {
    hide Exp;
  }

  ghost function Interval(n: nat): (s: set<nat>)
    ensures |s| == n
    ensures forall x :: x in s <==> 0 < x <= n
  {
    if n == 0 then {} else Interval(n - 1) + {n}
  }

  lemma LogExists(f: Params, a: nat)
    requires Primitive(f) && 0 < a < Order(f)
    ensures exists i: nat :: i < Units(f) && Exp(f, i) == a
  {
    hide Exp, Primitive;
    var n := Units(f);
    var units := Interval(n);
    PowersSize(f, n);
    forall x | x in Powers(f, n) ensures x in units {
      var i :| 0 <= i < n && x == Exp(f, i);
      ExpUnit(f, i);
    }
    SameSize(Powers(f, n), units);
    assert a in Powers(f, n);
  }

  /** The discrete logarithm. */
  ghost function Log(f: Params, a: nat): (i: nat)
    requires Primitive(f) && 0 < a < Order(f)
    ensures i < Units(f) && Exp(f, i) == a
  {
    LogExists(f, a);
    var i: nat :| i < Units(f) && Exp(f, i) == a;
    i
  }
}
