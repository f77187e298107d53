/**
 The field GF(2^degree) and its laws.
 */
module GaloisField {
  import opened Bits
  import opened ExpLog
  import Primitivity

  /** Parameters for which every nonzero element is a power of X. */
  type Field = f: Params | Primitive(f) ghost witness (Primitivity.GF16IsPrimitive(); Primitivity.GF16)

  /** The field product, on the low bits of any two naturals. */
  ghost function Mul(f: Field, a: nat, b: nat): (r: nat)
    ensures r < Order(f)
  {
    ShiftXorBound(f, LowBits(a, f.degree), LowBits(b, f.degree));
    ShiftXorMul(f, LowBits(a, f.degree), LowBits(b, f.degree))
  }

  lemma MulCommutes(f: Field, a: nat, b: nat)
    ensures Mul(f, a, b) == Mul(f, b, a)
  {
    hide Exp, ShiftXorMul, LowBits;
    var x, y := LowBits(a, f.degree), LowBits(b, f.degree);
    ShiftXorZero(f, x);
    ShiftXorZero(f, y);
    ShiftXorByZero(f, x);
    ShiftXorByZero(f, y);
    if x != 0 && y != 0 {
      ShiftXorExp(f, Log(f, x), Log(f, y));
      ShiftXorExp(f, Log(f, y), Log(f, x));
    }
  }

  lemma ShiftXorByZero(f: Params, a: nat)
    requires WellFormed(f)
    ensures ShiftXorMul(f, a, 0) == 0
  {
  }

  /** The product of two nonzero elements adds their logarithms. */
  lemma MulPowers(f: Field, i: nat, j: nat)
    ensures Mul(f, Exp(f, i), Exp(f, j)) == Exp(f, i + j)
  {
    hide Exp, ShiftXorMul;
    ExpBound(f, i);
    ExpBound(f, j);
    ShiftXorExp(f, i, j);
  }

  lemma MulZero(f: Field, a: nat)
    ensures Mul(f, 0, a) == 0 && Mul(f, a, 0) == 0
  {
    ShiftXorZero(f, LowBits(a, f.degree));
    ShiftXorByZero(f, LowBits(a, f.degree));
  }

  lemma MulAssociates(f: Field, a: nat, b: nat, c: nat)
    ensures Mul(f, Mul(f, a, b), c) == Mul(f, a, Mul(f, b, c))
  {
    hide Exp, ShiftXorMul, LowBits, Primitive, Log;
    var x, y, z := LowBits(a, f.degree), LowBits(b, f.degree), LowBits(c, f.degree);
    MulLowBits(f, a, b);
    MulLowBits(f, b, c);
    MulLowBits(f, Mul(f, x, y), c);
    MulLowBits(f, a, Mul(f, y, z));
    hide Mul;
    if x == 0 || y == 0 || z == 0 {
      MulZero(f, x);
      MulZero(f, y);
      MulZero(f, z);
      MulZero(f, Mul(f, x, y));
      MulZero(f, Mul(f, y, z));
    } else {
      var i, j, k := Log(f, x), Log(f, y), Log(f, z);
      MulPowers(f, i, j);
      MulPowers(f, j, k);
      MulPowers(f, i + j, k);
      MulPowers(f, i, j + k);
    }
  }

  lemma MulLowBits(f: Field, a: nat, b: nat)
    ensures Mul(f, LowBits(a, f.degree), LowBits(b, f.degree)) == Mul(f, a, b)
  {
    hide Primitive, ShiftXorMul;
  }

  lemma MulDistributes(f: Field, a: nat, b: nat, c: nat)
    ensures Mul(f, a, Xor(b, c)) == Xor(Mul(f, a, b), Mul(f, a, c))
  {
    hide Xor, ShiftXorMul, LowBits;
    XorOfLowBits(b, c, f.degree);
    ShiftXorDistributes(f, LowBits(a, f.degree), LowBits(b, f.degree), LowBits(c, f.degree));
  }

  lemma MulOne(f: Field, a: nat)
    requires a < Order(f)
    ensures Mul(f, 1, a) == a && Mul(f, a, 1) == a
  {
    hide ShiftXorMul;
    assert LowBits(1, f.degree) == 1;
    ShiftXorOne(f, a);
    MulCommutes(f, 1, a);
  }

  lemma NoZeroDivisors(f: Field, a: nat, b: nat)
    requires a < Order(f) && b < Order(f)
    ensures Mul(f, a, b) == 0 <==> a == 0 || b == 0
  {
    hide Mul, Exp, Primitive, Log;
    if a == 0 || b == 0 {
      MulZero(f, a);
      MulZero(f, b);
    } else {
      MulPowers(f, Log(f, a), Log(f, b));
      ExpUnit(f, Log(f, a) + Log(f, b));
    }
  }

  /** The quotient of two elements. */
  ghost function FieldQuotient(f: Field, a: nat, b: nat): (r: nat)
    requires a < Order(f) && 0 < b < Order(f)
    ensures r < Order(f) && Mul(f, r, b) == a
  {
    hide Exp, Mul, Primitive, Log;
    if a == 0 then
      MulZero(f, b);
      0
    else
      var i, j := Log(f, a), Log(f, b);
      MulPowers(f, Units(f) + i - j, j);
      ExpPeriod(f, i);
      ExpUnit(f, Units(f) + i - j);
      Exp(f, Units(f) + i - j)
  }

  /** Multiplication by a nonzero element is injective. */
  lemma MulCancels(f: Field, a: nat, b: nat, c: nat)
    requires a < Order(f) && b < Order(f) && 0 < c < Order(f)
    requires Mul(f, a, c) == Mul(f, b, c)
    ensures a == b
  {
    hide Mul, Xor, Primitive;
    MulCommutes(f, a, c);
    MulCommutes(f, b, c);
    MulDistributes(f, c, a, b);
    XorSelf(Mul(f, a, c));
    XorBound(a, b, f.degree);
    XorZeroMeansEqual(a, b);
    if a != b {
      NoZeroDivisors(f, c, Xor(a, b));
    }
  }
}
