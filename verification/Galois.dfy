/**
 src/main/rs/galois.h and galois.c: the exp/log tables of a Galois field and
 the arithmetic that looks things up in them. The tables are filled once and
 only read afterwards, so everything after the initialisation takes them as
 values.
 */
module Galois {
  import opened Arithmetic
  import opened Bits
  import opened ExpLog
  import opened GaloisField
  import opened Polynomials

  datatype Tables = Tables(params: Params, exps: seq<nat>, logs: seq<nat>) {

    /** The tables of a field in which X generates every nonzero element. */
    ghost predicate Valid() {
      && Primitive(params)
      && |exps| == |logs| == Order(params)
      && (forall i :: 0 <= i < Units(params) ==> exps[i] == Exp(params, i))
      && logs[0] == 0
      && (forall i {:trigger Exp(params, i)} :: 0 <= i < Units(params) ==>
            Exp(params, i) < Order(params) && logs[Exp(params, i)] == i)
    }

    lemma IsField()
      requires Valid()
      ensures Primitive(params)
    {
    }

    lemma LogOf(a: nat)
      requires Valid() && 0 < a < Order(params)
      ensures logs[a] < Units(params) && Exp(params, logs[a]) == a
    {
      hide Exp, Primitive;
      var i := Log(params, a);
    }

    /** galois_element */
    function Element(i: nat): (r: nat)
      requires Valid()
      ensures r == Exp(params, i) && r < Order(params)
    {
      ExpMod(params, i);
      ExpUnit(params, i);
      hide Exp, Mod;
      exps[Mod(i, Order(params) - 1)]
    }

    lemma ProductOf(a: nat, b: nat)
      requires Valid() && a < Order(params) && b < Order(params) && |logs| == Order(params)
      ensures a == 0 || b == 0 ==> Mul(params, a, b) == 0
      ensures a != 0 && b != 0 ==> Exp(params, logs[a] + logs[b]) == Mul(params, a, b)
    {
      hide Exp, Mul, Primitive, Units;
      if a == 0 || b == 0 {
        MulZero(params, a);
        MulZero(params, b);
      } else {
        LogOf(a);
        LogOf(b);
        MulPowers(params, logs[a], logs[b]);
      }
    }

    /** galois_mul: the product of the field. */
    function Multiply(a: nat, b: nat): (r: nat)
      requires Valid() && a < Order(params) && b < Order(params)
      ensures r == Mul(params, a, b)
    {
      hide Exp, Mul, Primitive, Units;
      ProductOf(a, b);
      if a == 0 || b == 0 then 0 else Element(logs[a] + logs[b])
    }

    lemma QuotientOf(a: nat, b: nat)
      requires Valid() && 0 < a < Order(params) && 0 < b < Order(params) && |logs| == Order(params)
      ensures logs[b] <= Order(params) - 1 + logs[a]
      ensures Mul(params, Exp(params, Order(params) - 1 + logs[a] - logs[b]), b) == a
    {
      hide Exp, Mul, Primitive;
      LogOf(a);
      LogOf(b);
      MulPowers(params, Order(params) - 1 + logs[a] - logs[b], logs[b]);
      ExpPeriod(params, logs[a]);
    }

    /** galois_div: division by zero traps. */
    function Divide(a: nat, b: nat): (r: nat)
      requires Valid() && a < Order(params) && 0 < b < Order(params)
      ensures r < Order(params) && Mul(params, r, b) == a
    {
      hide Exp, Mul, Primitive, Units;
      if a == 0 then
        MulZero(params, b);
        0
      else
        QuotientOf(a, b);
        Element(Order(params) - 1 + logs[a] - logs[b])
    }

    lemma InverseOf(a: nat)
      requires Valid() && a < Order(params) && |logs| == Order(params)
      ensures logs[a] <= Order(params) - 1
      ensures a != 0 ==> Mul(params, a, Exp(params, Order(params) - 1 - logs[a])) == 1
      ensures a == 0 ==> Exp(params, Order(params) - 1 - logs[a]) == 1
    {
      hide Exp, Mul;
      ExpZero(params);
      ExpPeriod(params, 0);
      if a != 0 {
        LogOf(a);
        MulPowers(params, logs[a], Order(params) - 1 - logs[a]);
      }
    }

    /** galois_inv; of zero it is 1, because logs[0] is 0. */
    function Invert(a: nat): (r: nat)
      requires Valid() && a < Order(params)
      ensures r < Order(params)
      ensures a != 0 ==> Mul(params, a, r) == 1
      ensures a == 0 ==> r == 1
    {
      hide Exp, Mul, Primitive, Units;
      InverseOf(a);
      Element(Order(params) - 1 - logs[a])
    }

    /** Division is multiplication by the inverse. */
    lemma DivideByInverse(a: nat, b: nat)
      requires Valid() && a < Order(params) && 0 < b < Order(params)
      ensures Divide(a, b) == Multiply(a, Invert(b))
    {
      hide Mul, Primitive;
      var i := Invert(b);
      MulCommutes(params, b, i);
      MulAssociates(params, a, i, b);
      MulOne(params, a);
      MulCancels(params, Divide(a, b), Mul(params, a, i), b);
    }
  }

  /**
   galois_init. The table of powers needs no assumption on the polynomial; the
   logarithms do.
   */
  method Init(f: Params, exps: array<nat>, logs: array<nat>) returns (t: Tables)
    requires WellFormed(f)
    requires exps != logs && exps.Length == logs.Length == Order(f)
    modifies exps, logs
    ensures t == Tables(f, exps[..], logs[..])
    ensures forall i :: 0 <= i < Units(f) ==> exps[i] == Exp(f, i)
    ensures Primitive(f) ==> t.Valid()
  {
    hide Exp, Xor, Pow2, ShiftRight, Primitive;
    var order := Order(f);
    UnitsPositive(f);
    exps[0] := 1;
    exps[order - 1] := exps[0];
    logs[0] := 0; // stands for minus infinity
    logs[1] := 0;
    ExpZero(f);
    hide Order, WellFormed;
    for i := 1 to order - 1
      invariant forall j :: 0 <= j < i ==> exps[j] == Exp(f, j)
      invariant Primitive(f) ==> logs[0] == 0
      invariant Primitive(f) ==> forall j {:trigger Exp(f, j)} :: 0 <= j < i ==>
                                   Exp(f, j) < Order(f) && logs[Exp(f, j)] == j
    {
      NextPower(f, i);
      var sign := ShiftRight(exps[i - 1], f.degree - 1);
      var shifted := exps[i - 1] * 2;
      exps[i] := Xor(shifted, if sign == 0 then 0 else f.poly);
      logs[exps[i]] := i;
    }
    t := Tables(f, exps[..], logs[..]);
  }

  lemma NextPower(f: Params, i: nat)
    requires WellFormed(f) && 0 < i < Units(f)
    ensures Xor(Exp(f, i - 1) * 2, if ShiftRight(Exp(f, i - 1), f.degree - 1) == 0 then 0 else f.poly) == Exp(f, i)
    ensures Exp(f, i) < Order(f)
    ensures Primitive(f) ==> Exp(f, i) != 0 && forall j :: 0 <= j < i ==> Exp(f, j) != Exp(f, i)
  {
    hide TimesX, Xor;
    TimesXBySign(f, Exp(f, i - 1));
    ExpBound(f, i);
    if Primitive(f) {
      ExpUnit(f, i);
      forall j | 0 <= j < i ensures Exp(f, j) != Exp(f, i) {
        ExpInjective(f, j, i);
      }
    }
  }

  /**
   galois_poly_shift_add_scale: multiplies the polynomial of the given degree at
   the start of dst by X + scale, in place.
   */
  method PolyShiftAddScale(t: Tables, dst: array<nat>, degree: nat, scale: nat) returns (result: nat)
    requires t.Valid()
    requires degree + 1 < dst.Length && scale < Order(t.params)
    requires InField(t.params, dst[..degree + 1])
    modifies dst
    ensures result == degree + 1
    ensures dst[..result + 1] == TimesLinear(t.params, old(dst[..degree + 1]), scale)
    ensures dst[result + 1..] == old(dst[result + 1..])
    ensures InField(t.params, dst[..result + 1])
  {
    t.IsField();
    hide *;
    ghost var p := dst[..degree + 1];
    TimesLinearInField(t.params, p, scale);
    result := degree + 1;
    dst[result] := 0;
    ShiftLoop(t, dst, result, p, scale);
    assert dst[..result + 1] == TimesLinear(t.params, p, scale);
  }

  /** The descending loop, over the coefficients of p and a leading zero. */
  method ShiftLoop(t: Tables, dst: array<nat>, degree: nat, ghost p: Poly, scale: nat)
    requires t.Valid() && Primitive(t.params) && InField(t.params, p) && scale < Order(t.params)
    requires 0 < degree == |p| < dst.Length && dst[..degree + 1] == p + [0]
    modifies dst
    ensures forall j :: 0 <= j <= degree ==> dst[j] == TimesLinear(t.params, p, scale)[j]
    ensures forall j :: degree < j < dst.Length ==> dst[j] == old(dst[j])
  {
    hide *;
    for i := degree downto 0
      invariant forall j :: 0 <= j <= i ==> dst[j] == old(dst[j])
      invariant forall j :: i < j <= degree ==> dst[j] == TimesLinear(t.params, p, scale)[j]
      invariant forall j :: degree < j < dst.Length ==> dst[j] == old(dst[j])
    {
      TimesLinearAt(t.params, p, scale, i + 1);
      assert dst[i] == p[i] && dst[i + 1] == (p + [0])[i + 1];
      dst[i + 1] := Xor(dst[i], t.Multiply(dst[i + 1], scale));
    }
    TimesLinearAt(t.params, p, scale, 0);
    dst[0] := t.Multiply(dst[0], scale);
    XorZero(dst[0]);
  }
}
