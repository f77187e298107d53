/**
 Polynomials over a field of characteristic two. A polynomial is the sequence
 of its coefficients, constant term first.
 */
module Polynomials {
  import opened Bits
  import opened ExpLog
  import opened GaloisField

  type Poly = seq<nat>

  ghost predicate InField(f: Field, p: Poly) {
    forall i :: 0 <= i < |p| ==> p[i] < Order(f)
  }

  function Zeros(n: nat): (p: Poly)
    ensures |p| == n && forall i :: 0 <= i < n ==> p[i] == 0
  {
    seq(n, _ => 0)
  }

  ghost function Add(p: Poly, q: Poly): (r: Poly)
    requires |p| == |q|
    ensures |r| == |p| && forall i :: 0 <= i < |p| ==> r[i] == Xor(p[i], q[i])
  {
    seq(|p|, i requires 0 <= i < |p| => Xor(p[i], q[i]))
  }

  ghost function Scale(f: Field, c: nat, p: Poly): (r: Poly)
    ensures |r| == |p| && forall i :: 0 <= i < |p| ==> r[i] == Mul(f, c, p[i])
  {
    seq(|p|, i requires 0 <= i < |p| => Mul(f, c, p[i]))
  }

  /** X * p */
  ghost function Shift(p: Poly): Poly {
    [0] + p
  }

  /** (X + c) * p */
  ghost function TimesLinear(f: Field, p: Poly, c: nat): (r: Poly)
    ensures |r| == |p| + 1
  {
    Add(Shift(p), Scale(f, c, p) + [0])
  }

  /** The product of X + z over all z in zs. */
  ghost function Product(f: Field, zs: seq<nat>): (r: Poly)
    ensures |r| == |zs| + 1
  {
    if zs == [] then [1] else TimesLinear(f, Product(f, zs[..|zs| - 1]), zs[|zs| - 1])
  }

  /** g * q, one coefficient of q at a time. */
  ghost function Times(f: Field, g: Poly, q: Poly): (r: Poly)
    requires |g| > 0
    ensures |r| == |g| + |q| - 1
  {
    if q == [] then Zeros(|g| - 1)
    else Add(Scale(f, q[0], g) + Zeros(|q| - 1), Shift(Times(f, g, q[1..])))
  }

  ghost function Power(f: Field, z: nat, n: nat): nat {
    if n == 0 then 1 else Mul(f, z, Power(f, z, n - 1))
  }

  ghost function Eval(f: Field, p: Poly, z: nat): (r: nat) {
    if p == [] then 0
    else Xor(Eval(f, p[..|p| - 1], z), Mul(f, p[|p| - 1], Power(f, z, |p| - 1)))
  }

  /** The sum of the products of corresponding entries. */
  ghost function Dot(f: Field, a: seq<nat>, b: seq<nat>): nat
    requires |a| == |b|
  {
    if a == [] then 0
    else Xor(Dot(f, a[..|a| - 1], b[..|b| - 1]), Mul(f, a[|a| - 1], b[|b| - 1]))
  }

  // ----- Field arithmetic in the shapes the proofs below use.

  lemma DistributeLeft(f: Field, a: nat, b: nat, c: nat)
    ensures Mul(f, Xor(a, b), c) == Xor(Mul(f, a, c), Mul(f, b, c))
  {
    hide Xor, Mul;
    MulCommutes(f, Xor(a, b), c);
    MulCommutes(f, a, c);
    MulCommutes(f, b, c);
    MulDistributes(f, c, a, b);
  }

  /** a * (b * c) == b * (a * c) */
  lemma SwapFactors(f: Field, a: nat, b: nat, c: nat)
    ensures Mul(f, a, Mul(f, b, c)) == Mul(f, b, Mul(f, a, c))
  {
    hide Mul;
    MulAssociates(f, a, b, c);
    MulAssociates(f, b, a, c);
    MulCommutes(f, a, b);
  }

  lemma OneInField(f: Field)
    ensures 1 < Order(f)
  {
  }

  lemma {:induction false} PowerOfExp(f: Field, d: nat, n: nat)
    ensures Power(f, Exp(f, d), n) == Exp(f, d * n)
  {
    hide Mul, Exp;
    ExpZero(f);
    if n != 0 {
      PowerOfExp(f, d, n - 1);
      MulPowers(f, d, d * (n - 1));
      assert d + d * (n - 1) == d * n;
    }
  }

  lemma {:induction false} EvalBound(f: Field, p: Poly, z: nat)
    ensures Eval(f, p, z) < Order(f)
  {
    hide Mul, Xor;
    if p != [] {
      EvalBound(f, p[..|p| - 1], z);
      XorBound(Eval(f, p[..|p| - 1], z), Mul(f, p[|p| - 1], Power(f, z, |p| - 1)), f.degree);
    }
  }

  // ----- Evaluation is linear.

  lemma {:induction false} EvalZeros(f: Field, n: nat, z: nat)
    ensures Eval(f, Zeros(n), z) == 0
  {
    hide Mul, Xor;
    if n != 0 {
      assert Zeros(n)[..n - 1] == Zeros(n - 1);
      EvalZeros(f, n - 1, z);
      MulZero(f, Power(f, z, n - 1));
      XorZero(0);
    }
  }

  lemma {:induction false} EvalAdd(f: Field, p: Poly, q: Poly, z: nat)
    requires |p| == |q|
    ensures Eval(f, Add(p, q), z) == Xor(Eval(f, p, z), Eval(f, q, z))
  {
    hide Mul, Xor;
    if p == [] {
      XorZero(0);
    } else {
      var n := |p| - 1;
      EvalAdd(f, p[..n], q[..n], z);
      assert Add(p, q)[..n] == Add(p[..n], q[..n]);
      DistributeLeft(f, p[n], q[n], Power(f, z, n));
      XorInterchange(Eval(f, p[..n], z), Eval(f, q[..n], z),
                     Mul(f, p[n], Power(f, z, n)), Mul(f, q[n], Power(f, z, n)));
    }
  }

  lemma {:induction false} EvalScale(f: Field, c: nat, p: Poly, z: nat)
    ensures Eval(f, Scale(f, c, p), z) == Mul(f, c, Eval(f, p, z))
  {
    hide Mul, Xor;
    if p == [] {
      MulZero(f, c);
    } else {
      var n := |p| - 1;
      EvalScale(f, c, p[..n], z);
      assert Scale(f, c, p)[..n] == Scale(f, c, p[..n]);
      MulAssociates(f, c, p[n], Power(f, z, n));
      MulDistributes(f, c, Eval(f, p[..n], z), Mul(f, p[n], Power(f, z, n)));
    }
  }

  lemma {:induction false} EvalShift(f: Field, p: Poly, z: nat)
    ensures Eval(f, Shift(p), z) == Mul(f, z, Eval(f, p, z))
  {
    hide Mul, Xor;
    var s := Shift(p);
    if p == [] {
      EvalSingle(f, 0, z);
      MulZero(f, z);
    } else {
      var n := |p| - 1;
      EvalShift(f, p[..n], z);
      assert s[..|s| - 1] == Shift(p[..n]);
      SwapFactors(f, p[n], z, Power(f, z, n));
      MulDistributes(f, z, Eval(f, p[..n], z), Mul(f, p[n], Power(f, z, n)));
    }
  }

  lemma EvalSingle(f: Field, c: nat, z: nat)
    requires c < Order(f)
    ensures Eval(f, [c], z) == c
  {
    hide Mul, Xor;
    assert [c][..0] == [];
    assert Power(f, z, 0) == 1;
    MulOne(f, c);
    XorZero(c);
  }

  /** Leading zeros do not matter. */
  lemma {:induction false} EvalPad(f: Field, p: Poly, n: nat, z: nat)
    ensures Eval(f, p + Zeros(n), z) == Eval(f, p, z)
  {
    hide Mul, Xor;
    var q := p + Zeros(n);
    if n == 0 {
      assert q == p;
    } else {
      assert q[..|q| - 1] == p + Zeros(n - 1);
      EvalPad(f, p, n - 1, z);
      MulZero(f, Power(f, z, |q| - 1));
      XorZero(Eval(f, p, z));
    }
  }

  // ----- Products and their roots.

  lemma EvalTimesLinear(f: Field, p: Poly, c: nat, z: nat)
    ensures Eval(f, TimesLinear(f, p, c), z) == Mul(f, Xor(z, c), Eval(f, p, z))
  {
    hide Mul, Xor, Eval;
    EvalAdd(f, Shift(p), Scale(f, c, p) + [0], z);
    EvalShift(f, p, z);
    assert Scale(f, c, p) + [0] == Scale(f, c, p) + Zeros(1);
    EvalPad(f, Scale(f, c, p), 1, z);
    EvalScale(f, c, p, z);
    DistributeLeft(f, z, c, Eval(f, p, z));
  }

  /** Every z in zs is a root of their product. */
  lemma {:induction false} ProductRoot(f: Field, zs: seq<nat>, k: nat)
    requires k < |zs|
    ensures Eval(f, Product(f, zs), zs[k]) == 0
  {
    hide Mul, Xor, Eval, TimesLinear;
    var n := |zs| - 1;
    EvalTimesLinear(f, Product(f, zs[..n]), zs[n], zs[k]);
    if k == n {
      XorSelf(zs[n]);
      MulZero(f, Eval(f, Product(f, zs[..n]), zs[n]));
    } else {
      ProductRoot(f, zs[..n], k);
      MulZero(f, Xor(zs[k], zs[n]));
    }
  }

  /** Nothing else is. */
  lemma {:induction false} ProductNonRoot(f: Field, zs: seq<nat>, z: nat)
    requires InField(f, zs) && z < Order(f) && z !in zs
    ensures Eval(f, Product(f, zs), z) != 0
  {
    hide Mul, Xor, Eval, TimesLinear;
    if zs == [] {
      OneInField(f);
      EvalSingle(f, 1, z);
    } else {
      var n := |zs| - 1;
      var rest := Product(f, zs[..n]);
      EvalTimesLinear(f, rest, zs[n], z);
      ProductNonRoot(f, zs[..n], z);
      EvalBound(f, rest, z);
      XorZeroMeansEqual(z, zs[n]);
      XorBound(z, zs[n], f.degree);
      NoZeroDivisors(f, Xor(z, zs[n]), Eval(f, rest, z));
    }
  }

  /** The product is monic. */
  lemma {:induction false} ProductMonic(f: Field, zs: seq<nat>)
    ensures Product(f, zs)[|zs|] == 1
  {
    hide Mul, Xor;
    if zs != [] {
      ProductMonic(f, zs[..|zs| - 1]);
      XorZero(1);
    }
  }

  lemma {:induction false} ProductInField(f: Field, zs: seq<nat>)
    ensures InField(f, Product(f, zs))
  {
    hide Mul, Xor;
    OneInField(f);
    if zs != [] {
      var n := |zs| - 1;
      ProductInField(f, zs[..n]);
      TimesLinearInField(f, Product(f, zs[..n]), zs[n]);
    }
  }

  /** One coefficient of (X + c) * p, and of p with a leading zero. */
  lemma TimesLinearAt(f: Field, p: Poly, c: nat, j: nat)
    requires j <= |p| && InField(f, p)
    ensures (p + [0])[j] < Order(f)
    ensures TimesLinear(f, p, c)[j] == Xor(if j == 0 then 0 else p[j - 1], Mul(f, (p + [0])[j], c))
  {
    hide Mul, Xor;
    MulCommutes(f, c, (p + [0])[j]);
    if j == |p| {
      MulZero(f, c);
    }
  }

  lemma TimesLinearInField(f: Field, p: Poly, c: nat)
    requires InField(f, p)
    ensures InField(f, TimesLinear(f, p, c))
  {
    hide Mul, Xor;
    var r := TimesLinear(f, p, c);
    forall i | 0 <= i < |r| ensures r[i] < Order(f) {
      XorBound(Shift(p)[i], (Scale(f, c, p) + [0])[i], f.degree);
    }
  }

  /** A multiple of g vanishes wherever g does. */
  lemma {:induction false} TimesRoot(f: Field, g: Poly, q: Poly, z: nat)
    requires |g| > 0 && Eval(f, g, z) == 0
    ensures Eval(f, Times(f, g, q), z) == 0
  {
    hide Mul, Xor, Eval;
    if q == [] {
      EvalZeros(f, |g| - 1, z);
    } else {
      TimesRoot(f, g, q[1..], z);
      EvalAdd(f, Scale(f, q[0], g) + Zeros(|q| - 1), Shift(Times(f, g, q[1..])), z);
      EvalPad(f, Scale(f, q[0], g), |q| - 1, z);
      EvalScale(f, q[0], g, z);
      EvalShift(f, Times(f, g, q[1..]), z);
      MulZero(f, q[0]);
      MulZero(f, z);
      XorZero(0);
    }
  }
}
