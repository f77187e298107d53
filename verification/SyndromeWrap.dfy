/**
 rscode_decode_syndromes of src/main/rs/rscode.c multiplies degree and syndrome index
 as 32-bit numbers. This is exactly when the wrapped exponent does no harm.
 */
module SyndromeWrap {
  import opened Collections
  import opened Arithmetic
  import opened Bits
  import opened ExpLog
  import opened GaloisField
  import opened Polynomials
  import opened Erasures
  import opened RsCode

  /** The multiples of 2^32 that syndrome k loses are whole turns of the field. */
  predicate WholeTurns(f: Params, d: nat, k: nat) {
    Units(f) > 0 && Mod(d * (k + 1) / UINT32_RANGE, Units(f)) == 0
  }

  /** So it is for every syndrome. */
  predicate Exact(f: Params, T: nat, d: nat) {
    forall k: nat | k < T :: WholeTurns(f, d, k)
  }

  /** A square is 1 only of 1. */
  lemma SquareIsOne(f: Field, n: nat)
    ensures Exp(f, 2 * n) == 1 <==> Exp(f, n) == 1
  {
    hide Exp, Mul, Xor, Units;
    var a := Exp(f, n);
    ExpUnit(f, n);
    MulPowers(f, n, n);
    OneInField(f);
    MulOne(f, 1);
    if Mul(f, a, a) == 1 {
      MulDistributes(f, Xor(a, 1), a, 1);
      MulCommutes(f, Xor(a, 1), a);
      MulCommutes(f, Xor(a, 1), 1);
      MulDistributes(f, a, a, 1);
      MulDistributes(f, 1, a, 1);
      MulOne(f, a);
      XorCommutes(a, 1);
      XorSelf(Xor(a, 1));
      XorBound(a, 1, f.degree);
      NoZeroDivisors(f, Xor(a, 1), Xor(a, 1));
      XorZeroMeansEqual(a, 1);
    }
  }

  lemma {:induction false} PowerOfTwoTurns(f: Field, n: nat, j: nat)
    ensures Exp(f, n * Pow2(j)) == 1 <==> Exp(f, n) == 1
  {
    hide Exp;
    if j > 0 {
      PowerOfTwoTurns(f, n, j - 1);
      SquareIsOne(f, n * Pow2(j - 1));
      Doubled(n, Pow2(j - 1));
    }
  }

  lemma Doubled(n: nat, p: nat)
    ensures n * (2 * p) == 2 * (n * p)
  {
  }

  lemma TurnsOfOne(f: Field, n: nat)
    ensures Units(f) > 0 && (Exp(f, n) == 1 <==> Mod(n, Units(f)) == 0)
  {
    hide Exp, Mod, Units;
    UnitsPositive(f);
    ExpMod(f, n);
    ExpZero(f);
    if Mod(n, Units(f)) > 0 {
      ExpInjective(f, 0, Mod(n, Units(f)));
    }
  }

  /** The wrapped term of a nonzero symbol is its term exactly if what is lost is a whole number of turns. */
  lemma WrapIff(f: Field, v: nat, d: nat, k: nat)
    requires 0 < v < Order(f)
    ensures WrappedTerm(f, v, d, k) == Term(f, v, d, k) <==> WholeTurns(f, d, k)
  {
    hide Exp, Mul, Mod, Units;
    var p := d * (k + 1);
    var q, r := p / UINT32_RANGE, Mul32(d, k + 1);
    TermIsProduct(f, v, d, k);
    assert Pow2(32) == UINT32_RANGE by { PowersOfTwo(); }
    assert p == q * Pow2(32) + r;
    MulPowers(f, q * Pow2(32), r);
    PowerOfTwoTurns(f, q, 32);
    TurnsOfOne(f, q);
    Turned(f, v, Exp(f, q * Pow2(32)), Exp(f, r), q * Pow2(32), r);
  }

  lemma PowersOfTwo()
    ensures Pow2(32) == 0x1_0000_0000
  {
    assert Pow2(8) == 256;
    assert Pow2(16) == 0x1_0000;
    assert Pow2(24) == 0x100_0000;
  }

  lemma Turned(f: Field, v: nat, a: nat, b: nat, i: nat, j: nat)
    requires 0 < v < Order(f) && a == Exp(f, i) && b == Exp(f, j)
    ensures Mul(f, v, b) == Mul(f, v, Mul(f, a, b)) <==> a == 1
  {
    hide Exp, Mul, Units;
    ExpUnit(f, i);
    ExpUnit(f, j);
    OneInField(f);
    MulOne(f, b);
    var c := Mul(f, a, b);
    MulCommutes(f, v, b);
    MulCommutes(f, v, c);
    if Mul(f, b, v) == Mul(f, c, v) {
      MulCancels(f, b, c, v);
      MulCancels(f, a, 1, b);
    }
  }

  lemma ExactTerms(f: Field, T: nat, v: nat, d: nat)
    requires Exact(f, T, d) && v < Order(f)
    ensures WrappedTerms(f, T, v, d) == Terms(f, T, v, d)
  {
    hide Exp, Mul, Mod, Units, Mul32, WholeTurns;
    forall k | 0 <= k < T ensures WrappedTerms(f, T, v, d)[k] == Terms(f, T, v, d)[k] {
      if v == 0 {
        MulZero(f, Exp(f, Mul32(d, k + 1)));
        MulZero(f, Exp(f, d * (k + 1)));
        TermIsProduct(f, v, d, k);
      } else {
        WrapIff(f, v, d, k);
      }
    }
  }

  /** Below 2^32 nothing is lost. */
  lemma SmallTurns(f: Field, d: nat, k: nat)
    requires d * (k + 1) < UINT32_RANGE
    ensures WholeTurns(f, d, k)
  {
    hide Units;
    UnitsPositive(f);
    assert d * (k + 1) / UINT32_RANGE == 0;
    ModSmall(0, Units(f));
  }

  /** Fields of up to 2^16 elements lose nothing, whatever the code. */
  lemma SmallFieldIsExact(f: Field, T: nat, d: nat)
    requires Units(f) <= 0xFFFF && T <= Units(f) && d < Units(f)
    ensures Exact(f, T, d)
  {
    hide WholeTurns, Units;
    forall k: nat | k < T ensures WholeTurns(f, d, k) {
      MulMonotone(d, k + 1, 0xFFFF);
      SmallTurns(f, d, k);
    }
  }

  /** Syndrome k as rscode_decode_syndromes adds it up. */
  ghost function WrappedOfList(f: Field, degrees: seq<nat>, values: seq<nat>, k: nat): nat
    requires |degrees| == |values|
  {
    if degrees == [] then 0
    else
      var n := |degrees| - 1;
      Xor(WrappedOfList(f, degrees[..n], values[..n], k), WrappedTerm(f, values[n], degrees[n], k))
  }

  lemma ZeroTerms(f: Field, d: nat, k: nat)
    ensures WrappedTerm(f, 0, d, k) == 0 && Term(f, 0, d, k) == 0
  {
    hide Exp, Mul, Mul32;
    MulZero(f, Exp(f, Mul32(d, k + 1)));
    MulZero(f, Exp(f, d * (k + 1)));
    TermIsProduct(f, 0, d, k);
  }

  /**
   If every term is right but that of degree d, so is the sum, up to that one.
   */
  lemma {:induction false} WrapDifference(f: Field, degrees: seq<nat>, values: seq<nat>, k: nat, d: nat, v: nat)
    requires |degrees| == |values| && Distinct(degrees) && InField(f, values)
    requires forall i :: 0 <= i < |degrees| ==>
               if degrees[i] == d then values[i] == v else values[i] == 0 || WholeTurns(f, degrees[i], k)
    ensures WrappedOfList(f, degrees, values, k)
         == if d in degrees then Xor(SyndromeOfList(f, degrees, values, k),
                                     Xor(Term(f, v, d, k), WrappedTerm(f, v, d, k)))
            else SyndromeOfList(f, degrees, values, k)
  {
    hide Xor, Term, WrappedTerm, WholeTurns;
    if degrees != [] {
      var n := |degrees| - 1;
      WrapDifference(f, degrees[..n], values[..n], k, d, v);
      assert d in degrees <==> d in degrees[..n] || degrees[n] == d;
      var s, t, u := SyndromeOfList(f, degrees[..n], values[..n], k), Term(f, v, d, k), WrappedTerm(f, v, d, k);
      if degrees[n] == d {
        assert d !in degrees[..n];
        XorAssociates(s, t, Xor(t, u));
        XorCancels(t, u);
      } else {
        if values[n] == 0 {
          ZeroTerms(f, degrees[n], k);
        } else {
          WrapIff(f, values[n], degrees[n], k);
        }
        var x := Term(f, values[n], degrees[n], k);
        XorAssociates(s, Xor(t, u), x);
        XorCommutes(Xor(t, u), x);
        XorAssociates(s, x, Xor(t, u));
      }
    }
  }

  /** With whole turns only, the wrapped syndrome is the syndrome. */
  lemma ExactSyndrome(f: Field, T: nat, degrees: seq<nat>, values: seq<nat>, k: nat)
    requires |degrees| == |values| && Distinct(degrees) && InField(f, values) && k < T
    requires forall i :: 0 <= i < |degrees| ==> Exact(f, T, degrees[i])
    ensures WrappedOfList(f, degrees, values, k) == SyndromeOfList(f, degrees, values, k)
  {
    hide Xor, Term, WrappedTerm, WholeTurns, WrappedOfList, SyndromeOfList;
    var d := Beyond(degrees);
    assert d !in degrees && forall i :: 0 <= i < |degrees| ==> degrees[i] in degrees;
    WrapDifference(f, degrees, values, k, d, 0);
  }

  /** A degree that is not listed. */
  lemma {:induction false} Beyond(degrees: seq<nat>) returns (d: nat)
    ensures forall x :: x in degrees ==> x < d
  {
    if degrees == [] {
      d := 0;
    } else {
      assert degrees == [degrees[0]] + degrees[1..];
      d := Beyond(degrees[1..]);
      if degrees[0] >= d {
        d := degrees[0] + 1;
      }
    }
  }
}
