/**
 Syndromes of a word of which some symbols are missing, and the closed form
 that solves them for one missing symbol.
 */
module Erasures {
  import opened Collections
  import opened Bits
  import opened ExpLog
  import opened GaloisField
  import opened Polynomials
  import opened CodeTheory

  /** What the symbol v at degree d adds to syndrome k. */
  ghost function Term(f: Field, v: nat, d: nat, k: nat): nat {
    Mul(f, v, Exp(f, d * (k + 1)))
  }

  /** Syndrome k of the symbols of w below degree n whose degree is in degrees. */
  ghost function SyndromeOfSet(f: Field, w: seq<nat>, degrees: set<nat>, n: nat, k: nat): nat
    requires n <= |w|
  {
    if n == 0 then 0
    else
      var rest := SyndromeOfSet(f, w, degrees, n - 1, k);
      if n - 1 in degrees then Xor(rest, Term(f, w[n - 1], n - 1, k)) else rest
  }

  /** Syndrome k of symbols in the order in which they are given. */
  ghost function SyndromeOfList(f: Field, degrees: seq<nat>, values: seq<nat>, k: nat): nat
    requires |degrees| == |values|
  {
    if degrees == [] then 0
    else
      var n := |degrees| - 1;
      Xor(SyndromeOfList(f, degrees[..n], values[..n], k), Term(f, values[n], degrees[n], k))
  }

  // ----- The order of arrival does not matter.

  lemma {:induction false} SetsAgree(f: Field, w: seq<nat>, a: set<nat>, b: set<nat>, n: nat, k: nat)
    requires n <= |w| && forall d :: 0 <= d < n ==> (d in a <==> d in b)
    ensures SyndromeOfSet(f, w, a, n, k) == SyndromeOfSet(f, w, b, n, k)
  {
    hide Xor, Term;
    if n != 0 {
      SetsAgree(f, w, a, b, n - 1, k);
    }
  }

  lemma {:induction false} AddDegree(f: Field, w: seq<nat>, a: set<nat>, d: nat, n: nat, k: nat)
    requires d < n <= |w| && d !in a
    ensures SyndromeOfSet(f, w, a + {d}, n, k) == Xor(SyndromeOfSet(f, w, a, n, k), Term(f, w[d], d, k))
  {
    hide Xor, Term;
    var rest, t := SyndromeOfSet(f, w, a, n - 1, k), Term(f, w[n - 1], n - 1, k);
    if d == n - 1 {
      SetsAgree(f, w, a + {d}, a, n - 1, k);
    } else {
      AddDegree(f, w, a, d, n - 1, k);
      XorAssociates(rest, Term(f, w[d], d, k), t);
      XorCommutes(Term(f, w[d], d, k), t);
      XorAssociates(rest, t, Term(f, w[d], d, k));
    }
  }

  ghost function Elements(s: seq<nat>): (r: set<nat>)
    ensures forall x :: x in r <==> x in s
  {
    set x | x in s
  }

  lemma {:induction false} ListIsSet(f: Field, w: seq<nat>, degrees: seq<nat>, values: seq<nat>, k: nat)
    requires |degrees| == |values| && Distinct(degrees)
    requires forall i :: 0 <= i < |degrees| ==> degrees[i] < |w| && values[i] == w[degrees[i]]
    ensures SyndromeOfList(f, degrees, values, k) == SyndromeOfSet(f, w, Elements(degrees), |w|, k)
  {
    hide Xor, Term;
    if degrees == [] {
      EmptySyndrome(f, w, Elements(degrees), |w|, k);
    } else {
      var n := |degrees| - 1;
      ListIsSet(f, w, degrees[..n], values[..n], k);
      assert Elements(degrees) == Elements(degrees[..n]) + {degrees[n]};
      AddDegree(f, w, Elements(degrees[..n]), degrees[n], |w|, k);
    }
  }

  lemma {:induction false} EmptySyndrome(f: Field, w: seq<nat>, a: set<nat>, n: nat, k: nat)
    requires n <= |w| && forall d :: 0 <= d < n ==> d !in a
    ensures SyndromeOfSet(f, w, a, n, k) == 0
  {
    hide Xor, Term;
    if n != 0 {
      EmptySyndrome(f, w, a, n - 1, k);
    }
  }

  // ----- What was received and what was erased have the same syndromes.

  lemma TermIsPower(f: Field, v: nat, d: nat, k: nat)
    ensures Term(f, v, d, k) == Mul(f, v, Power(f, Exp(f, k + 1), d))
  {
    hide Mul, Exp;
    PowerOfExp(f, k + 1, d);
    assert (k + 1) * d == d * (k + 1);
  }

  lemma {:induction false} SplitSyndrome(f: Field, w: seq<nat>, a: set<nat>, b: set<nat>, n: nat, k: nat)
    requires n <= |w| && forall d :: 0 <= d < n ==> (d in a <==> d !in b)
    ensures Xor(SyndromeOfSet(f, w, a, n, k), SyndromeOfSet(f, w, b, n, k)) == Eval(f, w[..n], Exp(f, k + 1))
  {
    hide Xor, Mul, Exp, Term;
    if n == 0 {
      XorZero(0);
    } else {
      SplitSyndrome(f, w, a, b, n - 1, k);
      var p, q, t := SyndromeOfSet(f, w, a, n - 1, k), SyndromeOfSet(f, w, b, n - 1, k), Term(f, w[n - 1], n - 1, k);
      assert w[..n][..n - 1] == w[..n - 1];
      TermIsPower(f, w[n - 1], n - 1, k);
      XorAssociates(p, q, t);
      XorCommutes(q, t);
      XorAssociates(p, t, q);
    }
  }

  lemma ReceivedIsErased(f: Field, T: nat, m: seq<nat>, received: set<nat>, erased: set<nat>, k: nat)
    requires T > 0 && InField(f, m) && k < T
    requires forall d :: 0 <= d < T + |m| ==> (d in received <==> d !in erased)
    ensures var w := Codeword(f, T, m);
            SyndromeOfSet(f, w, received, |w|, k) == SyndromeOfSet(f, w, erased, |w|, k)
  {
    hide Xor, Mul, Exp, Eval, Codeword;
    var w := Codeword(f, T, m);
    SplitSyndrome(f, w, received, erased, |w|, k);
    assert w[..|w|] == w;
    CodewordRoot(f, T, m, k);
    XorZeroMeansEqual(SyndromeOfSet(f, w, received, |w|, k), SyndromeOfSet(f, w, erased, |w|, k));
  }

  // ----- Solving for one erased symbol.

  /** The first e syndromes of the given symbols. */
  ghost function Syndromes(f: Field, e: nat, degrees: seq<nat>, values: seq<nat>): (s: seq<nat>)
    requires |degrees| == |values|
    ensures |s| == e && forall k :: 0 <= k < e ==> s[k] == SyndromeOfList(f, degrees, values, k)
  {
    seq(e, (k: nat) => SyndromeOfList(f, degrees, values, k))
  }

  ghost function Terms(f: Field, e: nat, v: nat, d: nat): (s: seq<nat>)
    ensures |s| == e && forall k :: 0 <= k < e ==> s[k] == Term(f, v, d, k)
  {
    seq(e, (k: nat) => Term(f, v, d, k))
  }

  lemma {:induction false} DotZeros(f: Field, b: seq<nat>)
    ensures Dot(f, Zeros(|b|), b) == 0
  {
    hide Xor, Mul;
    if b != [] {
      var n := |b| - 1;
      DotZeros(f, b[..n]);
      assert Zeros(|b|)[..n] == Zeros(n);
      MulZero(f, b[n]);
      XorZero(0);
    }
  }

  lemma {:induction false} DotAdd(f: Field, a: seq<nat>, a': seq<nat>, b: seq<nat>)
    requires |a| == |a'| == |b|
    ensures Dot(f, Add(a, a'), b) == Xor(Dot(f, a, b), Dot(f, a', b))
  {
    hide Xor, Mul;
    if b == [] {
      XorZero(0);
    } else {
      var n := |b| - 1;
      DotAdd(f, a[..n], a'[..n], b[..n]);
      assert Add(a, a')[..n] == Add(a[..n], a'[..n]);
      DistributeLeft(f, a[n], a'[n], b[n]);
      XorInterchange(Dot(f, a[..n], b[..n]), Dot(f, a'[..n], b[..n]), Mul(f, a[n], b[n]), Mul(f, a'[n], b[n]));
    }
  }

  /** The weighted terms of one symbol evaluate the weights at its locator. */
  ghost function Weighted(f: Field, v: nat, d: nat, b: seq<nat>): nat {
    Mul(f, v, Mul(f, Exp(f, d), Eval(f, b, Exp(f, d))))
  }

  lemma {:induction false} DotTerms(f: Field, v: nat, d: nat, b: seq<nat>)
    ensures Dot(f, Terms(f, |b|, v, d), b) == Weighted(f, v, d, b)
  {
    hide Xor, Mul, Exp;
    var z := Exp(f, d);
    if b == [] {
      MulZero(f, z);
      MulZero(f, v);
    } else {
      var n := |b| - 1;
      DotTerms(f, v, d, b[..n]);
      assert Terms(f, |b|, v, d)[..n] == Terms(f, n, v, d);
      LastTerm(f, v, d, b[n], n);
      var front, last := Eval(f, b[..n], z), Mul(f, b[n], Power(f, z, n));
      MulDistributes(f, z, front, last);
      MulDistributes(f, v, Mul(f, z, front), Mul(f, z, last));
    }
  }

  lemma LastTerm(f: Field, v: nat, d: nat, c: nat, n: nat)
    ensures Mul(f, Term(f, v, d, n), c) == Mul(f, v, Mul(f, Exp(f, d), Mul(f, c, Power(f, Exp(f, d), n))))
  {
    hide Mul, Exp;
    var z, y := Exp(f, d), Power(f, Exp(f, d), n);
    PowerOfExp(f, d, n + 1);
    MulAssociates(f, v, Mul(f, z, y), c);
    MulAssociates(f, z, y, c);
    MulCommutes(f, y, c);
  }

  /** The sum over the symbols of their weighted values. */
  ghost function WeightedSum(f: Field, degrees: seq<nat>, values: seq<nat>, b: seq<nat>): nat
    requires |degrees| == |values|
  {
    if degrees == [] then 0
    else
      var n := |degrees| - 1;
      Xor(WeightedSum(f, degrees[..n], values[..n], b), Weighted(f, values[n], degrees[n], b))
  }

  lemma {:induction false} DotSyndromes(f: Field, degrees: seq<nat>, values: seq<nat>, b: seq<nat>)
    requires |degrees| == |values|
    ensures Dot(f, Syndromes(f, |b|, degrees, values), b) == WeightedSum(f, degrees, values, b)
  {
    hide Xor, Mul, Exp, Dot, Weighted, Term;
    var s := Syndromes(f, |b|, degrees, values);
    if degrees == [] {
      assert s == Zeros(|b|);
      DotZeros(f, b);
    } else {
      var n := |degrees| - 1;
      DotSyndromes(f, degrees[..n], values[..n], b);
      assert s == Add(Syndromes(f, |b|, degrees[..n], values[..n]), Terms(f, |b|, values[n], degrees[n]));
      DotAdd(f, Syndromes(f, |b|, degrees[..n], values[..n]), Terms(f, |b|, values[n], degrees[n]), b);
      DotTerms(f, values[n], degrees[n], b);
    }
  }

  /** If the weights vanish at every locator but the one of symbol i, only symbol i remains. */
  lemma {:induction false} OnlyOneRemains(f: Field, degrees: seq<nat>, values: seq<nat>, b: seq<nat>, i: nat)
    requires |degrees| == |values|
    requires forall j :: 0 <= j < |degrees| && j != i ==> Eval(f, b, Exp(f, degrees[j])) == 0
    ensures WeightedSum(f, degrees, values, b) == if i < |degrees| then Weighted(f, values[i], degrees[i], b) else 0
  {
    hide Xor, Mul, Exp, Eval;
    if degrees != [] {
      var n := |degrees| - 1;
      OnlyOneRemains(f, degrees[..n], values[..n], b, i);
      if n != i {
        MulZero(f, Exp(f, degrees[n]));
        MulZero(f, values[n]);
      }
      XorZero(Weighted(f, values[n], degrees[n], b));
      XorZero(WeightedSum(f, degrees[..n], values[..n], b));
    }
  }

  /** The locators X^degree of the first n erasures other than erasure i. */
  ghost function Others(f: Field, degrees: seq<nat>, i: nat, n: nat): (zs: seq<nat>)
    requires n <= |degrees|
    ensures |zs| == if i < n then n - 1 else n
  {
    if n == 0 then []
    else if n - 1 == i then Others(f, degrees, i, n - 1)
    else Others(f, degrees, i, n - 1) + [Exp(f, degrees[n - 1])]
  }

  lemma {:induction false} OthersContain(f: Field, degrees: seq<nat>, i: nat, n: nat, j: nat)
    requires j < n <= |degrees| && j != i
    ensures Exp(f, degrees[j]) in Others(f, degrees, i, n)
  {
    hide Exp;
    if j < n - 1 {
      OthersContain(f, degrees, i, n - 1, j);
    }
  }

  ghost predicate Locatable(f: Field, degrees: seq<nat>) {
    Distinct(degrees) && forall j :: 0 <= j < |degrees| ==> degrees[j] < Units(f)
  }

  lemma {:induction false} OthersExclude(f: Field, degrees: seq<nat>, i: nat, n: nat)
    requires i < |degrees| && n <= |degrees| && Locatable(f, degrees)
    ensures Exp(f, degrees[i]) !in Others(f, degrees, i, n)
    ensures InField(f, Others(f, degrees, i, n))
  {
    hide Exp, Units;
    if n != 0 {
      OthersExclude(f, degrees, i, n - 1);
      ExpUnit(f, degrees[n - 1]);
      var a, b := degrees[i], degrees[n - 1];
      if a < b {
        ExpInjective(f, a, b);
      } else if b < a {
        ExpInjective(f, b, a);
      }
    }
  }

  /** The polynomial that vanishes at the locators of all erasures but i. */
  ghost function Sigma(f: Field, degrees: seq<nat>, i: nat): (b: Poly)
    requires i < |degrees|
    ensures |b| == |degrees|
  {
    Product(f, Others(f, degrees, i, |degrees|))
  }

  /** z_i times the product of z_i + z_j over the other erasures j. */
  ghost function Divisor(f: Field, degrees: seq<nat>, i: nat): nat
    requires i < |degrees|
  {
    Mul(f, Exp(f, degrees[i]), Eval(f, Sigma(f, degrees, i), Exp(f, degrees[i])))
  }

  lemma DivisorNonzero(f: Field, degrees: seq<nat>, i: nat)
    requires i < |degrees| && Locatable(f, degrees)
    ensures 0 < Divisor(f, degrees, i) < Order(f)
  {
    hide Exp, Mul, Eval, Product;
    var z, zs := Exp(f, degrees[i]), Others(f, degrees, i, |degrees|);
    OthersExclude(f, degrees, i, |degrees|);
    ExpUnit(f, degrees[i]);
    ProductNonRoot(f, zs, z);
    EvalBound(f, Product(f, zs), z);
    NoZeroDivisors(f, z, Eval(f, Product(f, zs), z));
  }

  /** The syndromes weighted by sigma are the erased value times the divisor. */
  lemma ErasureEquation(f: Field, degrees: seq<nat>, values: seq<nat>, i: nat)
    requires |degrees| == |values| && i < |degrees| && Locatable(f, degrees)
    ensures Dot(f, Syndromes(f, |degrees|, degrees, values), Sigma(f, degrees, i))
         == Mul(f, values[i], Divisor(f, degrees, i))
  {
    hide Exp, Mul, Eval, Product, Dot, Xor;
    var b, zs := Sigma(f, degrees, i), Others(f, degrees, i, |degrees|);
    DotSyndromes(f, degrees, values, b);
    forall j | 0 <= j < |degrees| && j != i ensures Eval(f, b, Exp(f, degrees[j])) == 0 {
      OthersContain(f, degrees, i, |degrees|, j);
      var k :| 0 <= k < |zs| && zs[k] == Exp(f, degrees[j]);
      ProductRoot(f, zs, k);
    }
    OnlyOneRemains(f, degrees, values, b, i);
  }

  lemma {:induction false} DotBound(f: Field, a: seq<nat>, b: seq<nat>)
    requires |a| == |b|
    ensures Dot(f, a, b) < Order(f)
  {
    hide Mul, Xor;
    if a != [] {
      var n := |a| - 1;
      DotBound(f, a[..n], b[..n]);
      XorBound(Dot(f, a[..n], b[..n]), Mul(f, a[n], b[n]), f.degree);
    }
  }

  /** What the closed formula gives for erasure i, whatever the syndromes are. */
  ghost function Solution(f: Field, degrees: seq<nat>, s: seq<nat>, i: nat): (v: nat)
    requires i < |degrees| == |s| && Locatable(f, degrees)
    ensures v < Order(f) && Mul(f, v, Divisor(f, degrees, i)) == Dot(f, s, Sigma(f, degrees, i))
  {
    hide Mul, Dot, Divisor, Sigma;
    DivisorNonzero(f, degrees, i);
    DotBound(f, s, Sigma(f, degrees, i));
    FieldQuotient(f, Dot(f, s, Sigma(f, degrees, i)), Divisor(f, degrees, i))
  }

  lemma SolutionIsUnique(f: Field, degrees: seq<nat>, s: seq<nat>, i: nat, v: nat)
    requires i < |degrees| == |s| && Locatable(f, degrees)
    requires v < Order(f) && Mul(f, v, Divisor(f, degrees, i)) == Dot(f, s, Sigma(f, degrees, i))
    ensures v == Solution(f, degrees, s, i)
  {
    hide Mul, Dot, Divisor, Sigma, Solution;
    DivisorNonzero(f, degrees, i);
    MulCancels(f, v, Solution(f, degrees, s, i), Divisor(f, degrees, i));
  }

  /** If the syndromes are those of some values at the erased degrees, it is the erased value. */
  lemma ErasureSolved(f: Field, degrees: seq<nat>, values: seq<nat>, i: nat)
    requires |degrees| == |values| && i < |degrees| && Locatable(f, degrees) && values[i] < Order(f)
    ensures Solution(f, degrees, Syndromes(f, |degrees|, degrees, values), i) == values[i]
  {
    hide Mul, Dot, Divisor, Sigma, Solution, Syndromes;
    ErasureEquation(f, degrees, values, i);
    SolutionIsUnique(f, degrees, Syndromes(f, |degrees|, degrees, values), i, values[i]);
  }

  /** The locator of another degree is not among the others. */
  lemma {:induction false} OthersAvoid(f: Field, degrees: seq<nat>, i: nat, n: nat, d: nat)
    requires n <= |degrees| && Locatable(f, degrees) && d !in degrees && d < Units(f)
    ensures Exp(f, d) !in Others(f, degrees, i, n) && InField(f, Others(f, degrees, i, n))
  {
    hide Exp, Units;
    if n != 0 {
      OthersAvoid(f, degrees, i, n - 1, d);
      var b := degrees[n - 1];
      ExpUnit(f, b);
      if b < d {
        ExpInjective(f, b, d);
      } else {
        ExpInjective(f, d, b);
      }
    }
  }

  /** A nonzero symbol that is missing but not listed makes every restored value wrong. */
  lemma UnlistedSymbolSpoils(f: Field, degrees: seq<nat>, values: seq<nat>, i: nat, d: nat, v: nat)
    requires |degrees| == |values| && i < |degrees| && Locatable(f, degrees) && values[i] < Order(f)
    requires d !in degrees && d < Units(f) && 0 < v < Order(f)
    ensures Solution(f, degrees, Add(Syndromes(f, |degrees|, degrees, values), Terms(f, |degrees|, v, d)),
                     i) != values[i]
  {
    hide Exp, Mul, Eval, Product, Dot, Xor, Solution, Divisor, Syndromes, Terms, Locatable, Others, Add;
    var b, z, s, t := Sigma(f, degrees, i), Exp(f, d), Syndromes(f, |degrees|, degrees, values),
        Terms(f, |degrees|, v, d);
    OthersAvoid(f, degrees, i, |degrees|, d);
    ExpUnit(f, d);
    ProductNonRoot(f, Others(f, degrees, i, |degrees|), z);
    EvalBound(f, b, z);
    NoZeroDivisors(f, z, Eval(f, b, z));
    NoZeroDivisors(f, v, Mul(f, z, Eval(f, b, z)));
    DotAdd(f, s, t, b);
    DotTerms(f, v, d, b);
    ErasureEquation(f, degrees, values, i);
    var right, extra := Mul(f, values[i], Divisor(f, degrees, i)), Weighted(f, v, d, b);
    XorCancels(right, extra);
    XorSelf(right);
  }
}
