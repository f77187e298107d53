/**
 src/main/rs/rscode.c: the systematic Reed-Solomon code, one symbol at a time.
 The register, the syndromes and the solver's scratch polynomial are updated in
 place; a caller that keeps one register per column passes its offset.
 */
module RsCode {
  import opened Arithmetic
  import opened Bits
  import opened ExpLog
  import opened GaloisField
  import opened Polynomials
  import opened Galois
  import opened CodeTheory
  import opened Erasures

  const UINT32_RANGE := 0x1_0000_0000

  datatype Code = Code(n: nat, k: nat, galois: Tables, genPoly: seq<nat>) {

    ghost predicate Valid() {
      && galois.Valid()
      && n == Units(galois.params)
      && k < n
      && genPoly == Generator(galois.params, n - k)
    }

    /** rscode_checks_num */
    function ChecksNum(): nat
      requires k <= n
    {
      n - k
    }

    ghost function F(): Params {
      galois.params
    }

    lemma Facts()
      requires Valid()
      ensures galois.Valid() && Primitive(F()) && k < n == Units(F()) && genPoly == Generator(F(), ChecksNum())
      ensures InField(F(), genPoly) && |genPoly| == ChecksNum() + 1 > 1
    {
      ProductInField(F(), Roots(F(), n - k));
    }
  }

  /** galois_poly_zero */
  method PolyZero(a: array<nat>, degree: nat)
    requires degree < a.Length
    modifies a
    ensures forall i :: 0 <= i <= degree ==> a[i] == 0
    ensures forall i :: degree < i < a.Length ==> a[i] == old(a[i])
  {
    for i := 0 to degree + 1
      invariant forall j :: 0 <= j < i ==> a[j] == 0
      invariant forall j :: i <= j < a.Length ==> a[j] == old(a[j])
    {
      a[i] := 0;
    }
  }

  /** rscode_init */
  method Init(k: nat, galois: Tables, genPoly: array<nat>) returns (c: Code)
    requires galois.Valid() && k < Units(galois.params) && Units(galois.params) - k < genPoly.Length
    modifies genPoly
    ensures c == Code(Units(galois.params), k, galois, genPoly[..Units(galois.params) - k + 1])
    ensures c.Valid()
  {
    galois.IsField();
    var n := Order(galois.params) - 1;
    var T := n - k;
    FillGenerator(galois, T, genPoly);
    c := Code(n, k, galois, genPoly[..T + 1]);
  }

  method FillGenerator(galois: Tables, T: nat, genPoly: array<nat>)
    requires galois.Valid() && Primitive(galois.params) && T < genPoly.Length
    modifies genPoly
    ensures genPoly[..T + 1] == Generator(galois.params, T)
  {
    hide *;
    ghost var f := galois.params;
    PolyZero(genPoly, T);
    genPoly[0] := galois.Element(0);
    GeneratorStart(f);
    assert genPoly[..1] == Generator(f, 0);
    for i := 1 to T + 1
      invariant genPoly[..i] == Generator(f, i - 1)
    {
      GeneratorStep(f, i - 1);
      var d := PolyShiftAddScale(galois, genPoly, i - 1, galois.Element(i));
    }
  }

  lemma GeneratorStart(f: Field)
    ensures Generator(f, 0) == [Exp(f, 0)]
  {
  }

  lemma GeneratorStep(f: Field, T: nat)
    ensures Generator(f, T + 1) == TimesLinear(f, Generator(f, T), Exp(f, T + 1))
    ensures InField(f, Generator(f, T))
  {
    hide Exp, TimesLinear;
    assert Roots(f, T + 1)[..T] == Roots(f, T);
    ProductInField(f, Roots(f, T));
  }

  /** rscode_prepare, for the registers of one code. */
  method Prepare(c: Code, buffer: array<nat>)
    requires c.Valid() && c.ChecksNum() <= buffer.Length
    modifies buffer
    ensures buffer[..c.ChecksNum()] == Checks(c.F(), c.ChecksNum(), [])
    ensures forall i :: c.ChecksNum() <= i < buffer.Length ==> buffer[i] == old(buffer[i])
  {
    PolyZero(buffer, c.ChecksNum() - 1);
    assert buffer[..c.ChecksNum()] == Zeros(c.ChecksNum());
  }

  /** rscode_encode: one step of the shift register stored at checks[off..]. */
  method Encode(c: Code, input: nat, checks: array<nat>, off: nat)
    requires c.Valid() && input < Order(c.F())
    requires off + c.ChecksNum() <= checks.Length && InField(c.F(), checks[off..off + c.ChecksNum()])
    modifies checks
    ensures checks[off..off + c.ChecksNum()]
         == RegisterStep(c.F(), c.genPoly, old(checks[off..off + c.ChecksNum()]), input)
    ensures forall p :: 0 <= p < checks.Length && !(off <= p < off + c.ChecksNum()) ==> checks[p] == old(checks[p])
  {
    c.Facts();
    EncodeLoop(c.galois, c.genPoly, c.ChecksNum(), input, checks, off);
  }

  method EncodeLoop(galois: Tables, g: seq<nat>, T: nat, input: nat, checks: array<nat>, off: nat)
    requires galois.Valid() && Primitive(galois.params) && InField(galois.params, g) && input < Order(galois.params)
    requires |g| == T + 1 > 1 && off + T <= checks.Length && InField(galois.params, checks[off..off + T])
    modifies checks
    ensures checks[off..off + T] == RegisterStep(galois.params, g, old(checks[off..off + T]), input)
    ensures forall p :: 0 <= p < checks.Length && !(off <= p < off + T) ==> checks[p] == old(checks[p])
  {
    hide *;
    ghost var c := checks[off..off + T];
    ghost var r := RegisterStep(galois.params, g, c, input);
    var factor := Xor(input, checks[off]);
    for i := 0 to T - 1
      invariant forall p :: off <= p < off + i ==> checks[p] == r[p - off]
      invariant forall p :: off + i <= p < off + T ==> checks[p] == c[p - off]
      invariant forall p :: 0 <= p < checks.Length && !(off <= p < off + T) ==> checks[p] == old(checks[p])
    {
      NextCheckAt(galois.params, g, c, input, i);
      checks[off + i] := Xor(checks[off + i + 1], galois.Multiply(g[T - 1 - i], factor));
    }
    NextCheckAt(galois.params, g, c, input, T - 1);
    checks[off + T - 1] := galois.Multiply(g[0], factor);
  }

  /** 32-bit multiplication as the exponents of the syndromes use it. */
  function Mul32(a: nat, b: nat): nat {
    a * b % UINT32_RANGE
  }

  lemma Mul32Small(a: nat, b: nat, n: nat)
    requires b <= n && a * n < UINT32_RANGE
    ensures Mul32(a, b) == a * b
  {
    MulMonotone(a, b, n);
  }

  ghost function WrappedTerm(f: Field, v: nat, d: nat, k: nat): nat {
    Mul(f, v, Exp(f, Mul32(d, k + 1)))
  }

  /** What rscode_decode_syndromes adds, its exponents wrapping at 32 bits. */
  ghost function WrappedTerms(f: Field, e: nat, v: nat, d: nat): (s: seq<nat>)
    ensures |s| == e && forall k :: 0 <= k < e ==> s[k] == WrappedTerm(f, v, d, k)
  {
    seq(e, (k: nat) => WrappedTerm(f, v, d, k))
  }

  lemma WrappedTermIs(f: Field, v: nat, d: nat, k: nat)
    ensures WrappedTerm(f, v, d, k) == Mul(f, v, Exp(f, Mul32(d, k + 1)))
  {
  }

  /** Without wrap-around, these are the terms of the symbol. */
  lemma NoWrap(f: Field, e: nat, v: nat, d: nat)
    requires d * e < UINT32_RANGE
    ensures WrappedTerms(f, e, v, d) == Terms(f, e, v, d)
  {
    hide Mul, Exp, Mul32;
    forall k | 0 <= k < e ensures WrappedTerms(f, e, v, d)[k] == Terms(f, e, v, d)[k] {
      Mul32Small(d, k + 1, e);
      TermIsProduct(f, v, d, k);
    }
  }

  /** rscode_decode_syndromes: adds the symbol of the given degree to the syndromes at syndromes[off..]. */
  method DecodeSyndromes(c: Code, input: nat, degree: nat, syndromes: array<nat>, off: nat)
    requires c.Valid() && input < Order(c.F())
    requires off + c.ChecksNum() <= syndromes.Length
    modifies syndromes
    ensures syndromes[off..off + c.ChecksNum()]
         == Add(old(syndromes[off..off + c.ChecksNum()]), WrappedTerms(c.F(), c.ChecksNum(), input, degree))
    ensures forall p :: 0 <= p < syndromes.Length && !(off <= p < off + c.ChecksNum()) ==>
                          syndromes[p] == old(syndromes[p])
  {
    c.Facts();
    SyndromesLoop(c.galois, c.ChecksNum(), input, degree, syndromes, off);
  }

  method SyndromesLoop(galois: Tables, T: nat, input: nat, degree: nat, syndromes: array<nat>, off: nat)
    requires galois.Valid() && Primitive(galois.params) && input < Order(galois.params)
    requires off + T <= syndromes.Length
    modifies syndromes
    ensures syndromes[off..off + T] == Add(old(syndromes[off..off + T]), WrappedTerms(galois.params, T, input, degree))
    ensures forall p :: 0 <= p < syndromes.Length && !(off <= p < off + T) ==> syndromes[p] == old(syndromes[p])
  {
    hide *;
    ghost var s := syndromes[off..off + T];
    ghost var r := Add(s, WrappedTerms(galois.params, T, input, degree));
    for i := 0 to T
      invariant forall p :: off <= p < off + i ==> syndromes[p] == r[p - off]
      invariant forall p :: off + i <= p < off + T ==> syndromes[p] == s[p - off]
      invariant forall p :: 0 <= p < syndromes.Length && !(off <= p < off + T) ==> syndromes[p] == old(syndromes[p])
    {
      WrappedTermIs(galois.params, input, degree, i);
      syndromes[off + i] := Xor(syndromes[off + i], galois.Multiply(input, galois.Element(Mul32(degree, i + 1))));
    }
  }

  lemma TermIsProduct(f: Field, v: nat, d: nat, k: nat)
    ensures Term(f, v, d, k) == Mul(f, v, Exp(f, d * (k + 1)))
  {
  }

  /** rscode_check_syndromes */
  method CheckSyndromes(c: Code, syndromes: array<nat>, off: nat) returns (ok: bool)
    requires c.Valid() && off + c.ChecksNum() <= syndromes.Length
    ensures ok <==> syndromes[off..off + c.ChecksNum()] == Zeros(c.ChecksNum())
  {
    var T := c.ChecksNum();
    for i := 0 to T
      invariant forall p :: off <= p < off + i ==> syndromes[p] == 0
    {
      if syndromes[off + i] != 0 {
        assert syndromes[off..off + T][i] != Zeros(T)[i];
        return false;
      }
    }
    assert syndromes[off..off + T] == Zeros(T);
    return true;
  }

  /**
   rscode_decode_erasure: solves the syndromes at syndromes[off..] for the erased
   symbol index. If they are the syndromes of some values at the erased degrees,
   the result is the value that was erased.
   */
  method DecodeErasure(c: Code, syndromes: array<nat>, off: nat, degrees: array<nat>, num: nat, index: nat)
      returns (value: nat)
    requires c.Valid() && index < num <= degrees.Length && off + num <= syndromes.Length
    requires Locatable(c.F(), degrees[..num]) && InField(c.F(), syndromes[off..off + num])
    ensures value == Solution(c.F(), degrees[..num], syndromes[off..off + num], index)
    ensures forall values ::
              |values| == num && InField(c.F(), values)
              && syndromes[off..off + num] == Syndromes(c.F(), num, degrees[..num], values)
              ==> value == values[index]
  {
    c.Facts();
    hide *;
    var sum, prod := SolveErasure(c.galois, syndromes, off, degrees, num, index);
    DivisorNonzero(c.F(), degrees[..num], index);
    value := c.galois.Divide(sum, prod);
    SolutionIsUnique(c.F(), degrees[..num], syndromes[off..off + num], index, value);
    forall values | |values| == num && InField(c.F(), values)
                    && syndromes[off..off + num] == Syndromes(c.F(), num, degrees[..num], values)
      ensures value == values[index]
    {
      ValueInField(c.F(), values, index);
      ErasureSolved(c.F(), degrees[..num], values, index);
    }
  }

  lemma ValueInField(f: Field, p: Poly, i: nat)
    requires InField(f, p) && i < |p|
    ensures p[i] < Order(f)
  {
  }

  /** The two accumulators of rscode_decode_erasure. */
  method SolveErasure(galois: Tables, syndromes: array<nat>, off: nat, degrees: array<nat>, num: nat, index: nat)
      returns (sum: nat, prod: nat)
    requires galois.Valid() && Primitive(galois.params) && index < num <= degrees.Length
    requires off + num <= syndromes.Length
    requires InField(galois.params, syndromes[off..off + num])
    ensures sum == Dot(galois.params, syndromes[off..off + num], Sigma(galois.params, degrees[..num], index))
    ensures sum < Order(galois.params)
    ensures prod == Divisor(galois.params, degrees[..num], index)
  {
    hide *;
    var sigma := new nat[num];
    prod := BuildSigma(galois, degrees, num, index, sigma);
    sum := DotProduct(galois, syndromes, off, num, sigma);
  }

  /** The locator polynomial of the other erasures, and the divisor. */
  method BuildSigma(galois: Tables, degrees: array<nat>, num: nat, index: nat, sigma: array<nat>)
      returns (prod: nat)
    requires galois.Valid() && Primitive(galois.params) && index < num <= degrees.Length
    requires sigma.Length == num && sigma != degrees
    modifies sigma
    ensures sigma[..] == Sigma(galois.params, degrees[..num], index) && InField(galois.params, sigma[..])
    ensures prod == Divisor(galois.params, degrees[..num], index)
  {
    hide *;
    ghost var f := galois.params;
    ghost var ds := degrees[..num];
    var zi := galois.Element(degrees[index]);
    prod := zi;
    for j := 1 to num
    {
      sigma[j] := 0;
    }
    sigma[0] := galois.Element(0);
    var d := 0;
    SigmaStart(f, ds, index, zi);
    assert sigma[..1] == SigmaUpTo(f, ds, index, 0);
    for j := 0 to num
      invariant d + 1 == |SigmaUpTo(f, ds, index, j)| <= num
      invariant sigma[..d + 1] == SigmaUpTo(f, ds, index, j) && InField(f, sigma[..d + 1])
      invariant prod == Mul(f, zi, Eval(f, SigmaUpTo(f, ds, index, j), zi)) && prod < Order(f)
    {
      SigmaStep(f, ds, index, j, zi);
      if index != j {
        var zj := galois.Element(degrees[j]);
        d := PolyShiftAddScale(galois, sigma, d, zj);
        prod := galois.Multiply(prod, Xor(zi, zj));
      }
    }
    SigmaEnd(f, ds, index);
    assert sigma[..] == sigma[..d + 1];
  }

  ghost function SigmaUpTo(f: Field, ds: seq<nat>, i: nat, j: nat): (b: Poly)
    requires j <= |ds|
    ensures |b| == if i < j then j else j + 1
  {
    Product(f, Others(f, ds, i, j))
  }

  lemma SigmaStart(f: Field, ds: seq<nat>, i: nat, z: nat)
    requires z < Order(f)
    ensures SigmaUpTo(f, ds, i, 0) == [Exp(f, 0)] && InField(f, [Exp(f, 0)])
    ensures Mul(f, z, Eval(f, SigmaUpTo(f, ds, i, 0), z)) == z
  {
    hide Mul, Eval;
    OneInField(f);
    EvalSingle(f, 1, z);
    MulOne(f, z);
  }

  lemma SigmaEnd(f: Field, ds: seq<nat>, i: nat)
    requires i < |ds|
    ensures SigmaUpTo(f, ds, i, |ds|) == Sigma(f, ds, i)
    ensures Mul(f, Exp(f, ds[i]), Eval(f, Sigma(f, ds, i), Exp(f, ds[i]))) == Divisor(f, ds, i)
  {
  }

  lemma SigmaStep(f: Field, ds: seq<nat>, i: nat, j: nat, z: nat)
    requires j < |ds| && z < Order(f)
    ensures i == j ==> SigmaUpTo(f, ds, i, j + 1) == SigmaUpTo(f, ds, i, j)
    ensures i != j ==> SigmaUpTo(f, ds, i, j + 1) == TimesLinear(f, SigmaUpTo(f, ds, i, j), Exp(f, ds[j]))
    ensures i == j || Mul(f, Mul(f, z, Eval(f, SigmaUpTo(f, ds, i, j), z)), Xor(z, Exp(f, ds[j])))
                      == Mul(f, z, Eval(f, SigmaUpTo(f, ds, i, j + 1), z))
    ensures Xor(z, Exp(f, ds[j])) < Order(f)
  {
    hide Mul, Eval, Xor, Exp, TimesLinear;
    var zj, p := Exp(f, ds[j]), SigmaUpTo(f, ds, i, j);
    ExpUnit(f, ds[j]);
    XorBound(z, zj, f.degree);
    if i != j {
      assert Others(f, ds, i, j + 1)[..|Others(f, ds, i, j)|] == Others(f, ds, i, j);
      EvalTimesLinear(f, p, zj, z);
      MulAssociates(f, z, Eval(f, p, z), Xor(z, zj));
      MulCommutes(f, Eval(f, p, z), Xor(z, zj));
    }
  }

  /** The sum over the products of syndromes and coefficients, from the top down. */
  method DotProduct(galois: Tables, syndromes: array<nat>, off: nat, num: nat, sigma: array<nat>) returns (sum: nat)
    requires galois.Valid() && Primitive(galois.params) && off + num <= syndromes.Length && sigma.Length == num
    requires InField(galois.params, syndromes[off..off + num]) && InField(galois.params, sigma[..])
    ensures sum == Dot(galois.params, syndromes[off..off + num], sigma[..]) && sum < Order(galois.params)
  {
    hide *;
    ghost var f := galois.params;
    ghost var a, b := syndromes[off..off + num], sigma[..];
    sum := 0;
    XorZero(Dot(f, a, b));
    assert a[..num] == a && b[..num] == b;
    ZeroInField(f);
    for j := 0 to num
      invariant Xor(sum, Dot(f, a[..num - j], b[..num - j])) == Dot(f, a, b) && sum < Order(f)
    {
      var n := num - 1 - j;
      DotStep(f, a, b, n, sum);
      sum := Xor(sum, galois.Multiply(syndromes[off + n], sigma[n]));
    }
    DotEnd(f, a, b, sum);
  }

  lemma ZeroInField(f: Field)
    ensures 0 < Order(f)
  {
  }

  lemma DotStep(f: Field, a: seq<nat>, b: seq<nat>, n: nat, sum: nat)
    requires |a| == |b| && n < |a| && InField(f, a) && InField(f, b) && sum < Order(f)
    ensures a[n] < Order(f) && b[n] < Order(f) && Xor(sum, Mul(f, a[n], b[n])) < Order(f)
    ensures Xor(Xor(sum, Mul(f, a[n], b[n])), Dot(f, a[..n], b[..n])) == Xor(sum, Dot(f, a[..n + 1], b[..n + 1]))
  {
    hide Mul, Xor;
    var t, rest := Mul(f, a[n], b[n]), Dot(f, a[..n], b[..n]);
    assert a[..n + 1][..n] == a[..n] && b[..n + 1][..n] == b[..n];
    XorBound(sum, t, f.degree);
    XorAssociates(sum, t, rest);
    XorCommutes(t, rest);
  }

  lemma DotEnd(f: Field, a: seq<nat>, b: seq<nat>, sum: nat)
    requires |a| == |b|
    ensures Xor(sum, Dot(f, a[..0], b[..0])) == sum
  {
    hide Mul, Xor;
    XorZero(sum);
  }
}
