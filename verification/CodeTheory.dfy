/**
 The cyclic code that src/main/rs/rscode.c computes with: the generator
 polynomial, the feedback shift register of the encoder, syndromes, and the
 closed form that recovers an erased symbol.
 */
module CodeTheory {
  import opened Bits
  import opened ExpLog
  import opened GaloisField
  import opened Polynomials

  /** X^1, ..., X^T. */
  ghost function Roots(f: Field, T: nat): (zs: seq<nat>)
    ensures |zs| == T && forall i :: 0 <= i < T ==> zs[i] == Exp(f, i + 1)
  {
    seq(T, (i: nat) => Exp(f, i + 1))
  }

  /** The product of Z + X^i over i from 1 to T. */
  ghost function Generator(f: Field, T: nat): (g: Poly)
    ensures |g| == T + 1
  {
    Product(f, Roots(f, T))
  }

  ghost function Reverse(s: seq<nat>): (r: seq<nat>)
    ensures |r| == |s| && forall i :: 0 <= i < |s| ==> r[i] == s[|s| - 1 - i]
  {
    seq(|s|, i requires 0 <= i < |s| => s[|s| - 1 - i])
  }

  // ----- The encoder.

  /** What one message symbol feeds back into the register. */
  ghost function Feedback(c: seq<nat>, x: nat): nat
    requires |c| > 0
  {
    Xor(x, c[0])
  }

  /** One step of the shift register for generator g; c[0] is the coefficient of highest degree. */
  ghost function RegisterStep(f: Field, g: Poly, c: seq<nat>, x: nat): (r: seq<nat>)
    requires |g| == |c| + 1 > 1
    ensures |r| == |c|
    ensures forall i :: 0 <= i < |c| ==> r[i] == NextCheck(f, g, c, x, i)
  {
    seq(|c|, i requires 0 <= i < |c| => NextCheck(f, g, c, x, i))
  }

  ghost function NextCheck(f: Field, g: Poly, c: seq<nat>, x: nat, i: nat): nat
    requires |g| == |c| + 1 && i < |c|
  {
    var T := |c|;
    Xor(if i + 1 < T then c[i + 1] else 0, Mul(f, g[T - 1 - i], Feedback(c, x)))
  }

  /** What the in-place loop writes at position i. */
  lemma NextCheckAt(f: Field, g: Poly, c: seq<nat>, x: nat, i: nat)
    requires |g| == |c| + 1 && i < |c| && InField(f, g) && InField(f, c) && x < Order(f)
    ensures Xor(x, c[0]) < Order(f) && g[|c| - 1 - i] < Order(f) && g[0] < Order(f)
    ensures NextCheck(f, g, c, x, i) == if i == |c| - 1 then Mul(f, g[0], Xor(x, c[0]))
                                        else Xor(c[i + 1], Mul(f, g[|c| - 1 - i], Xor(x, c[0])))
  {
    hide Mul, Xor;
    XorBound(x, c[0], f.degree);
    XorZero(Mul(f, g[0], Xor(x, c[0])));
  }

  /** The register after the whole message. */
  ghost function Checks(f: Field, T: nat, m: seq<nat>): (c: seq<nat>)
    requires T > 0
    ensures |c| == T
  {
    if m == [] then Zeros(T) else RegisterStep(f, Generator(f, T), Checks(f, T, m[..|m| - 1]), m[|m| - 1])
  }

  /** The word sent for a message, by ascending degree: the checks below, the message above. */
  ghost function Codeword(f: Field, T: nat, m: seq<nat>): (w: Poly)
    requires T > 0
    ensures |w| == T + |m|
  {
    Word(Checks(f, T, m), m)
  }

  /** The message stands at the high degrees, first symbol at the highest; the register below. */
  lemma CodewordAt(f: Field, T: nat, m: seq<nat>, d: nat)
    requires T > 0 && d < T + |m|
    ensures Codeword(f, T, m)[d] == if d < T then Checks(f, T, m)[T - 1 - d] else m[T + |m| - 1 - d]
  {
    hide Checks;
  }

  /** The quotient of the division the register carries out. */
  ghost function Quotient(f: Field, T: nat, m: seq<nat>): (q: Poly)
    requires T > 0
    ensures |q| == |m|
  {
    if m == [] then []
    else
      var front := m[..|m| - 1];
      [Feedback(Checks(f, T, front), m[|m| - 1])] + Quotient(f, T, front)
  }

  lemma {:induction false} ChecksInField(f: Field, T: nat, m: seq<nat>)
    requires T > 0
    ensures InField(f, Checks(f, T, m))
  {
    hide Mul, Xor;
    if m != [] {
      var front := m[..|m| - 1];
      ChecksInField(f, T, front);
      StepInField(f, Generator(f, T), Checks(f, T, front), m[|m| - 1]);
    }
  }

  lemma StepInField(f: Field, g: Poly, c: seq<nat>, x: nat)
    requires |g| == |c| + 1 > 1 && InField(f, c)
    ensures InField(f, RegisterStep(f, g, c, x))
  {
    hide Mul, Xor;
    var r, T := RegisterStep(f, g, c, x), |c|;
    forall i | 0 <= i < |r| ensures r[i] < Order(f) {
      XorBound(if i + 1 < T then c[i + 1] else 0, Mul(f, g[T - 1 - i], Feedback(c, x)), f.degree);
    }
  }

  /** The word with register c above which stands the message m. */
  ghost function Word(c: seq<nat>, m: seq<nat>): (w: Poly)
    ensures |w| == |c| + |m|
  {
    Reverse(c) + Reverse(m)
  }

  /** X times the old word, plus the feedback times the generator, is the new word. */
  lemma WordStep(f: Field, g: Poly, c: seq<nat>, m: seq<nat>, x: nat, j: nat)
    requires |g| == |c| + 1 > 1 && g[|c|] == 1 && InField(f, c) && x < Order(f) && j <= |c| + |m|
    ensures Word(RegisterStep(f, g, c, x), m + [x])[j]
         == Xor((Scale(f, Feedback(c, x), g) + Zeros(|m|))[j], Shift(Word(c, m))[j])
  {
    hide Mul, Xor;
    var d, T := Feedback(c, x), |c|;
    if j < T {
      assert Word(RegisterStep(f, g, c, x), m + [x])[j] == NextCheck(f, g, c, x, T - 1 - j);
      MulCommutes(f, g[j], d);
      XorCommutes(if j == 0 then 0 else c[T - j], Mul(f, d, g[j]));
    } else if j == T {
      XorBound(x, c[0], f.degree);
      MulOne(f, d);
      XorCancels(c[0], x);
    } else {
      XorZero(Word(c, m)[j - 1]);
    }
  }

  lemma GeneratorMonic(f: Field, T: nat)
    ensures Generator(f, T)[T] == 1
  {
    ProductMonic(f, Roots(f, T));
  }

  /** Message and checks together are a multiple of the generator. */
  lemma {:induction false} CodewordIsMultiple(f: Field, T: nat, m: seq<nat>)
    requires T > 0 && InField(f, m)
    ensures Codeword(f, T, m) == Times(f, Generator(f, T), Quotient(f, T, m))
  {
    hide Mul, Xor, Generator, Word, RegisterStep;
    var g := Generator(f, T);
    if m == [] {
      CheckStart(f, T);
    } else {
      var front, x := m[..|m| - 1], m[|m| - 1];
      CodewordIsMultiple(f, T, front);
      ChecksInField(f, T, front);
      GeneratorMonic(f, T);
      assert m == front + [x];
      assert Quotient(f, T, m)[1..] == Quotient(f, T, front);
      forall j | 0 <= j < T + |m|
        ensures Codeword(f, T, m)[j] == Times(f, g, Quotient(f, T, m))[j]
      {
        WordStep(f, g, Checks(f, T, front), front, x, j);
      }
    }
  }

  lemma CheckStart(f: Field, T: nat)
    requires T > 0
    ensures Codeword(f, T, []) == Zeros(T)
  {
  }

  /** Every codeword vanishes at X^1, ..., X^T. */
  lemma CodewordRoot(f: Field, T: nat, m: seq<nat>, k: nat)
    requires T > 0 && InField(f, m) && k < T
    ensures Eval(f, Codeword(f, T, m), Exp(f, k + 1)) == 0
  {
    hide Mul, Xor, Eval, Codeword, Quotient, Product, Times;
    CodewordIsMultiple(f, T, m);
    ProductRoot(f, Roots(f, T), k);
    TimesRoot(f, Generator(f, T), Quotient(f, T, m), Exp(f, k + 1));
  }
}
