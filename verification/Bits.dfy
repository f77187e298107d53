/**
 Bitwise arithmetic on naturals, as the codec uses it: powers of two for the
 shifts and exclusive or for field addition.
 */
module Bits {

  function Pow2(n: nat): (r: nat)
    ensures r > 0
  {
    if n == 0 then 1 else 2 * Pow2(n - 1)
  }

  /** a >> n */
  function ShiftRight(a: nat, n: nat): nat {
    if n == 0 then a else ShiftRight(a / 2, n - 1)
  }

  /** The number with low bit b above which stands rest. */
  function Cons(b: bool, rest: nat): nat {
    (if b then 1 else 0) + 2 * rest
  }

  predicate Odd(a: nat) {
    a % 2 == 1
  }

  /** Exclusive or of two naturals, bit by bit from the low end. */
  function Xor(a: nat, b: nat): nat
    decreases a + b
  {
    if a == 0 then b
    else if b == 0 then a
    else Cons(Odd(a) != Odd(b), Xor(a / 2, b / 2))
  }

  lemma ConsParts(b: bool, rest: nat)
    ensures Odd(Cons(b, rest)) == b && Cons(b, rest) / 2 == rest
  {
  }

  /** A number is its low bit and its half. */
  lemma SameParts(a: nat, b: nat)
    requires Odd(a) == Odd(b) && a / 2 == b / 2
    ensures a == b
  {
  }

  lemma XorZero(a: nat)
    ensures Xor(0, a) == a && Xor(a, 0) == a
  {
  }

  /** The low bit and the remaining bits of an exclusive or. */
  lemma XorParts(a: nat, b: nat)
    ensures Odd(Xor(a, b)) == (Odd(a) != Odd(b))
    ensures Xor(a, b) / 2 == Xor(a / 2, b / 2)
  {
    if a == 0 || b == 0 {
      hide Xor;
      XorZero(a);
      XorZero(b);
      XorZero(a / 2);
      XorZero(b / 2);
    } else {
      assert Xor(a, b) == Cons(Odd(a) != Odd(b), Xor(a / 2, b / 2));
      hide Xor, Cons;
      ConsParts(Odd(a) != Odd(b), Xor(a / 2, b / 2));
    }
  }

  lemma {:induction false} XorCommutes(a: nat, b: nat)
    ensures Xor(a, b) == Xor(b, a)
    decreases a + b
  {
    hide Cons, Odd;
    if a != 0 && b != 0 {
      XorCommutes(a / 2, b / 2);
    }
  }

  lemma {:induction false} XorAssociates(a: nat, b: nat, c: nat)
    ensures Xor(Xor(a, b), c) == Xor(a, Xor(b, c))
    decreases a + b + c
  {
    hide Xor, Odd;
    if a == 0 || b == 0 || c == 0 {
      XorZero(a);
      XorZero(b);
      XorZero(c);
      XorZero(Xor(a, b));
      XorZero(Xor(b, c));
    } else {
      XorAssociates(a / 2, b / 2, c / 2);
      XorParts(a, b);
      XorParts(b, c);
      XorParts(Xor(a, b), c);
      XorParts(a, Xor(b, c));
      SameParts(Xor(Xor(a, b), c), Xor(a, Xor(b, c)));
    }
  }

  lemma {:induction false} XorSelf(a: nat)
    ensures Xor(a, a) == 0
  {
    hide Odd;
    if a != 0 {
      XorSelf(a / 2);
    }
  }

  /** Adding the same number twice changes nothing. */
  lemma XorCancels(a: nat, b: nat)
    ensures Xor(a, Xor(a, b)) == b
    ensures Xor(Xor(b, a), a) == b
  {
    hide Xor;
    XorAssociates(a, a, b);
    XorAssociates(b, a, a);
    XorSelf(a);
    XorZero(b);
  }

  /** Two numbers with exclusive or zero are equal. */
  lemma XorZeroMeansEqual(a: nat, b: nat)
    ensures Xor(a, b) == 0 <==> a == b
  {
    hide Xor;
    XorSelf(a);
    XorCancels(a, b);
    XorZero(a);
  }

  lemma {:induction false} XorBound(a: nat, b: nat, n: nat)
    requires a < Pow2(n) && b < Pow2(n)
    ensures Xor(a, b) < Pow2(n)
  {
    if a != 0 && b != 0 {
      XorBound(a / 2, b / 2, n - 1);
    }
  }

  /** Two numbers with the same top bit lose it. */
  lemma {:induction false} XorDropsTop(a: nat, b: nat, n: nat)
    requires Pow2(n) <= a < Pow2(n + 1) && Pow2(n) <= b < Pow2(n + 1)
    ensures Xor(a, b) < Pow2(n)
  {
    if n != 0 {
      XorDropsTop(a / 2, b / 2, n - 1);
    }
  }

  /** Exactly one top bit survives. */
  lemma {:induction false} XorKeepsTop(a: nat, b: nat, n: nat)
    requires a < Pow2(n) && Pow2(n) <= b < Pow2(n + 1)
    ensures Pow2(n) <= Xor(a, b)
  {
    if a != 0 {
      XorKeepsTop(a / 2, b / 2, n - 1);
    }
  }

  /** Exclusive or, one bit at a time. */
  lemma XorCons(b: bool, a: nat, b': bool, a': nat)
    ensures Xor(Cons(b, a), Cons(b', a')) == Cons(b != b', Xor(a, a'))
  {
    hide Xor, Cons, Odd;
    ConsParts(b, a);
    ConsParts(b', a');
    ConsParts(b != b', Xor(a, a'));
    XorParts(Cons(b, a), Cons(b', a'));
    SameParts(Xor(Cons(b, a), Cons(b', a')), Cons(b != b', Xor(a, a')));
  }

  lemma XorDoubles(a: nat, b: nat)
    ensures Xor(2 * a, 2 * b) == 2 * Xor(a, b)
  {
    hide Xor;
    XorCons(false, a, false, b);
  }

  /** (a + b) + (c + d) == (a + c) + (b + d) for exclusive or. */
  lemma XorInterchange(a: nat, b: nat, c: nat, d: nat)
    ensures Xor(Xor(a, b), Xor(c, d)) == Xor(Xor(a, c), Xor(b, d))
  {
    hide Xor;
    XorAssociates(a, b, Xor(c, d));
    XorAssociates(b, c, d);
    XorCommutes(b, c);
    XorAssociates(c, b, d);
    XorAssociates(a, c, Xor(b, d));
  }

  lemma {:induction false} ShiftedOut(a: nat, n: nat)
    ensures ShiftRight(a, n) == 0 <==> a < Pow2(n)
  {
    if n != 0 {
      ShiftedOut(a / 2, n - 1);
    }
  }

  /** The low n bits of a. */
  function LowBits(a: nat, n: nat): (r: nat)
    ensures r < Pow2(n)
    ensures a < Pow2(n) ==> r == a
  {
    if n == 0 then 0 else Cons(Odd(a), LowBits(a / 2, n - 1))
  }

  lemma {:induction false} XorOfLowBits(a: nat, b: nat, n: nat)
    ensures LowBits(Xor(a, b), n) == Xor(LowBits(a, n), LowBits(b, n))
  {
    hide Xor, Cons, Odd;
    if n == 0 {
      XorZero(0);
    } else {
      XorParts(a, b);
      XorOfLowBits(a / 2, b / 2, n - 1);
      XorCons(Odd(a), LowBits(a / 2, n - 1), Odd(b), LowBits(b / 2, n - 1));
    }
  }
}
