/**
 Division with remainder by a variable divisor.
 */
module Arithmetic {

  function Mod(i: nat, n: nat): (r: nat)
    requires n > 0
    ensures r < n
  {
    i % n
  }

  lemma Distribute(n: int, a: int, b: int)
    ensures n * (a - b) == n * a - n * b
  {
  }

  lemma MultipleIsLarge(n: nat, k: nat)
    requires k >= 1
    ensures n * k >= n
  {
  }

  lemma MulMonotone(n: nat, a: nat, b: nat)
    requires a <= b
    ensures n * a <= n * b
  {
    Distribute(n, b, a);
    ProductOfNats(n, b - a);
  }

  lemma ProductOfNats(a: nat, b: nat)
    ensures a * b >= 0
  {
  }

  lemma DivisionIsUnique(n: nat, q: int, r: nat, q': int, r': nat)
    requires r < n && r' < n && n * q + r == n * q' + r'
    ensures q == q' && r == r'
  {
    if q > q' {
      MultipleIsLarge(n, q - q');
      Distribute(n, q, q');
    } else if q < q' {
      MultipleIsLarge(n, q' - q);
      Distribute(n, q', q);
    }
  }

  lemma DivideAndRemain(i: nat, n: nat)
    requires n > 0
    ensures n * (i / n) + i % n == i
  {
  }

  lemma ModStep(i: nat, n: nat)
    requires 0 < n <= i
    ensures Mod(i, n) == Mod(i - n, n)
  {
    DivideAndRemain(i, n);
    DivideAndRemain(i - n, n);
    Distribute(n, i / n, 1);
    DivisionIsUnique(n, i / n - 1, i % n, (i - n) / n, (i - n) % n);
  }

  lemma ModSmall(i: nat, n: nat)
    requires i < n
    ensures Mod(i, n) == i
  {
  }

  lemma ExactQuotient(m: nat, i: nat) returns (q: nat)
    requires i > 0 && Mod(m, i) == 0
    ensures i * q == m
  {
    q := m / i;
    DivideAndRemain(m, i);
  }
}
