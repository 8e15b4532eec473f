/**
 Primality and the elementary number theory that trial division rests on:
 divisibility is transitive, a number without small divisors is prime as soon as
 the trial divisor passes its square root, and there is a prime above every number.
 */
module Primes {

  ghost predicate IsPrime(p: nat) {
    2 <= p && NoDivisorBelow(p, p)
  }

  /** No number from 2 up to (not including) `bound` divides `n`. */
  ghost predicate NoDivisorBelow(n: nat, bound: nat) {
    forall d :: 2 <= d < bound ==> n % d != 0
  }

  ghost predicate IsLeastPrimeFrom(p: nat, n: nat) {
    IsPrime(p) && n <= p && forall m :: n <= m < p ==> !IsPrime(m)
  }

  lemma MultipleMod(d: nat, k: nat)
    requires d > 0
    ensures (d * k) % d == 0
  {
    ModUnique(d * k, d, k, 0);
  }

  lemma MulStep(d: nat, a: nat, b: nat)
    requires a < b
    ensures d * a + d <= d * b
  {
    var k: nat := b - a - 1;
    assert d * b == d * a + d + d * k;
  }

  /** Quotient and remainder are determined by the division equation. */
  lemma ModUnique(n: nat, d: nat, q: nat, r: nat)
    requires d > 0 && r < d && n == d * q + r
    ensures n / d == q && n % d == r
  {
    if q < n / d {
      MulStep(d, q, n / d);
    } else if n / d < q {
      MulStep(d, n / d, q);
    }
  }

  lemma DividesTrans(f: nat, d: nat, n: nat)
    requires f > 0 && d > 0 && d % f == 0 && n % d == 0
    ensures n % f == 0
  {
    var a, b := d / f, n / d;
    assert n == d * b == (f * a) * b == f * (a * b);
    MultipleMod(f, a * b);
  }

  /**
   Trial division may stop once the quotient drops below the divisor: a divisor
   beyond that point would come with a cofactor that was already tried.
   */
  lemma SquareRootCutOff(n: nat, i: nat)
    requires 2 <= i <= n && NoDivisorBelow(n, i) && n / i < i
    ensures IsPrime(n)
  {
    forall d | 2 <= d < n
      ensures n % d != 0
    {
      if d >= i {
        NoLargeDivisor(n, i, d);
      }
    }
  }

  lemma NoLargeDivisor(n: nat, i: nat, d: nat)
    requires 2 <= i <= d < n && NoDivisorBelow(n, i) && n / i < i
    ensures n % d != 0
  {
    if n % d == 0 {
      var e := n / d;
      QuotientBelow(n, i);
      CofactorBounds(n, i, d, e);
      MultipleMod(e, d);
    }
  }

  lemma CofactorBounds(n: nat, i: nat, d: nat, e: nat)
    requires 2 <= i <= d < n < i * i && n == d * e
    ensures 2 <= e < i
  {
    if i <= e {
      ProductGrows(i, i, d, e);
    }
  }

  lemma ProductGrows(a: nat, b: nat, c: nat, d: nat)
    requires a <= c && b <= d
    ensures a * b <= c * d
  {
    assert c * d - a * b == (c - a) * d + a * (d - b);
  }

  lemma QuotientBelow(n: nat, i: nat)
    requires i > 0 && n / i < i
    ensures n < i * i
  {
    MulStep(i, n / i, i);
  }

  lemma LeastDivisorIsPrime(n: nat, p: nat)
    requires 2 <= p && n % p == 0 && NoDivisorBelow(n, p)
    ensures IsPrime(p)
  {
    forall d | 2 <= d < p
      ensures p % d != 0
    {
      if p % d == 0 { DividesTrans(d, p, n); }
    }
  }

  /** Every number from 2 on has a prime divisor. */
  lemma PrimeDivisor(n: nat) returns (p: nat)
    requires 2 <= n
    ensures IsPrime(p) && p <= n && n % p == 0
  {
    p := 2;
    while n % p != 0
      invariant 2 <= p <= n && NoDivisorBelow(n, p)
      decreases n - p
    {
      p := p + 1;
    }
    LeastDivisorIsPrime(n, p);
  }

  function Factorial(n: nat): (f: nat)
    ensures f >= 1
  {
    if n == 0 then 1 else n * Factorial(n - 1)
  }

  lemma {:induction false} FactorialDivisible(n: nat, d: nat)
    requires 1 <= d <= n
    ensures Factorial(n) % d == 0
  {
    if d == n {
      MultipleMod(n, Factorial(n - 1));
    } else {
      FactorialDivisible(n - 1, d);
      var k := Factorial(n - 1) / d;
      assert Factorial(n) == n * (d * k) == d * (n * k);
      MultipleMod(d, n * k);
    }
  }

  /** Euclid: there is a prime above every number. */
  lemma PrimeAbove(n: nat) returns (p: nat)
    ensures IsPrime(p) && p > n
  {
    p := PrimeDivisor(Factorial(n) + 1);
    if p <= n {
      FactorialDivisible(n, p);
      ConsecutiveCoprime(Factorial(n), p);
    }
  }

  lemma ConsecutiveCoprime(m: nat, p: nat)
    requires 2 <= p && m % p == 0
    ensures (m + 1) % p == 1
  {
    ModUnique(m + 1, p, m / p, 1);
  }
}
