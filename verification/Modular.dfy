/**
 Modular arithmetic up to Fermat's little theorem: what the primality certificates
 of the largest primes of a word rest on.
 */
module Modular {
  import opened Primes

  lemma AddMultiple(x: nat, k: nat, n: nat)
    requires n > 0
    ensures (x + n * k) % n == x % n
  {
    assert x == n * (x / n) + x % n;
    assert x + n * k == n * (x / n + k) + x % n;
    ModUnique(x + n * k, n, x / n + k, x % n);
  }

  lemma MulModLeft(a: nat, b: nat, n: nat)
    requires n > 0
    ensures (a * b) % n == ((a % n) * b) % n
  {
    var q, r := a / n, a % n;
    assert a == n * q + r;
    Distribute(n, q, r, b);
    AddMultiple(r * b, q * b, n);
  }

  lemma Distribute(n: nat, q: nat, r: nat, b: nat)
    ensures (n * q + r) * b == r * b + n * (q * b)
  {
    assert (n * q) * b == n * (q * b);
  }

  lemma MulMod(a: nat, b: nat, n: nat)
    requires n > 0
    ensures (a * b) % n == ((a % n) * (b % n)) % n
  {
    var r, t := a % n, b % n;
    MulModLeft(a, b, n);
    MulModLeft(b, r, n);
    assert r * b == b * r && t * r == r * t;
  }

  /** Reducing modulo a multiple first does not change the remainder. */
  lemma ModOfMod(x: nat, n: nat, p: nat)
    requires n > 0 && p > 0 && n % p == 0
    ensures (x % n) % p == x % p
  {
    var k, q := n / p, x / n;
    assert n == p * k && x == x % n + n * q;
    Distribute(p, k, 0, q);
    AddMultiple(x % n, k * q, p);
  }

  // ------------------------------------------------------------ greatest common divisor

  function Gcd(a: nat, b: nat): (r: nat)
    decreases b
  {
    if b == 0 then a else Gcd(b, a % b)
  }

  lemma {:induction false} GcdDivides(a: nat, b: nat)
    requires a > 0 || b > 0
    ensures Gcd(a, b) > 0 && a % Gcd(a, b) == 0 && b % Gcd(a, b) == 0
    decreases b
  {
    if b != 0 {
      GcdDivides(b, a % b);
      var g := Gcd(b, a % b);
      DividesCombination(a, b, g);
    } else {
      assert a % a == 0 by { MultipleMod(a, 1); }
    }
  }

  lemma DividesCombination(a: nat, b: nat, g: nat)
    requires g > 0 && b > 0 && b % g == 0 && (a % b) % g == 0
    ensures a % g == 0
  {
    ModOfMod(a, b, g);
  }

  lemma PrimeGcd(p: nat, a: nat)
    requires IsPrime(p)
    ensures Gcd(p, a) == 1 || (Gcd(p, a) == p && a % p == 0)
  {
    GcdDivides(p, a);
    var g := Gcd(p, a);
    if g > p {
      assert p % g == p by { ModUnique(p, g, 0, p); }
    } 
  }

  // ------------------------------------------------------------------- Euclid's lemma

  /** The multiples of `b` divisible by `p`: closed under remainders, so under the gcd. */
  lemma {:induction false} AnnihilatorGcd(x: nat, y: nat, b: nat, p: nat)
    requires p > 0 && (x * b) % p == 0 && (y * b) % p == 0
    ensures (Gcd(x, y) * b) % p == 0
    decreases y
  {
    if y != 0 {
      AnnihilatorMod(x, y, b, p);
      AnnihilatorGcd(y, x % y, b, p);
    }
  }

  lemma AnnihilatorMod(x: nat, y: nat, b: nat, p: nat)
    requires p > 0 && y > 0 && (x * b) % p == 0 && (y * b) % p == 0
    ensures ((x % y) * b) % p == 0
  {
    var q, r, k := x / y, x % y, (y * b) / p;
    assert y * b == p * k;
    assert x * b == (y * q + r) * b == r * b + (y * b) * q;
    assert (p * k) * q == p * (k * q);
    AddMultiple(r * b, k * q, p);
  }

  lemma EuclidsLemma(p: nat, a: nat, b: nat)
    requires IsPrime(p) && (a * b) % p == 0
    ensures a % p == 0 || b % p == 0
  {
    MultipleMod(p, b);
    AnnihilatorGcd(p, a, b, p);
    PrimeGcd(p, a);
    assert Gcd(p, a) == 1 ==> Gcd(p, a) * b == b;
  }

  lemma CancelFactor(p: nat, a: nat, x: nat, y: nat)
    requires IsPrime(p) && a % p != 0 && y <= x < p && (a * x) % p == (a * y) % p
    ensures x == y
  {
    var d: nat := x - y;
    assert a * x == a * d + a * y;
    DifferenceMod(a * d, a * y, p);
    EuclidsLemma(p, a, d);
    assert d % p == d by { ModUnique(d, p, 0, d); }
  }

  lemma DifferenceMod(u: nat, v: nat, p: nat)
    requires p > 0 && (u + v) % p == v % p
    ensures u % p == 0
  {
    var a, b := (u + v) / p, v / p;
    assert u + v == p * a + v % p && v == p * b + v % p;
    if a < b {
      MulStep(p, a, b);
    } else {
      assert u == p * (a - b);
      MultipleMod(p, a - b);
    }
  }

  // ------------------------------------------------------------------------- powers

  function Pow(a: nat, e: nat): (r: nat) {
    if e == 0 then 1 else a * Pow(a, e - 1)
  }

  lemma {:induction false} PowAdd(a: nat, e: nat, f: nat)
    ensures Pow(a, e + f) == Pow(a, e) * Pow(a, f)
  {
    if e != 0 {
      PowAdd(a, e - 1, f);
      assert Pow(a, e + f) == a * (Pow(a, e - 1) * Pow(a, f)) == (a * Pow(a, e - 1)) * Pow(a, f);
    }
  }

  lemma {:induction false} PowMul(a: nat, e: nat, f: nat)
    ensures Pow(a, e * f) == Pow(Pow(a, e), f)
  {
    if f == 0 {
      assert e * f == 0;
    } else {
      PowMul(a, e, f - 1);
      assert e * f == e + e * (f - 1);
      PowAdd(a, e, e * (f - 1));
    }
  }

  lemma {:induction false} PowCongruent(a: nat, b: nat, e: nat, n: nat)
    requires n > 0 && a % n == b % n
    ensures Pow(a, e) % n == Pow(b, e) % n
  {
    if e != 0 {
      PowCongruent(a, b, e - 1, n);
      MulMod(a, Pow(a, e - 1), n);
      MulMod(b, Pow(b, e - 1), n);
    }
  }

  lemma {:induction false} PowOne(e: nat)
    ensures Pow(1, e) == 1
  {
    if e != 0 { PowOne(e - 1); }
  }

  // --------------------------------------------------------- Fermat's little theorem

  ghost function Product(s: set<nat>): (r: nat) {
    if s == {} then 1 else var x :| x in s; x * Product(s - {x})
  }

  lemma {:induction false} ProductRemove(s: set<nat>, x: nat)
    requires x in s
    ensures Product(s) == x * Product(s - {x})
  {
    var y :| y in s && Product(s) == y * Product(s - {y});
    if y != x {
      ProductRemove(s - {y}, x);
      ProductRemove(s - {x}, y);
      assert s - {y} - {x} == s - {x} - {y};
      SwapFactors(x, y, Product(s - {x} - {y}));
    }
  }

  lemma SwapFactors(x: nat, y: nat, z: nat)
    ensures y * (x * z) == x * (y * z)
  {
  }

  function Times(a: nat, x: nat, p: nat): (r: nat)
    requires p > 0
  {
    (a * x) % p
  }

  ghost function Scaled(s: set<nat>, a: nat, p: nat): (r: set<nat>)
    requires p > 0
  {
    set x | x in s :: Times(a, x, p)
  }

  lemma TimesInjective(a: nat, p: nat, x: nat, y: nat)
    requires IsPrime(p) && a % p != 0 && x < p && y < p && Times(a, x, p) == Times(a, y, p)
    ensures x == y
  {
    if y <= x { CancelFactor(p, a, x, y); } else { CancelFactor(p, a, y, x); }
  }

  lemma ScaledRemove(s: set<nat>, a: nat, p: nat, x: nat)
    requires IsPrime(p) && a % p != 0 && x in s && forall y :: y in s ==> y < p
    ensures Scaled(s - {x}, a, p) == Scaled(s, a, p) - {Times(a, x, p)}
  {
    forall z | z in Scaled(s - {x}, a, p)
      ensures z in Scaled(s, a, p) - {Times(a, x, p)}
    {
      var y :| y in s - {x} && Times(a, y, p) == z;
      if z == Times(a, x, p) { TimesInjective(a, p, x, y); }
    }
    forall z | z in Scaled(s, a, p) - {Times(a, x, p)}
      ensures z in Scaled(s - {x}, a, p)
    {
      var y :| y in s && Times(a, y, p) == z;
      assert y in s - {x};
    }
  }

  lemma {:induction false} ProductScaled(s: set<nat>, a: nat, p: nat)
    requires IsPrime(p) && a % p != 0 && forall y :: y in s ==> y < p
    ensures Product(Scaled(s, a, p)) % p == (Pow(a, |s|) * Product(s)) % p
    ensures |Scaled(s, a, p)| == |s|
  {
    if s == {} {
      assert Scaled(s, a, p) == {};
    } else {
      var x :| x in s;
      var t, z := s - {x}, Times(a, x, p);
      ProductScaled(t, a, p);
      ScaledRemove(s, a, p, x);
      assert z in Scaled(s, a, p);
      ProductRemove(Scaled(s, a, p), z);
      ProductRemove(s, x);
      ProductScaledStep(a, x, Pow(a, |t|), Product(t), Product(Scaled(t, a, p)), p);
      assert |s| == |t| + 1;
    }
  }

  lemma ProductScaledStep(a: nat, x: nat, power: nat, product: nat, scaled: nat, p: nat)
    requires p > 0 && scaled % p == (power * product) % p
    ensures (Times(a, x, p) * scaled) % p == ((a * power) * (x * product)) % p
  {
    MulModLeft(a * x, scaled, p);
    MulMod(a * x, scaled, p);
    MulMod(a * x, power * product, p);
    assert (a * x) * (power * product) == (a * power) * (x * product);
  }

  lemma {:induction false} ProductCoprime(s: set<nat>, p: nat)
    requires IsPrime(p) && forall y :: y in s ==> 0 < y < p
    ensures Product(s) % p != 0
  {
    if s != {} {
      var x :| x in s;
      ProductRemove(s, x);
      ProductCoprime(s - {x}, p);
      assert x % p == x by { ModUnique(x, p, 0, x); }
      if Product(s) % p == 0 {
        EuclidsLemma(p, x, Product(s - {x}));
      }
    } else {
      assert 1 % p == 1 by { ModUnique(1, p, 0, 1); }
    }
  }

  /** The numbers from 1 up to (not including) `p`. */
  ghost function Units(p: nat): (s: set<nat>)
    ensures forall x :: x in s <==> 0 < x < p
    ensures |s| == if p == 0 then 0 else p - 1
  {
    if p <= 1 then {} else Units(p - 1) + {p - 1}
  }

  lemma FermatProduct(p: nat, a: nat)
    requires IsPrime(p) && a % p != 0
    ensures (Pow(a, p - 1) * Product(Units(p))) % p == Product(Units(p)) % p
  {
    ProductScaled(Units(p), a, p);
    ScaledUnits(p, a);
  }

  lemma FermatLittle(p: nat, a: nat)
    requires IsPrime(p) && a % p != 0
    ensures Pow(a, p - 1) % p == 1
  {
    FermatProduct(p, a);
    ProductCoprime(Units(p), p);
    if a == 0 {
      ModUnique(0, p, 0, 0);
    } else {
      PowPositive(a, p - 1);
      CancelUnit(p, Pow(a, p - 1), Product(Units(p)));
    }
  }

  lemma ScaledUnits(p: nat, a: nat)
    requires IsPrime(p) && a % p != 0 && |Scaled(Units(p), a, p)| == |Units(p)|
    ensures Scaled(Units(p), a, p) == Units(p)
  {
    forall x | x in Units(p)
      ensures Times(a, x, p) in Units(p)
    {
      ModUnique(x, p, 0, x);
      if Times(a, x, p) == 0 { EuclidsLemma(p, a, x); }
    }
    SubsetSameSize(Scaled(Units(p), a, p), Units(p));
  }

  lemma SubsetSameSize(a: set<nat>, b: set<nat>)
    requires a <= b && |a| == |b|
    ensures a == b
  {
    assert |b - a| == |b| - |a|;
  }

  lemma {:induction false} PowPositive(a: nat, e: nat)
    requires a > 0
    ensures Pow(a, e) >= 1
  {
    if e != 0 { PowPositive(a, e - 1); }
  }

  lemma CancelUnit(p: nat, w: nat, q: nat)
    requires IsPrime(p) && w >= 1 && q % p != 0 && (w * q) % p == q % p
    ensures w % p == 1
  {
    assert w * q == (w - 1) * q + q;
    DifferenceMod((w - 1) * q, q, p);
    EuclidsLemma(p, w - 1, q);
    ModUnique(w, p, (w - 1) / p, 1);
  }
}
