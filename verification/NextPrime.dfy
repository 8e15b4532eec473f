/**
 `__next_prime` (libcxx/src/hash.cpp): the least prime not below a given number,
 found by trial division over a wheel of circumference 210.  Every sum and product
 is reduced modulo the word size, as `size_t` arithmetic is.
 */
module NextPrime {
  import opened Primes
  import opened Modular
  import opened PrimeLimits

  // Each table is written in three rows of sixteen entries.
  const SMALL_PRIMES: seq<nat> := [
    0, 2, 3, 5, 7, 11, 13, 17, 19, 23, 29, 31, 37, 41, 43, 47] + [
    53, 59, 61, 67, 71, 73, 79, 83, 89, 97, 101, 103, 107, 109, 113, 127] + [
    131, 137, 139, 149, 151, 157, 163, 167, 173, 179, 181, 191, 193, 197, 199, 211]

  const INDICES: seq<nat> := [
    1, 11, 13, 17, 19, 23, 29, 31, 37, 41, 43, 47, 53, 59, 61, 67] + [
    71, 73, 79, 83, 89, 97, 101, 103, 107, 109, 113, 121, 127, 131, 137, 139] + [
    143, 149, 151, 157, 163, 167, 169, 173, 179, 181, 187, 191, 193, 197, 199, 209]

  /** The increments of the unrolled divisor loop, in the order they are written. */
  const INCREMENTS: seq<nat> := [
    10, 2, 4, 2, 4, 6, 2, 6, 4, 2, 4, 6, 6, 2, 6, 4] + [
    2, 6, 4, 6, 8, 4, 2, 4, 2, 4, 8, 6, 4, 6, 2, 4] + [
    6, 2, 6, 6, 4, 2, 4, 6, 2, 6, 4, 2, 4, 2, 10, 2]

  const L: nat := 210
  const N: nat := 48
  const M: nat := 48

  /** What `__next_prime` does: return a number, or throw `overflow_error`. */
  datatype Outcome = Found(prime: nat) | Overflow

  // -------------------------------------------------------------------- the tables

  predicate HasFactorUpTo7(d: nat) {
    d % 2 == 0 || d % 3 == 0 || d % 5 == 0 || d % 7 == 0
  }

  predicate HasFactorUpTo13(d: nat) {
    HasFactorUpTo7(d) || d % 11 == 0 || d % 13 == 0
  }

  ghost predicate Increasing(a: seq<nat>) {
    forall j, k :: 0 <= j < k < |a| ==> a[j] < a[k]
  }

  lemma {:induction false} StepsIncrease(a: seq<nat>, j: nat, k: nat)
    requires forall i :: 0 <= i < |a| - 1 ==> a[i] < a[i + 1]
    requires j < k < |a|
    ensures a[j] < a[k]
  {
    if j + 1 < k {
      StepsIncrease(a, j, k - 1);
    }
    assert a[k - 1] < a[k - 1 + 1];
  }

  lemma TablesIncrease()
    ensures Increasing(INDICES) && Increasing(SMALL_PRIMES)
  {
    forall j, k | 0 <= j < k < 48
      ensures INDICES[j] < INDICES[k]
    {
      forall i | 0 <= i < 47 { IndicesStep(i); }
      StepsIncrease(INDICES, j, k);
    }
    forall j, k | 0 <= j < k < 48
      ensures SMALL_PRIMES[j] < SMALL_PRIMES[k]
    {
      forall i | 0 <= i < 47 { SmallPrimesStep(i); }
      StepsIncrease(SMALL_PRIMES, j, k);
    }
  }

  lemma IndicesStep(j: nat)
    requires j < 47
    ensures INDICES[j] < INDICES[j + 1]
  {
  }

  lemma SmallPrimesStep(j: nat)
    requires j < 47
    ensures SMALL_PRIMES[j] < SMALL_PRIMES[j + 1]
  {
  }

  lemma IndicesCoprime(j: nat)
    requires j < 48
    ensures !HasFactorUpTo7(INDICES[j]) && INDICES[j] < 210
  {
  }

  lemma IncrementStep0(j: nat)
    requires j < 16
    ensures INDICES[j] + INCREMENTS[j] == INDICES[j + 1]
  {
  }

  lemma IncrementStep1(j: nat)
    requires 16 <= j < 32
    ensures INDICES[j] + INCREMENTS[j] == INDICES[j + 1]
  {
  }

  lemma IncrementStep2(j: nat)
    requires 32 <= j < 47
    ensures INDICES[j] + INCREMENTS[j] == INDICES[j + 1]
  {
  }

  lemma IncrementStep(j: nat)
    requires j < 48
    ensures INDICES[j] + INCREMENTS[j] == if j == 47 then 211 else INDICES[j + 1]
  {
    if j < 16 { IncrementStep0(j); } else if j < 32 { IncrementStep1(j); } else if j < 47 { IncrementStep2(j); }
  }

  predicate CoprimeTo30(r: nat) {
    r == 1 || r == 7 || r == 11 || r == 13 || r == 17 || r == 19 || r == 23 || r == 29
  }

  lemma Residue30(d: nat)
    requires !HasFactorUpTo7(d)
    ensures CoprimeTo30(d % 30)
  {
    var q, r := d / 30, d % 30;
    AddMultiple(r, 15 * q, 2);
    AddMultiple(r, 10 * q, 3);
    AddMultiple(r, 6 * q, 5);
    NoFactorIn30(r);
  }

  lemma NoFactorIn30(r: nat)
    requires r < 30 && r % 2 != 0 && r % 3 != 0 && r % 5 != 0
    ensures CoprimeTo30(r)
  {
  }

  lemma WheelRow0(r: nat)
    requires CoprimeTo30(r) && r % 7 != 0
    ensures r in INDICES
  {
  }

  lemma WheelRow1(r: nat)
    requires CoprimeTo30(r) && (30 + r) % 7 != 0
    ensures 30 + r in INDICES
  {
  }

  lemma WheelRow2(r: nat)
    requires CoprimeTo30(r) && (60 + r) % 7 != 0
    ensures 60 + r in INDICES
  {
  }

  lemma WheelRow3(r: nat)
    requires CoprimeTo30(r) && (90 + r) % 7 != 0
    ensures 90 + r in INDICES
  {
  }

  lemma WheelRow4(r: nat)
    requires CoprimeTo30(r) && (120 + r) % 7 != 0
    ensures 120 + r in INDICES
  {
  }

  lemma WheelRow5(r: nat)
    requires CoprimeTo30(r) && (150 + r) % 7 != 0
    ensures 150 + r in INDICES
  {
  }

  lemma WheelRow6(r: nat)
    requires CoprimeTo30(r) && (180 + r) % 7 != 0
    ensures 180 + r in INDICES
  {
  }

  /** The wheel lists every residue modulo 210 that is coprime to 210, and no other. */
  lemma WheelComplete(d: nat)
    requires d < 210
    ensures d in INDICES <==> !HasFactorUpTo7(d)
  {
    if HasFactorUpTo7(d) {
      if d in INDICES {
        var j :| 0 <= j < 48 && INDICES[j] == d;
        IndicesCoprime(j);
      }
    } else {
      Residue30(d);
      WheelRow(d / 30, d % 30);
    }
  }

  lemma WheelRow(q: nat, r: nat)
    requires q < 7 && CoprimeTo30(r) && (30 * q + r) % 7 != 0
    ensures 30 * q + r in INDICES
  {
    hide CoprimeTo30;
    if q == 0 {
      WheelRow0(r);
    } else if q == 1 {
      WheelRow1(r);
    } else if q == 2 {
      WheelRow2(r);
    } else if q == 3 {
      WheelRow3(r);
    } else if q == 4 {
      WheelRow4(r);
    } else if q == 5 {
      WheelRow5(r);
    } else {
      WheelRow6(r);
    }
  }

  lemma PrimeRow0(r: nat)
    requires CoprimeTo30(r) && 13 < r && r % 7 != 0 && r % 11 != 0 && r % 13 != 0
    ensures r in SMALL_PRIMES
  {
  }

  lemma PrimeRow1(r: nat)
    requires CoprimeTo30(r) && 13 < (30 + r) && (30 + r) % 7 != 0 && (30 + r) % 11 != 0 && (30 + r) % 13 != 0
    ensures 30 + r in SMALL_PRIMES
  {
  }

  lemma PrimeRow2(r: nat)
    requires CoprimeTo30(r) && 13 < (60 + r) && (60 + r) % 7 != 0 && (60 + r) % 11 != 0 && (60 + r) % 13 != 0
    ensures 60 + r in SMALL_PRIMES
  {
  }

  lemma PrimeRow3(r: nat)
    requires CoprimeTo30(r) && 13 < (90 + r) && (90 + r) % 7 != 0 && (90 + r) % 11 != 0 && (90 + r) % 13 != 0
    ensures 90 + r in SMALL_PRIMES
  {
  }

  lemma PrimeRow4(r: nat)
    requires CoprimeTo30(r) && 13 < (120 + r) && (120 + r) % 7 != 0 && (120 + r) % 11 != 0 && (120 + r) % 13 != 0
    ensures 120 + r in SMALL_PRIMES
  {
  }

  lemma PrimeRow5(r: nat)
    requires CoprimeTo30(r) && 13 < (150 + r) && (150 + r) % 7 != 0 && (150 + r) % 11 != 0 && (150 + r) % 13 != 0
    ensures 150 + r in SMALL_PRIMES
  {
  }

  lemma PrimeRow6(r: nat)
    requires CoprimeTo30(r) && 13 < (180 + r) && (180 + r) % 7 != 0 && (180 + r) % 11 != 0 && (180 + r) % 13 != 0
    ensures 180 + r in SMALL_PRIMES
  {
  }

  lemma PrimeRow(q: nat, r: nat)
    requires q < 7 && CoprimeTo30(r) && 13 < 30 * q + r
    requires (30 * q + r) % 7 != 0 && (30 * q + r) % 11 != 0 && (30 * q + r) % 13 != 0
    ensures 30 * q + r in SMALL_PRIMES
  {
    hide CoprimeTo30;
    if q == 0 {
      PrimeRow0(r);
    } else if q == 1 {
      PrimeRow1(r);
    } else if q == 2 {
      PrimeRow2(r);
    } else if q == 3 {
      PrimeRow3(r);
    } else if q == 4 {
      PrimeRow4(r);
    } else if q == 5 {
      PrimeRow5(r);
    } else {
      PrimeRow6(r);
    }
  }

  lemma SmallPrimesComplete(d: nat)
    requires 13 < d <= 211 && !HasFactorUpTo13(d)
    ensures d in SMALL_PRIMES
  {
    if d < 210 {
      Residue30(d);
      PrimeRow(d / 30, d % 30);
    } else {
      assert 210 % 2 == 0;
      assert SMALL_PRIMES[47] == 211;
    }
  }

  // ------------------------------------------------- what lies between two entries

  lemma ResidueFactor(k: nat, r: nat)
    ensures HasFactorUpTo7(210 * k + r) == HasFactorUpTo7(r)
  {
    AddMultiple(r, 105 * k, 2);
    AddMultiple(r, 70 * k, 3);
    AddMultiple(r, 42 * k, 5);
    AddMultiple(r, 30 * k, 7);
  }

  /** A number between two neighbouring wheel positions has a factor up to 7. */
  lemma BetweenIndices(k: nat, j: nat, d: nat)
    requires j < 48
    requires 210 * k + (if j == 0 then 0 else INDICES[j - 1] + 1) <= d < 210 * k + INDICES[j]
    ensures HasFactorUpTo7(d)
  {
    IndicesCoprime(j);
    var r: nat := d - 210 * k;
    ResidueFactor(k, r);
    NotOnWheel(j, r);
  }

  lemma NotOnWheel(j: nat, r: nat)
    requires j < 48 && (if j == 0 then 0 else INDICES[j - 1] + 1) <= r < INDICES[j] < 210
    ensures HasFactorUpTo7(r)
  {
    WheelComplete(r);
    if r in INDICES {
      var m :| 0 <= m < 48 && INDICES[m] == r;
      TablesIncrease();
    }
  }

  lemma SmallFactorOf(d: nat) returns (f: nat)
    requires HasFactorUpTo7(d)
    ensures (f == 2 || f == 3 || f == 5 || f == 7) && d % f == 0
  {
    f := if d % 2 == 0 then 2 else if d % 3 == 0 then 3 else if d % 5 == 0 then 5 else 7;
  }

  lemma WheelNumberSkips(n: nat, d: nat)
    requires d > 0 && !HasFactorUpTo7(n) && HasFactorUpTo7(d)
    ensures n % d != 0
  {
    var f := SmallFactorOf(d);
    NotDivisible(n, f);
    if n % d == 0 {
      DividesTrans(f, d, n);
    }
  }

  lemma NotDivisible(n: nat, f: nat)
    requires !HasFactorUpTo7(n) && (f == 2 || f == 3 || f == 5 || f == 7)
    ensures n % f != 0
  {
  }

  lemma NotPrimeIfFactor(d: nat)
    requires d > 7 && HasFactorUpTo7(d)
    ensures !IsPrime(d)
  {
    var f := SmallFactorOf(d);
  }

  lemma PrimeIsOnWheel(p: nat)
    requires IsPrime(p) && p > 7
    ensures !HasFactorUpTo7(p)
  {
    if HasFactorUpTo7(p) { NotPrimeIfFactor(p); }
  }

  /** Trial division may jump from one wheel position to the next. */
  lemma SkipToNextPosition(n: nat, k: nat, j: nat)
    requires j < 48 && !HasFactorUpTo7(n)
    requires NoDivisorBelow(n, 210 * k + INDICES[j] + 1)
    ensures NoDivisorBelow(n, 210 * k + INDICES[j] + INCREMENTS[j])
  {
    IncrementStep(j);
    var i := 210 * k + INDICES[j];
    forall d | i < d < i + INCREMENTS[j]
      ensures n % d != 0
    {
      if j < 47 {
        BetweenIndices(k, j + 1, d);
      } else {
        assert d == 210 * (k + 1);
        ResidueFactor(k + 1, 0);
      }
      WheelNumberSkips(n, d);
    }
  }

  /** Trial division by the small primes may jump from one prime to the next. */
  lemma SkipToNextSmallPrime(n: nat, j: nat)
    requires 5 <= j < 47
    requires NoDivisorBelow(n, SMALL_PRIMES[j] + 1)
    ensures NoDivisorBelow(n, SMALL_PRIMES[j + 1])
  {
    forall d | SMALL_PRIMES[j] < d < SMALL_PRIMES[j + 1]
      ensures n % d != 0
    {
      BetweenSmallPrimes(n, j, d);
    }
  }

  lemma BetweenSmallPrimes(n: nat, j: nat, d: nat)
    requires 5 <= j < 47
    requires NoDivisorBelow(n, SMALL_PRIMES[j] + 1)
    requires SMALL_PRIMES[j] < d < SMALL_PRIMES[j + 1]
    ensures n % d != 0
  {
    TablesIncrease();
    assert SMALL_PRIMES[5] == 11 && SMALL_PRIMES[6] == 13 && SMALL_PRIMES[47] == 211;
    if d > 13 && !HasFactorUpTo13(d) {
      SmallPrimesComplete(d);
      NotInTable(j, d);
    }
    var f := FactorUpTo13(d);
    if n % d == 0 {
      DividesTrans(f, d, n);
    }
  }

  lemma NotInTable(j: nat, d: nat)
    requires j < 47 && SMALL_PRIMES[j] < d < SMALL_PRIMES[j + 1]
    ensures d !in SMALL_PRIMES
  {
    if d in SMALL_PRIMES {
      var m :| 0 <= m < 48 && SMALL_PRIMES[m] == d;
      TablesIncrease();
    }
  }

  lemma FactorUpTo13(d: nat) returns (f: nat)
    requires HasFactorUpTo13(d) && d > 11 && d != 13
    ensures 2 <= f <= 13 && f < d && d % f == 0
  {
    if HasFactorUpTo7(d) {
      f := SmallFactorOf(d);
    } else {
      f := if d % 11 == 0 then 11 else 13;
    }
  }

  // ----------------------------------------------------------------- the algorithm

  /** `std::lower_bound` on an increasing table: the first entry not below `v`. */
  method LowerBound(a: seq<nat>, v: nat) returns (i: nat)
    requires Increasing(a)
    ensures i <= |a|
    ensures forall k :: 0 <= k < i ==> a[k] < v
    ensures forall k :: i <= k < |a| ==> v <= a[k]
  {
    i := 0;
    var len: nat := |a|;
    while len != 0
      invariant i + len <= |a|
      invariant forall k :: 0 <= k < i ==> a[k] < v
      invariant forall k :: i + len <= k < |a| ==> v <= a[k]
    {
      var half := len / 2;
      if a[i + half] < v {
        i := i + half + 1;
        len := len - half - 1;
      } else {
        len := half;
      }
    }
  }

  /** One division of the candidate: the divisor is past the square root, divides, or neither. */
  datatype Verdict = Prime | Composite | Undecided

  method Divide(n: nat, p: nat) returns (v: Verdict)
    requires 2 <= p <= n && NoDivisorBelow(n, p)
    ensures v == Prime ==> IsPrime(n)
    ensures v == Composite ==> !IsPrime(n)
    ensures v == Undecided ==> NoDivisorBelow(n, p + 1) && p * p < n
  {
    var q := n / p;
    if q < p {
      SquareRootCutOff(n, p);
      return Prime;
    }
    assert n == q * p + n % p;
    if n == q * p {
      ProductGrows(p, 2, p, q);
      return Composite;
    }
    ProductGrows(p, p, p, q);
    return Undecided;
  }

  lemma FirstDivisors(n: nat)
    requires !HasFactorUpTo7(n)
    ensures NoDivisorBelow(n, 11)
  {
    forall d | 2 <= d < 11
      ensures n % d != 0
    {
      assert HasFactorUpTo7(d);
      WheelNumberSkips(n, d);
    }
  }

  /** The `for` loop over `small_primes[5 .. N-1)`. */
  method DivideBySmallPrimes(n: nat) returns (v: Verdict)
    requires n > 211 && !HasFactorUpTo7(n)
    ensures v == Prime ==> IsPrime(n)
    ensures v == Composite ==> !IsPrime(n)
    ensures v == Undecided ==> NoDivisorBelow(n, 211)
  {
    FirstDivisors(n);
    TablesIncrease();
    assert SMALL_PRIMES[5] == 11 && SMALL_PRIMES[47] == 211;
    var j := 5;
    while j < N - 1
      invariant 5 <= j <= 47
      invariant NoDivisorBelow(n, SMALL_PRIMES[j])
    {
      v := Divide(n, SMALL_PRIMES[j]);
      if v != Undecided {
        return;
      }
      SkipToNextSmallPrime(n, j);
      j := j + 1;
    }
    return Undecided;
  }

  /** Past an undecided division the next divisor neither exceeds the candidate nor wraps. */
  lemma NextDivisorFits(n: nat, i: nat, inc: nat, w: Width)
    requires 11 <= i && inc <= 10 && i * i < n < Word(w)
    ensures i + inc <= n && (i + inc) % Word(w) == i + inc
  {
    ProductGrows(11, i, i, i);
  }

  /** One plane of the unrolled loop: the 48 wheel positions from `210 * k + 1` on. */
  method DivideByPlane(n: nat, i0: nat, w: Width, ghost k: nat) returns (v: Verdict, i: nat)
    requires n < Word(w) && !HasFactorUpTo7(n)
    requires k >= 1 && i0 == 210 * k + 1 <= n && NoDivisorBelow(n, i0)
    ensures v == Prime ==> IsPrime(n)
    ensures v == Composite ==> !IsPrime(n)
    ensures v == Undecided ==> i == 210 * (k + 1) + 1 <= n && NoDivisorBelow(n, i)
  {
    i := i0;
    var s := 0;
    assert INDICES[0] == 1;
    while s < M
      invariant s <= 48
      invariant i == if s == 48 then 210 * k + 211 else 210 * k + INDICES[s]
      invariant 211 <= i <= n && NoDivisorBelow(n, i)
    {
      v := Divide(n, i);
      if v != Undecided {
        return;
      }
      SkipToNextPosition(n, k, s);
      IncrementStep(s);
      IncrementBound(s);
      NextDivisorFits(n, i, INCREMENTS[s], w);
      i := (i + INCREMENTS[s]) % Word(w);
      s := s + 1;
    }
    v := Undecided;
  }

  lemma IncrementBound(j: nat)
    requires j < 48
    ensures INCREMENTS[j] <= 10
  {
  }

  /** The unrolled loop over the potential primes from 211 on. */
  method DivideByWheel(n: nat, w: Width) returns (isPrime: bool)
    requires 211 < n < Word(w) && !HasFactorUpTo7(n) && NoDivisorBelow(n, 211)
    ensures isPrime <==> IsPrime(n)
  {
    var i := 211;
    ghost var k := 1;
    while true
      invariant k >= 1 && i == 210 * k + 1 <= n
      invariant NoDivisorBelow(n, i)
      decreases n - i
    {
      var v;
      v, i := DivideByPlane(n, i, w, k);
      if v != Undecided {
        return v == Prime;
      }
      k := k + 1;
    }
  }

  function NextCandidate(k: nat, j: nat): (r: nat)
    requires j < 48
  {
    if j == 47 then 210 * (k + 1) + INDICES[0] else 210 * k + INDICES[j + 1]
  }

  ghost predicate NoPrimeIn(lo: nat, hi: nat) {
    forall p :: lo <= p < hi ==> !IsPrime(p)
  }

  /** No prime lies between a wheel position and the next one. */
  lemma NoPrimeSkipped(k: nat, j: nat, p: nat)
    requires k >= 1 && j < 48 && IsPrime(p) && 210 * k + INDICES[j] < p
    ensures NextCandidate(k, j) <= p
  {
    PrimeIsOnWheel(p);
    if p < NextCandidate(k, j) {
      if j < 47 {
        BetweenIndices(k, j + 1, p);
      } else {
        assert INDICES[0] == 1 && INDICES[47] == 209;
        assert p == 210 * (k + 1) + 0;
        ResidueFactor(k + 1, 0);
      }
    }
  }

  /** A composite candidate below the limit is followed by another one within the limit. */
  lemma StepToNextCandidate(n: nat, k: nat, j: nat, w: Width)
    requires k >= 1 && j < 48
    requires NoPrimeIn(n, 210 * k + INDICES[j]) && !IsPrime(210 * k + INDICES[j])
    requires n <= 210 * k + INDICES[j] <= Limit(w)
    ensures 210 * k + INDICES[j] < NextCandidate(k, j) <= Limit(w)
    ensures NoPrimeIn(n, NextCandidate(k, j))
  {
    CandidateIncreases(k, j);
    LimitIsPrime(w);
    NoPrimeSkipped(k, j, Limit(w));
    forall p | 210 * k + INDICES[j] < p < NextCandidate(k, j)
      ensures !IsPrime(p)
    {
      if IsPrime(p) { NoPrimeSkipped(k, j, p); }
    }
  }

  lemma NextPosition(k: nat, j: nat)
    requires j < 48
    ensures NextCandidate(k, j) == L * (if j + 1 == M then k + 1 else k) + INDICES[if j + 1 == M then 0 else j + 1]
  {
  }

  lemma CandidateIncreases(k: nat, j: nat)
    requires j < 48
    ensures 210 * k + INDICES[j] < NextCandidate(k, j)
  {
    IndicesCoprime(j);
    TablesIncrease();
  }

  /** No prime lies between the argument and the first candidate. */
  lemma NoPrimeBeforeFirst(n: nat, k: nat, j: nat, p: nat)
    requires k >= 1 && j < 48 && IsPrime(p) && 210 * k <= n <= p
    requires forall m :: 0 <= m < j ==> 210 * k + INDICES[m] < n
    ensures 210 * k + INDICES[j] <= p
  {
    PrimeIsOnWheel(p);
    if p < 210 * k + INDICES[j] {
      BetweenIndices(k, j, p);
    }
  }

  lemma SmallPrimesEntry(j: nat)
    requires 7 <= j < 48
    ensures 13 < SMALL_PRIMES[j] <= 211 && !HasFactorUpTo13(SMALL_PRIMES[j])
  {
  }

  lemma FactorBelow15(e: nat)
    requires 2 <= e < 15 && e != 11 && e != 13
    ensures HasFactorUpTo7(e)
  {
  }

  lemma NoDivisorBelow15(d: nat, e: nat)
    requires 13 < d && !HasFactorUpTo13(d) && 2 <= e < 15
    ensures d % e != 0
  {
    if e != 11 && e != 13 {
      FactorBelow15(e);
      hide HasFactorUpTo7;
      WheelNumberSkips(d, e);
    }
  }

  lemma NoFactorUpTo13IsPrime(d: nat)
    requires 13 < d < 225 && !HasFactorUpTo13(d)
    ensures IsPrime(d)
  {
    assert d != 14;
    hide HasFactorUpTo13, IsPrime;
    forall e | 2 <= e < 15 ensures d % e != 0 {
      NoDivisorBelow15(d, e);
    }
    SquareRootCutOff(d, 15);
  }

  lemma PrimeHasNoFactorUpTo13(p: nat)
    requires IsPrime(p) && p > 13
    ensures !HasFactorUpTo13(p)
  {
    PrimeIsOnWheel(p);
  }

  lemma SmallPrimesArePrime(j: nat)
    requires 1 <= j < 48
    ensures IsPrime(SMALL_PRIMES[j])
  {
    if j >= 7 {
      SmallPrimesEntry(j);
      NoFactorUpTo13IsPrime(SMALL_PRIMES[j]);
    }
  }

  lemma PrimeUpTo13(p: nat)
    requires IsPrime(p) && p <= 13
    ensures p in SMALL_PRIMES
  {
    assert p % 2 != 0 || p == 2;
    assert p % 3 != 0 || p == 3;
    assert SMALL_PRIMES[1] == 2 && SMALL_PRIMES[2] == 3 && SMALL_PRIMES[3] == 5;
    assert SMALL_PRIMES[4] == 7 && SMALL_PRIMES[5] == 11 && SMALL_PRIMES[6] == 13;
  }

  /** `small_primes` holds exactly the primes up to 211, after a leading zero. */
  lemma SmallPrimesExact(p: nat)
    requires 0 < p <= 211
    ensures IsPrime(p) <==> p in SMALL_PRIMES
  {
    if p in SMALL_PRIMES {
      EntryIsPrime(p);
    } else if IsPrime(p) {
      PrimeIsEntry(p);
    }
  }

  lemma EntryIsPrime(p: nat)
    requires p in SMALL_PRIMES && p > 0
    ensures IsPrime(p)
  {
    var j :| 0 <= j < 48 && SMALL_PRIMES[j] == p;
    assert SMALL_PRIMES[0] == 0;
    SmallPrimesArePrime(j);
  }

  lemma PrimeIsEntry(p: nat)
    requires IsPrime(p) && p <= 211
    ensures p in SMALL_PRIMES
  {
    if p <= 13 {
      PrimeUpTo13(p);
    } else {
      PrimeHasNoFactorUpTo13(p);
      SmallPrimesComplete(p);
    }
  }

  lemma SmallAnswer(n: nat, i: nat)
    requires 0 < n && i < 48
    requires forall k :: 0 <= k < i ==> SMALL_PRIMES[k] < n
    requires n <= SMALL_PRIMES[i]
    ensures IsLeastPrimeFrom(SMALL_PRIMES[i], n)
  {
    TablesIncrease();
    assert SMALL_PRIMES[0] == 0 && SMALL_PRIMES[47] == 211;
    SmallPrimesArePrime(i);
    forall m | n <= m < SMALL_PRIMES[i]
      ensures !IsPrime(m)
    {
      SmallPrimesExact(m);
    }
  }

  /**
   The result is 0 for 0, the least prime not below `n` for every other `n` up to the
   largest prime of the word size, and an overflow beyond it.  That the method verifies
   also shows that both loops end and that no candidate or divisor wraps.
   */
  method NextPrime(n: nat, w: Width) returns (r: Outcome)
    requires n < Word(w)
    ensures r.Overflow? <==> Limit(w) < n
    ensures n == 0 ==> r == Found(0)
    ensures 0 < n <= Limit(w) ==> r.Found? && r.prime <= Limit(w) && IsLeastPrimeFrom(r.prime, n)
  {
    TablesIncrease();
    assert SMALL_PRIMES[0] == 0 && SMALL_PRIMES[47] == 211;
    if n <= SMALL_PRIMES[N - 1] {
      var i := LowerBound(SMALL_PRIMES, n);
      if n > 0 {
        SmallAnswer(n, i);
      }
      return Found(SMALL_PRIMES[i]);
    }
    if n > Limit(w) {
      return Overflow;
    }
    var k0 := n / L;
    assert INDICES[47] == 209;
    var j := LowerBound(INDICES, n - k0 * L);
    forall p | n <= p < L * k0 + INDICES[j]
      ensures !IsPrime(p)
    {
      if IsPrime(p) { NoPrimeBeforeFirst(n, k0, j, p); }
    }
    LimitIsPrime(w);
    NoPrimeBeforeFirst(n, k0, j, Limit(w));
    var p := SearchFrom((L * k0 + INDICES[j]) % Word(w), n, k0, j, w);
    return Found(p);
  }

  lemma CandidateOnWheel(k: nat, j: nat)
    requires j < 48
    ensures !HasFactorUpTo7(L * k + INDICES[j])
  {
    IndicesCoprime(j);
    ResidueFactor(k, INDICES[j]);
  }

  /** Trial division of one candidate, first by the small primes and then along the wheel. */
  method TestCandidate(c: nat, w: Width) returns (isPrime: bool)
    requires 211 < c < Word(w) && !HasFactorUpTo7(c)
    ensures isPrime <==> IsPrime(c)
  {
    var v := DivideBySmallPrimes(c);
    if v != Undecided {
      return v == Prime;
    }
    isPrime := DivideByWheel(c, w);
  }

  /** The outer loop of `__next_prime`: step through the candidates until one is prime. */
  method SearchFrom(first: nat, ghost n: nat, firstK: nat, firstJ: nat, w: Width) returns (c: nat)
    requires firstK >= 1 && firstJ < 48 && first == L * firstK + INDICES[firstJ]
    requires 211 < n <= first <= Limit(w) && NoPrimeIn(n, first)
    ensures c <= Limit(w) && IsLeastPrimeFrom(c, n)
  {
    hide Limit, Word, IsPrime, NextCandidate;
    var k: nat, j: nat := firstK, firstJ;
    c := first;
    while true
      invariant k >= 1 && j < 48 && c == L * k + INDICES[j]
      invariant n <= c <= Limit(w) && NoPrimeIn(n, c)
      decreases Limit(w) - c
    {
      CandidateOnWheel(k, j);
      FitsWord(c, w);
      var isPrime := TestCandidate(c, w);
      if isPrime {
        return;
      }
      StepToNextCandidate(n, k, j, w);
      NextPosition(k, j);
      FitsWord(NextCandidate(k, j), w);
      j := j + 1;
      if j == M {
        k := k + 1;
        j := 0;
      }
      c := (L * k + INDICES[j]) % Word(w);
    }
  }

  lemma FitsWord(x: nat, w: Width)
    requires x <= Limit(w)
    ensures x < Word(w) && x % Word(w) == x
  {
  }
}
