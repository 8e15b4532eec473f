/**
 `__check_for_overflow` throws exactly when it must: the bounds are the last primes of
 their words, so a number has a prime at or above it in the word exactly when it is not
 beyond the bound.
 */
module PrimeGaps {
  import opened Primes
  import opened PrimeLimits

  /** A factor of `2 ^ 64 - k`. */
  function Factor64(k: nat): (f: nat)
    ensures 2 <= f <= 139646831
  {
    match k
    case 15 => 53
    case 17 => 19
    case 33 => 827
    case 35 => 17
    case 39 => 139646831
    case 45 => 11071
    case 47 => 31
    case 53 => 29
    case 57 => 41
    case _ =>
      var n := Word(Bits64) - k;
      if n % 2 == 0 then 2 else if n % 3 == 0 then 3 else if n % 5 == 0 then 5
      else if n % 7 == 0 then 7 else if n % 11 == 0 then 11 else 13
  }

  lemma Gap64Part0(k: nat)
    requires 1 <= k < 12
    ensures (Word(Bits64) - k) % Factor64(k) == 0
  {
  }

  lemma Gap64Part1(k: nat)
    requires 12 <= k < 22
    ensures (Word(Bits64) - k) % Factor64(k) == 0
  {
  }

  lemma Gap64Part2(k: nat)
    requires 22 <= k < 32
    ensures (Word(Bits64) - k) % Factor64(k) == 0
  {
  }

  lemma Gap64Part3(k: nat)
    requires 32 <= k < 42
    ensures (Word(Bits64) - k) % Factor64(k) == 0
  {
  }

  lemma Gap64Part4(k: nat)
    requires 42 <= k < 50
    ensures (Word(Bits64) - k) % Factor64(k) == 0
  {
  }

  lemma Gap64Part5(k: nat)
    requires 50 <= k < 59
    ensures (Word(Bits64) - k) % Factor64(k) == 0
  {
  }

  lemma Gap64(k: nat)
    requires 1 <= k < 59
    ensures (Word(Bits64) - k) % Factor64(k) == 0
  {
    if k < 12 {
      Gap64Part0(k);
    } else if k < 22 {
      Gap64Part1(k);
    } else if k < 32 {
      Gap64Part2(k);
    } else if k < 42 {
      Gap64Part3(k);
    } else if k < 50 {
      Gap64Part4(k);
    } else {
      Gap64Part5(k);
    }
  }

  lemma Gap32(k: nat)
    requires 1 <= k < 5
    ensures (Word(Bits32) - k) % (if k == 3 then 9241 else if k == 1 then 3 else 2) == 0
  {
  }

  /** No number of the word beyond the bound is prime. */
  lemma NoPrimeBeyond(w: Width, p: nat)
    requires Limit(w) < p < Word(w)
    ensures !IsPrime(p)
  {
    var k: nat := Word(w) - p;
    if w.Bits64? {
      Gap64(k);
      hide Factor64;
      HasFactor(p, Factor64(k));
    } else {
      Gap32(k);
      HasFactor(p, if k == 3 then 9241 else if k == 1 then 3 else 2);
    }
  }

  lemma HasFactor(p: nat, f: nat)
    requires 2 <= f < p && p % f == 0
    ensures !IsPrime(p)
  {
  }

  lemma {:induction false} LeastPrimeUpTo(n: nat, q: nat) returns (p: nat)
    requires n <= q && IsPrime(q)
    ensures IsLeastPrimeFrom(p, n) && p <= q
    decreases q - n
  {
    if forall m :: n <= m < q ==> !IsPrime(m) {
      p := q;
    } else {
      var m :| n <= m < q && IsPrime(m);
      hide IsPrime;
      p := LeastPrimeUpTo(n, m);
    }
  }

  /**
   Every number has a least prime at or above it, and that fits in a word exactly if the
   check lets the number pass.
   */
  lemma OverflowExactly(w: Width, n: nat) returns (p: nat)
    ensures IsLeastPrimeFrom(p, n) && (p < Word(w) <==> n <= Limit(w))
  {
    if n <= Limit(w) {
      LimitIsPrime(w);
      p := LeastPrimeUpTo(n, Limit(w));
    } else {
      var q := PrimeAbove(n);
      p := LeastPrimeUpTo(n, q);
      if p < Word(w) {
        NoPrimeBeyond(w, p);
      }
    }
  }
}
