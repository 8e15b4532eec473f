/**
 The largest primes of a 32-bit and of a 64-bit word, which `__check_for_overflow`
 uses as its bounds.  Their primality is proved by Pocklington's criterion: when
 `y` to the power of a prime `q` is 1 modulo `n` and `y - 1` is invertible modulo `n`,
 every prime divisor of `n` is 1 modulo `q`.
 */
module PrimeLimits {
  import opened Primes
  import opened Modular

  datatype Width = Bits32 | Bits64

  function Word(w: Width): (r: nat) {
    if w.Bits32? then 0x1_0000_0000 else 0x1_0000_0000_0000_0000
  }

  /** The bound tested by `__check_for_overflow`. */
  function Limit(w: Width): (r: nat) {
    if w.Bits32? then 0xFFFF_FFFB else 0xFFFF_FFFF_FFFF_FFC5
  }

  // -------------------------------------------------------------- Pocklington's criterion

  /** Exponents at which a power is 1 are closed under remainders, so under the gcd. */
  lemma {:induction false} UnitExponentGcd(b: nat, e: nat, f: nat, p: nat)
    requires p > 1 && Pow(b, e) % p == 1 && Pow(b, f) % p == 1
    ensures Pow(b, Gcd(e, f)) % p == 1
    decreases f
  {
    if f != 0 {
      UnitExponentMod(b, e, f, p);
      UnitExponentGcd(b, f, e % f, p);
    }
  }

  lemma UnitExponentMod(b: nat, e: nat, f: nat, p: nat)
    requires p > 1 && f > 0 && Pow(b, e) % p == 1 && Pow(b, f) % p == 1
    ensures Pow(b, e % f) % p == 1
  {
    PowSplit(b, e, f);
    UnitPower(b, f, e / f, p);
    UnitFactor(Pow(b, f * (e / f)), Pow(b, e % f), p);
  }

  lemma PowSplit(b: nat, e: nat, f: nat)
    requires f > 0
    ensures Pow(b, e) == Pow(b, f * (e / f)) * Pow(b, e % f)
  {
    assert e == f * (e / f) + e % f;
    PowAdd(b, f * (e / f), e % f);
  }

  lemma UnitPower(b: nat, f: nat, k: nat, p: nat)
    requires p > 1 && Pow(b, f) % p == 1
    ensures Pow(b, f * k) % p == 1
  {
    PowMul(b, f, k);
    ModUnique(1, p, 0, 1);
    PowCongruent(Pow(b, f), 1, k, p);
    PowOne(k);
  }

  lemma UnitFactor(x: nat, y: nat, p: nat)
    requires p > 1 && x % p == 1
    ensures (x * y) % p == y % p
  {
    MulModLeft(x, y, p);
  }

  lemma PowZeroMod(y: nat, q: nat, p: nat)
    requires p > 1 && q > 0 && y % p == 0
    ensures Pow(y, q) % p == 0
  {
    MulModLeft(y, Pow(y, q - 1), p);
    ModUnique(0, p, 0, 0);
  }

  lemma NotUnit(n: nat, y: nat, u: nat, p: nat)
    requires n > 1 && y >= 1 && ((y - 1) * u) % n == 1 && p > 1 && n % p == 0
    ensures y % p != 1
  {
    if y % p == 1 {
      ModOfMod((y - 1) * u, n, p);
      ModUnique(1, p, 0, 1);
      DifferenceMod(y - 1, 1, p);
      MulModLeft(y - 1, u, p);
      ModUnique(0, p, 0, 0);
    }
  }

  /** Every prime divisor of `n` is 1 modulo `q`. */
  lemma Pocklington(n: nat, q: nat, y: nat, u: nat, p: nat)
    requires n > 1 && IsPrime(q) && y >= 1
    requires Pow(y, q) % n == 1 && ((y - 1) * u) % n == 1
    requires IsPrime(p) && n % p == 0
    ensures p % q == 1
  {
    ModOfMod(Pow(y, q), n, p);
    ModUnique(1, p, 0, 1);
    NotUnit(n, y, u, p);
    if y % p == 0 {
      PowZeroMod(y, q, p);
    } else {
      FermatLittle(p, y);
      OrderDivides(q, y, p);
    }
  }

  lemma OrderDivides(q: nat, y: nat, p: nat)
    requires IsPrime(q) && IsPrime(p) && y % p != 1
    requires Pow(y, q) % p == 1 && Pow(y, p - 1) % p == 1
    ensures p % q == 1
  {
    UnitExponentGcd(y, q, p - 1, p);
    PrimeGcd(q, p - 1);
    PowFirst(y);
    ModUnique(p, q, (p - 1) / q, 1);
  }

  lemma PowFirst(y: nat)
    ensures Pow(y, 1) == y
  {
    assert Pow(y, 1) == y * Pow(y, 0);
  }

  /** None of `1 + q`, `1 + 2 * q`, ..., `1 + k * q` divides `n`. */
  predicate NoneDivides(n: nat, q: nat, k: nat) {
    k == 0 || (n % Step(q, k) != 0 && NoneDivides(n, q, k - 1))
  }

  function Step(q: nat, j: nat): (r: nat) {
    1 + q * j
  }

  lemma {:induction false} NoneDividesAt(n: nat, q: nat, k: nat, j: nat)
    requires 1 <= j <= k && NoneDivides(n, q, k)
    ensures n % Step(q, j) != 0
  {
    if j < k { NoneDividesAt(n, q, k - 1, j); }
  }

  lemma StepZero(q: nat)
    ensures Step(q, 0) == 1
  {
  }

  lemma SmallDivisorIsStep(n: nat, q: nat, k: nat, p: nat)
    requires IsPrime(q) && IsPrime(p) && p % q == 1 && NoneDivides(n, q, k) && n % p == 0
    ensures Step(q, k + 1) <= p
  {
    var j := p / q;
    assert p == Step(q, j);
    if j > k {
      ProductGrows(q, k + 1, q, j);
    } else if j > 0 {
      NoneDividesAt(n, q, k, j);
    } else {
      StepZero(q);
    }
  }

  /** A certificate of primality: the criterion, and trial division by what it leaves over. */
  lemma PrimeByCertificate(r: nat -> nat, n: nat, q: nat, y: nat, u: nat, k: nat)
    requires n > 1 && IsPrime(q) && y >= 1
    requires IsResidues(r, y, n) && r(q) == 1 && ((y - 1) * u) % n == 1
    requires NoneDivides(n, q, k)
    requires Step(q, k + 1) <= n < Step(q, k + 1) * Step(q, k + 1)
    ensures IsPrime(n)
  {
    var s := Step(q, k + 1);
    assert Pow(y, q) % n == 1;
    forall d | 2 <= d < s
      ensures n % d != 0
    {
      DivisorsReachStep(n, q, y, u, k, d);
    }
    QuotientBelowRoot(n, s);
    SquareRootCutOff(n, s);
  }

  lemma DivisorsReachStep(n: nat, q: nat, y: nat, u: nat, k: nat, d: nat)
    requires n > 1 && IsPrime(q) && y >= 1 && Pow(y, q) % n == 1 && ((y - 1) * u) % n == 1
    requires NoneDivides(n, q, k) && 2 <= d < Step(q, k + 1)
    ensures n % d != 0
  {
    var p := PrimeDivisor(d);
    if n % d == 0 {
      DividesTrans(p, d, n);
      Pocklington(n, q, y, u, p);
      SmallDivisorIsStep(n, q, k, p);
    }
  }

  lemma QuotientBelowRoot(n: nat, s: nat)
    requires 0 < s && n < s * s
    ensures n / s < s
  {
    if n / s >= s {
      ProductGrows(s, s, s, n / s);
    }
  }

  // ------------------------------------------------------------------- the certificates

  /** `r` gives the powers of `y` modulo `n`. */
  ghost predicate IsResidues(r: nat -> nat, y: nat, n: nat)
    requires n > 0
  {
    forall e: nat {:trigger Pow(y, e)} :: r(e) == Pow(y, e) % n
  }

  lemma Residues(y: nat, n: nat) returns (r: nat -> nat)
    requires n > 0
    ensures IsResidues(r, y, n)
  {
    r := (e: nat) => Pow(y, e) % n;
  }

  /** One binary digit of an exponent: from `y ^ e` to `y ^ (2 * e)` or `y ^ (2 * e + 1)`. */
  lemma Digit(r: nat -> nat, y: nat, n: nat, e: nat, x: nat, s: nat, bit: bool, t: nat)
    requires n > 0 && IsResidues(r, y, n) && r(e) == x && (x * x) % n == s
    requires if bit then (s * y) % n == t else t == s
    ensures r(2 * e + (if bit then 1 else 0)) == t
  {
    PowAdd(y, e, e);
    MulMod(Pow(y, e), Pow(y, e), n);
    assert e + e == 2 * e;
    if bit {
      MulModLeft(Pow(y, 2 * e), y, n);
      assert Pow(y, 2 * e + 1) == y * Pow(y, 2 * e) == Pow(y, 2 * e) * y;
    }
  }

  lemma FirstDigit(r: nat -> nat, y: nat, n: nat)
    requires y < n && IsResidues(r, y, n)
    ensures r(1) == y
  {
    PowFirst(y);
    ModUnique(y, n, 0, y);
  }

  lemma Prime73()
    ensures IsPrime(73)
  {
    assert NoDivisorBelow(73, 9);
    SquareRootCutOff(73, 9);
  }

  lemma Prime181()
    ensures IsPrime(181)
  {
    assert NoDivisorBelow(181, 14);
    SquareRootCutOff(181, 14);
  }

  lemma Power15331(r: nat -> nat)
    requires IsResidues(r, 7853, 15331)
    ensures r(73) == 1
  {
    FirstDigit(r, 7853, 15331);
    Digit(r, 7853, 15331, 1, 7853, 8327, false, 8327);
    Digit(r, 7853, 15331, 2, 8327, 12147, false, 12147);
    Digit(r, 7853, 15331, 4, 12147, 4065, true, 3303);
    Digit(r, 7853, 15331, 9, 3303, 9468, false, 9468);
    Digit(r, 7853, 15331, 18, 9468, 2667, false, 2667);
    Digit(r, 7853, 15331, 36, 2667, 14636, true, 1);
  }

  lemma Prime15331()
    ensures IsPrime(15331)
  {
    Prime73();
    var r := Residues(7853, 15331);
    Power15331(r);
    PrimeByCertificate(r, 15331, 73, 7853, 6453, 1);
  }

  lemma Trial5594472617641upTo28()
    ensures NoneDivides(5594472617641, 15331, 28)
  {
    assert NoneDivides(5594472617641, 15331, 8);
    assert NoneDivides(5594472617641, 15331, 16);
    assert NoneDivides(5594472617641, 15331, 24);
  }

  lemma Trial5594472617641upTo56()
    ensures NoneDivides(5594472617641, 15331, 56)
  {
    Trial5594472617641upTo28();
    assert NoneDivides(5594472617641, 15331, 36);
    assert NoneDivides(5594472617641, 15331, 44);
    assert NoneDivides(5594472617641, 15331, 52);
  }

  lemma Trial5594472617641upTo84()
    ensures NoneDivides(5594472617641, 15331, 84)
  {
    Trial5594472617641upTo56();
    assert NoneDivides(5594472617641, 15331, 64);
    assert NoneDivides(5594472617641, 15331, 72);
    assert NoneDivides(5594472617641, 15331, 80);
  }

  lemma Trial5594472617641upTo112()
    ensures NoneDivides(5594472617641, 15331, 112)
  {
    Trial5594472617641upTo84();
    assert NoneDivides(5594472617641, 15331, 92);
    assert NoneDivides(5594472617641, 15331, 100);
    assert NoneDivides(5594472617641, 15331, 108);
  }

  lemma Trial5594472617641upTo140()
    ensures NoneDivides(5594472617641, 15331, 140)
  {
    Trial5594472617641upTo112();
    assert NoneDivides(5594472617641, 15331, 120);
    assert NoneDivides(5594472617641, 15331, 128);
    assert NoneDivides(5594472617641, 15331, 136);
  }

  lemma Trial5594472617641()
    ensures NoneDivides(5594472617641, 15331, 154)
  {
    Trial5594472617641upTo140();
    assert NoneDivides(5594472617641, 15331, 148);
  }

  lemma Power5594472617641(r: nat -> nat)
    requires IsResidues(r, 1852426820963, 5594472617641)
    ensures r(15331) == 1
  {
    FirstDigit(r, 1852426820963, 5594472617641);
    Digit(r, 1852426820963, 5594472617641, 1, 1852426820963, 5497823433062, true, 4310060168790);
    Digit(r, 1852426820963, 5594472617641, 3, 4310060168790, 3808895640816, true, 1597705314030);
    Digit(r, 1852426820963, 5594472617641, 7, 1597705314030, 5035417616346, false, 5035417616346);
    Digit(r, 1852426820963, 5594472617641, 14, 5035417616346, 1201481798399, true, 686246745158);
    Digit(r, 1852426820963, 5594472617641, 29, 686246745158, 869313132718, true, 4028508040078);
    Digit(r, 1852426820963, 5594472617641, 59, 4028508040078, 1621332985552, true, 3996452127932);
    Digit(r, 1852426820963, 5594472617641, 119, 3996452127932, 1016067142833, true, 3725946430659);
    Digit(r, 1852426820963, 5594472617641, 239, 3725946430659, 1367978891137, true, 2306800797297);
    Digit(r, 1852426820963, 5594472617641, 479, 2306800797297, 4259618754810, false, 4259618754810);
    Digit(r, 1852426820963, 5594472617641, 958, 4259618754810, 2064630839613, false, 2064630839613);
    Digit(r, 1852426820963, 5594472617641, 1916, 2064630839613, 2013119279272, false, 2013119279272);
    Digit(r, 1852426820963, 5594472617641, 3832, 2013119279272, 2713795866694, true, 2831819143509);
    Digit(r, 1852426820963, 5594472617641, 7665, 2831819143509, 5353135213148, true, 1);
  }

  lemma Prime5594472617641()
    ensures IsPrime(5594472617641)
  {
    Prime15331();
    var r := Residues(1852426820963, 5594472617641);
    Power5594472617641(r);
    Trial5594472617641();
    PrimeByCertificate(r, 5594472617641, 15331, 1852426820963, 3161697676777, 154);
  }

  lemma Trial22605091()
    ensures NoneDivides(22605091, 181, 26)
  {
    assert NoneDivides(22605091, 181, 8);
    assert NoneDivides(22605091, 181, 16);
    assert NoneDivides(22605091, 181, 24);
  }

  lemma Power22605091(r: nat -> nat)
    requires IsResidues(r, 13954217, 22605091)
    ensures r(181) == 1
  {
    FirstDigit(r, 13954217, 22605091);
    Digit(r, 13954217, 22605091, 1, 13954217, 8629453, false, 8629453);
    Digit(r, 13954217, 22605091, 2, 8629453, 5109911, true, 8652108);
    Digit(r, 13954217, 22605091, 5, 8652108, 21303337, true, 18624071);
    Digit(r, 13954217, 22605091, 11, 18624071, 519936, false, 519936);
    Digit(r, 13954217, 22605091, 22, 519936, 21765918, true, 122734);
    Digit(r, 13954217, 22605091, 45, 122734, 8644150, false, 8644150);
    Digit(r, 13954217, 22605091, 90, 8644150, 20081272, true, 1);
  }

  lemma Prime22605091()
    ensures IsPrime(22605091)
  {
    Prime181();
    var r := Residues(13954217, 22605091);
    Power22605091(r);
    Trial22605091();
    PrimeByCertificate(r, 22605091, 181, 13954217, 19569746, 26);
  }

  lemma Power4294967291part0(r: nat -> nat)
    requires IsResidues(r, 1073745729, 4294967291)
    ensures r(22075) == 2142344274
  {
    FirstDigit(r, 1073745729, 4294967291);
    Digit(r, 1073745729, 4294967291, 1, 1073745729, 3504919713, false, 3504919713);
    Digit(r, 1073745729, 4294967291, 2, 3504919713, 148041656, true, 2762101756);
    Digit(r, 1073745729, 4294967291, 5, 2762101756, 1474251975, false, 1474251975);
    Digit(r, 1073745729, 4294967291, 10, 1474251975, 2995285887, true, 4065820878);
    Digit(r, 1073745729, 4294967291, 21, 4065820878, 3219286270, true, 1820247785);
    Digit(r, 1073745729, 4294967291, 43, 1820247785, 3855700258, false, 3855700258);
    Digit(r, 1073745729, 4294967291, 86, 3855700258, 1858816020, false, 1858816020);
    Digit(r, 1073745729, 4294967291, 172, 1858816020, 2210652769, false, 2210652769);
    Digit(r, 1073745729, 4294967291, 344, 2210652769, 1091548832, true, 3255072328);
    Digit(r, 1073745729, 4294967291, 689, 3255072328, 3894166791, true, 2036108090);
    Digit(r, 1073745729, 4294967291, 1379, 2036108090, 1360206462, true, 2579436866);
    Digit(r, 1073745729, 4294967291, 2759, 2579436866, 1810740027, false, 1810740027);
    Digit(r, 1073745729, 4294967291, 5518, 1810740027, 2386321990, true, 3638735613);
    Digit(r, 1073745729, 4294967291, 11037, 3638735613, 177569812, true, 2142344274);
  }

  lemma Power4294967291(r: nat -> nat)
    requires IsResidues(r, 1073745729, 4294967291)
    ensures r(22605091) == 1
  {
    Power4294967291part0(r);
    Digit(r, 1073745729, 4294967291, 22075, 2142344274, 164317185, false, 164317185);
    Digit(r, 1073745729, 4294967291, 44150, 164317185, 1505111656, true, 3827152162);
    Digit(r, 1073745729, 4294967291, 88301, 3827152162, 305512203, false, 305512203);
    Digit(r, 1073745729, 4294967291, 176602, 305512203, 999910711, false, 999910711);
    Digit(r, 1073745729, 4294967291, 353204, 999910711, 1505118024, true, 3852027162);
    Digit(r, 1073745729, 4294967291, 706409, 3852027162, 894754220, false, 894754220);
    Digit(r, 1073745729, 4294967291, 1412818, 894754220, 2824842023, false, 2824842023);
    Digit(r, 1073745729, 4294967291, 2825636, 2824842023, 3541280234, false, 3541280234);
    Digit(r, 1073745729, 4294967291, 5651272, 3541280234, 779252477, true, 4191888076);
    Digit(r, 1073745729, 4294967291, 11302545, 4191888076, 688844034, true, 1);
  }

  lemma Prime4294967291()
    ensures IsPrime(4294967291)
  {
    Prime22605091();
    var r := Residues(1073745729, 4294967291);
    Power4294967291(r);
    PrimeByCertificate(r, 4294967291, 22605091, 1073745729, 1771216906, 0);
  }

  lemma Power18446744073709551557part0(r: nat -> nat)
    requires IsResidues(r, 11493017446059487016, 18446744073709551557)
    ensures r(20841) == 6969370660485990036
  {
    FirstDigit(r, 11493017446059487016, 18446744073709551557);
    Digit(r, 11493017446059487016, 18446744073709551557, 1,
          11493017446059487016, 707738172700249187, false, 707738172700249187);
    Digit(r, 11493017446059487016, 18446744073709551557, 2,
          707738172700249187, 4218391128862535611, true, 12603256085745122044);
    Digit(r, 11493017446059487016, 18446744073709551557, 5,
          12603256085745122044, 3070276465859542178, false, 3070276465859542178);
    Digit(r, 11493017446059487016, 18446744073709551557, 10,
          3070276465859542178, 3445201699927199592, false, 3445201699927199592);
    Digit(r, 11493017446059487016, 18446744073709551557, 20,
          3445201699927199592, 5495123995007144820, false, 5495123995007144820);
    Digit(r, 11493017446059487016, 18446744073709551557, 40,
          5495123995007144820, 14240951956709542307, true, 7267389047912579589);
    Digit(r, 11493017446059487016, 18446744073709551557, 81,
          7267389047912579589, 2545514892988531501, false, 2545514892988531501);
    Digit(r, 11493017446059487016, 18446744073709551557, 162,
          2545514892988531501, 6322864115774317151, true, 6769489354311130466);
    Digit(r, 11493017446059487016, 18446744073709551557, 325,
          6769489354311130466, 18418489063413399753, true, 3742076373895185459);
    Digit(r, 11493017446059487016, 18446744073709551557, 651,
          3742076373895185459, 16893664101364135094, false, 16893664101364135094);
    Digit(r, 11493017446059487016, 18446744073709551557, 1302,
          16893664101364135094, 14060724226836156062, true, 12570569503449865477);
    Digit(r, 11493017446059487016, 18446744073709551557, 2605,
          12570569503449865477, 10751228489876979079, false, 10751228489876979079);
    Digit(r, 11493017446059487016, 18446744073709551557, 5210,
          10751228489876979079, 18149736518505526008, false, 18149736518505526008);
    Digit(r, 11493017446059487016, 18446744073709551557, 10420,
          18149736518505526008, 15243608239685400147, true, 6969370660485990036);
  }

  lemma Power18446744073709551557part1(r: nat -> nat)
    requires IsResidues(r, 11493017446059487016, 18446744073709551557)
    ensures r(682919020) == 2803077620483620943
  {
    Power18446744073709551557part0(r);
    Digit(r, 11493017446059487016, 18446744073709551557, 20841,
          6969370660485990036, 15060727138206098671, false, 15060727138206098671);
    Digit(r, 11493017446059487016, 18446744073709551557, 41682,
          15060727138206098671, 13582489635803617490, false, 13582489635803617490);
    Digit(r, 11493017446059487016, 18446744073709551557, 83364,
          13582489635803617490, 14122594575804140753, false, 14122594575804140753);
    Digit(r, 11493017446059487016, 18446744073709551557, 166728,
          14122594575804140753, 17095689938516471399, false, 17095689938516471399);
    Digit(r, 11493017446059487016, 18446744073709551557, 333456,
          17095689938516471399, 2502823356314345788, true, 15896713296576974865);
    Digit(r, 11493017446059487016, 18446744073709551557, 666913,
          15896713296576974865, 8258455027259507795, false, 8258455027259507795);
    Digit(r, 11493017446059487016, 18446744073709551557, 1333826,
          8258455027259507795, 3719908085082490393, false, 3719908085082490393);
    Digit(r, 11493017446059487016, 18446744073709551557, 2667652,
          3719908085082490393, 5996784432043270228, false, 5996784432043270228);
    Digit(r, 11493017446059487016, 18446744073709551557, 5335304,
          5996784432043270228, 11038613309972981515, true, 4584556924887289223);
    Digit(r, 11493017446059487016, 18446744073709551557, 10670609,
          4584556924887289223, 15760358738764796357, true, 14264922066832602577);
    Digit(r, 11493017446059487016, 18446744073709551557, 21341219,
          14264922066832602577, 11038291374004706135, false, 11038291374004706135);
    Digit(r, 11493017446059487016, 18446744073709551557, 42682438,
          11038291374004706135, 17391818108843243567, true, 9424313153928960846);
    Digit(r, 11493017446059487016, 18446744073709551557, 85364877,
          9424313153928960846, 12727297881150956231, true, 11643026781013480449);
    Digit(r, 11493017446059487016, 18446744073709551557, 170729755,
          11643026781013480449, 11958245662470757497, false, 11958245662470757497);
    Digit(r, 11493017446059487016, 18446744073709551557, 341459510,
          11958245662470757497, 2803077620483620943, false, 2803077620483620943);
  }

  lemma Power18446744073709551557(r: nat -> nat)
    requires IsResidues(r, 11493017446059487016, 18446744073709551557)
    ensures r(5594472617641) == 1
  {
    Power18446744073709551557part1(r);
    Digit(r, 11493017446059487016, 18446744073709551557, 682919020,
          2803077620483620943, 2287400308388110268, true, 1611602363253227516);
    Digit(r, 11493017446059487016, 18446744073709551557, 1365838041,
          1611602363253227516, 1067009509658116802, false, 1067009509658116802);
    Digit(r, 11493017446059487016, 18446744073709551557, 2731676082,
          1067009509658116802, 3727580736198351133, true, 1006968241440882785);
    Digit(r, 11493017446059487016, 18446744073709551557, 5463352165,
          1006968241440882785, 2982683727977224206, true, 3462094952625689253);
    Digit(r, 11493017446059487016, 18446744073709551557, 10926704331,
          3462094952625689253, 13006730677682223898, false, 13006730677682223898);
    Digit(r, 11493017446059487016, 18446744073709551557, 21853408662,
          13006730677682223898, 2482068632392844887, true, 8517951063125016168);
    Digit(r, 11493017446059487016, 18446744073709551557, 43706817325,
          8517951063125016168, 3960158840834210521, false, 3960158840834210521);
    Digit(r, 11493017446059487016, 18446744073709551557, 87413634650,
          3960158840834210521, 2568824574167429681, true, 12596247304770439012);
    Digit(r, 11493017446059487016, 18446744073709551557, 174827269301,
          12596247304770439012, 7694063513458488491, false, 7694063513458488491);
    Digit(r, 11493017446059487016, 18446744073709551557, 349654538602,
          7694063513458488491, 1213791608083619123, true, 387603828884620487);
    Digit(r, 11493017446059487016, 18446744073709551557, 699309077205,
          387603828884620487, 2519434279401211148, false, 2519434279401211148);
    Digit(r, 11493017446059487016, 18446744073709551557, 1398618154410,
          2519434279401211148, 12966300365218243182, false, 12966300365218243182);
    Digit(r, 11493017446059487016, 18446744073709551557, 2797236308820,
          12966300365218243182, 8244393616749315422, true, 1);
  }

  lemma Prime18446744073709551557()
    ensures IsPrime(18446744073709551557)
  {
    Prime5594472617641();
    var r := Residues(11493017446059487016, 18446744073709551557);
    Power18446744073709551557(r);
    PrimeByCertificate(r, 18446744073709551557, 5594472617641, 11493017446059487016, 1898613474652435203, 0);
  }

  lemma LimitIsPrime(w: Width)
    ensures IsPrime(Limit(w))
  {
    if w.Bits32? { Prime4294967291(); } else { Prime18446744073709551557(); }
  }
}
