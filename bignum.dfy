/**
 * The arithmetic the RSA key checks rely on, stated mathematically: magnitudes, bit lengths,
 * parity, the greatest common divisor and the product of the small odd primes. The
 * big-integer library itself (constant-time multiply, divide, subtract, gcd) is replaced by
 * unbounded integer arithmetic.
 */
module BigNum {

  function Abs(x: int): nat {
    if x < 0 then -x else x
  }

  function Pow2(k: nat): (r: nat)
    ensures r >= 1
  {
    if k == 0 then 1 else 2 * Pow2(k - 1)
  }

  /** The number of significant bits of a non-negative integer; 0 has none. */
  function BitLength(x: nat): nat {
    if x == 0 then 0 else 1 + BitLength(x / 2)
  }

  /** BN_num_bits: the bit length of the magnitude, whatever the sign. */
  function NumBits(x: int): nat {
    BitLength(Abs(x))
  }

  /** BN_is_odd looks at the lowest bit of the magnitude; Euclidean % 2 has the same parity. */
  predicate IsOdd(x: int) {
    x % 2 == 1
  }

  /** A bit length of at most k is exactly a value below 2^k. */
  lemma {:induction false} BitLengthAtMost(x: nat, k: nat)
    ensures BitLength(x) <= k <==> x < Pow2(k)
  {
    if k > 0 && x > 0 {
      BitLengthAtMost(x / 2, k - 1);
    }
  }

  /** NumBits stated on the magnitude, in both directions. */
  lemma NumBitsAtMost(x: int, k: nat)
    ensures NumBits(x) <= k <==> Abs(x) < Pow2(k)
  {
    BitLengthAtMost(Abs(x), k);
  }

  lemma {:induction false} Pow2Monotone(j: nat, k: nat)
    requires j <= k
    ensures Pow2(j) <= Pow2(k)
  {
    if j < k {
      Pow2Monotone(j, k - 1);
    }
  }

  lemma {:induction false} Pow2Add(a: nat, b: nat)
    ensures Pow2(a + b) == Pow2(a) * Pow2(b)
  {
    if a > 0 {
      Pow2Add(a - 1, b);
    }
  }

  lemma Pow2Of16()
    ensures Pow2(16) == 65536
  {
    assert Pow2(4) == 16;
    Pow2Add(4, 4);
    Pow2Add(8, 8);
  }

  /** Euclid's algorithm on non-negative integers; BN_gcd computes the same value. */
  function Gcd(a: nat, b: nat): nat
    decreases b
  {
    if b == 0 then a else Gcd(b, a % b)
  }

  predicate IsPrime(x: nat) {
    x >= 2 && forall d :: 2 <= d < x ==> x % d != 0
  }

  /** The product of the primes in [lo, hi]. */
  function PrimeProduct(lo: nat, hi: nat): (r: nat)
    decreases hi + 1 - lo
  {
    if lo > hi then 1 else (if IsPrime(lo) then lo else 1) * PrimeProduct(lo + 1, hi)
  }

  /** The product of the 132 smallest odd primes, 3 to 751 (section 5.3.3 of NIST SP 800-89). */
  function SmallFactorsProduct(): nat {
    PrimeProduct(3, 751)
  }

  lemma MultipleAtLeast(c: int, k: int)
    requires c > 0
    ensures k >= 1 ==> c * k >= c
    ensures k <= -1 ==> c * k <= -c
  {
    assert c * k == c * (k - 1) + c;
    assert c * k == c * (k + 1) - c;
  }

  lemma MultipleIsDivisible(c: int, m: int)
    requires c > 0
    ensures (c * m) % c == 0
  {
    var q, r := (c * m) / c, (c * m) % c;
    assert c * (m - q) == r;
    MultipleAtLeast(c, m - q);
  }

  lemma DivisibleTimes(c: int, x: int, f: int)
    requires c > 0 && x % c == 0
    ensures (f * x) % c == 0
  {
    var i := x / c;
    assert x == c * i;
    assert f * x == c * (f * i);
    MultipleIsDivisible(c, f * i);
  }

  lemma DivisibleCombination(a: int, b: int, c: int, k: int)
    requires c > 0 && a % c == 0 && b % c == 0
    ensures (a - k * b) % c == 0
  {
    var i, j := a / c, b / c;
    assert a == c * i && b == c * j;
    assert a - k * b == c * (i - k * j);
    MultipleIsDivisible(c, i - k * j);
  }

  /** Every common divisor of a and b divides their gcd. */
  lemma {:induction false} CommonDivisorDividesGcd(a: nat, b: nat, c: nat)
    requires c > 0 && a % c == 0 && b % c == 0
    ensures Gcd(a, b) % c == 0
    decreases b
  {
    if b != 0 {
      assert a % b == a - (a / b) * b;
      DivisibleCombination(a, b, c, a / b);
      CommonDivisorDividesGcd(b, a % b, c);
    }
  }

  /** Each prime of the range divides the product of the range's primes. */
  lemma {:induction false} PrimeDividesPrimeProduct(c: nat, lo: nat, hi: nat)
    requires lo <= c <= hi && IsPrime(c)
    ensures PrimeProduct(lo, hi) % c == 0
    decreases hi + 1 - lo
  {
    if lo == c {
      MultipleIsDivisible(c, PrimeProduct(lo + 1, hi));
    } else {
      PrimeDividesPrimeProduct(c, lo + 1, hi);
      DivisibleTimes(c, PrimeProduct(lo + 1, hi), if IsPrime(lo) then lo else 1);
    }
  }

  /** A number coprime to the product of the primes of a range has no prime factor there. */
  lemma CoprimeToPrimeProduct(n: nat, c: nat, lo: nat, hi: nat)
    requires Gcd(n, PrimeProduct(lo, hi)) == 1
    requires lo <= c <= hi && IsPrime(c)
    ensures n % c != 0
  {
    if n % c == 0 {
      PrimeDividesPrimeProduct(c, lo, hi);
      CommonDivisorDividesGcd(n, PrimeProduct(lo, hi), c);
    }
  }

  /** A modulus coprime to the small-factors product has no prime factor from 3 to 751. */
  lemma CoprimeToSmallFactors(n: nat, c: nat)
    requires Gcd(n, SmallFactorsProduct()) == 1
    requires 3 <= c <= 751 && IsPrime(c)
    ensures n % c != 0
  {
    CoprimeToPrimeProduct(n, c, 3, 751);
  }
}
