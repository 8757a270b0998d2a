/**
 * RSA_check_fips: the key checks of SP 800-89 for signature keys. The shape filter and
 * RSA_check_key come first, then the partial public-key validation of section 5.3.3 of
 * NIST SP 800-89, then the pair-wise consistency test. The primality test and the pair-wise
 * test are oracles.
 */
module RsaFips {
  import opened Base
  import opened BigNum
  import opened RsaKey

  /** The verdicts of the enhanced Miller-Rabin test (bn_primality_result_t). */
  datatype Primality = ProbablyPrime | Composite | NonPrimePowerComposite

  /** Every shape the FIPS check accepts has both n and e. */
  lemma ShapeHasPublicComponent(k: KeyValue)
    requires DetermineKeyType(k) != Invalid && DetermineKeyType(k) != PrivateStrip
    ensures k.n.Some? && k.e.Some?
  {
  }

  /**
   * The partial public-key validation: 16 < bits(e) <= 256, n and e odd, n coprime to the
   * product of the odd primes up to 751, and n an odd composite that is not a prime power
   * (the primality oracle answers None when the test itself fails).
   */
  predicate PlausiblePublicKey(n: int, e: int, primality: int -> Option<Primality>) {
    && 16 < NumBits(e) <= 256
    && IsOdd(n) && IsOdd(e)
    && Gcd(Abs(n), SmallFactorsProduct()) == 1
    && primality(n) == Some(NonPrimePowerComposite)
  }

  /** RSA_check_fips, with the pair-wise consistency test as an oracle on the key. */
  function CheckFips(k: KeyValue, primality: int -> Option<Primality>,
                     pairwise: KeyValue -> bool): Outcome<RsaError> {
    var shape := DetermineKeyType(k);
    if shape == Invalid || shape == PrivateStrip then Fail(BadRsaParameters)
    else if CheckKey(k).Fail? then CheckKey(k)
    else
      ShapeHasPublicComponent(k);
      if !PlausiblePublicKey(k.n.value, k.e.value, primality) then Fail(PublicKeyValidationFailed)
      else if shape == Public then Pass
      else if pairwise(k) then Pass
      else Fail(PublicKeyValidationFailed)
  }

  /**
   * What the FIPS check accepts, in both directions: a public or non-stripped private key
   * that RSA_check_key accepts, whose public part is plausible, and, unless it is public,
   * that passes the pair-wise test.
   */
  lemma CheckFipsMeaning(k: KeyValue, primality: int -> Option<Primality>, pairwise: KeyValue -> bool)
    ensures CheckFips(k, primality, pairwise) == Pass <==>
      && DetermineKeyType(k) in {Public, PrivateMin, Private, PrivateCrt}
      && CheckKey(k) == Pass
      && PlausiblePublicKey(k.n.value, k.e.value, primality)
      && (DetermineKeyType(k) == Public || pairwise(k))
    ensures CheckFips(k, primality, pairwise) == Fail(BadRsaParameters) <==>
      DetermineKeyType(k) in {Invalid, PrivateStrip} ||
      (DetermineKeyType(k) != Invalid && CheckKey(k) == Fail(BadRsaParameters))
  {
    if DetermineKeyType(k) !in {Invalid, PrivateStrip} {
      ShapeHasPublicComponent(k);
    }
  }

  /** The shape filter comes before everything: its verdict is the same whatever the oracles say. */
  lemma ShapeFilterComesFirst(k: KeyValue, prim1: int -> Option<Primality>, pair1: KeyValue -> bool,
                              prim2: int -> Option<Primality>, pair2: KeyValue -> bool)
    requires DetermineKeyType(k) == Invalid || DetermineKeyType(k) == PrivateStrip
    ensures CheckFips(k, prim1, pair1) == CheckFips(k, prim2, pair2) == Fail(BadRsaParameters)
  {
  }

  /** RSA_check_key runs before the oracles: a key it rejects is rejected with its error. */
  lemma CheckKeyComesBeforeOracles(k: KeyValue, primality: int -> Option<Primality>,
                                   pairwise: KeyValue -> bool)
    requires DetermineKeyType(k) != Invalid && DetermineKeyType(k) != PrivateStrip
    requires CheckKey(k).Fail?
    ensures CheckFips(k, primality, pairwise) == CheckKey(k)
  {
  }

  /** A public key is never put to the pair-wise test. */
  lemma PublicKeySkipsPairwise(k: KeyValue, primality: int -> Option<Primality>,
                               pair1: KeyValue -> bool, pair2: KeyValue -> bool)
    requires DetermineKeyType(k) == Public
    ensures CheckFips(k, primality, pair1) == CheckFips(k, primality, pair2)
  {
  }

  /** An accepted key has a positive odd modulus with no prime factor from 3 to 751. */
  lemma CheckFipsPassModulus(k: KeyValue, primality: int -> Option<Primality>, pairwise: KeyValue -> bool)
    requires CheckFips(k, primality, pairwise) == Pass
    ensures k.n.Some? && k.n.value >= 1 && IsOdd(k.n.value)
    ensures forall c :: 3 <= c <= 751 && IsPrime(c) ==> k.n.value % c != 0
  {
    CheckFipsMeaning(k, primality, pairwise);
    CheckKeyPassIsPublicValid(k);
    var n := k.n.value;
    forall c | 3 <= c <= 751 && IsPrime(c)
      ensures n % c != 0
    {
      CoprimeToSmallFactors(n, c);
    }
  }

  /** An odd exponent of more than 16 and at most 256 bits lies in [65537, 2^256). */
  lemma PlausibleExponentBounds(e: int)
    requires 16 < NumBits(e) <= 256 && IsOdd(e) && e >= 0
    ensures 65537 <= e < Pow2(256)
  {
    NumBitsAtMost(e, 16);
    NumBitsAtMost(e, 256);
    Pow2Of16();
    assert Abs(e) == e;
    assert 65536 <= e;
    assert e != 65536 by {
      assert 65536 % 2 == 0;
    }
  }

  /** An accepted key has a public exponent of at least 65537 and below 2^256. */
  lemma CheckFipsPassExponent(k: KeyValue, primality: int -> Option<Primality>, pairwise: KeyValue -> bool)
    requires CheckFips(k, primality, pairwise) == Pass
    ensures k.e.Some? && 65537 <= k.e.value < Pow2(256)
  {
    CheckFipsMeaning(k, primality, pairwise);
    CheckKeyPassIsPublicValid(k);
    PlausibleExponentBounds(k.e.value);
  }
}
