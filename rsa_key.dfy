/**
 * The RSA key as a value (which of its eight big-integer components are present, and its
 * flag word) and the pure checks on it: the shape classifier
 * (determine_key_type_for_checking), the public-component validator
 * (is_public_component_of_rsa_key_good) and the consistency check (RSA_check_key).
 */
module RsaKey {
  import opened Base
  import opened BigNum

  /** The error reasons the RSA core reports, one per distinct failure. */
  datatype RsaError =
    | ValueMissing              // RSA_R_VALUE_MISSING
    | ModulusTooLarge           // RSA_R_MODULUS_TOO_LARGE
    | BadRsaParameters          // RSA_R_BAD_RSA_PARAMETERS
    | BadEValue                 // RSA_R_BAD_E_VALUE
    | NNotEqualPQ               // RSA_R_N_NOT_EQUAL_P_Q
    | DENotCongruentTo1         // RSA_R_D_E_NOT_CONGRUENT_TO_1
    | CrtValuesIncorrect        // RSA_R_CRT_VALUES_INCORRECT
    | BnLibError                // ERR_LIB_BN: the big-integer library refused an operand
    | InvalidMessageLength      // RSA_R_INVALID_MESSAGE_LENGTH
    | UnknownAlgorithmType      // RSA_R_UNKNOWN_ALGORITHM_TYPE
    | BadSignature              // RSA_R_BAD_SIGNATURE
    | MismatchedSignature       // RSA_R_MISMATCHED_SIGNATURE
    | PublicKeyValidationFailed // RSA_R_PUBLIC_KEY_VALIDATION_FAILED
    | InternalError             // ERR_R_INTERNAL_ERROR
    | PassedNullParameter       // ERR_R_PASSED_NULL_PARAMETER
    | Overflow                  // ERR_R_OVERFLOW
    | CollaboratorFailed        // a padding routine, raw transform or method hook reported failure

  // Flag bits of the key (values from openssl/rsa.h).
  const FlagOpaque: bv32 := 0x01
  const FlagNoBlinding: bv32 := 0x08
  const FlagNoPublicExponent: bv32 := 0x40
  const FlagLargePublicExponent: bv32 := 0x80

  predicate HasFlag(flags: bv32, flag: bv32) {
    flags & flag != 0
  }

  /** The modulus may have at most 16 * 1024 bits. */
  const MaxModulusBits: nat := 16 * 1024
  /** Without the large-exponent flag the public exponent may have at most 33 bits. */
  const MaxPublicExponentBits: nat := 33

  /** The components of a key. */
  datatype Component = N | E | D | P | Q | Dmp1 | Dmq1 | Iqmp

  /** A snapshot of a key: every big-integer field, None when the pointer is NULL. */
  datatype KeyValue = KeyValue(
    n: Option<int>, e: Option<int>, d: Option<int>,
    p: Option<int>, q: Option<int>,
    dmp1: Option<int>, dmq1: Option<int>, iqmp: Option<int>,
    flags: bv32)

  /** The key with no component and the given flags, as RSA_new leaves it. */
  function EmptyKey(flags: bv32): KeyValue {
    KeyValue(None, None, None, None, None, None, None, None, flags)
  }

  /** Whether component c of the key is present (its pointer is not NULL). */
  predicate HasComponent(k: KeyValue, c: Component) {
    match c
    case N => k.n.Some?
    case E => k.e.Some?
    case D => k.d.Some?
    case P => k.p.Some?
    case Q => k.q.Some?
    case Dmp1 => k.dmp1.Some?
    case Dmq1 => k.dmq1.Some?
    case Iqmp => k.iqmp.Some?
  }

  /** The set of components that are present. */
  function Present(k: KeyValue): set<Component> {
    set c: Component | HasComponent(k, c)
  }

  /** The five key shapes the checks support, plus Invalid for every other combination. */
  datatype KeyShape = Public | PrivateMin | Private | PrivateCrt | PrivateStrip | Invalid

  /** The components each supported shape consists of. */
  function ShapeComponents(s: KeyShape): set<Component> {
    match s
    case Public => {N, E}
    case PrivateMin => {N, E, D}
    case Private => {N, E, D, P, Q}
    case PrivateCrt => {N, E, D, P, Q, Dmp1, Dmq1, Iqmp}
    case PrivateStrip => {N, D}
    case Invalid => {}
  }

  /** determine_key_type_for_checking: the presence tests, in the source's order. */
  function DetermineKeyType(k: KeyValue): KeyShape {
    var noPrivateExtras := k.p.None? && k.q.None? && k.dmp1.None? && k.dmq1.None? && k.iqmp.None?;
    var noCrt := k.dmp1.None? && k.dmq1.None? && k.iqmp.None?;
    if k.n.None? then Invalid
    else if k.e.Some? && k.d.None? && noPrivateExtras then Public
    else if k.e.Some? && k.d.Some? && noPrivateExtras then PrivateMin
    else if k.e.Some? && k.d.Some? && k.p.Some? && k.q.Some? && noCrt then Private
    else if k.e.Some? && k.d.Some? && k.p.Some? && k.q.Some? &&
            k.dmp1.Some? && k.dmq1.Some? && k.iqmp.Some? then PrivateCrt
    else if k.e.None? && k.d.Some? && noPrivateExtras then PrivateStrip
    else Invalid
  }

  predicate IsSupportedShape(s: KeyShape) {
    s != Invalid
  }

  /** Membership in Present is exactly presence of the field. */
  lemma PresentMembers(k: KeyValue)
    ensures N in Present(k) <==> k.n.Some?
    ensures E in Present(k) <==> k.e.Some?
    ensures D in Present(k) <==> k.d.Some?
    ensures P in Present(k) <==> k.p.Some?
    ensures Q in Present(k) <==> k.q.Some?
    ensures Dmp1 in Present(k) <==> k.dmp1.Some?
    ensures Dmq1 in Present(k) <==> k.dmq1.Some?
    ensures Iqmp in Present(k) <==> k.iqmp.Some?
  {
  }

  /** Two component sets are equal when they agree on every component. */
  lemma ComponentSetsEqual(a: set<Component>, b: set<Component>)
    requires N in a <==> N in b
    requires E in a <==> E in b
    requires D in a <==> D in b
    requires P in a <==> P in b
    requires Q in a <==> Q in b
    requires Dmp1 in a <==> Dmp1 in b
    requires Dmq1 in a <==> Dmq1 in b
    requires Iqmp in a <==> Iqmp in b
    ensures a == b
  {
    forall c | c in a ensures c in b {
      match c
      case N => case E => case D => case P => case Q => case Dmp1 => case Dmq1 => case Iqmp =>
    }
    forall c | c in b ensures c in a {
      match c
      case N => case E => case D => case P => case Q => case Dmp1 => case Dmq1 => case Iqmp =>
    }
  }

  /** One supported shape: the classifier returns it exactly when its components are present. */
  lemma ClassifiedAsShape(k: KeyValue, t: KeyShape)
    requires IsSupportedShape(t)
    ensures DetermineKeyType(k) == t <==> Present(k) == ShapeComponents(t)
  {
    PresentMembers(k);
    var pr, ct := Present(k), ShapeComponents(t);
    if DetermineKeyType(k) == t {
      ComponentSetsEqual(pr, ct);
    }
    if pr == ct {
      assert N in pr <==> N in ct;
      assert E in pr <==> E in ct;
      assert D in pr <==> D in ct;
      assert P in pr <==> P in ct;
      assert Q in pr <==> Q in ct;
      assert Dmp1 in pr <==> Dmp1 in ct;
      assert Dmq1 in pr <==> Dmq1 in ct;
      assert Iqmp in pr <==> Iqmp in ct;
    }
  }

  /**
   * The classifier agrees with the presence sets: a supported shape is returned exactly when
   * the present components are that shape's components, and Invalid exactly when they are
   * none of the five.
   */
  lemma DetermineKeyTypeMatchesPresence(k: KeyValue, s: KeyShape)
    ensures k.n.None? ==> DetermineKeyType(k) == Invalid
    ensures s != Invalid ==> (DetermineKeyType(k) == s <==> Present(k) == ShapeComponents(s))
    ensures DetermineKeyType(k) == Invalid <==>
      forall t :: IsSupportedShape(t) ==> Present(k) != ShapeComponents(t)
  {
    if s != Invalid {
      ClassifiedAsShape(k, s);
    }
    forall t | IsSupportedShape(t)
      ensures DetermineKeyType(k) == t <==> Present(k) == ShapeComponents(t)
    {
      ClassifiedAsShape(k, t);
    }
    var s0 := DetermineKeyType(k);
    assert IsSupportedShape(s0) ==> Present(k) == ShapeComponents(s0);
  }

  /** The five supported shapes have pairwise different components, so they never overlap. */
  lemma ShapesAreExclusive(s: KeyShape, t: KeyShape)
    requires IsSupportedShape(s) && IsSupportedShape(t) && s != t
    ensures ShapeComponents(s) != ShapeComponents(t)
  {
    var cs, ct := ShapeComponents(s), ShapeComponents(t);
    assert (E in cs) != (E in ct) || (D in cs) != (D in ct) || (P in cs) != (P in ct) ||
           (Dmp1 in cs) != (Dmp1 in ct);
  }

  /** is_public_component_of_rsa_key_good: the ordered checks, first failure reported. */
  function PublicComponentGood(k: KeyValue): Outcome<RsaError> {
    if k.n.None? then Fail(ValueMissing)
    else if NumBits(k.n.value) > MaxModulusBits then Fail(ModulusTooLarge)
    else if !IsOdd(k.n.value) || k.n.value < 0 then Fail(BadRsaParameters)
    else if k.e.None? then
      (if !HasFlag(k.flags, FlagNoPublicExponent) then Fail(ValueMissing) else Pass)
    else if !IsOdd(k.e.value) || k.e.value < 0 || NumBits(k.e.value) < 2 then Fail(BadEValue)
    else if HasFlag(k.flags, FlagLargePublicExponent) then
      (if Abs(k.n.value) <= Abs(k.e.value) then Fail(BadEValue) else Pass)
    else if NumBits(k.e.value) > MaxPublicExponentBits then Fail(BadEValue)
    else Pass
  }

  /** A usable modulus: positive, odd, below 2^16384. */
  predicate ModulusValid(n: int) {
    1 <= n < Pow2(MaxModulusBits) && IsOdd(n)
  }

  /** A usable public exponent: odd, at least 3, and below n or below 2^33. */
  predicate ExponentValid(n: int, e: int, flags: bv32) {
    3 <= e && IsOdd(e) &&
    if HasFlag(flags, FlagLargePublicExponent) then e < n else e < Pow2(MaxPublicExponentBits)
  }

  /** The public component in numeric terms rather than in bit lengths. */
  predicate PublicComponentValid(k: KeyValue) {
    && k.n.Some? && ModulusValid(k.n.value)
    && (k.e.None? ==> HasFlag(k.flags, FlagNoPublicExponent))
    && (k.e.Some? ==> ExponentValid(k.n.value, k.e.value, k.flags))
  }

  /** The modulus tests of the validator, restated on the value of n. */
  lemma ModulusChecks(n: int)
    ensures NumBits(n) > MaxModulusBits <==> Abs(n) >= Pow2(MaxModulusBits)
    ensures (NumBits(n) <= MaxModulusBits && IsOdd(n) && n >= 0) <==> ModulusValid(n)
  {
    NumBitsAtMost(n, MaxModulusBits);
  }

  /** The exponent tests of the validator, restated on the values of n and e. */
  lemma ExponentChecks(n: int, e: int, flags: bv32)
    requires ModulusValid(n)
    ensures (&& IsOdd(e) && e >= 0 && NumBits(e) >= 2
             && (if HasFlag(flags, FlagLargePublicExponent) then Abs(n) > Abs(e)
                 else NumBits(e) <= MaxPublicExponentBits))
            <==> ExponentValid(n, e, flags)
  {
    NumBitsAtMost(e, 1);
    NumBitsAtMost(e, MaxPublicExponentBits);
    assert Pow2(1) == 2;
  }

  /** What the public-component check accepts: exactly the keys whose public part is valid. */
  lemma PublicComponentGoodMeaning(k: KeyValue)
    ensures PublicComponentGood(k).Pass? <==> PublicComponentValid(k)
  {
    if k.n.Some? {
      ModulusChecks(k.n.value);
      if ModulusValid(k.n.value) && k.e.Some? {
        ExponentChecks(k.n.value, k.e.value, k.flags);
      }
    }
  }

  /**
   * Which error each rejection of the public-component check reports: a modulus of up to
   * 16384 bits passes the size test and one of 16385 or more fails it; an absent exponent
   * passes exactly when the no-public-exponent flag is set.
   */
  lemma PublicComponentGoodErrors(k: KeyValue)
    ensures PublicComponentGood(k) == Fail(ModulusTooLarge) <==>
      k.n.Some? && Abs(k.n.value) >= Pow2(MaxModulusBits)
    ensures PublicComponentGood(k) == Fail(BadRsaParameters) <==>
      k.n.Some? && Abs(k.n.value) < Pow2(MaxModulusBits) && (k.n.value < 0 || !IsOdd(k.n.value))
    ensures PublicComponentGood(k) == Fail(ValueMissing) <==>
      k.n.None? || (ModulusValid(k.n.value) && k.e.None? && !HasFlag(k.flags, FlagNoPublicExponent))
    ensures PublicComponentGood(k) == Fail(BadEValue) <==>
      k.n.Some? && ModulusValid(k.n.value) && k.e.Some? &&
      !ExponentValid(k.n.value, k.e.value, k.flags)
  {
    if k.n.Some? {
      ModulusChecks(k.n.value);
      if ModulusValid(k.n.value) && k.e.Some? {
        ExponentChecks(k.n.value, k.e.value, k.flags);
      }
    }
  }



  /** a mod m = 1 for a positive modulus m. */
  predicate ModIsOne(a: int, m: int) {
    m > 0 && a % m == 1
  }

  /**
   * Once 0 <= p, q < n and p * q = n, both factors are at least 2, so p - 1 and q - 1 can be
   * divided by; when n is odd, both are odd and at least 3, so p - 1 and q - 1 are at least 2.
   */
  lemma FactorBounds(n: int, p: int, q: int)
    requires 0 <= p < n && 0 <= q < n && p * q == n
    ensures p >= 2 && q >= 2
    ensures IsOdd(n) ==> IsOdd(p) && IsOdd(q) && p - 1 >= 2 && q - 1 >= 2
  {
    if p % 2 == 0 {
      DivisibleTimes(2, p, q);
      assert n % 2 == 0;
    }
    if q % 2 == 0 {
      DivisibleTimes(2, q, p);
      assert n % 2 == 0;
    }
  }

  /** The precomputed CRT values of a key. */
  datatype CrtParams = CrtParams(dmp1: int, dmq1: int, iqmp: int)

  /**
   * The arithmetic part of RSA_check_key for keys that carry p and q: bounds, the
   * factorisation, the exponent congruences and, when present, the CRT values.
   * bn_mul_consttime and bn_div_consttime refuse negative operands, which shows up here as
   * BnLibError for a negative d, e or iqmp.
   */
  function CheckFactors(n: int, e: int, d: int, p: int, q: int, crt: Option<CrtParams>): Outcome<RsaError> {
    if p < 0 || p >= n || q < 0 || q >= n then Fail(BadRsaParameters)
    else if p * q != n then Fail(NNotEqualPQ)
    else
      FactorBounds(n, p, q);
      if d < 0 || e < 0 then Fail(BnLibError)
      else if (d * e) % (p - 1) != 1 || (d * e) % (q - 1) != 1 then Fail(DENotCongruentTo1)
      else if crt.None? then Pass
      else if d % (p - 1) != crt.value.dmp1 || d % (q - 1) != crt.value.dmq1 then Fail(CrtValuesIncorrect)
      else if crt.value.iqmp >= p then Fail(CrtValuesIncorrect)
      else if crt.value.iqmp < 0 then Fail(BnLibError)
      else if (q * crt.value.iqmp) % p != 1 then Fail(CrtValuesIncorrect)
      else Pass
  }

  /** The factorisation and exponent conditions a private key with p and q must meet. */
  predicate FactorsConsistent(n: int, e: int, d: int, p: int, q: int) {
    && 0 <= p < n && 0 <= q < n && p * q == n
    && d >= 0 && e >= 0
    && ModIsOne(d * e, p - 1) && ModIsOne(d * e, q - 1)
  }

  /** The CRT conditions: dmp1 = d mod (p-1), dmq1 = d mod (q-1), iqmp = q^-1 mod p, reduced. */
  predicate CrtConsistent(d: int, p: int, q: int, c: CrtParams) {
    && p >= 2 && q >= 2
    && c.dmp1 == d % (p - 1) && c.dmq1 == d % (q - 1)
    && 0 <= c.iqmp < p && ModIsOne(q * c.iqmp, p)
  }

  /** The CRT values of a key that has all three of them. */
  function CrtOf(k: KeyValue): Option<CrtParams> {
    if k.dmp1.Some? && k.dmq1.Some? && k.iqmp.Some?
    then Some(CrtParams(k.dmp1.value, k.dmq1.value, k.iqmp.value))
    else None
  }

  /** RSA_check_key. */
  function CheckKey(k: KeyValue): Outcome<RsaError> {
    var shape := DetermineKeyType(k);
    if shape == Invalid then Fail(BadRsaParameters)
    else if PublicComponentGood(k).Fail? then PublicComponentGood(k)
    else if shape == Public || shape == PrivateMin || shape == PrivateStrip then Pass
    else CheckFactors(k.n.value, k.e.value, k.d.value, k.p.value, k.q.value,
                      if shape == PrivateCrt then CrtOf(k) else None)
  }

  /** What the factor check accepts, in both directions, with the CRT conditions when given. */
  lemma CheckFactorsMeaning(n: int, e: int, d: int, p: int, q: int, crt: Option<CrtParams>)
    ensures CheckFactors(n, e, d, p, q, crt).Pass? <==>
      FactorsConsistent(n, e, d, p, q) && (crt.Some? ==> CrtConsistent(d, p, q, crt.value))
    ensures CheckFactors(n, e, d, p, q, crt) == Fail(NNotEqualPQ) <==>
      0 <= p < n && 0 <= q < n && p * q != n
  {
    if 0 <= p < n && 0 <= q < n && p * q == n {
      FactorBounds(n, p, q);
    }
  }

  /**
   * RSA_check_key: an Invalid shape is rejected; the public, minimal and stripped shapes are
   * exactly the public-component check; the Private and PrivateCRT shapes pass exactly when
   * the public component is good, p * q = n with both factors in [0, n), d * e = 1 modulo
   * p - 1 and modulo q - 1, and, for PrivateCRT, the CRT values are right.
   */
  lemma CheckKeyMeaning(k: KeyValue)
    ensures DetermineKeyType(k) == Invalid ==> CheckKey(k) == Fail(BadRsaParameters)
    ensures DetermineKeyType(k) in {Public, PrivateMin, PrivateStrip} ==>
      CheckKey(k) == PublicComponentGood(k)
    ensures DetermineKeyType(k) in {Private, PrivateCrt} ==>
      (CheckKey(k).Pass? <==>
        && PublicComponentValid(k)
        && FactorsConsistent(k.n.value, k.e.value, k.d.value, k.p.value, k.q.value)
        && (DetermineKeyType(k) == PrivateCrt ==>
              CrtConsistent(k.d.value, k.p.value, k.q.value, CrtOf(k).value)))
  {
    PublicComponentGoodMeaning(k);
    var shape := DetermineKeyType(k);
    if shape == Private || shape == PrivateCrt {
      CheckFactorsMeaning(k.n.value, k.e.value, k.d.value, k.p.value, k.q.value,
                          if shape == PrivateCrt then CrtOf(k) else None);
    }
  }

  /** Every key RSA_check_key accepts has a supported shape and a valid public component. */
  lemma CheckKeyPassIsPublicValid(k: KeyValue)
    requires CheckKey(k).Pass?
    ensures IsSupportedShape(DetermineKeyType(k)) && PublicComponentValid(k)
  {
    PublicComponentGoodMeaning(k);
  }

  /**
   * An accepted key with factors has two odd factors of at least 3 whose product is n, so
   * (p - 1) and (q - 1) are at least 2.
   */
  lemma CheckedFactorsAreOdd(k: KeyValue)
    requires CheckKey(k).Pass? && DetermineKeyType(k) in {Private, PrivateCrt}
    ensures k.p.value * k.q.value == k.n.value
    ensures IsOdd(k.p.value) && IsOdd(k.q.value) && k.p.value >= 3 && k.q.value >= 3
  {
    CheckKeyMeaning(k);
    FactorBounds(k.n.value, k.p.value, k.q.value);
  }

  /** A CRT key whose dmp1 is one more than d mod (p-1) fails with CrtValuesIncorrect. */
  lemma DmpOffByOneIsCrtError(k: KeyValue)
    requires DetermineKeyType(k) == PrivateCrt && PublicComponentValid(k)
    requires FactorsConsistent(k.n.value, k.e.value, k.d.value, k.p.value, k.q.value)
    requires k.dmp1.value == k.d.value % (k.p.value - 1) + 1
    ensures CheckKey(k) == Fail(CrtValuesIncorrect)
  {
    PublicComponentGoodMeaning(k);
  }
}
