# RSA key core of AWS-LC and the libra stash record, in Dafny

This project models two pieces of the mega repository and proves properties of them.

**The RSA key object of AWS-LC** (its `crypto/fipsmodule/rsa/rsa.c`), in five parts:

- **The key value.** `RsaKey` holds the eight big-integer components, each possibly NULL. It classifies a key into the five shapes the checks support: public, minimal private, private, private with CRT values, and stripped private. It implements the public-component validator and `RSA_check_key` as functions that return the first error the C code reports.
- **The key object.** `RsaObject.Rsa` is a class with the C struct's fields: the components, the flag word, the reference count and the method table. Its methods model the `RSA_new_*` constructors, `bn_dup_into`, `RSA_free`, `RSA_up_ref`, the three `RSA_set0_*` mutators and the flag and blinding functions.
- **PKCS #1 v1.5 digest handling.** `Pkcs1` follows section 9.2 of RFC 8017: the DigestInfo prefix table, `rsa_check_digest_size` and `RSA_add_pkcs1_prefix`. The table scans are methods with loops, and `RSA_add_pkcs1_prefix` fills a fresh array.
- **Signing and verification dispatch.** `RsaSign` covers the method-hook conventions, PKCS #1 signing and verification, and the guards of the PSS entry points. The raw RSA transforms, the PSS encoder and checker, and `rsa_default_size` are uninterpreted functions gathered in `Backend`.
- **`RSA_check_fips`.** `RsaFips` holds the order of checks and the partial public-key validation of section 5.3.3 of NIST SP 800-89. The primality test and the pair-wise consistency test are oracles.

**The stash record of libra** (`libra/src/command/stash.rs`) is modelled in `Stash`:

- `SHA1::from_str`;
- the one-line record `stash:index:message` that `save_stash_entry` writes;
- the parse of that record in `get_stash`.

## Representation

- **Components.** A BIGNUM field is `Option<int>`, with `None` for NULL. `BN_num_bits` is the bit length of the magnitude. `BN_is_odd` is `x % 2 == 1`, which has the parity of the magnitude.
- **Flags.** The flag word is a `bv32`, with the bit values of `openssl/rsa.h`: opaque `0x01`, no blinding `0x08`, no public exponent `0x40`, large public exponent `0x80`.
- **Hash identifiers.** These form the datatype `Pkcs1.HashNid`. The numeric NIDs are not needed.
- **Message digests of the PSS entry points.** An `EVP_MD` is its identifier `md` (`OtherNid` for digests such as MD4 or RIPEMD-160 that the PKCS #1 table does not list) together with `mdLen`, its `EVP_MD_size`. The PSS members accept every such pair.
- **The prefix table.** `Pkcs1.PrefixTable` lists each entry's hash, `hash_len` and `len`, in the C table's order. The entry's 19-byte `bytes` field is `SigPrefix.Bytes()`, chosen by the entry's hash. The two are the same data, since each hash has exactly one entry.
- **Method tables.** An `RSA_METHOD` is the datatype `RsaObject.RsaMethod`: its flags, the outcome of its `init` hook, and optional `sign_raw`, `sign` and `size` overrides. The overrides are functions applied to a snapshot of the key.
- **Stash text.** Text is `seq<char>`. `FromStr` and `ParseRecord` require ASCII text. For ASCII, a character count equals Rust's byte length, and no slice can split a character.
- **`SHA1::new`.** The mercury crate's `SHA1` type is not part of this model, so `SHA1::new` is a parameter `sha1New` of the parser. `Stash.Wraps(sha1New)` says that `new` keeps the 20 decoded bytes as the hash value. Every parse and round-trip lemma holds for any `sha1New`, and states the identity round trip under `Wraps`.
- **`SHA1` Display.** Display is taken to be the 40 lower-case hexadecimal digits of the bytes. `SHA1::default()` is taken to be the all-zero hash.

## Where comments and code differ

The model follows the code in both cases below.

- The comment at `rsa.c:1119` bounds `e` by `2^33`, and the comment at `rsa.c:1260` says `log(e, 2) <= 33`. The code (`rsa.c:1179`) rejects `e` with more than 33 bits, so `e < 2^33` (`RsaKey.ExponentValid`).
- The comment at `rsa.c:1120` allows `e <= n` under the large-exponent flag. The code (`rsa.c:1169`) requires `n > e` strictly.

## Model

| member | source | states |
|---|---|---|
| RsaKey.DetermineKeyType | third-party/rust/crates/aws-lc-sys/0.22.0/aws-lc/crypto/fipsmodule/rsa/rsa.c:1203-1241 | rsa_key_type_for_checking: the shape of the key from which components are present, Invalid for any other combination; its meaning is stated by DetermineKeyTypeMatchesPresence |
| RsaKey.DetermineKeyTypeMatchesPresence | third-party/rust/crates/aws-lc-sys/0.22.0/aws-lc/crypto/fipsmodule/rsa/rsa.c:1203-1241 | a missing n gives Invalid; each of the five shapes is returned exactly when the present components are that shape's set; Invalid exactly when the components match none of the five |
| RsaKey.ClassifiedAsShape | third-party/rust/crates/aws-lc-sys/0.22.0/aws-lc/crypto/fipsmodule/rsa/rsa.c:1203-1241 | for one supported shape, the classifier returns it if and only if exactly that shape's components are present |
| RsaKey.ShapesAreExclusive | third-party/rust/crates/aws-lc-sys/0.22.0/aws-lc/crypto/fipsmodule/rsa/rsa.c:1188-1201 | the five supported shapes have pairwise different component sets, so no key fits two of them |
| RsaKey.PublicComponentGood | third-party/rust/crates/aws-lc-sys/0.22.0/aws-lc/crypto/fipsmodule/rsa/rsa.c:1122-1186 | is_public_component_of_rsa_key_good: the first failing test of n then e, as an error, or Pass; stated by PublicComponentGoodMeaning and PublicComponentGoodErrors |
| RsaKey.PublicComponentGoodMeaning | third-party/rust/crates/aws-lc-sys/0.22.0/aws-lc/crypto/fipsmodule/rsa/rsa.c:1122-1186 | the validator passes iff n is odd and in [1, 2^16384), e (if present) is odd, at least 3 and below 2^33 (or below n under the large-exponent flag), and an absent e carries the no-e flag |
| RsaKey.PublicComponentGoodErrors | third-party/rust/crates/aws-lc-sys/0.22.0/aws-lc/crypto/fipsmodule/rsa/rsa.c:1122-1186 | each error is characterised exactly, in the order the checks run: ValueMissing iff n is absent, or e is absent without the no-e flag; ModulusTooLarge iff n has more than 16384 bits; BadRsaParameters iff n fits but is even or negative; BadEValue iff n is valid and the present e fails its tests |
| RsaKey.ModulusChecks | third-party/rust/crates/aws-lc-sys/0.22.0/aws-lc/crypto/fipsmodule/rsa/rsa.c:1129-1140 | the size test on n_bits is the bound 2^16384 on the magnitude, and the size, odd and sign tests together say exactly that n is valid |
| RsaKey.ExponentChecks | third-party/rust/crates/aws-lc-sys/0.22.0/aws-lc/crypto/fipsmodule/rsa/rsa.c:1153-1183 | for a valid n, the odd, sign and e_bits < 2 tests, then either n > e under the large-exponent flag or e_bits <= 33, pass exactly when e is valid |
| RsaKey.FactorBounds | third-party/rust/crates/aws-lc-sys/0.22.0/aws-lc/crypto/fipsmodule/rsa/rsa.c:1317-1349 | once 0 <= p, q < n and p*q = n, both factors are at least 2; with n odd both are odd and p-1, q-1 >= 2, so the divisions by p-1 and q-1 are defined |
| RsaKey.CheckFactors | third-party/rust/crates/aws-lc-sys/0.22.0/aws-lc/crypto/fipsmodule/rsa/rsa.c:1317-1400 | the factor, exponent-congruence and CRT tests of RSA_check_key in their order, returning the first error; stated by CheckFactorsMeaning |
| RsaKey.CheckFactorsMeaning | third-party/rust/crates/aws-lc-sys/0.22.0/aws-lc/crypto/fipsmodule/rsa/rsa.c:1317-1400 | the factor checks pass iff p, q lie in [0, n), p*q = n, d*e mod (p-1) = 1 and mod (q-1) = 1, and (when given) dmp1 = d mod (p-1), dmq1 = d mod (q-1), 0 <= iqmp < p and q*iqmp mod p = 1; NNotEqualPQ exactly when the bounds hold and p*q != n |
| RsaKey.CheckKey | third-party/rust/crates/aws-lc-sys/0.22.0/aws-lc/crypto/fipsmodule/rsa/rsa.c:1272-1415 | RSA_check_key: the shape filter, the public-component check, then for keys with factors the factor checks; stated by CheckKeyMeaning and CheckKeyPassIsPublicValid |
| RsaKey.CheckKeyMeaning | third-party/rust/crates/aws-lc-sys/0.22.0/aws-lc/crypto/fipsmodule/rsa/rsa.c:1272-1415 | RSA_check_key rejects Invalid; equals the public-component check for Public, PrivateMin and PrivateStrip; for Private and PrivateCRT passes iff the public part is valid, the factorisation and exponent congruences hold and, for PrivateCRT, the CRT values are right |
| RsaKey.CheckKeyPassIsPublicValid | third-party/rust/crates/aws-lc-sys/0.22.0/aws-lc/crypto/fipsmodule/rsa/rsa.c:1274-1283 | every key RSA_check_key accepts has a supported shape and a valid public component |
| RsaKey.CheckedFactorsAreOdd | third-party/rust/crates/aws-lc-sys/0.22.0/aws-lc/crypto/fipsmodule/rsa/rsa.c:1317-1334 | an accepted key with factors has p*q = n with p and q odd and at least 3 |
| RsaKey.DmpOffByOneIsCrtError | third-party/rust/crates/aws-lc-sys/0.22.0/aws-lc/crypto/fipsmodule/rsa/rsa.c:1377-1381 | a CRT key that is otherwise consistent but whose dmp1 is one more than d mod (p-1) fails with CrtValuesIncorrect |
| BigNum.CoprimeToSmallFactors | third-party/rust/crates/aws-lc-sys/0.22.0/aws-lc/crypto/fipsmodule/rsa/rsa.c:1472-1490 | a number coprime to the product of the odd primes up to 751 has none of them as a factor |
| Pkcs1.FindFrom | third-party/rust/crates/aws-lc-sys/0.22.0/aws-lc/crypto/fipsmodule/rsa/rsa.c:774-783 | the table scan from position i returns a position before the end marker whose entry has the requested id |
| Pkcs1.PrefixTableLayout | third-party/rust/crates/aws-lc-sys/0.22.0/aws-lc/crypto/fipsmodule/rsa/rsa.c:675-763 | the table has 13 entries, the end marker last and nowhere before it |
| Pkcs1.EntryAgrees | third-party/rust/crates/aws-lc-sys/0.22.0/aws-lc/crypto/fipsmodule/rsa/rsa.c:675-760 | every entry before the end marker is for a hash other than MD5+SHA1, and its hash_len is that hash's digest length |
| Pkcs1.EntryExists | third-party/rust/crates/aws-lc-sys/0.22.0/aws-lc/crypto/fipsmodule/rsa/rsa.c:675-760 | every hash of definite length other than MD5+SHA1 has an entry before the end marker |
| Pkcs1.FindMatchesHashLength | third-party/rust/crates/aws-lc-sys/0.22.0/aws-lc/crypto/fipsmodule/rsa/rsa.c:675-763 | the table has an entry exactly for the hashes of definite length other than MD5+SHA1, and its hash_len is the standard digest length |
| Pkcs1.PrefixTableIsDer | third-party/rust/crates/aws-lc-sys/0.22.0/aws-lc/crypto/fipsmodule/rsa/rsa.c:675-763 | every table prefix is a DER DigestInfo header whose length fields agree with the prefix and with the entry's digest length |
| Pkcs1.LegacyEntriesAreDer | third-party/rust/crates/aws-lc-sys/0.22.0/aws-lc/crypto/fipsmodule/rsa/rsa.c:676-689 | the MD5 and SHA-1 prefixes are DER DigestInfo headers for their digest lengths |
| Pkcs1.Sha2EntriesAreDer | third-party/rust/crates/aws-lc-sys/0.22.0/aws-lc/crypto/fipsmodule/rsa/rsa.c:690-731 | the six SHA-2 prefixes are DER DigestInfo headers for their digest lengths |
| Pkcs1.Sha3EntriesAreDer | third-party/rust/crates/aws-lc-sys/0.22.0/aws-lc/crypto/fipsmodule/rsa/rsa.c:732-759 | the four SHA-3 prefixes are DER DigestInfo headers for their digest lengths |
| Pkcs1.PositionOfHeaderInverts | third-party/rust/crates/aws-lc-sys/0.22.0/aws-lc/crypto/fipsmodule/rsa/rsa.c:675-763 | a prefix's length and its byte at offset 14 identify its table entry |
| Pkcs1.DigestSizeCheck | third-party/rust/crates/aws-lc-sys/0.22.0/aws-lc/crypto/fipsmodule/rsa/rsa.c:765-788 | passes iff the id is a known hash and the digest has that hash's length (36 for MD5+SHA1); UnknownAlgorithmType iff the id is unknown; otherwise InvalidMessageLength |
| Pkcs1.FoundEntry | third-party/rust/crates/aws-lc-sys/0.22.0/aws-lc/crypto/fipsmodule/rsa/rsa.c:774-781 | when the scan stops at an entry for the id, that is the id's entry, and the size check's verdict depends only on whether the digest has that entry's hash_len |
| Pkcs1.NotFound | third-party/rust/crates/aws-lc-sys/0.22.0/aws-lc/crypto/fipsmodule/rsa/rsa.c:774-786 | a scan that reaches the end marker without a match means the id is unknown: UnknownAlgorithmType |
| Pkcs1.CheckDigestSize | third-party/rust/crates/aws-lc-sys/0.22.0/aws-lc/crypto/fipsmodule/rsa/rsa.c:765-788 | the MD5+SHA1 test and the table loop up to the end marker compute DigestSizeCheck |
| Pkcs1.AddPkcs1Prefix | third-party/rust/crates/aws-lc-sys/0.22.0/aws-lc/crypto/fipsmodule/rsa/rsa.c:790-839 | returns DigestSizeCheck's verdict; on success the message is SignedMessage: the caller's own digest array (not allocated) for MD5+SHA1, else a fresh array holding the entry's prefix followed by the digest |
| Pkcs1.Prepend | third-party/rust/crates/aws-lc-sys/0.22.0/aws-lc/crypto/fipsmodule/rsa/rsa.c:822-828 | a fresh array holding the prefix's bytes followed by the digest |
| Pkcs1.SignedMessageLength | third-party/rust/crates/aws-lc-sys/0.22.0/aws-lc/crypto/fipsmodule/rsa/rsa.c:812-820 | the message has 36 bytes for MD5+SHA1 and prefix length plus digest length otherwise (never 36), at most 83, so the length overflow check cannot fire |
| Pkcs1.SignedMessageInjective | third-party/rust/crates/aws-lc-sys/0.22.0/aws-lc/crypto/fipsmodule/rsa/rsa.c:790-839 | different (hash, digest) pairs never produce the same signed message |
| RsaObject.Rsa.constructor | third-party/rust/crates/aws-lc-sys/0.22.0/aws-lc/crypto/fipsmodule/rsa/rsa.c:214-228 | a zeroed object: no components, the method's flags, one reference |
| RsaObject.Rsa.NewMethod | third-party/rust/crates/aws-lc-sys/0.22.0/aws-lc/crypto/fipsmodule/rsa/rsa.c:213-240 | installs the engine's method or the default one; returns NULL exactly when the init hook fails; otherwise an empty key with the method's flags and one reference |
| RsaObject.Rsa.New | third-party/rust/crates/aws-lc-sys/0.22.0/aws-lc/crypto/fipsmodule/rsa/rsa.c:211 | a fresh empty key under the default method with one reference |
| RsaObject.Rsa.DupInto | third-party/rust/crates/aws-lc-sys/0.22.0/aws-lc/crypto/fipsmodule/rsa/rsa.c:87-96 | fails and changes nothing on a NULL source; otherwise sets exactly that component |
| RsaObject.Rsa.DupAll | third-party/rust/crates/aws-lc-sys/0.22.0/aws-lc/crypto/fipsmodule/rsa/rsa.c:116-124 | succeeds iff all eight inputs are present, and then holds exactly them; each component is copied exactly when it and every earlier input are present, so after a failure the earlier copies stay in place and the rest are unchanged (the constructors then free the object); flags, count, method and derived state are unchanged |
| RsaObject.Rsa.UpRef | third-party/rust/crates/aws-lc-sys/0.22.0/aws-lc/crypto/fipsmodule/rsa/rsa.c:284-288 | adds one reference and returns 1, changing nothing else |
| RsaObject.Rsa.Free | third-party/rust/crates/aws-lc-sys/0.22.0/aws-lc/crypto/fipsmodule/rsa/rsa.c:253-282 | ignores NULL; drops one reference; only when none remain releases every component and the derived state |
| RsaObject.Rsa.CheckOrFree | third-party/rust/crates/aws-lc-sys/0.22.0/aws-lc/crypto/fipsmodule/rsa/rsa.c:103-106 | keeps the key, unchanged, iff RSA_check_key accepts it; otherwise frees it and returns NULL |
| RsaObject.Rsa.NewPublicKey | third-party/rust/crates/aws-lc-sys/0.22.0/aws-lc/crypto/fipsmodule/rsa/rsa.c:98-109 | non-NULL iff n and e are given and the key (n, e) passes RSA_check_key; the result holds exactly them |
| RsaObject.Rsa.NewPrivateKey | third-party/rust/crates/aws-lc-sys/0.22.0/aws-lc/crypto/fipsmodule/rsa/rsa.c:111-131 | non-NULL iff all eight components are given and the key passes RSA_check_key; the result holds exactly them |
| RsaObject.Rsa.NewPrivateKeyNoCrt | third-party/rust/crates/aws-lc-sys/0.22.0/aws-lc/crypto/fipsmodule/rsa/rsa.c:133-147 | non-NULL iff n, e and d are given and the key passes RSA_check_key |
| RsaObject.Rsa.NewPrivateKeyNoE | third-party/rust/crates/aws-lc-sys/0.22.0/aws-lc/crypto/fipsmodule/rsa/rsa.c:149-165 | the no-public-exponent flag is set before the check; non-NULL iff n and d are given and the flagged key (n, d) passes RSA_check_key |
| RsaObject.Rsa.NewPublicKeyLargeE | third-party/rust/crates/aws-lc-sys/0.22.0/aws-lc/crypto/fipsmodule/rsa/rsa.c:167-182 | the large-exponent flag is set before the check; non-NULL iff n and e are given and the flagged key passes RSA_check_key |
| RsaObject.Rsa.NewPrivateKeyLargeE | third-party/rust/crates/aws-lc-sys/0.22.0/aws-lc/crypto/fipsmodule/rsa/rsa.c:184-209 | the large-exponent flag is set before the check; non-NULL iff all eight components are given and the flagged key passes RSA_check_key |
| RsaObject.Rsa.NewMethodNoE | third-party/rust/crates/aws-lc-sys/0.22.0/aws-lc/crypto/fipsmodule/rsa/rsa.c:242-251 | non-NULL iff the init hook does not fail and n is given; the key holds only n, with the method's flags plus no-public-exponent, and is not checked |
| RsaObject.Rsa.Set0Key | third-party/rust/crates/aws-lc-sys/0.22.0/aws-lc/crypto/fipsmodule/rsa/rsa.c:381-403 | fails and changes nothing when n, or both e and d, would stay NULL; otherwise replaces exactly the non-NULL arguments and drops the derived state |
| RsaObject.Rsa.Set0Factors | third-party/rust/crates/aws-lc-sys/0.22.0/aws-lc/crypto/fipsmodule/rsa/rsa.c:405-424 | fails and changes nothing when p or q would stay NULL; otherwise replaces exactly the non-NULL arguments and drops the derived state |
| RsaObject.Rsa.Set0CrtParams | third-party/rust/crates/aws-lc-sys/0.22.0/aws-lc/crypto/fipsmodule/rsa/rsa.c:426-449 | fails and changes nothing when dmp1, dmq1 or iqmp would stay NULL; otherwise replaces exactly the non-NULL arguments and drops the derived state |
| RsaObject.Flags | third-party/rust/crates/aws-lc-sys/0.22.0/aws-lc/crypto/fipsmodule/rsa/rsa.c:1055-1063 | a NULL key has flags 0 |
| RsaObject.TestFlags | third-party/rust/crates/aws-lc-sys/0.22.0/aws-lc/crypto/fipsmodule/rsa/rsa.c:1075-1083 | the result has no bit outside the mask, and is 0 for a NULL key |
| RsaObject.SetFlags | third-party/rust/crates/aws-lc-sys/0.22.0/aws-lc/crypto/fipsmodule/rsa/rsa.c:1065-1073 | a NULL key reports PassedNullParameter; otherwise the flags become old flags OR f and nothing else changes |
| RsaObject.TestAfterSetFlags | third-party/rust/crates/aws-lc-sys/0.22.0/aws-lc/crypto/fipsmodule/rsa/rsa.c:1065-1083 | after set_flags(f), test_flags(f) returns all of f and every bit set before is still set |
| RsaObject.OrUnderMask | third-party/rust/crates/aws-lc-sys/0.22.0/aws-lc/crypto/fipsmodule/rsa/rsa.c:1065-1083 | testing a mask after adding bits sees the old bits and the added ones under that mask |
| RsaObject.BlindingOn | third-party/rust/crates/aws-lc-sys/0.22.0/aws-lc/crypto/fipsmodule/rsa/rsa.c:1085-1088 | RSA_blinding_on: a non-NULL key without the no-blinding flag; BlindingOffTemp shows it turns false |
| RsaObject.Rsa.IsOpaque | third-party/rust/crates/aws-lc-sys/0.22.0/aws-lc/crypto/fipsmodule/rsa/rsa.c:629-632 | RSA_is_opaque: the method carries the opaque flag (the method pointer is never NULL in this model) |
| RsaObject.BlindingOffTemp | third-party/rust/crates/aws-lc-sys/0.22.0/aws-lc/crypto/fipsmodule/rsa/rsa.c:1085-1095 | sets the no-blinding bit, keeping everything else; blinding_on then reports off |
| RsaSign.ToCInt | third-party/rust/crates/aws-lc-sys/0.22.0/aws-lc/crypto/fipsmodule/rsa/rsa.c:597 | the (int) cast of max_out is in the 32-bit signed range, the identity below 2^31, and congruent to its argument modulo 2^32 |
| RsaSign.ToCIntWrapsAtTwoToThe31 | third-party/rust/crates/aws-lc-sys/0.22.0/aws-lc/crypto/fipsmodule/rsa/rsa.c:597 | a max_out of 2^31 reaches the hook as a negative int, and 2^32 as 0 |
| RsaSign.Size | third-party/rust/crates/aws-lc-sys/0.22.0/aws-lc/crypto/fipsmodule/rsa/rsa.c:618-627 | RSA_size: the method's size hook applied to the key when there is one, else rsa_default_size |
| RsaSign.SignRawOutcome | third-party/rust/crates/aws-lc-sys/0.22.0/aws-lc/crypto/fipsmodule/rsa/rsa.c:585-607 | the result of rsa_sign_raw_no_self_test: through the sign_raw hook with (int)max_out, or the default transform; stated by SignRawHookConvention |
| RsaSign.SignRawHookConvention | third-party/rust/crates/aws-lc-sys/0.22.0/aws-lc/crypto/fipsmodule/rsa/rsa.c:589-603 | with a sign_raw hook, success iff the hook returns a non-negative value, the out-length is that value on success and 0 on failure |
| RsaSign.SignRawNoSelfTest | third-party/rust/crates/aws-lc-sys/0.22.0/aws-lc/crypto/fipsmodule/rsa/rsa.c:585-607 | success flag, out-length and out-buffer contents are those of SignRawOutcome (hook or default transform), the bytes beyond the written ones untouched |
| RsaSign.SignResult | third-party/rust/crates/aws-lc-sys/0.22.0/aws-lc/crypto/fipsmodule/rsa/rsa.c:841-883 | the result of rsa_sign_no_self_test: the sign hook after the digest-size check, or the PKCS #1 message signed raw into RSA_size bytes; stated by SignRejectsBadDigest and SignThenVerify |
| RsaSign.SignNoSelfTest | third-party/rust/crates/aws-lc-sys/0.22.0/aws-lc/crypto/fipsmodule/rsa/rsa.c:841-883 | computes SignResult: a sign hook gets the digest after the size check; otherwise the PKCS #1 message is signed raw into RSA_size bytes, an out-length above UINT_MAX being Overflow |
| RsaSign.SignRejectsBadDigest | third-party/rust/crates/aws-lc-sys/0.22.0/aws-lc/crypto/fipsmodule/rsa/rsa.c:841-866 | on both signing paths a digest that fails the size check is refused with that error and nothing is written |
| RsaSign.VerifyResult | third-party/rust/crates/aws-lc-sys/0.22.0/aws-lc/crypto/fipsmodule/rsa/rsa.c:931-984 | the verdict of rsa_verify_no_self_test: presence of n and e, the MD5+SHA1 length, the raw recovery and the comparison with the PKCS #1 message; stated by VerifyResultMeaning and VerifyBindsHashAndDigest |
| RsaSign.VerifyNoSelfTest | third-party/rust/crates/aws-lc-sys/0.22.0/aws-lc/crypto/fipsmodule/rsa/rsa.c:931-984 | computes VerifyResult over a buffer of RSA_size bytes |
| RsaSign.VerifyRawInto | third-party/rust/crates/aws-lc-sys/0.22.0/aws-lc/crypto/fipsmodule/rsa/rsa.c:956-957 | succeeds exactly when the raw transform recovers a block, which is then at the front of the buffer, with its length returned |
| RsaSign.VerifyResultMeaning | third-party/rust/crates/aws-lc-sys/0.22.0/aws-lc/crypto/fipsmodule/rsa/rsa.c:931-984 | verification passes iff n and e are present and the recovered block equals the PKCS #1 message; ValueMissing iff n or e is absent; BadSignature iff the recovered length differs, MismatchedSignature iff the length matches and the bytes differ |
| RsaSign.VerifyBindsHashAndDigest | third-party/rust/crates/aws-lc-sys/0.22.0/aws-lc/crypto/fipsmodule/rsa/rsa.c:956-974 | a signature verifies for at most one (hash, digest) pair |
| RsaSign.SignThenVerify | third-party/rust/crates/aws-lc-sys/0.22.0/aws-lc/crypto/fipsmodule/rsa/rsa.c:841-984 | without hooks, when the raw verification inverts the raw signature, what RSA_sign produces for a digest verifies for that digest |
| RsaSign.SignPssResult | third-party/rust/crates/aws-lc-sys/0.22.0/aws-lc/crypto/fipsmodule/rsa/rsa.c:893-915 | the result of RSA_sign_pss_mgf1 for any digest md of size mdLen (EVP_MD_size): a wrong digest length, the PSS encoding of RSA_size bytes, then the raw signature; stated by PssGuards |
| RsaSign.SignPssMgf1 | third-party/rust/crates/aws-lc-sys/0.22.0/aws-lc/crypto/fipsmodule/rsa/rsa.c:893-915 | for any message digest md of size mdLen, computes SignPssResult: InvalidMessageLength unless the digest has mdLen bytes, else the PSS block of RSA_size bytes signed raw without padding |
| RsaSign.VerifyPssResult | third-party/rust/crates/aws-lc-sys/0.22.0/aws-lc/crypto/fipsmodule/rsa/rsa.c:1007-1037 | the verdict of RSA_verify_pss_mgf1 for any digest md of size mdLen (EVP_MD_size): length check, raw recovery of exactly RSA_size bytes, then the PSS check; stated by PssGuards |
| RsaSign.VerifyPssMgf1 | third-party/rust/crates/aws-lc-sys/0.22.0/aws-lc/crypto/fipsmodule/rsa/rsa.c:1007-1037 | for any message digest md of size mdLen, computes VerifyPssResult over a buffer of RSA_size bytes |
| RsaSign.VerifyPssBlock | third-party/rust/crates/aws-lc-sys/0.22.0/aws-lc/crypto/fipsmodule/rsa/rsa.c:1016-1037 | once the digest length is right, computes VerifyPssResult: a recovery failure, a block of other than RSA_size bytes (InternalError) or the PSS check decides |
| RsaSign.PssGuards | third-party/rust/crates/aws-lc-sys/0.22.0/aws-lc/crypto/fipsmodule/rsa/rsa.c:1007-1037 | for any message digest md of size mdLen, PSS verification passes iff the digest has mdLen bytes, the raw transform recovers exactly RSA_size bytes and the PSS check accepts them; a wrong digest length is refused by both entry points before any encoding |
| RsaFips.CheckFips | third-party/rust/crates/aws-lc-sys/0.22.0/aws-lc/crypto/fipsmodule/rsa/rsa.c:1500-1584 | RSA_check_fips: the shape filter, RSA_check_key, the partial public-key validation, then the pair-wise test for private keys; stated by CheckFipsMeaning and the lemmas below |
| RsaFips.CheckFipsMeaning | third-party/rust/crates/aws-lc-sys/0.22.0/aws-lc/crypto/fipsmodule/rsa/rsa.c:1500-1584 | the FIPS check passes iff the shape is public or a non-stripped private one, RSA_check_key passes, 16 < bits(e) <= 256, n and e are odd, n is coprime to the small primes, the primality oracle says non-prime-power composite, and non-public keys pass the pair-wise test; BadRsaParameters iff the shape is refused or RSA_check_key reports it |
| RsaFips.ShapeFilterComesFirst | third-party/rust/crates/aws-lc-sys/0.22.0/aws-lc/crypto/fipsmodule/rsa/rsa.c:1503-1511 | an Invalid or stripped key is refused with BadRsaParameters whatever the oracles answer |
| RsaFips.CheckKeyComesBeforeOracles | third-party/rust/crates/aws-lc-sys/0.22.0/aws-lc/crypto/fipsmodule/rsa/rsa.c:1513-1516 | a key RSA_check_key rejects is rejected with RSA_check_key's error |
| RsaFips.PublicKeySkipsPairwise | third-party/rust/crates/aws-lc-sys/0.22.0/aws-lc/crypto/fipsmodule/rsa/rsa.c:1550-1574 | a public key's verdict does not depend on the pair-wise test |
| RsaFips.CheckFipsPassModulus | third-party/rust/crates/aws-lc-sys/0.22.0/aws-lc/crypto/fipsmodule/rsa/rsa.c:1500-1584 | an accepted key has a positive odd modulus with no prime factor from 3 to 751 |
| RsaFips.PlausibleExponentBounds | third-party/rust/crates/aws-lc-sys/0.22.0/aws-lc/crypto/fipsmodule/rsa/rsa.c:1536-1539 | an odd e with more than 16 and at most 256 bits lies in [65537, 2^256) |
| RsaFips.CheckFipsPassExponent | third-party/rust/crates/aws-lc-sys/0.22.0/aws-lc/crypto/fipsmodule/rsa/rsa.c:1500-1584 | an accepted key has 65537 <= e < 2^256 |
| Stash.FromStr | libra/src/command/stash.rs:317-339 | a string whose length is neither 40 nor 0 is an InvalidHash error; the empty string gives the default hash |
| Stash.FromStrRadix16 | libra/src/command/stash.rs:330 | u8::from_str_radix(_, 16): an optional leading '+', then one or more hexadecimal digits, the value at most 255; stated by SignedPairs and DecodePairsMeaning |
| Stash.FromStrOfFortyCharacters | libra/src/command/stash.rs:327-338 | a 40-character string parses iff every pair of characters does; then the result is SHA1::new of the bytes and byte k is the base-16 value of characters 2k and 2k+1; otherwise the error is InvalidHexCharacter |
| Stash.DecodePairs | libra/src/command/stash.rs:327-333 | the map over the pairs of characters collected into a Result: the decoded bytes, or None at the first bad pair; one byte per pair |
| Stash.DecodePairsMeaning | libra/src/command/stash.rs:327-333 | the pairs decode iff each pair does, and byte k is pair k's value |
| Stash.SignedPairs | libra/src/command/stash.rs:330 | u8::from_str_radix accepts "+f" as 15 and refuses "-f" and "+" |
| Stash.Display | libra/src/command/stash.rs:91-96 | a hash is written as 40 ASCII characters |
| Stash.DisplayRoundTrip | libra/src/command/stash.rs:317-339 | from_str of a displayed hash gives SHA1::new of its bytes, and the hash itself when new keeps the bytes |
| Stash.DisplayRoundTripIffWraps | libra/src/command/stash.rs:337-338 | every hash survives display then from_str exactly when SHA1::new keeps its bytes |
| Stash.Split | libra/src/command/stash.rs:66 | split always yields at least one field, the whole text when it holds no separator, and ASCII fields from ASCII text |
| Stash.FirstLine | libra/src/command/stash.rs:61-64 | there is no first line exactly when the content is empty |
| Stash.FirstLineStripsCrLf | libra/src/command/stash.rs:61 | the first line ends at the first line feed, and a carriage return before it is dropped |
| Stash.FormatRecord | libra/src/command/stash.rs:91-96 | the record line of an ASCII message is ASCII |
| Stash.ParseRecord | libra/src/command/stash.rs:61-80 | get_stash's parse of the file content: the first line split on ':', the stash hash from field 0, the index hash from a non-empty field 1, the message from field 2 or ""; stated by RecordRoundTrip and the lemmas below |
| Stash.RecordRoundTrip | libra/src/command/stash.rs:61-80 | parsing a written record whose message has no ':' or line feed gives back both hashes (through SHA1::new) and the message, a missing index coming back as the default hash; with new keeping the bytes, the entry itself |
| Stash.MessageWithColonIsTruncated | libra/src/command/stash.rs:74 | a message with a further ':' reads back only up to it |
| Stash.ParseNeedsTwoFields | libra/src/command/stash.rs:61-80 | empty content, or a first line without ':', reads as no stash |
| Stash.EmptyIndexField | libra/src/command/stash.rs:69-70 | an empty index field reads as no index commit, and a missing message as "" |
| Stash.BadIndexFieldRejects | libra/src/command/stash.rs:69-73 | a non-empty index field that is not a hash makes the whole record unreadable |
| Stash.EmptyStashField | libra/src/command/stash.rs:323-325 | an empty stash field reads as the default hash, since from_str accepts "" |

## Left out

- Allocation failure is not modelled: `OPENSSL_zalloc`, `BN_dup`, `BN_CTX_new` and the buffer allocations in signing and verification are taken to succeed.
- The FIPS self-test gate (`boringssl_ensure_rsa_self_test`) and the public wrappers that only add it (`RSA_sign`, `RSA_verify`, `RSA_sign_raw`) are left out: the gate is global state.
- The lock, atomic reference counting, `SET_DIT_AUTO_RESET` and ex_data are left out: they are concurrency or global state. `RSA_up_ref` and `RSA_free` are modelled as single-threaded updates of the count.
- The finish hook that `RSA_free` calls and `RSASSA_PSS_PARAMS_free` are not modelled. RSA_free is modelled as releasing the components and the derived state.
- The OpenSSL error queue is not modelled. Every error is returned as a value (`RsaError`). `RSA_flags` and `RSA_test_flags` report a NULL key to the queue, and that report is not modelled.
- The getters (`RSA_get0_*`, `RSA_bits`, `RSA_get0_pss_params`, `RSA_get_method`, `RSA_set_method`) and ex_data accessors are left out. They are plumbing that returns fields, with no property of its own.
- The `RSA_METHOD` setters and `RSA_meth_new`/`RSA_meth_free` are left out as registration plumbing. So are `RSA_pkey_ctx_ctrl` and `rsa_private_transform`. A method is modelled only by its flags, its init outcome and its `sign_raw`, `sign` and `size` overrides. The default method is taken to have flags 0 and no hooks; `RSA_get_default_method` is not part of this model.
- The hooks receive a snapshot of the key. A C hook that changes the key during the call is not modelled. The sign hook's return value counts as success when non-zero.
- The big-integer library is not modelled. `bn_mul_consttime`, `bn_div_consttime`, `bn_usub_consttime`, `BN_gcd` and their constant-time behaviour are Dafny integer arithmetic. The library's refusal of a negative operand is modelled as `BnLibError` for a negative d, e or iqmp.
- The Miller-Rabin test and the pair-wise consistency test, with its EVP plumbing, are oracles. `rsa_digestsign_no_self_test`, `rsa_digestverify_no_self_test` and the break test are left out.
- `rsa_default_sign_raw`, `rsa_verify_raw_no_self_test`, `rsa_default_size` and the PSS encoder and checker are uninterpreted functions in `RsaSign.Backend`.
- RsaSign.SignNoSelfTest: the modelled result of `RSA_size` is the size hook's value or `rsa_default_size`. The `unsigned` cast and the `assert(ret < UINT_MAX)` in `RSA_size` are not modelled.
- Branches that cannot be taken are not modelled as code:
  - the `RSA_R_TOO_LONG` overflow test in `RSA_add_pkcs1_prefix` (`Pkcs1.SignedMessageLength` shows the message has at most 83 bytes);
  - the fall-through after the table loop;
  - the "other key type" path of `RSA_check_fips`;
  - the failure of `bn_usub_consttime` on factors of at least 2 (`RsaKey.FactorBounds`).
- RsaObject.TestFlags: its own contract states only that no bit outside the mask is returned. The exact value after `RSA_set_flags` is stated by `RsaObject.TestAfterSetFlags` and `RsaObject.OrUnderMask`.
- The numeric NID values and the `int` type of `hash_nid` are not modelled. Hash identifiers the table does not know are `OtherNid`.
- The rest of `stash.rs` is left out as filesystem, index and commit orchestration:
  - `execute`, `create_stash`, `pop_stash` and `remove_stash_entry`;
  - reading and writing the stash file;
  - the clap argument parsing.
- The mercury `SHA1` Display is taken to be lower-case hexadecimal, and `SHA1::default()` the all-zero hash; that crate is not part of this model. `SHA1::new` is the parameter `sha1New`. If `new` computes a digest of its argument instead of keeping it, `Stash.DisplayRoundTripIffWraps` shows that the round trip fails.
- Stash.FromStr and Stash.ParseRecord require ASCII text. For other text, Rust's byte length and byte slicing differ from a character count, and a slice inside a character panics.
