/**
 * Signing and verification dispatch: the conversion of a method's sign_raw result, PKCS #1
 * v1.5 signing and verification around the raw transform, and the guards of the PSS entry
 * points. The raw transforms, the PSS encoding and the default size are foreign and enter as
 * uninterpreted functions.
 */
module RsaSign {
  import opened Base
  import opened BigNum
  import opened RsaKey
  import opened Pkcs1
  import opened RsaObject

  /**
   * The operations defined outside this file: rsa_default_sign_raw (None on failure, else the
   * bytes written), rsa_verify_raw_no_self_test (None on failure, else the recovered block),
   * rsa_default_size, RSA_padding_add_PKCS1_PSS_mgf1 (None on failure, else the encoded block)
   * and RSA_verify_PKCS1_PSS_mgf1.
   */
  datatype Backend = Backend(
    defaultSignRaw: (KeyValue, nat, seq<byte>, Padding) -> Option<seq<byte>>,
    verifyRaw: (KeyValue, nat, seq<byte>, Padding) -> Option<seq<byte>>,
    defaultSize: KeyValue -> nat,
    pssPad: (KeyValue, nat, seq<byte>, HashNid, HashNid, int) -> Option<seq<byte>>,
    pssVerify: (KeyValue, seq<byte>, HashNid, HashNid, seq<byte>, int) -> bool)

  const UintMax: nat := 0xffff_ffff

  /**
   * The C conversion (int)max_out: the value modulo 2^32, read as a two's-complement 32-bit
   * integer, as on every platform the library supports.
   */
  function ToCInt(x: nat): (r: int)
    ensures -0x8000_0000 <= r < 0x8000_0000
    ensures x < 0x8000_0000 ==> r == x
    ensures (r - x) % 0x1_0000_0000 == 0
  {
    var w := x % 0x1_0000_0000;
    if w < 0x8000_0000 then w else w - 0x1_0000_0000
  }

  /** A size_t of 2^31 or more no longer fits and turns negative. */
  lemma ToCIntWrapsAtTwoToThe31()
    ensures ToCInt(0x8000_0000) < 0
    ensures ToCInt(0x1_0000_0000) == 0
  {
  }

  /** RSA_size: the method's size hook, or the default size. */
  function Size(meth: RsaMethod, backend: Backend, k: KeyValue): nat {
    if meth.size.Some? then meth.size.value(k) else backend.defaultSize(k)
  }

  /** What a raw signing call produces: success, the out-length and the bytes written to out. */
  datatype RawOutcome = RawOutcome(ok: bool, outLen: nat, written: seq<byte>)

  /**
   * rsa_sign_raw_no_self_test: with a sign_raw hook, its "length or negative" return becomes an
   * out-length plus a success flag (0 on failure); without one, the default transform runs.
   */
  function SignRawOutcome(meth: RsaMethod, backend: Backend, k: KeyValue, maxOut: nat,
                          input: seq<byte>, padding: Padding): RawOutcome {
    if meth.signRaw.Some? then
      var res := meth.signRaw.value(ToCInt(maxOut), input, k, padding);
      if res.ret < 0 then RawOutcome(false, 0, res.written)
      else RawOutcome(true, res.ret, res.written)
    else
      match backend.defaultSignRaw(k, maxOut, input, padding)
      case None => RawOutcome(false, 0, [])
      case Some(sig) => RawOutcome(true, |sig|, sig)
  }

  /** The hook's return convention in both directions: success iff ret >= 0, then out-length ret. */
  lemma SignRawHookConvention(meth: RsaMethod, backend: Backend, k: KeyValue, maxOut: nat,
                              input: seq<byte>, padding: Padding)
    requires meth.signRaw.Some?
    ensures var ret := meth.signRaw.value(ToCInt(maxOut), input, k, padding).ret;
      && (SignRawOutcome(meth, backend, k, maxOut, input, padding).ok <==> ret >= 0)
      && (ret >= 0 ==> SignRawOutcome(meth, backend, k, maxOut, input, padding).outLen == ret)
      && (ret < 0 ==> SignRawOutcome(meth, backend, k, maxOut, input, padding).outLen == 0)
    ensures maxOut < 0x8000_0000 ==>
      SignRawOutcome(meth, backend, k, maxOut, input, padding) ==
      var res := meth.signRaw.value(maxOut, input, k, padding);
      RawOutcome(res.ret >= 0, if res.ret >= 0 then res.ret else 0, res.written)
  {
  }

  /** Writes bytes to the front of out, leaving the rest as it was (the hook's or memcpy's writes). */
  method WritePrefix(out: array<byte>, bytes: seq<byte>)
    requires |bytes| <= out.Length
    modifies out
    ensures out[..] == bytes + old(out[|bytes|..])
    ensures |bytes| == out.Length ==> out[..] == bytes
  {
    forall j | 0 <= j < |bytes| {
      out[j] := bytes[j];
    }
    assert out[..] == bytes + old(out[|bytes|..]) by {
      assert out[..|bytes|] == bytes;
      assert out[|bytes|..] == old(out[|bytes|..]);
      assert out[..] == out[..|bytes|] + out[|bytes|..];
    }
  }

  /** rsa_sign_raw_no_self_test, writing into out. */
  method SignRawNoSelfTest(rsa: Rsa, out: array<byte>, maxOut: nat, input: seq<byte>,
                           padding: Padding, backend: Backend) returns (ok: bool, outLen: nat)
    requires |SignRawOutcome(rsa.meth, backend, rsa.Value(), maxOut, input, padding).written| <= out.Length
    modifies out
    ensures var o := SignRawOutcome(rsa.meth, backend, rsa.Value(), maxOut, input, padding);
      ok == o.ok && outLen == o.outLen && out[..] == o.written + old(out[|o.written|..])
  {
    var k := rsa.Value();
    var meth := rsa.meth;
    if meth.signRaw.Some? {
      var res := meth.signRaw.value(ToCInt(maxOut), input, k, padding);
      WritePrefix(out, res.written);
      if res.ret < 0 {
        return false, 0;
      }
      return true, res.ret;
    }
    var sig := backend.defaultSignRaw(k, maxOut, input, padding);
    if sig.None? {
      return false, 0;
    }
    WritePrefix(out, sig.value);
    return true, |sig.value|;
  }

  /** What RSA_sign produces: the outcome, the out-length and the bytes written to out. */
  datatype SignOutcome = SignOutcome(r: Outcome<RsaError>, outLen: nat, written: seq<byte>)

  /**
   * rsa_sign_no_self_test: a method with a sign hook gets the digest after the digest-size
   * check; otherwise the PKCS #1 message is signed raw with PKCS #1 padding into RSA_size bytes.
   */
  function SignResult(meth: RsaMethod, backend: Backend, k: KeyValue, nid: HashNid,
                      digest: seq<byte>): SignOutcome {
    if meth.sign.Some? then
      match DigestSizeCheck(nid, |digest|)
      case Fail(err) => SignOutcome(Fail(err), 0, [])
      case Pass =>
        var res := meth.sign.value(nid, digest, k);
        SignOutcome(if res.ret != 0 then Pass else Fail(CollaboratorFailed), |res.sig|, res.sig)
    else
      match SignedMessage(nid, digest)
      case Err(err) => SignOutcome(Fail(err), 0, [])
      case Ok(msg) =>
        var raw := SignRawOutcome(meth, backend, k, Size(meth, backend, k), msg, Pkcs1Padding);
        if !raw.ok then SignOutcome(Fail(CollaboratorFailed), 0, raw.written)
        else if raw.outLen > UintMax then SignOutcome(Fail(Overflow), 0, raw.written)
        else SignOutcome(Pass, raw.outLen, raw.written)
  }

  /** rsa_sign_no_self_test, writing the signature into out. */
  method SignNoSelfTest(nid: HashNid, digest: array<byte>, out: array<byte>, rsa: Rsa,
                        backend: Backend) returns (r: Outcome<RsaError>, outLen: nat)
    requires |SignResult(rsa.meth, backend, rsa.Value(), nid, digest[..]).written| <= out.Length
    requires out != digest
    modifies out
    ensures var o := SignResult(rsa.meth, backend, old(rsa.Value()), nid, old(digest[..]));
      r == o.r && outLen == o.outLen && out[..] == o.written + old(out[|o.written|..])
  {
    var k := rsa.Value();
    var meth := rsa.meth;
    ghost var expected := SignResult(meth, backend, k, nid, digest[..]);
    if meth.sign.Some? {
      r := CheckDigestSize(nid, digest.Length);
      if r.Fail? {
        return r, 0;
      }
      var res := meth.sign.value(nid, digest[..], k);
      WritePrefix(out, res.sig);
      r := if res.ret != 0 then Pass else Fail(CollaboratorFailed);
      return r, |res.sig|;
    }
    var rsaSize := Size(meth, backend, k);
    var msg, isAlloced;
    r, msg, isAlloced := AddPkcs1Prefix(nid, digest);
    assert rsa.Value() == k && rsa.meth == meth;
    if r.Fail? {
      return r, 0;
    }
    var ok, len := SignRawNoSelfTest(rsa, out, rsaSize, msg[..], Pkcs1Padding, backend);
    if !ok {
      return Fail(CollaboratorFailed), 0;
    }
    if len > UintMax {
      return Fail(Overflow), 0;
    }
    return Pass, len;
  }

  /**
   * rsa_verify_no_self_test: n and e must be present, an MD5+SHA1 digest must be 36 bytes,
   * the raw transform must recover a block, and that block must be exactly the PKCS #1
   * message of the digest: a different length is BadSignature (nothing may follow the hash,
   * section 5.5 of FIPS 186-4), equal length with different bytes is MismatchedSignature.
   */
  function VerifyResult(meth: RsaMethod, backend: Backend, k: KeyValue, nid: HashNid,
                        digest: seq<byte>, sig: seq<byte>): Outcome<RsaError> {
    if k.n.None? || k.e.None? then Fail(ValueMissing)
    else if nid == Md5Sha1 && |digest| != SslSigLength then Fail(InvalidMessageLength)
    else
      match backend.verifyRaw(k, Size(meth, backend, k), sig, Pkcs1Padding)
      case None => Fail(CollaboratorFailed)
      case Some(recovered) =>
        match SignedMessage(nid, digest)
        case Err(err) => Fail(err)
        case Ok(msg) =>
          if |recovered| != |msg| then Fail(BadSignature)
          else if recovered != msg then Fail(MismatchedSignature)
          else Pass
  }

  /** The raw transform writes at most RSA_size bytes into the buffer it is given. */
  predicate RecoveredFits(meth: RsaMethod, backend: Backend, k: KeyValue, sig: seq<byte>,
                          padding: Padding) {
    var rec := backend.verifyRaw(k, Size(meth, backend, k), sig, padding);
    rec.Some? ==> |rec.value| <= Size(meth, backend, k)
  }

  /**
   * The raw public-key transform into buf (rsa_verify_raw_no_self_test, RSA_verify_raw): on
   * success the recovered block is at the front of buf and len is its length.
   */
  method VerifyRawInto(backend: Backend, k: KeyValue, buf: array<byte>, sig: seq<byte>,
                       padding: Padding) returns (ok: bool, len: nat)
    requires var rec := backend.verifyRaw(k, buf.Length, sig, padding);
      rec.Some? ==> |rec.value| <= buf.Length
    modifies buf
    ensures var rec := backend.verifyRaw(k, buf.Length, sig, padding);
      && ok == rec.Some?
      && (ok ==> len == |rec.value| <= buf.Length && buf[..len] == rec.value)
  {
    var recovered := backend.verifyRaw(k, buf.Length, sig, padding);
    if recovered.None? {
      return false, 0;
    }
    WritePrefix(buf, recovered.value);
    return true, |recovered.value|;
  }

  /** rsa_verify_no_self_test over a buffer of RSA_size bytes. */
  method VerifyNoSelfTest(nid: HashNid, digest: array<byte>, sig: seq<byte>, rsa: Rsa,
                          backend: Backend) returns (r: Outcome<RsaError>)
    requires RecoveredFits(rsa.meth, backend, rsa.Value(), sig, Pkcs1Padding)
    ensures r == VerifyResult(rsa.meth, backend, rsa.Value(), nid, digest[..], sig)
  {
    var k := rsa.Value();
    var meth := rsa.meth;
    ghost var expected := VerifyResult(meth, backend, k, nid, digest[..], sig);
    if k.n.None? || k.e.None? {
      return Fail(ValueMissing);
    }
    var rsaSize := Size(meth, backend, k);
    if nid == Md5Sha1 && digest.Length != SslSigLength {
      return Fail(InvalidMessageLength);
    }
    var buf := new byte[rsaSize];
    var ok, len := VerifyRawInto(backend, k, buf, sig, Pkcs1Padding);
    if !ok {
      return Fail(CollaboratorFailed);
    }
    var msg, isAlloced;
    r, msg, isAlloced := AddPkcs1Prefix(nid, digest);
    assert rsa.Value() == k && rsa.meth == meth;
    if r.Fail? {
      return r;
    }
    if len != msg.Length {
      return Fail(BadSignature);
    }
    if buf[..len] != msg[..] {
      return Fail(MismatchedSignature);
    }
    return Pass;
  }

  /**
   * Verification succeeds exactly when n and e are present and the raw transform recovers the
   * PKCS #1 message of the digest; the two signature errors split on the recovered length.
   */
  lemma VerifyResultMeaning(meth: RsaMethod, backend: Backend, k: KeyValue, nid: HashNid,
                            digest: seq<byte>, sig: seq<byte>)
    ensures VerifyResult(meth, backend, k, nid, digest, sig) == Pass <==>
      && k.n.Some? && k.e.Some? && SignedMessage(nid, digest).Ok?
      && backend.verifyRaw(k, Size(meth, backend, k), sig, Pkcs1Padding) ==
         Some(SignedMessage(nid, digest).value)
    ensures VerifyResult(meth, backend, k, nid, digest, sig) == Fail(ValueMissing) <==>
      k.n.None? || k.e.None?
    ensures k.n.Some? && k.e.Some? && SignedMessage(nid, digest).Ok? ==>
      var rec := backend.verifyRaw(k, Size(meth, backend, k), sig, Pkcs1Padding);
      && (VerifyResult(meth, backend, k, nid, digest, sig) == Fail(BadSignature) <==>
          rec.Some? && |rec.value| != |SignedMessage(nid, digest).value|)
      && (VerifyResult(meth, backend, k, nid, digest, sig) == Fail(MismatchedSignature) <==>
          rec.Some? && |rec.value| == |SignedMessage(nid, digest).value| &&
          rec.value != SignedMessage(nid, digest).value)
  {
    if k.n.Some? && k.e.Some? && nid == Md5Sha1 && |digest| != SslSigLength {
      assert SignedMessage(nid, digest).Err?;
    }
  }

  /** One signature verifies for at most one (hash, digest) pair. */
  lemma VerifyBindsHashAndDigest(meth: RsaMethod, backend: Backend, k: KeyValue, sig: seq<byte>,
                                 n1: HashNid, d1: seq<byte>, n2: HashNid, d2: seq<byte>)
    requires VerifyResult(meth, backend, k, n1, d1, sig) == Pass
    requires VerifyResult(meth, backend, k, n2, d2, sig) == Pass
    ensures n1 == n2 && d1 == d2
  {
    VerifyResultMeaning(meth, backend, k, n1, d1, sig);
    VerifyResultMeaning(meth, backend, k, n2, d2, sig);
    SignedMessageInjective(n1, d1, n2, d2);
  }

  /** The digest-size check comes first on both signing paths: a bad digest is never signed. */
  lemma SignRejectsBadDigest(meth: RsaMethod, backend: Backend, k: KeyValue, nid: HashNid,
                             digest: seq<byte>)
    requires DigestSizeCheck(nid, |digest|).Fail?
    ensures SignResult(meth, backend, k, nid, digest).r == DigestSizeCheck(nid, |digest|)
    ensures SignResult(meth, backend, k, nid, digest).written == []
  {
  }

  /**
   * Sign then verify: without method hooks, when the raw verification undoes the default raw
   * signature, a signature RSA_sign makes for a digest verifies for that digest.
   */
  lemma SignThenVerify(meth: RsaMethod, backend: Backend, k: KeyValue, nid: HashNid,
                       digest: seq<byte>)
    requires meth.sign.None? && meth.signRaw.None?
    requires k.n.Some? && k.e.Some?
    requires SignResult(meth, backend, k, nid, digest).r == Pass
    requires forall m :: backend.defaultSignRaw(k, Size(meth, backend, k), m, Pkcs1Padding).Some? ==>
      backend.verifyRaw(k, Size(meth, backend, k),
        backend.defaultSignRaw(k, Size(meth, backend, k), m, Pkcs1Padding).value, Pkcs1Padding) == Some(m)
    ensures VerifyResult(meth, backend, k, nid, digest, SignResult(meth, backend, k, nid, digest).written) == Pass
  {
    var msg := SignedMessage(nid, digest).value;
    var size := Size(meth, backend, k);
    assert backend.defaultSignRaw(k, size, msg, Pkcs1Padding).Some?;
    VerifyResultMeaning(meth, backend, k, nid, digest, SignResult(meth, backend, k, nid, digest).written);
  }

  /**
   * RSA_sign_pss_mgf1: the digest must have md's length; the PSS encoding of RSA_size bytes is
   * then signed raw without padding. md is any message digest, including ones the PKCS #1 table
   * does not list (OtherNid), and mdLen is EVP_MD_size(md).
   */
  function SignPssResult(meth: RsaMethod, backend: Backend, k: KeyValue, maxOut: nat,
                         digest: seq<byte>, md: HashNid, mdLen: nat, mgf1: HashNid, saltLen: int): (o: SignOutcome)
  {
    if |digest| != mdLen then SignOutcome(Fail(InvalidMessageLength), 0, [])
    else
      var paddedLen := Size(meth, backend, k);
      match backend.pssPad(k, paddedLen, digest, md, mgf1, saltLen)
      case None => SignOutcome(Fail(CollaboratorFailed), 0, [])
      case Some(padded) =>
        var raw := SignRawOutcome(meth, backend, k, maxOut, padded, NoPadding);
        SignOutcome(if raw.ok then Pass else Fail(CollaboratorFailed), raw.outLen, raw.written)
  }

  /** The PSS encoder fills exactly the RSA_size bytes it is given. */
  predicate PssPadFits(meth: RsaMethod, backend: Backend, k: KeyValue, digest: seq<byte>,
                       md: HashNid, mgf1: HashNid, saltLen: int) {
    var padded := backend.pssPad(k, Size(meth, backend, k), digest, md, mgf1, saltLen);
    padded.Some? ==> |padded.value| == Size(meth, backend, k)
  }

  /** RSA_sign_pss_mgf1 with its out-buffer. */
  method SignPssMgf1(rsa: Rsa, out: array<byte>, maxOut: nat, digest: seq<byte>, md: HashNid,
                     mdLen: nat, mgf1: HashNid, saltLen: int, backend: Backend)
    returns (r: Outcome<RsaError>, outLen: nat)
    requires PssPadFits(rsa.meth, backend, rsa.Value(), digest, md, mgf1, saltLen)
    requires |SignPssResult(rsa.meth, backend, rsa.Value(), maxOut, digest, md, mdLen, mgf1, saltLen).written| <= out.Length
    modifies out
    ensures var o := SignPssResult(rsa.meth, backend, old(rsa.Value()), maxOut, digest, md, mdLen, mgf1, saltLen);
      r == o.r && outLen == o.outLen && out[..] == o.written + old(out[|o.written|..])
  {
    var k := rsa.Value();
    var meth := rsa.meth;
    if |digest| != mdLen {
      return Fail(InvalidMessageLength), 0;
    }
    var paddedLen := Size(meth, backend, k);
    var padded := new byte[paddedLen];
    var encoded := backend.pssPad(k, paddedLen, digest, md, mgf1, saltLen);
    if encoded.None? {
      return Fail(CollaboratorFailed), 0;
    }
    WritePrefix(padded, encoded.value);
    assert padded[..] == encoded.value;
    var ok;
    ok, outLen := SignRawNoSelfTest(rsa, out, maxOut, padded[..], NoPadding, backend);
    r := if ok then Pass else Fail(CollaboratorFailed);
  }

  /**
   * RSA_verify_pss_mgf1: the digest must have md's length (mdLen, EVP_MD_size(md), for any
   * message digest md), the raw transform must recover exactly RSA_size bytes (else
   * InternalError), and the PSS check decides.
   */
  function VerifyPssResult(meth: RsaMethod, backend: Backend, k: KeyValue, digest: seq<byte>,
                           md: HashNid, mdLen: nat, mgf1: HashNid, saltLen: int, sig: seq<byte>): Outcome<RsaError>
  {
    if |digest| != mdLen then Fail(InvalidMessageLength)
    else
      var emLen := Size(meth, backend, k);
      match backend.verifyRaw(k, emLen, sig, NoPadding)
      case None => Fail(CollaboratorFailed)
      case Some(em) =>
        if |em| != emLen then Fail(InternalError)
        else if backend.pssVerify(k, digest, md, mgf1, em, saltLen) then Pass
        else Fail(CollaboratorFailed)
  }

  /** RSA_verify_pss_mgf1 over a buffer of RSA_size bytes. */
  method VerifyPssMgf1(rsa: Rsa, digest: seq<byte>, md: HashNid, mdLen: nat, mgf1: HashNid, saltLen: int,
                       sig: seq<byte>, backend: Backend) returns (r: Outcome<RsaError>)
    requires RecoveredFits(rsa.meth, backend, rsa.Value(), sig, NoPadding)
    ensures r == VerifyPssResult(rsa.meth, backend, rsa.Value(), digest, md, mdLen, mgf1, saltLen, sig)
  {
    if |digest| != mdLen {
      return Fail(InvalidMessageLength);
    }
    r := VerifyPssBlock(rsa, digest, md, mdLen, mgf1, saltLen, sig, backend);
  }

  /** The rest of RSA_verify_pss_mgf1, once the digest length is right: the em buffer and its checks. */
  method VerifyPssBlock(rsa: Rsa, digest: seq<byte>, md: HashNid, mdLen: nat, mgf1: HashNid, saltLen: int,
                        sig: seq<byte>, backend: Backend) returns (r: Outcome<RsaError>)
    requires |digest| == mdLen
    requires RecoveredFits(rsa.meth, backend, rsa.Value(), sig, NoPadding)
    ensures r == VerifyPssResult(rsa.meth, backend, rsa.Value(), digest, md, mdLen, mgf1, saltLen, sig)
  {
    var k := rsa.Value();
    var meth := rsa.meth;
    ghost var expected := VerifyPssResult(meth, backend, k, digest, md, mdLen, mgf1, saltLen, sig);
    var emLen := Size(meth, backend, k);
    var em := new byte[emLen];
    var ok, len := VerifyRawInto(backend, k, em, sig, NoPadding);
    assert rsa.Value() == k && rsa.meth == meth;
    if !ok {
      r := Fail(CollaboratorFailed);
    } else if len != emLen {
      // RSA_size(rsa) again: the key is unchanged, so it is still emLen.
      r := Fail(InternalError);
    } else {
      assert em[..] == em[..len];
      r := if backend.pssVerify(k, digest, md, mgf1, em[..], saltLen) then Pass
           else Fail(CollaboratorFailed);
    }
  }


  /**
   * The PSS guards in both directions: verification passes only for a digest of md's length
   * whose signature recovers a full RSA_size block the PSS check accepts; signing refuses a
   * digest of the wrong length before encoding anything.
   */
  lemma PssGuards(meth: RsaMethod, backend: Backend, k: KeyValue, maxOut: nat, digest: seq<byte>,
                  md: HashNid, mdLen: nat, mgf1: HashNid, saltLen: int, sig: seq<byte>)
    ensures VerifyPssResult(meth, backend, k, digest, md, mdLen, mgf1, saltLen, sig) == Pass <==>
      var em := backend.verifyRaw(k, Size(meth, backend, k), sig, NoPadding);
      && |digest| == mdLen
      && em.Some? && |em.value| == Size(meth, backend, k)
      && backend.pssVerify(k, digest, md, mgf1, em.value, saltLen)
    ensures |digest| != mdLen ==>
      VerifyPssResult(meth, backend, k, digest, md, mdLen, mgf1, saltLen, sig) == Fail(InvalidMessageLength) &&
      SignPssResult(meth, backend, k, maxOut, digest, md, mdLen, mgf1, saltLen) ==
        SignOutcome(Fail(InvalidMessageLength), 0, [])
  {
  }
}
