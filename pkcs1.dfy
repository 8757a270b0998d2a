/**
 * PKCS #1 v1.5 digest handling (section 9.2 of RFC 8017): the table of DER-encoded
 * DigestInfo prefixes, the digest-length check and the construction of the message that is
 * padded and signed.
 */
module Pkcs1 {
  import opened Base
  import opened RsaKey

  /**
   * The hash identifiers the signing code tells apart. Md5Sha1 is the concatenated MD5 and
   * SHA-1 hash of SSL and TLS before 1.2; Undef is the table's end marker; OtherNid stands
   * for every other identifier a caller may pass.
   */
  datatype HashNid =
    | Md5 | Sha1 | Sha224 | Sha256 | Sha384 | Sha512 | Sha512_224 | Sha512_256
    | Sha3_224 | Sha3_256 | Sha3_384 | Sha3_512 | Md5Sha1 | Undef | OtherNid

  /** The length of an SSL/TLS (before 1.2) signature input: an MD5 and a SHA-1 hash. */
  const SslSigLength: nat := 36

  /** The digest length each hash defines (RFC 1321, FIPS 180-4, FIPS 202); None if unknown. */
  function HashLength(nid: HashNid): Option<nat> {
    match nid
    case Md5 => Some(16)
    case Sha1 => Some(20)
    case Sha224 => Some(28)
    case Sha256 => Some(32)
    case Sha384 => Some(48)
    case Sha512 => Some(64)
    case Sha512_224 => Some(28)
    case Sha512_256 => Some(32)
    case Sha3_224 => Some(28)
    case Sha3_256 => Some(32)
    case Sha3_384 => Some(48)
    case Sha3_512 => Some(64)
    case Md5Sha1 => Some(SslSigLength)
    case Undef => None
    case OtherNid => None
  }

  /** The fixed 19-byte field of a table entry, and the number of its bytes in use. */
  type PrefixField = s: seq<byte> | |s| == 19 witness seq(19, i => 0)
  type PrefixLen = x: nat | x <= 19

  /**
   * One table entry: the hash, its digest length, and the length of its DER prefix, which
   * is held in the first len bytes of its 19-byte field. The field is given by the entry's
   * hash (every hash has one entry), so that the table's scans do not carry its bytes.
   */
  datatype SigPrefix = SigPrefix(nid: HashNid, hashLen: nat, len: PrefixLen) {
    function Bytes(): PrefixField {
      match nid
      case Md5 => Md5Prefix
      case Sha1 => Sha1Prefix
      case Sha224 => Sha224Prefix
      case Sha256 => Sha256Prefix
      case Sha384 => Sha384Prefix
      case Sha512 => Sha512Prefix
      case Sha512_224 => Sha512_224Prefix
      case Sha512_256 => Sha512_256Prefix
      case Sha3_224 => Sha3_224Prefix
      case Sha3_256 => Sha3_256Prefix
      case Sha3_384 => Sha3_384Prefix
      case Sha3_512 => Sha3_512Prefix
      case _ => NoPrefix
    }
  }

  // The 19-byte fields of kPKCS1SigPrefixes, zero-filled after each prefix.
  const Md5Prefix: PrefixField := [
    0x30, 0x20, 0x30, 0x0c, 0x06, 0x08, 0x2a, 0x86, 0x48, 0x86, 0xf7, 0x0d,
    0x02, 0x05, 0x05, 0x00, 0x04, 0x10, 0x00]
  const Sha1Prefix: PrefixField := [
    0x30, 0x21, 0x30, 0x09, 0x06, 0x05, 0x2b, 0x0e, 0x03, 0x02, 0x1a, 0x05,
    0x00, 0x04, 0x14, 0x00, 0x00, 0x00, 0x00]

  const Sha224Prefix: PrefixField := [
    0x30, 0x2d, 0x30, 0x0d, 0x06, 0x09, 0x60, 0x86, 0x48, 0x01, 0x65, 0x03,
    0x04, 0x02, 0x04, 0x05, 0x00, 0x04, 0x1c]
  const Sha256Prefix: PrefixField := [
    0x30, 0x31, 0x30, 0x0d, 0x06, 0x09, 0x60, 0x86, 0x48, 0x01, 0x65, 0x03,
    0x04, 0x02, 0x01, 0x05, 0x00, 0x04, 0x20]
  const Sha384Prefix: PrefixField := [
    0x30, 0x41, 0x30, 0x0d, 0x06, 0x09, 0x60, 0x86, 0x48, 0x01, 0x65, 0x03,
    0x04, 0x02, 0x02, 0x05, 0x00, 0x04, 0x30]
  const Sha512Prefix: PrefixField := [
    0x30, 0x51, 0x30, 0x0d, 0x06, 0x09, 0x60, 0x86, 0x48, 0x01, 0x65, 0x03,
    0x04, 0x02, 0x03, 0x05, 0x00, 0x04, 0x40]
  const Sha512_224Prefix: PrefixField := [
    0x30, 0x2d, 0x30, 0x0d, 0x06, 0x09, 0x60, 0x86, 0x48, 0x01, 0x65, 0x03,
    0x04, 0x02, 0x05, 0x05, 0x00, 0x04, 0x1c]
  const Sha512_256Prefix: PrefixField := [
    0x30, 0x31, 0x30, 0x0d, 0x06, 0x09, 0x60, 0x86, 0x48, 0x01, 0x65, 0x03,
    0x04, 0x02, 0x06, 0x05, 0x00, 0x04, 0x20]
  const Sha3_224Prefix: PrefixField := [
    0x30, 0x2d, 0x30, 0x0d, 0x06, 0x09, 0x60, 0x86, 0x48, 0x01, 0x65, 0x03,
    0x04, 0x02, 0x07, 0x05, 0x00, 0x04, 0x1c]
  const Sha3_256Prefix: PrefixField := [
    0x30, 0x31, 0x30, 0x0d, 0x06, 0x09, 0x60, 0x86, 0x48, 0x01, 0x65, 0x03,
    0x04, 0x02, 0x08, 0x05, 0x00, 0x04, 0x20]
  const Sha3_384Prefix: PrefixField := [
    0x30, 0x41, 0x30, 0x0d, 0x06, 0x09, 0x60, 0x86, 0x48, 0x01, 0x65, 0x03,
    0x04, 0x02, 0x09, 0x05, 0x00, 0x04, 0x30]
  const Sha3_512Prefix: PrefixField := [
    0x30, 0x51, 0x30, 0x0d, 0x06, 0x09, 0x60, 0x86, 0x48, 0x01, 0x65, 0x03,
    0x04, 0x02, 0x0a, 0x05, 0x00, 0x04, 0x40]
  const NoPrefix: PrefixField := [
    0x00, 0x00, 0x00, 0x00, 0x00, 0x00, 0x00, 0x00, 0x00, 0x00, 0x00, 0x00,
    0x00, 0x00, 0x00, 0x00, 0x00, 0x00, 0x00]

  /** kPKCS1SigPrefixes, ending with the NID_undef entry. */
  const PrefixTable: seq<SigPrefix> := [
    SigPrefix(Md5, 16, 18),
    SigPrefix(Sha1, 20, 15),
    SigPrefix(Sha224, 28, 19),
    SigPrefix(Sha256, 32, 19),
    SigPrefix(Sha384, 48, 19),
    SigPrefix(Sha512, 64, 19),
    SigPrefix(Sha512_224, 28, 19),
    SigPrefix(Sha512_256, 32, 19),
    SigPrefix(Sha3_224, 28, 19),
    SigPrefix(Sha3_256, 32, 19),
    SigPrefix(Sha3_384, 48, 19),
    SigPrefix(Sha3_512, 64, 19),
    SigPrefix(Undef, 0, 0)
  ]

  /** The position of the end marker. */
  const SentinelIndex: nat := 12

  /** The table scan from position i: where the first entry for nid before the end marker is. */
  function FindFrom(i: nat, nid: HashNid): (r: Option<nat>)
    requires i <= SentinelIndex
    ensures r.Some? ==> i <= r.value < SentinelIndex && PrefixTable[r.value].nid == nid
    decreases SentinelIndex - i
  {
    if i == SentinelIndex then None
    else if PrefixTable[i].nid == nid then Some(i)
    else FindFrom(i + 1, nid)
  }

  function Find(nid: HashNid): Option<nat> {
    FindFrom(0, nid)
  }

  /** The DER bytes of an entry. */
  function PrefixBytes(e: SigPrefix): seq<byte> {
    e.Bytes()[..e.len]
  }

  /** The table's layout: the end marker at SentinelIndex and nowhere before it. */
  lemma PrefixTableLayout()
    ensures |PrefixTable| == SentinelIndex + 1
    ensures PrefixTable[SentinelIndex].nid == Undef
    ensures forall i :: 0 <= i < SentinelIndex ==> PrefixTable[i].nid != Undef
  {
  }

  /** The next step of the scan: an entry that does not match passes the search on. */
  lemma FindStep(i: nat, nid: HashNid)
    requires i < SentinelIndex && PrefixTable[i].nid != nid
    ensures FindFrom(i, nid) == FindFrom(i + 1, nid)
  {
  }

  /** Every entry before the end marker has the standard digest length of its hash. */
  lemma EntryAgrees(k: nat)
    requires k < SentinelIndex
    ensures HashLength(PrefixTable[k].nid) == Some(PrefixTable[k].hashLen)
    ensures PrefixTable[k].nid != Md5Sha1
  {
  }

  /** Every hash of definite length except MD5+SHA1 has an entry before the end marker. */
  lemma EntryExists(nid: HashNid) returns (k: nat)
    requires HashLength(nid).Some? && nid != Md5Sha1
    ensures k < SentinelIndex && PrefixTable[k].nid == nid
  {
    match nid
    case Md5 => k := 0;
    case Sha1 => k := 1;
    case Sha224 => k := 2;
    case Sha256 => k := 3;
    case Sha384 => k := 4;
    case Sha512 => k := 5;
    case Sha512_224 => k := 6;
    case Sha512_256 => k := 7;
    case Sha3_224 => k := 8;
    case Sha3_256 => k := 9;
    case Sha3_384 => k := 10;
    case Sha3_512 => k := 11;
  }

  /** The scan from i finds something when an entry for nid lies ahead of it. */
  lemma FindFromReaches(i: nat, k: nat, nid: HashNid)
    requires i <= k < SentinelIndex && PrefixTable[k].nid == nid
    ensures FindFrom(i, nid).Some?
    decreases k - i
  {
    if i < k && PrefixTable[i].nid != nid {
      FindFromReaches(i + 1, k, nid);
    }
  }

  /**
   * The table agrees with the hash standards: every hash of definite length except MD5+SHA1
   * has an entry, whose digest length is the standard one, and no other id has one.
   */
  lemma FindMatchesHashLength(nid: HashNid)
    ensures Find(nid).Some? <==> HashLength(nid).Some? && nid != Md5Sha1
    ensures Find(nid).Some? ==> HashLength(nid) == Some(PrefixTable[Find(nid).value].hashLen)
  {
    if Find(nid).Some? {
      EntryAgrees(Find(nid).value);
    }
    if HashLength(nid).Some? && nid != Md5Sha1 {
      var k := EntryExists(nid);
      FindFromReaches(0, k, nid);
    }
  }

  /** The scan stops at an entry for nid: that is the entry Find picks, and it sets the length. */
  lemma FoundEntry(i: nat, nid: HashNid, digestLen: nat)
    requires i < SentinelIndex && FindFrom(i, nid) == Find(nid) && PrefixTable[i].nid == nid
    ensures Find(nid) == Some(i) && nid != Md5Sha1
    ensures DigestSizeCheck(nid, digestLen) ==
      if digestLen == PrefixTable[i].hashLen then Pass else Fail(InvalidMessageLength)
  {
    FindMatchesHashLength(nid);
  }

  /** The scan reaches the end marker: nid is not a hash the table knows. */
  lemma NotFound(nid: HashNid, digestLen: nat)
    requires FindFrom(SentinelIndex, nid) == Find(nid) && nid != Md5Sha1
    ensures DigestSizeCheck(nid, digestLen) == Fail(UnknownAlgorithmType)
  {
    FindMatchesHashLength(nid);
  }

  /** The scan stops at the end marker and nowhere before it. */
  lemma EndMarker(i: nat)
    requires i <= SentinelIndex && PrefixTable[i].nid == Undef
    ensures i == SentinelIndex
  {
    PrefixTableLayout();
  }

  /**
   * The check rsa_check_digest_size performs: the id must be a known hash and the digest
   * must have that hash's length.
   */
  function DigestSizeCheck(nid: HashNid, digestLen: nat): (r: Outcome<RsaError>)
    ensures r == Pass <==> HashLength(nid) == Some(digestLen)
    ensures r == Fail(UnknownAlgorithmType) <==> HashLength(nid).None?
    ensures r.Fail? ==> r.error == UnknownAlgorithmType || r.error == InvalidMessageLength
  {
    match HashLength(nid)
    case None => Fail(UnknownAlgorithmType)
    case Some(len) => if digestLen == len then Pass else Fail(InvalidMessageLength)
  }

  /**
   * The message RSA_add_pkcs1_prefix builds: the digest itself for MD5+SHA1, else the
   * hash's DigestInfo prefix followed by the digest.
   */
  function SignedMessage(nid: HashNid, digest: seq<byte>): Result<seq<byte>, RsaError> {
    match DigestSizeCheck(nid, |digest|)
    case Fail(e) => Err(e)
    case Pass =>
      if nid == Md5Sha1 then Ok(digest)
      else
        FindMatchesHashLength(nid);
        Ok(PrefixBytes(PrefixTable[Find(nid).value]) + digest)
  }

  /** rsa_check_digest_size: MD5+SHA1 first, then the table scan up to the end marker. */
  method CheckDigestSize(nid: HashNid, digestLen: nat) returns (r: Outcome<RsaError>)
    ensures r == DigestSizeCheck(nid, digestLen)
  {
    if nid == Md5Sha1 {
      if digestLen != SslSigLength {
        return Fail(InvalidMessageLength);
      }
      return Pass;
    }
    var i := 0;
    while PrefixTable[i].nid != Undef
      invariant 0 <= i <= SentinelIndex
      invariant FindFrom(i, nid) == Find(nid)
      decreases SentinelIndex - i
    {
      var prefix := PrefixTable[i];
      if prefix.nid == nid {
        FoundEntry(i, nid, digestLen);
        if digestLen != prefix.hashLen {
          return Fail(InvalidMessageLength);
        }
        return Pass;
      }
      FindStep(i, nid);
      i := i + 1;
    }
    EndMarker(i);
    NotFound(nid, digestLen);
    return Fail(UnknownAlgorithmType);
  }


  /**
   * RSA_add_pkcs1_prefix. On success msg holds SignedMessage(nid, digest); for MD5+SHA1 it
   * is the caller's digest array itself, otherwise a fresh array the caller must free.
   */
  method AddPkcs1Prefix(nid: HashNid, digest: array<byte>)
    returns (r: Outcome<RsaError>, msg: array<byte>, isAlloced: bool)
    ensures r == DigestSizeCheck(nid, digest.Length)
    ensures r.Pass? ==> SignedMessage(nid, digest[..]) == Ok(msg[..])
    ensures r.Pass? ==> (isAlloced <==> nid != Md5Sha1)
    ensures !isAlloced ==> msg == digest
    ensures isAlloced ==> fresh(msg)
  {
    msg, isAlloced := digest, false;
    r := CheckDigestSize(nid, digest.Length);
    if r.Fail? {
      return;
    }
    if nid == Md5Sha1 {
      return;
    }
    var i := 0;
    while PrefixTable[i].nid != Undef
      invariant 0 <= i <= SentinelIndex
      invariant FindFrom(i, nid) == Find(nid)
      decreases SentinelIndex - i
    {
      var prefix := PrefixTable[i];
      if prefix.nid == nid {
        FoundEntry(i, nid, digest.Length);
        msg := Prepend(prefix, digest);
        isAlloced := true;
        return;
      }
      FindStep(i, nid);
      i := i + 1;
    }
    EndMarker(i);
    NotFound(nid, digest.Length);
    assert false;
  }

  /** The allocation and the two copies: a fresh array with the entry's prefix, then the digest. */
  method Prepend(prefix: SigPrefix, digest: array<byte>) returns (msg: array<byte>)
    ensures fresh(msg)
    ensures msg[..] == PrefixBytes(prefix) + digest[..]
  {
    var prefixLen := prefix.len;
    msg := new byte[prefixLen + digest.Length];
    forall j | 0 <= j < prefixLen {
      msg[j] := prefix.Bytes()[j];
    }
    forall j | 0 <= j < digest.Length {
      msg[prefixLen + j] := digest[j];
    }
    assert msg[..] == PrefixBytes(prefix) + digest[..];
  }


  /**
   * A DER DigestInfo header for a digest of hashLen bytes: SEQUENCE { SEQUENCE { OID, NULL },
   * OCTET STRING }, with every length field consistent with the header and the digest.
   */
  predicate DigestInfoHeader(b: seq<byte>, hashLen: nat) {
    && |b| >= 15
    && b[0] == 0x30 && b[1] as int == |b| - 2 + hashLen
    && b[2] == 0x30 && b[3] as int == |b| - 6
    && b[4] == 0x06 && b[5] as int == |b| - 10
    && b[|b| - 4] == 0x05 && b[|b| - 3] == 0x00
    && b[|b| - 2] == 0x04 && b[|b| - 1] as int == hashLen
  }

  /** The MD5 and SHA-1 entries are well-formed DigestInfo headers. */
  lemma LegacyEntriesAreDer(j: nat)
    requires j < 2
    ensures DigestInfoHeader(PrefixBytes(PrefixTable[j]), PrefixTable[j].hashLen)
  {
    if j == 0 {
      assert PrefixTable[j] == SigPrefix(Md5, 16, 18);
      assert PrefixBytes(PrefixTable[j]) == Md5Prefix[..18];
    } else {
      assert j == 1;
      assert PrefixTable[j] == SigPrefix(Sha1, 20, 15);
      assert PrefixBytes(PrefixTable[j]) == Sha1Prefix[..15];
    }
  }

  /** The SHA-2 entries are well-formed DigestInfo headers. */
  lemma Sha2EntriesAreDer(j: nat)
    requires 2 <= j < 8
    ensures DigestInfoHeader(PrefixBytes(PrefixTable[j]), PrefixTable[j].hashLen)
  {
    if j == 2 {
      assert PrefixTable[j] == SigPrefix(Sha224, 28, 19);
      assert PrefixBytes(PrefixTable[j]) == Sha224Prefix;
    } else if j == 3 {
      assert PrefixTable[j] == SigPrefix(Sha256, 32, 19);
      assert PrefixBytes(PrefixTable[j]) == Sha256Prefix;
    } else if j == 4 {
      assert PrefixTable[j] == SigPrefix(Sha384, 48, 19);
      assert PrefixBytes(PrefixTable[j]) == Sha384Prefix;
    } else if j == 5 {
      assert PrefixTable[j] == SigPrefix(Sha512, 64, 19);
      assert PrefixBytes(PrefixTable[j]) == Sha512Prefix;
    } else if j == 6 {
      assert PrefixTable[j] == SigPrefix(Sha512_224, 28, 19);
      assert PrefixBytes(PrefixTable[j]) == Sha512_224Prefix;
    } else {
      assert j == 7;
      assert PrefixTable[j] == SigPrefix(Sha512_256, 32, 19);
      assert PrefixBytes(PrefixTable[j]) == Sha512_256Prefix;
    }
  }

  /** The SHA-3 entries are well-formed DigestInfo headers. */
  lemma Sha3EntriesAreDer(j: nat)
    requires 8 <= j < SentinelIndex
    ensures DigestInfoHeader(PrefixBytes(PrefixTable[j]), PrefixTable[j].hashLen)
  {
    if j == 8 {
      assert PrefixTable[j] == SigPrefix(Sha3_224, 28, 19);
      assert PrefixBytes(PrefixTable[j]) == Sha3_224Prefix;
    } else if j == 9 {
      assert PrefixTable[j] == SigPrefix(Sha3_256, 32, 19);
      assert PrefixBytes(PrefixTable[j]) == Sha3_256Prefix;
    } else if j == 10 {
      assert PrefixTable[j] == SigPrefix(Sha3_384, 48, 19);
      assert PrefixBytes(PrefixTable[j]) == Sha3_384Prefix;
    } else {
      assert j == 11;
      assert PrefixTable[j] == SigPrefix(Sha3_512, 64, 19);
      assert PrefixBytes(PrefixTable[j]) == Sha3_512Prefix;
    }
  }

  /** Every entry before the end marker is a well-formed DigestInfo header for its digest length. */
  lemma PrefixTableIsDer(j: nat)
    requires j < SentinelIndex
    ensures DigestInfoHeader(PrefixBytes(PrefixTable[j]), PrefixTable[j].hashLen)
  {
    if j < 2 {
      LegacyEntriesAreDer(j);
    } else if j < 8 {
      Sha2EntriesAreDer(j);
    } else {
      Sha3EntriesAreDer(j);
    }
  }

  /** Reads the table position back from a header's length and its byte at offset 14. */
  function PositionOfHeader(len: nat, b14: byte): nat {
    if len == 18 then 0
    else if len == 15 then 1
    else if b14 == 0x04 then 2
    else if b14 == 0x01 then 3
    else if b14 == 0x02 then 4
    else if b14 == 0x03 then 5
    else if b14 == 0x05 then 6
    else if b14 == 0x06 then 7
    else if b14 == 0x07 then 8
    else if b14 == 0x08 then 9
    else if b14 == 0x09 then 10
    else 11
  }

  /** The header's length and byte 14 tell every entry apart. */
  lemma PositionOfHeaderInverts(j: nat)
    requires j < SentinelIndex
    ensures PositionOfHeader(PrefixTable[j].len, PrefixTable[j].Bytes()[14]) == j
  {
    if j == 0 {
    } else if j == 1 {
    } else if j == 2 {
    } else if j == 3 {
    } else if j == 4 {
    } else if j == 5 {
    } else if j == 6 {
    } else if j == 7 {
    } else if j == 8 {
    } else if j == 9 {
    } else if j == 10 {
    } else {
      assert j == 11;
    }
  }

  /** The length of the signed message; it never exceeds 83 bytes, so no length can overflow. */
  lemma SignedMessageLength(nid: HashNid, digest: seq<byte>)
    requires SignedMessage(nid, digest).Ok?
    ensures nid != Md5Sha1 ==> Find(nid).Some?
    ensures nid == Md5Sha1 ==> |SignedMessage(nid, digest).value| == SslSigLength
    ensures nid != Md5Sha1 ==>
      |SignedMessage(nid, digest).value| == PrefixTable[Find(nid).value].len + |digest|
    ensures nid != Md5Sha1 ==> |SignedMessage(nid, digest).value| != SslSigLength
    ensures |SignedMessage(nid, digest).value| <= 83
  {
    FindMatchesHashLength(nid);
  }

  /**
   * Different (hash, digest) pairs never produce the same signed message, so a signature
   * made for one never verifies for another.
   */
  lemma SignedMessageInjective(n1: HashNid, d1: seq<byte>, n2: HashNid, d2: seq<byte>)
    requires SignedMessage(n1, d1).Ok? && SignedMessage(n2, d2).Ok?
    requires SignedMessage(n1, d1).value == SignedMessage(n2, d2).value
    ensures n1 == n2 && d1 == d2
  {
    FindMatchesHashLength(n1);
    FindMatchesHashLength(n2);
    SignedMessageLength(n1, d1);
    SignedMessageLength(n2, d2);
    var m := SignedMessage(n1, d1).value;
    if n1 != Md5Sha1 && n2 != Md5Sha1 {
      var j1, j2 := Find(n1).value, Find(n2).value;
      var e1, e2 := PrefixTable[j1], PrefixTable[j2];
      PrefixTableIsDer(j1);
      PrefixTableIsDer(j2);
      assert m == PrefixBytes(e1) + d1 && m == PrefixBytes(e2) + d2;
      assert m[3] == e1.Bytes()[3] && m[3] == e2.Bytes()[3];
      assert e1.len == e2.len;
      assert m[14] == e1.Bytes()[14] && m[14] == e2.Bytes()[14];
      PositionOfHeaderInverts(j1);
      PositionOfHeaderInverts(j2);
      assert d1 == m[e1.len..] == d2;
    }
  }
}
