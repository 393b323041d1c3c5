/** RSASSA-PKCS1-v1_5 verification (RFC 8017, section 8.2.2): the padded block is built and compared, never
    parsed. */
module Rsa {
  import opened Words
  import opened LimbBytes
  import opened Modular
  import opened BigNum
  import opened Der

  const SHA256_OID: Bytes := [0x60, 0x86, 0x48, 0x01, 0x65, 0x03, 0x04, 0x02, 0x01]
  const SHA384_OID: Bytes := [0x60, 0x86, 0x48, 0x01, 0x65, 0x03, 0x04, 0x02, 0x02]
  const RSA_ENCRYPTION: Bytes := [0x2A, 0x86, 0x48, 0x86, 0xF7, 0x0D, 0x01, 0x01, 0x01]

  datatype RsaError =
    | BadKey(asn1: Asn1Error)
    | BadModulus(big: BigError)
    | BadExponent
    | NotAnRsaKey
    | WrongSignatureLength(expected: nat, found: nat)
    | SignatureNotReduced
    | KeyTooSmall
    | UnsupportedDigest
    | Mismatch

  datatype DigestKind = Sha256 | Sha384 {
    function Oid(): (oid: Bytes)
      ensures |oid| == 9
    {
      if Sha256? then SHA256_OID else SHA384_OID
    }

    function ByteLen(): nat {
      if Sha256? then 32 else 48
    }
  }

  /** `DigestInfo ::= SEQUENCE { SEQUENCE { algorithm, NULL }, digest OCTET STRING }`. */
  function DigestInfo(kind: DigestKind, digest: Bytes): Bytes
    requires |digest| == kind.ByteLen()
  {
    Tlv(SEQUENCE, Tlv(SEQUENCE, Tlv(OID, kind.Oid()) + Tlv(NULL, [])) + Tlv(OCTET_STRING, digest))
  }

  /** The fixed octets that section 9.2 of RFC 8017 (note 1) puts in front of each digest. */
  function DigestPrefix(kind: DigestKind): Bytes {
    match kind
    case Sha256 => [0x30, 0x31, 0x30, 0x0d, 0x06, 0x09, 0x60, 0x86, 0x48, 0x01,
                    0x65, 0x03, 0x04, 0x02, 0x01, 0x05, 0x00, 0x04, 0x20]
    case Sha384 => [0x30, 0x41, 0x30, 0x0d, 0x06, 0x09, 0x60, 0x86, 0x48, 0x01,
                    0x65, 0x03, 0x04, 0x02, 0x02, 0x05, 0x00, 0x04, 0x30]
  }

  lemma ShortTlv(tag: u8, contents: Bytes)
    requires |contents| < 0x80
    ensures Tlv(tag, contents) == [tag, |contents|] + contents
  {
  }

  /** The nested encoding is the standard's prefix followed by the digest. */
  lemma DigestInfoIsPrefixed(kind: DigestKind, digest: Bytes)
    requires |digest| == kind.ByteLen()
    ensures DigestInfo(kind, digest) == DigestPrefix(kind) + digest
  {
    ShortTlv(OID, kind.Oid());
    ShortTlv(NULL, []);
    var algorithm := [OID, 9] + kind.Oid() + [NULL, 0];
    hide Tlv;
    assert Tlv(OID, kind.Oid()) + Tlv(NULL, []) == algorithm;
    ShortTlv(SEQUENCE, algorithm);
    ShortTlv(OCTET_STRING, digest);
    var body := [SEQUENCE, 13] + algorithm + [OCTET_STRING, |digest|] + digest;
    assert Tlv(SEQUENCE, algorithm) + Tlv(OCTET_STRING, digest) == body;
    ShortTlv(SEQUENCE, body);
    assert DigestPrefix(kind) == [SEQUENCE, |body|] + ([SEQUENCE, 13] + algorithm + [OCTET_STRING, |digest|]);
  }

  method WriteDigestInfo(kind: DigestKind, digest: Bytes) returns (r: Bytes)
    requires |digest| == kind.ByteLen()
    ensures r == DigestPrefix(kind) + digest
  {
    DigestInfoIsPrefixed(kind, digest);
    ShortTlv(OID, kind.Oid());
    ShortTlv(NULL, []);
    ShortTlv(SEQUENCE, Tlv(OID, kind.Oid()) + Tlv(NULL, []));
    ShortTlv(OCTET_STRING, digest);
    hide Tlv;
    var oid := WriteTlv(OID, kind.Oid());
    var parameters := WriteTlv(NULL, []);
    var algorithm := WriteTlv(SEQUENCE, oid + parameters);
    var octets := WriteTlv(OCTET_STRING, digest);
    r := WriteTlv(SEQUENCE, algorithm + octets);
  }

  predicate Roomy(kind: DigestKind, width: nat) {
    width >= 19 + kind.ByteLen() + 11
  }

  /** EM = 0x00 || 0x01 || PS || 0x00 || T, section 9.2 of RFC 8017. */
  function Block(kind: DigestKind, digest: Bytes, width: nat): (em: Bytes)
    requires |digest| == kind.ByteLen() && Roomy(kind, width)
    ensures |em| == width
  {
    [0x00, 0x01] + seq(width - 19 - |digest| - 3, _ => 0xFF) + [0x00] + (DigestPrefix(kind) + digest)
  }

  /** A block by the places of its octets: zero, one, at least eight of 0xFF, zero, and the DigestInfo to the end. */
  lemma BlockLayout(kind: DigestKind, digest: Bytes, width: nat)
    requires |digest| == kind.ByteLen() && Roomy(kind, width)
    ensures var em, at := Block(kind, digest, width), width - |DigestInfo(kind, digest)|;
      && 11 <= at < width && em[0] == 0 && em[1] == 1 && em[at - 1] == 0 && em[at..] == DigestInfo(kind, digest)
      && forall i :: 2 <= i < at - 1 ==> em[i] == 0xFF
  {
    DigestInfoIsPrefixed(kind, digest);
    hide DigestInfo;
  }

  /** `expected_block`. */
  method ExpectedBlock(kind: DigestKind, digest: Bytes, width: nat) returns (r: Result<Bytes, RsaError>)
    requires |digest| == kind.ByteLen()
    ensures r == if Roomy(kind, width) then Ok(Block(kind, digest, width)) else Err(KeyTooSmall)
  {
    var t := WriteDigestInfo(kind, digest);
    if width < |t| + 11 {
      return Err(KeyTooSmall);
    }
    var em: Bytes := [0x00];
    em := em + [0x01];
    while |em| < width - |t| - 1
      invariant 2 <= |em| <= width - |t| - 1
      invariant em == [0x00, 0x01] + seq(|em| - 2, _ => 0xFF)
    {
      em := em + [0xFF];
    }
    em := em + [0x00];
    em := em + t;
    return Ok(em);
  }

  /** One block encodes one digest of one kind. */
  lemma BlockInjective(kind: DigestKind, digest: Bytes, kind': DigestKind, digest': Bytes, width: nat)
    requires |digest| == kind.ByteLen() && |digest'| == kind'.ByteLen()
    requires Roomy(kind, width) && Roomy(kind', width)
    requires Block(kind, digest, width) == Block(kind', digest', width)
    ensures kind == kind' && digest == digest'
  {
    if Roomy(Sha384, width) {
      SeparatorDecidesKind(kind, digest, width);
      SeparatorDecidesKind(kind', digest', width);
    }
    assert digest == Block(kind, digest, width)[width - |digest|..];
    assert digest' == Block(kind', digest', width)[width - |digest'|..];
  }

  /** Where a SHA-384 block has its separator a SHA-256 block still has padding. */
  lemma SeparatorDecidesKind(kind: DigestKind, digest: Bytes, width: nat)
    requires |digest| == kind.ByteLen() && Roomy(kind, width)
    requires Roomy(Sha384, width)
    ensures Block(kind, digest, width)[width - 68] == if kind.Sha384? then 0x00 else 0xFF
  {
    assert Block(kind, digest, width)[width - 68] ==
           ([0x00, 0x01] + seq(width - 19 - |digest| - 3, _ => 0xFF) + [0x00])[width - 68];
  }

  datatype RsaPublicKey = RsaPublicKey(modulus: Modulus, exponent: u64) {
    ghost predicate Valid() {
      modulus.Valid() && exponent >= 3 && exponent % 2 == 1
    }

    /** The signature relation: s is an element, and s^e mod n is the number of the one expected block. */
    ghost predicate Accepts(kind: DigestKind, digest: Bytes, signature: Bytes)
      requires Valid()
    {
      var width := modulus.ByteLen();
      && |digest| == kind.ByteLen()
      && Roomy(kind, width)
      && |signature| == width
      && BigEndian(signature) < modulus.N()
      && Pow(BigEndian(signature), exponent) % modulus.N() == BigEndian(Block(kind, digest, width))
    }

    /** Which refusal a signature that is not accepted gets. */
    function Refusal(kind: DigestKind, digest: Bytes, signature: Bytes): RsaError
      requires modulus.n != [] && modulus.n[|modulus.n| - 1] != 0
    {
      var width := modulus.ByteLen();
      if |digest| != kind.ByteLen() then UnsupportedDigest
      else if |signature| != width then WrongSignatureLength(width, |signature|)
      else if !Roomy(kind, width) then KeyTooSmall
      else if BigEndian(signature) >= modulus.N() then SignatureNotReduced
      else Mismatch
    }

    /** `verify`. */
    method Verify(kind: DigestKind, digest: Bytes, signature: Bytes) returns (r: Result<(), RsaError>)
      requires Valid()
      ensures r.Ok? <==> Accepts(kind, digest, signature)
      ensures r.Err? ==> r.error == Refusal(kind, digest, signature)
    {
      if |digest| != kind.ByteLen() {
        return Err(UnsupportedDigest);
      }
      var width := modulus.ByteLen();
      if |signature| != width {
        return Err(WrongSignatureLength(width, |signature|));
      }
      var expected :- ExpectedBlock(kind, digest, width);
      var power := modulus.PowMod(signature, exponent);
      modulus.ByteLenBounds();
      modulus.FittingBaseIsLoadedWhole(signature);
      RecoveredIsNumber(signature, expected);
      match power {
        case Err(NotReduced) => return Err(SignatureNotReduced);
        case Err(other) => return Err(BadModulus(other));
        case Ok(recovered) =>
          if recovered == expected {
            return Ok(());
          }
          return Err(Mismatch);
      }
    }

    /** Comparing the recovered bytes with a block is comparing the recovered number with its number. */
    lemma RecoveredIsNumber(signature: Bytes, expected: Bytes)
      requires Valid()
      requires |expected| == modulus.ByteLen()
      requires |signature| <= modulus.ByteLen()
      ensures var x := Pow(modulus.Loaded(signature), exponent) % modulus.N();
        BeBytes(x, modulus.ByteLen()) == expected <==> x == BigEndian(expected)
      ensures |Trim(signature)| <= MAX_LIMBS * 8
    {
      modulus.ByteLenBounds();
      var x := Pow(modulus.Loaded(signature), exponent) % modulus.N();
      DivIdentity(Pow(modulus.Loaded(signature), exponent), modulus.N());
      BeBytesValue(x, modulus.ByteLen());
      if x == BigEndian(expected) {
        BigEndianInjective(expected, BeBytes(x, modulus.ByteLen()));
      }
    }

    /** A signature can be good for one digest only. */
    lemma AcceptsOneDigest(kind: DigestKind, digest: Bytes, kind': DigestKind, digest': Bytes, signature: Bytes)
      requires Valid()
      requires Accepts(kind, digest, signature) && Accepts(kind', digest', signature)
      ensures kind == kind' && digest == digest'
    {
      var width := modulus.ByteLen();
      BigEndianInjective(Block(kind, digest, width), Block(kind', digest', width));
      BlockInjective(kind, digest, kind', digest', width);
    }
  }

  // ---------------------------------------------------------------------------
  // Keys
  // ---------------------------------------------------------------------------

  /** `RSAPublicKey ::= SEQUENCE { modulus INTEGER, publicExponent INTEGER }`, from the two magnitudes. */
  function Pkcs1(n: Bytes, e: Bytes): Bytes
    requires n != [] && e != [] && |n| + |e| < 0x1_0000_0000_0000
  {
    IntegerWidth(n);
    IntegerWidth(e);
    Tlv(SEQUENCE, Tlv(INTEGER, SignedBody(n)) + Tlv(INTEGER, SignedBody(e)))
  }

  lemma IntegerWidth(m: Bytes)
    requires m != [] && |m| < 0x1_0000_0000_0000
    ensures |Tlv(INTEGER, SignedBody(m))| <= |m| + 11
  {
    LengthDigitsWidth(|SignedBody(m)|);
  }

  function ParsePkcs1(der: Bytes): Result<(Bytes, Bytes), Asn1Error> {
    var (key, outer) :- Take(der, SEQUENCE);
    var (n, afterN) :- TakeMagnitude(key);
    var (e, rest) :- TakeMagnitude(afterN);
    if rest != [] || outer != [] then Err(TrailingBytes) else Ok((n, e))
  }

  lemma Pkcs1Parses(n: Bytes, e: Bytes)
    requires Magnitude(n) && Magnitude(e) && |n| + |e| < 0x1_0000_0000_0000
    ensures ParsePkcs1(Pkcs1(n, e)) == Ok((n, e))
  {
    IntegerWidth(n);
    IntegerWidth(e);
    var first, second := Tlv(INTEGER, SignedBody(n)), Tlv(INTEGER, SignedBody(e));
    assert second + [] == second && Pkcs1(n, e) + [] == Pkcs1(n, e);
    hide Take, TakeMagnitude, Tlv, SignedBody, Magnitude;
    TakeExact(Pkcs1(n, e), SEQUENCE, first + second, []);
    MagnitudeReadExactly(first + second, n, second);
    MagnitudeReadExactly(second, e, []);
  }

  lemma Pkcs1Only(der: Bytes, n: Bytes, e: Bytes)
    requires n != [] && e != [] && |n| + |e| < 0x1_0000_0000_0000
    requires ParsePkcs1(der) == Ok((n, e))
    ensures Magnitude(n) && Magnitude(e) && der == Pkcs1(n, e)
  {
    IntegerWidth(n);
    IntegerWidth(e);
    var (key, outer) := Take(der, SEQUENCE).value;
    var afterN := TakeMagnitude(key).value.1;
    hide Take, TakeMagnitude, Tlv, SignedBody, Magnitude;
    MagnitudeReadExactly(key, n, afterN);
    MagnitudeReadExactly(afterN, e, []);
    assert afterN == Tlv(INTEGER, SignedBody(e));
    TakeExact(der, SEQUENCE, key, []);
  }

  /** A key parses to these two magnitudes exactly when it is their encoding. */
  lemma Pkcs1Exact(der: Bytes, n: Bytes, e: Bytes)
    requires n != [] && e != [] && |n| + |e| < 0x1_0000_0000_0000
    ensures ParsePkcs1(der) == Ok((n, e)) <==> Magnitude(n) && Magnitude(e) && der == Pkcs1(n, e)
  {
    hide *;
    if ParsePkcs1(der) == Ok((n, e)) {
      Pkcs1Only(der, n, e);
    }
    if Magnitude(n) && Magnitude(e) {
      Pkcs1Parses(n, e);
    }
  }

  /** What `from_pkcs1` makes of the two magnitudes. */
  ghost predicate KeyFrom(n: Bytes, e: Bytes, r: Result<RsaPublicKey, RsaError>) {
    if |e| > 8 || BigEndian(e) < 3 || BigEndian(e) % 2 == 0 then r == Err(BadExponent)
    else if |Trim(n)| > MAX_LIMBS * 8 then r == Err(BadModulus(TooWide))
    else if BigEndian(n) == 0 || BigEndian(n) == 1 then r == Err(BadModulus(ModulusTooSmall))
    else if BigEndian(n) % 2 == 0 then r == Err(BadModulus(NotOddModulus))
    else r.Ok? && r.value.Valid() && r.value.modulus.N() == BigEndian(n) && r.value.exponent == BigEndian(e)
  }

  /** What `from_pkcs1` returns. */
  ghost predicate KeyFromPkcs1(der: Bytes, r: Result<RsaPublicKey, RsaError>) {
    match ParsePkcs1(der)
    case Err(asn1) => r == Err(BadKey(asn1))
    case Ok((n, e)) => KeyFrom(n, e, r)
  }

  /** `from_pkcs1`. */
  method FromPkcs1(der: Bytes) returns (r: Result<RsaPublicKey, RsaError>)
    ensures KeyFromPkcs1(der, r)
  {
    var outer := new Reader(der);
    var nested := outer.TakeNested(SEQUENCE);
    if nested.Err? {
      return Err(BadKey(nested.error));
    }
    var key := nested.value;
    var modulus := key.IntegerBytes();
    if modulus.Err? {
      return Err(BadKey(modulus.error));
    }
    var exponent := key.IntegerBytes();
    if exponent.Err? {
      return Err(BadKey(exponent.error));
    }
    if key.bytes != [] || outer.bytes != [] {
      return Err(BadKey(TrailingBytes));
    }
    if |exponent.value| > 8 {
      return Err(BadExponent);
    }
    var e := LimbOf(exponent.value);
    if e < 3 || e % 2 == 0 {
      return Err(BadExponent);
    }
    var n := Modulus.New(modulus.value);
    if n.Err? {
      return Err(BadModulus(n.error));
    }
    return Ok(RsaPublicKey(n.value, e));
  }

  function AsBadKey<T>(r: Result<T, Asn1Error>): Result<T, RsaError> {
    match r
    case Ok(value) => Ok(value)
    case Err(asn1) => Err(BadKey(asn1))
  }

  /** The BIT STRING of a `SubjectPublicKeyInfo` for rsaEncryption. */
  function ParseSpki(der: Bytes): Result<Bytes, RsaError> {
    var (spki, outer) :- AsBadKey(Take(der, SEQUENCE));
    var (body, afterAlgorithm) :- AsBadKey(Take(spki, SEQUENCE));
    var algorithm :- AsBadKey(AlgorithmContents(body));
    if algorithm.oid != RSA_ENCRYPTION then Err(NotAnRsaKey)
    else
      var (bits, rest) :- AsBadKey(Take(afterAlgorithm, BIT_STRING));
      if bits == [] || bits[0] != 0 then Err(BadKey(BadBitString))
      else if rest != [] || outer != [] then Err(BadKey(TrailingBytes))
      else Ok(bits[1..])
  }

  /** `from_spki`. */
  method FromSpki(der: Bytes) returns (r: Result<RsaPublicKey, RsaError>)
    ensures match ParseSpki(der)
      case Err(e) => r == Err(e)
      case Ok(bits) => KeyFromPkcs1(bits, r)
  {
    var outer := new Reader(der);
    var nested := outer.TakeNested(SEQUENCE);
    if nested.Err? {
      return Err(BadKey(nested.error));
    }
    var spki := nested.value;
    var algorithm := spki.AlgorithmIdentifier();
    if algorithm.Err? {
      return Err(BadKey(algorithm.error));
    }
    if algorithm.value.oid != RSA_ENCRYPTION {
      return Err(NotAnRsaKey);
    }
    var bits := spki.BitString();
    if bits.Err? {
      return Err(BadKey(bits.error));
    }
    if spki.bytes != [] || outer.bytes != [] {
      return Err(BadKey(TrailingBytes));
    }
    r := FromPkcs1(bits.value);
  }
}
