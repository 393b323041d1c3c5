/** What a timestamp token and a public key look like, written as nested values and without a reader, and the proof
    that the readers take exactly that. What a reader does not look at stands in the shape as a part of its own. */
module TokenShape {
  import opened Words
  import opened Limbs
  import opened Der
  import opened Rsa
  import opened Instants
  import opened Tsp

  /** The string is this value and then the rest. */
  ghost predicate IsTlv(bytes: Bytes, tag: u8, body: Bytes, rest: Bytes) {
    |body| < W && bytes == Tlv(tag, body) + rest
  }

  ghost predicate IsOid(bytes: Bytes, oid: Bytes, rest: Bytes) {
    OidContents(oid) && IsTlv(bytes, OID, oid, rest)
  }

  /** A value under any tag of one byte. */
  ghost predicate AnyTlv(bytes: Bytes, rest: Bytes) {
    exists tag, body :: LowTag(tag) && IsTlv(bytes, tag, body, rest)
  }

  /** A value under this tag, or none when the string does not start with the tag. */
  ghost predicate MaybeTlv(bytes: Bytes, tag: u8, rest: Bytes) {
    || (bytes == rest && (rest == [] || rest[0] != tag))
    || exists body :: IsTlv(bytes, tag, body, rest)
  }

  /** An AlgorithmIdentifier that names this algorithm, with one parameter or none. */
  ghost predicate IsAlgorithm(bytes: Bytes, oid: Bytes, rest: Bytes) {
    exists body, parameters ::
      IsTlv(bytes, SEQUENCE, body, rest) && IsOid(body, oid, parameters) && (parameters == [] || AnyTlv(parameters, []))
  }

  // ---------------------------------------------------------------------------
  // One value
  // ---------------------------------------------------------------------------

  lemma TakeIsTlv(bytes: Bytes, tag: u8, body: Bytes, rest: Bytes)
    requires LowTag(tag)
    ensures Take(bytes, tag) == Ok((body, rest)) <==> IsTlv(bytes, tag, body, rest)
  {
    if |body| < W {
      TakeExact(bytes, tag, body, rest);
    } else if Take(bytes, tag) == Ok((body, rest)) {
      TakeShortens(bytes, tag);
    }
  }

  lemma SplitIsTlv(bytes: Bytes, p: Piece)
    ensures Split(bytes) == Ok(p) <==> LowTag(p.tag) && IsTlv(bytes, p.tag, p.body, p.rest)
  {
    if |p.body| < W {
      SplitAcceptsExactly(bytes, p.tag, p.body, p.rest);
    } else if Split(bytes) == Ok(p) {
      SplitCanonical(bytes);
    }
  }

  lemma SplitIsAny(bytes: Bytes, rest: Bytes)
    ensures (Split(bytes).Ok? && Split(bytes).value.rest == rest) <==> AnyTlv(bytes, rest)
  {
    if Split(bytes).Ok? && Split(bytes).value.rest == rest {
      SplitIsTlv(bytes, Split(bytes).value);
    }
    if AnyTlv(bytes, rest) {
      var tag, body :| LowTag(tag) && IsTlv(bytes, tag, body, rest);
      SplitIsTlv(bytes, Piece(tag, body, rest));
    }
  }

  lemma OidIsTlv(bytes: Bytes, oid: Bytes, rest: Bytes)
    ensures TakeOid(bytes) == Ok((oid, rest)) <==> IsOid(bytes, oid, rest)
  {
    TakeIsTlv(bytes, OID, oid, rest);
    hide Take, OidContents, IsTlv;
    assert Take(bytes, OID).Ok? ==> Take(bytes, OID) == Ok((Take(bytes, OID).value.0, Take(bytes, OID).value.1));
  }

  lemma MagnitudeIsTlv(bytes: Bytes, m: Bytes, rest: Bytes)
    ensures TakeMagnitude(bytes) == Ok((m, rest))
       <==> Magnitude(m) && IsTlv(bytes, INTEGER, SignedBody(m), rest)
  {
    if Magnitude(m) {
      TakeIsTlv(bytes, INTEGER, SignedBody(m), rest);
      MagnitudeExact(SignedBody(m), m);
    }
    if TakeMagnitude(bytes) == Ok((m, rest)) {
      var body := Take(bytes, INTEGER).value.0;
      MagnitudeExact(body, m);
      TakeIsTlv(bytes, INTEGER, body, rest);
    }
  }

  lemma SkipIsMaybe(bytes: Bytes, tag: u8, rest: Bytes)
    requires LowTag(tag)
    ensures SkipField(bytes, tag) == Ok(rest) <==> MaybeTlv(bytes, tag, rest)
  {
    if SkipField(bytes, tag) == Ok(rest) && bytes != [] && bytes[0] == tag {
      var p := Split(bytes).value;
      SplitIsTlv(bytes, p);
      assert Tlv(p.tag, p.body)[0] == p.tag;
    }
    if MaybeTlv(bytes, tag, rest) && !(bytes == rest && (rest == [] || rest[0] != tag)) {
      var body :| IsTlv(bytes, tag, body, rest);
      SplitIsTlv(bytes, Piece(tag, body, rest));
      assert bytes[0] == tag;
    }
  }

  lemma AlgorithmIsTlv(bytes: Bytes, oid: Bytes, rest: Bytes)
    ensures TakeAlgorithm(bytes) == Ok((oid, rest)) <==> IsAlgorithm(bytes, oid, rest)
  {
    hide Split, Tlv, OidContents, IsTlv, IsOid, AnyTlv;
    if TakeAlgorithm(bytes) == Ok((oid, rest)) {
      var body := Take(bytes, SEQUENCE).value.0;
      var parameters := TakeOid(body).value.1;
      TakeIsTlv(bytes, SEQUENCE, body, rest);
      OidIsTlv(body, oid, parameters);
      SplitIsAny(parameters, []);
    }
    if IsAlgorithm(bytes, oid, rest) {
      var body, parameters :| IsTlv(bytes, SEQUENCE, body, rest) && IsOid(body, oid, parameters)
                              && (parameters == [] || AnyTlv(parameters, []));
      TakeIsTlv(bytes, SEQUENCE, body, rest);
      OidIsTlv(body, oid, parameters);
      SplitIsAny(parameters, []);
    }
  }

  // ---------------------------------------------------------------------------
  // The signed data
  // ---------------------------------------------------------------------------

  datatype DataParts = DataParts(
    explicit: Bytes, more: Bytes, data: Bytes, moreExplicit: Bytes, version: u64, afterVersion: Bytes)

  /** `[0] { SignedData }`, up to what follows its digest algorithms. */
  ghost predicate DataShape(bytes: Bytes, rest: Bytes, d: DataParts) {
    && IsTlv(bytes, CONTEXT_0, d.explicit, d.more)
    && IsTlv(d.explicit, SEQUENCE, d.data, d.moreExplicit)
    && d.data == Integer64(d.version) + d.afterVersion
    && AnyTlv(d.afterVersion, rest)
  }

  lemma DataRead(bytes: Bytes, rest: Bytes, d: DataParts, content: string, version: string)
    requires DataShape(bytes, rest, d)
    ensures AfterAlgorithms(bytes, content, version) == Ok(rest)
  {
    TakeIsTlv(bytes, CONTEXT_0, d.explicit, d.more);
    TakeIsTlv(d.explicit, SEQUENCE, d.data, d.moreExplicit);
    Integer64Exact(d.data, d.version, d.afterVersion);
    SplitIsAny(d.afterVersion, rest);
    hide Take, Split, TakeInteger64, IsTlv, AnyTlv, Integer64;
  }

  lemma DataShaped(bytes: Bytes, rest: Bytes, content: string, version: string) returns (d: DataParts)
    requires AfterAlgorithms(bytes, content, version) == Ok(rest)
    ensures DataShape(bytes, rest, d)
  {
    hide Take, Split, TakeInteger64, IsTlv, AnyTlv, Integer64;
    var (explicit, more) := Take(bytes, CONTEXT_0).value;
    var (data, moreExplicit) := Take(explicit, SEQUENCE).value;
    var (number, afterVersion) := TakeInteger64(data).value;
    d := DataParts(explicit, more, data, moreExplicit, number, afterVersion);
    TakeIsTlv(bytes, CONTEXT_0, explicit, more);
    TakeIsTlv(explicit, SEQUENCE, data, moreExplicit);
    Integer64Exact(data, number, afterVersion);
    SplitIsAny(afterVersion, rest);
  }

  // ---------------------------------------------------------------------------
  // The content
  // ---------------------------------------------------------------------------

  datatype ContentParts = ContentParts(
    info: Bytes, trailing: Bytes, afterType: Bytes, data: DataParts, afterAlgorithms: Bytes,
    encapsulated: Bytes, moreData: Bytes, afterContentType: Bytes, wrapper: Bytes, moreEncapsulated: Bytes)

  /** Down to the octet string that holds the content. */
  ghost predicate ContentFrame(token: Bytes, p: ContentParts) {
    && IsTlv(token, SEQUENCE, p.info, p.trailing)
    && IsTlv(p.info, OID, SIGNED_DATA, p.afterType)
    && DataShape(p.afterType, p.afterAlgorithms, p.data)
    && IsTlv(p.afterAlgorithms, SEQUENCE, p.encapsulated, p.moreData)
    && IsTlv(p.encapsulated, OID, TST_INFO, p.afterContentType)
    && IsTlv(p.afterContentType, CONTEXT_0, p.wrapper, p.moreEncapsulated)
  }

  ghost predicate ContentShape(token: Bytes, content: Bytes, p: ContentParts) {
    ContentFrame(token, p) && IsTlv(p.wrapper, OCTET_STRING, content, [])
  }

  lemma NamesAreOids()
    ensures OidContents(SIGNED_DATA) && OidContents(TST_INFO)
  {
  }

  lemma ContentRead(token: Bytes, content: Bytes, p: ContentParts)
    requires ContentShape(token, content, p)
    ensures ContentBytes(token) == Ok(content)
  {
    NamesAreOids();
    hide OidContents, IsTlv, DataShape, Take, TakeOid, AfterAlgorithms;
    TakeIsTlv(token, SEQUENCE, p.info, p.trailing);
    OidIsTlv(p.info, SIGNED_DATA, p.afterType);
    DataRead(p.afterType, p.afterAlgorithms, p.data, "ContentInfo content", "SignedData version");
    TakeIsTlv(p.afterAlgorithms, SEQUENCE, p.encapsulated, p.moreData);
    OidIsTlv(p.encapsulated, TST_INFO, p.afterContentType);
    TakeIsTlv(p.afterContentType, CONTEXT_0, p.wrapper, p.moreEncapsulated);
    TakeIsTlv(p.wrapper, OCTET_STRING, content, []);
  }

  lemma ContentShaped(token: Bytes, content: Bytes) returns (p: ContentParts)
    requires ContentBytes(token) == Ok(content)
    ensures ContentShape(token, content, p)
  {
    hide OidContents, IsTlv, DataShape, Take, TakeOid, AfterAlgorithms;
    var (info, trailing) := Take(token, SEQUENCE).value;
    var afterType := TakeOid(info).value.1;
    var sd := AfterAlgorithms(afterType, "ContentInfo content", "SignedData version").value;
    var (encapsulated, moreData) := Take(sd, SEQUENCE).value;
    var afterContentType := TakeOid(encapsulated).value.1;
    var (wrapper, moreEncapsulated) := Take(afterContentType, CONTEXT_0).value;
    var data := DataShaped(afterType, sd, "ContentInfo content", "SignedData version");
    p := ContentParts(info, trailing, afterType, data, sd, encapsulated, moreData, afterContentType, wrapper,
                      moreEncapsulated);
    TakeIsTlv(token, SEQUENCE, info, trailing);
    OidIsTlv(info, SIGNED_DATA, afterType);
    TakeIsTlv(sd, SEQUENCE, encapsulated, moreData);
    OidIsTlv(encapsulated, TST_INFO, afterContentType);
    TakeIsTlv(afterContentType, CONTEXT_0, wrapper, moreEncapsulated);
    var (body, end) := Take(wrapper, OCTET_STRING).value;
    assert body == content && end == [];
    TakeIsTlv(wrapper, OCTET_STRING, body, end);
  }

  /** A content is read from exactly the tokens of its shape. */
  lemma ContentExactly(token: Bytes, content: Bytes)
    ensures ContentBytes(token) == Ok(content) <==> exists p :: ContentShape(token, content, p)
  {
    hide ContentBytes, ContentShape;
    if ContentBytes(token) == Ok(content) {
      var p := ContentShaped(token, content);
    }
    if exists p :: ContentShape(token, content, p) {
      var p :| ContentShape(token, content, p);
      ContentRead(token, content, p);
    }
  }

  // ---------------------------------------------------------------------------
  // The signer
  // ---------------------------------------------------------------------------

  datatype SignerFrame = SignerFrame(
    info: Bytes, trailing: Bytes, afterType: Bytes, data: DataParts, afterAlgorithms: Bytes, afterContent: Bytes,
    afterCertificates: Bytes, afterCrls: Bytes, signers: Bytes, moreData: Bytes)

  /** One SignerInfo and no other, behind certificates and revocation lists that may be there. */
  ghost predicate SignerShape(token: Bytes, si: Bytes, f: SignerFrame) {
    && IsTlv(token, SEQUENCE, f.info, f.trailing)
    && AnyTlv(f.info, f.afterType)
    && DataShape(f.afterType, f.afterAlgorithms, f.data)
    && AnyTlv(f.afterAlgorithms, f.afterContent)
    && MaybeTlv(f.afterContent, CONTEXT_0, f.afterCertificates)
    && MaybeTlv(f.afterCertificates, CONTEXT_1, f.afterCrls)
    && IsTlv(f.afterCrls, SET, f.signers, f.moreData)
    && IsTlv(f.signers, SEQUENCE, si, [])
  }

  lemma SignerRead(token: Bytes, si: Bytes, f: SignerFrame)
    requires SignerShape(token, si, f)
    ensures SignerInfo(token) == Ok(si)
  {
    hide IsTlv, AnyTlv, MaybeTlv, DataShape, Take, Split, SkipField, AfterAlgorithms;
    TakeIsTlv(token, SEQUENCE, f.info, f.trailing);
    SplitIsAny(f.info, f.afterType);
    DataRead(f.afterType, f.afterAlgorithms, f.data, "content", "version");
    SplitIsAny(f.afterAlgorithms, f.afterContent);
    SkipIsMaybe(f.afterContent, CONTEXT_0, f.afterCertificates);
    SkipIsMaybe(f.afterCertificates, CONTEXT_1, f.afterCrls);
    TakeIsTlv(f.afterCrls, SET, f.signers, f.moreData);
    TakeIsTlv(f.signers, SEQUENCE, si, []);
  }

  lemma SignerShaped(token: Bytes, si: Bytes) returns (f: SignerFrame)
    requires SignerInfo(token) == Ok(si)
    ensures SignerShape(token, si, f)
  {
    hide IsTlv, AnyTlv, MaybeTlv, DataShape, Take, Split, SkipField, AfterAlgorithms;
    var (info, trailing) := Take(token, SEQUENCE).value;
    var afterType := Split(info).value.rest;
    var sd := AfterAlgorithms(afterType, "content", "version").value;
    var afterContent := Split(sd).value.rest;
    var afterCertificates := SkipField(afterContent, CONTEXT_0).value;
    var afterCrls := SkipField(afterCertificates, CONTEXT_1).value;
    var (signers, moreData) := Take(afterCrls, SET).value;
    var data := DataShaped(afterType, sd, "content", "version");
    f := SignerFrame(info, trailing, afterType, data, sd, afterContent, afterCertificates, afterCrls, signers,
                     moreData);
    TakeIsTlv(token, SEQUENCE, info, trailing);
    SplitIsAny(info, afterType);
    SplitIsAny(sd, afterContent);
    SkipIsMaybe(afterContent, CONTEXT_0, afterCertificates);
    SkipIsMaybe(afterCertificates, CONTEXT_1, afterCrls);
    TakeIsTlv(afterCrls, SET, signers, moreData);
    var (body, end) := Take(signers, SEQUENCE).value;
    assert body == si && end == [];
    TakeIsTlv(signers, SEQUENCE, body, end);
  }

  datatype FieldParts = FieldParts(
    version: u64, afterVersion: Bytes, afterId: Bytes, digestOid: Bytes, attributes: Bytes, afterAttributes: Bytes,
    signatureOid: Bytes, last: Bytes, unsigned: Bytes)

  /** The identifier of a digest, in the octets that also stand in front of it in a padded block. */
  ghost predicate NamesDigest(oid: Bytes, digest: DigestKind) {
    match digest
    case Sha256 => oid == [0x60, 0x86, 0x48, 0x01, 0x65, 0x03, 0x04, 0x02, 0x01]
    case Sha384 => oid == [0x60, 0x86, 0x48, 0x01, 0x65, 0x03, 0x04, 0x02, 0x02]
  }

  /** The identifiers of the signature algorithms that go with a digest: the one that names none, and the one that
      names this. */
  ghost predicate SignsDigest(oid: Bytes, digest: DigestKind) {
    || oid == [0x2A, 0x86, 0x48, 0x86, 0xF7, 0x0D, 0x01, 0x01, 0x01]
    || oid == [0x2A, 0x86, 0x48, 0x86, 0xF7, 0x0D, 0x01, 0x01, if digest.Sha256? then 0x0B else 0x0C]
  }

  /** The digest a token names is the one with that identifier, in the token and in the block that is signed. */
  lemma DigestIsNamed(oid: Bytes, digest: DigestKind)
    ensures DigestOf(oid) == Some(digest) <==> NamesDigest(oid, digest)
    ensures NamesDigest(oid, digest) <==> oid == DigestPrefix(digest)[6..15]
    ensures DigestOf(oid).None? <==> !NamesDigest(oid, Sha256) && !NamesDigest(oid, Sha384)
  {
    assert SHA256_OID[8] != SHA384_OID[8];
    assert DigestPrefix(digest)[6..15] == if digest.Sha256? then SHA256_OID else SHA384_OID;
  }

  lemma AlgorithmAgrees(oid: Bytes, digest: DigestKind)
    ensures AgreesWith(oid, digest) == Some(true) <==> SignsDigest(oid, digest)
    ensures AgreesWith(oid, digest).None? <==> !SignsDigest(oid, Sha256) && !SignsDigest(oid, Sha384)
  {
    assert SHA256_WITH_RSA[8] != SHA384_WITH_RSA[8] && RSA_ENCRYPTION[8] != SHA256_WITH_RSA[8];
    assert SHA384_WITH_RSA[8] != RSA_ENCRYPTION[8];
  }

  /** The fields of a SignerInfo, with a digest this client has and a signature algorithm that goes with it. */
  ghost predicate FieldsShape(si: Bytes, parts: SignerParts, p: FieldParts) {
    && si == Integer64(p.version) + p.afterVersion
    && AnyTlv(p.afterVersion, p.afterId)
    && IsAlgorithm(p.afterId, p.digestOid, p.attributes)
    && NamesDigest(p.digestOid, parts.digest)
    && IsTlv(p.attributes, CONTEXT_0, parts.signedAttrs, p.afterAttributes)
    && IsAlgorithm(p.afterAttributes, p.signatureOid, p.last)
    && SignsDigest(p.signatureOid, parts.digest)
    && IsTlv(p.last, OCTET_STRING, parts.signature, p.unsigned)
  }

  lemma FieldsRead(si: Bytes, parts: SignerParts, p: FieldParts)
    requires FieldsShape(si, parts, p)
    ensures SignerFields(si) == Ok(parts)
  {
    StartsWithTag(p.attributes, CONTEXT_0, parts.signedAttrs, p.afterAttributes);
    DigestIsNamed(p.digestOid, parts.digest);
    AlgorithmAgrees(p.signatureOid, parts.digest);
    hide IsTlv, AnyTlv, IsAlgorithm, Take, Split, TakeInteger64, TakeAlgorithm, Integer64, DigestOf, AgreesWith,
         NamesDigest, SignsDigest;
    Integer64Exact(si, p.version, p.afterVersion);
    SplitIsAny(p.afterVersion, p.afterId);
    AlgorithmIsTlv(p.afterId, p.digestOid, p.attributes);
    TakeIsTlv(p.attributes, CONTEXT_0, parts.signedAttrs, p.afterAttributes);
    AlgorithmIsTlv(p.afterAttributes, p.signatureOid, p.last);
    TakeIsTlv(p.last, OCTET_STRING, parts.signature, p.unsigned);
  }

  lemma StartsWithTag(bytes: Bytes, tag: u8, body: Bytes, rest: Bytes)
    requires IsTlv(bytes, tag, body, rest)
    ensures bytes != [] && bytes[0] == tag
  {
  }

  lemma FieldsShaped(si: Bytes, parts: SignerParts) returns (p: FieldParts)
    requires SignerFields(si) == Ok(parts)
    ensures FieldsShape(si, parts, p)
  {
    hide IsTlv, AnyTlv, IsAlgorithm, Take, Split, TakeInteger64, TakeAlgorithm, Integer64, DigestOf, AgreesWith,
         NamesDigest, SignsDigest;
    var (version, afterVersion) := TakeInteger64(si).value;
    var afterId := Split(afterVersion).value.rest;
    var (digestOid, attributes) := TakeAlgorithm(afterId).value;
    var (signedAttrs, afterAttributes) := Take(attributes, CONTEXT_0).value;
    var (signatureOid, last) := TakeAlgorithm(afterAttributes).value;
    var (signature, unsigned) := Take(last, OCTET_STRING).value;
    p := FieldParts(version, afterVersion, afterId, digestOid, attributes, afterAttributes, signatureOid, last,
                    unsigned);
    Integer64Exact(si, version, afterVersion);
    SplitIsAny(afterVersion, afterId);
    AlgorithmIsTlv(afterId, digestOid, attributes);
    TakeIsTlv(attributes, CONTEXT_0, signedAttrs, afterAttributes);
    AlgorithmIsTlv(afterAttributes, signatureOid, last);
    TakeIsTlv(last, OCTET_STRING, signature, unsigned);
    DigestIsNamed(digestOid, parts.digest);
    AlgorithmAgrees(signatureOid, parts.digest);
  }

  /** A digest this client has, signed attributes, and a signature algorithm of any kind. */
  ghost predicate AttributesFollow(p: FieldParts, digest: DigestKind, signedAttrs: Bytes) {
    && NamesDigest(p.digestOid, digest) && IsTlv(p.attributes, CONTEXT_0, signedAttrs, p.afterAttributes)
    && IsAlgorithm(p.afterAttributes, p.signatureOid, p.last)
  }

  /** What a SignerInfo is refused for by its algorithms: a digest that is neither of the two, a signature algorithm
      that is none of the three, and a signature algorithm that names the other digest. */
  lemma AlgorithmsRefused(si: Bytes, p: FieldParts, digest: DigestKind, signedAttrs: Bytes)
    requires si == Integer64(p.version) + p.afterVersion && AnyTlv(p.afterVersion, p.afterId)
    requires IsAlgorithm(p.afterId, p.digestOid, p.attributes)
    ensures !NamesDigest(p.digestOid, Sha256) && !NamesDigest(p.digestOid, Sha384) ==>
      SignerFields(si) == Err(UnsupportedAlgorithm)
    ensures AttributesFollow(p, digest, signedAttrs) && !SignsDigest(p.signatureOid, digest) ==>
      SignerFields(si) == Err(if SignsDigest(p.signatureOid, if digest.Sha256? then Sha384 else Sha256)
                              then UnsupportedCms("the digest and signature algorithms disagree")
                              else UnsupportedAlgorithm)
  {
    DigestIsNamed(p.digestOid, digest);
    AlgorithmAgrees(p.signatureOid, digest);
    if IsTlv(p.attributes, CONTEXT_0, signedAttrs, p.afterAttributes) {
      StartsWithTag(p.attributes, CONTEXT_0, signedAttrs, p.afterAttributes);
      TakeIsTlv(p.attributes, CONTEXT_0, signedAttrs, p.afterAttributes);
    }
    hide IsTlv, AnyTlv, IsAlgorithm, Take, Split, TakeInteger64, TakeAlgorithm, Integer64, DigestOf, AgreesWith,
         NamesDigest, SignsDigest;
    Integer64Exact(si, p.version, p.afterVersion);
    SplitIsAny(p.afterVersion, p.afterId);
    AlgorithmIsTlv(p.afterId, p.digestOid, p.attributes);
    AlgorithmIsTlv(p.afterAttributes, p.signatureOid, p.last);
  }

  /** A signer is read from exactly the tokens of its shape. */
  lemma SignerExactly(token: Bytes, parts: SignerParts)
    ensures Signer(token) == Ok(parts)
       <==> exists si, f, p :: SignerShape(token, si, f) && FieldsShape(si, parts, p)
  {
    hide SignerInfo, SignerFields, SignerShape, FieldsShape;
    if Signer(token) == Ok(parts) {
      var si := SignerInfo(token).value;
      var f := SignerShaped(token, si);
      var p := FieldsShaped(si, parts);
    }
    if exists si, f, p :: SignerShape(token, si, f) && FieldsShape(si, parts, p) {
      var si, f, p :| SignerShape(token, si, f) && FieldsShape(si, parts, p);
      SignerRead(token, si, f);
      FieldsRead(si, parts, p);
    }
  }

  // ---------------------------------------------------------------------------
  // The claim
  // ---------------------------------------------------------------------------

  datatype ClaimParts = ClaimParts(
    info: Bytes, trailing: Bytes, afterVersion: Bytes, policy: Bytes, afterPolicy: Bytes, imprint: Bytes,
    afterImprint: Bytes, hashed: Bytes, afterSerial: Bytes, time: Bytes, afterTime: Bytes, afterAccuracy: Bytes,
    afterOrdering: Bytes, more: Bytes)

  /** A TSTInfo of version one around a SHA-384 imprint, a serial number, a time, and a nonce that may be there. */
  ghost predicate ClaimShape(content: Bytes, claim: Claim, p: ClaimParts) {
    && IsTlv(content, SEQUENCE, p.info, p.trailing)
    && p.info == Integer64(1) + p.afterVersion
    && IsOid(p.afterVersion, p.policy, p.afterPolicy)
    && IsTlv(p.afterPolicy, SEQUENCE, p.imprint, p.afterImprint)
    && ImprintShape(p.imprint, claim.imprint, p.hashed)
    && Magnitude(claim.serial) && IsTlv(p.afterImprint, INTEGER, SignedBody(claim.serial), p.afterSerial)
    && IsTlv(p.afterSerial, GENERALIZED_TIME, p.time, p.afterTime) && TimeOf(p.time) == Some(claim.at)
    && NonceShape(p.afterTime, claim.nonce, p.afterAccuracy, p.afterOrdering, p.more)
  }

  ghost predicate ImprintShape(imprint: Bytes, digest: Bytes, hashed: Bytes) {
    IsAlgorithm(imprint, SHA384_OID, hashed) && IsTlv(hashed, OCTET_STRING, digest, []) && |digest| == 48
  }

  ghost predicate NonceShape(bytes: Bytes, nonce: Option<u64>, afterAccuracy: Bytes, afterOrdering: Bytes,
                             more: Bytes) {
    && MaybeTlv(bytes, SEQUENCE, afterAccuracy)
    && MaybeTlv(afterAccuracy, BOOLEAN, afterOrdering)
    && match nonce
       case Some(n) => afterOrdering == Integer64(n) + more
       case None => afterOrdering == [] || afterOrdering[0] != INTEGER
  }

  lemma ImprintExactly(imprint: Bytes, digest: Bytes)
    ensures ImprintOf(imprint) == Ok(digest) <==> exists hashed :: ImprintShape(imprint, digest, hashed)
  {
    hide TakeAlgorithm, Take, IsAlgorithm, IsTlv;
    if ImprintOf(imprint) == Ok(digest) {
      var hashed := TakeAlgorithm(imprint).value.1;
      AlgorithmIsTlv(imprint, SHA384_OID, hashed);
      var (body, end) := Take(hashed, OCTET_STRING).value;
      assert body == digest && end == [];
      TakeIsTlv(hashed, OCTET_STRING, body, end);
      assert ImprintShape(imprint, digest, hashed);
    }
    if exists hashed :: ImprintShape(imprint, digest, hashed) {
      var hashed :| ImprintShape(imprint, digest, hashed);
      AlgorithmIsTlv(imprint, SHA384_OID, hashed);
      TakeIsTlv(hashed, OCTET_STRING, digest, []);
    }
  }

  lemma NonceRead(bytes: Bytes, nonce: Option<u64>, afterAccuracy: Bytes, afterOrdering: Bytes, more: Bytes)
    requires NonceShape(bytes, nonce, afterAccuracy, afterOrdering, more)
    ensures NonceOf(bytes) == Ok(nonce)
  {
    if nonce.Some? {
      Integer64Exact(afterOrdering, nonce.value, more);
      assert afterOrdering[0] == INTEGER;
    }
    hide MaybeTlv, SkipField, TakeInteger64, Integer64;
    SkipIsMaybe(bytes, SEQUENCE, afterAccuracy);
    SkipIsMaybe(afterAccuracy, BOOLEAN, afterOrdering);
  }

  lemma NonceShaped(bytes: Bytes, nonce: Option<u64>) returns (afterAccuracy: Bytes, afterOrdering: Bytes, more: Bytes)
    requires NonceOf(bytes) == Ok(nonce)
    ensures NonceShape(bytes, nonce, afterAccuracy, afterOrdering, more)
  {
    hide MaybeTlv, SkipField, TakeInteger64, Integer64;
    afterAccuracy := SkipField(bytes, SEQUENCE).value;
    afterOrdering := SkipField(afterAccuracy, BOOLEAN).value;
    SkipIsMaybe(bytes, SEQUENCE, afterAccuracy);
    SkipIsMaybe(afterAccuracy, BOOLEAN, afterOrdering);
    more := [];
    if nonce.Some? {
      more := TakeInteger64(afterOrdering).value.1;
      Integer64Exact(afterOrdering, nonce.value, more);
    }
  }

  lemma ClaimRead(content: Bytes, claim: Claim, p: ClaimParts)
    requires ClaimShape(content, claim, p)
    ensures ClaimOf(content) == Ok(claim)
  {
    hide IsTlv, IsOid, ImprintShape, NonceShape, Magnitude, SignedBody, Take, TakeOid, TakeInteger64, TakeMagnitude,
         Integer64, ImprintOf, NonceOf, TimeOf;
    TakeIsTlv(content, SEQUENCE, p.info, p.trailing);
    Integer64Exact(p.info, 1, p.afterVersion);
    OidIsTlv(p.afterVersion, p.policy, p.afterPolicy);
    TakeIsTlv(p.afterPolicy, SEQUENCE, p.imprint, p.afterImprint);
    ImprintExactly(p.imprint, claim.imprint);
    MagnitudeIsTlv(p.afterImprint, claim.serial, p.afterSerial);
    TakeIsTlv(p.afterSerial, GENERALIZED_TIME, p.time, p.afterTime);
    NonceRead(p.afterTime, claim.nonce, p.afterAccuracy, p.afterOrdering, p.more);
  }

  lemma ClaimShaped(content: Bytes, claim: Claim) returns (p: ClaimParts)
    requires ClaimOf(content) == Ok(claim)
    ensures ClaimShape(content, claim, p)
  {
    hide IsTlv, IsOid, ImprintShape, NonceShape, Magnitude, SignedBody, Take, TakeOid, TakeInteger64, TakeMagnitude,
         Integer64, ImprintOf, NonceOf, TimeOf;
    var (info, trailing) := Take(content, SEQUENCE).value;
    var afterVersion := TakeInteger64(info).value.1;
    var (policy, afterPolicy) := TakeOid(afterVersion).value;
    var (imprint, afterImprint) := Take(afterPolicy, SEQUENCE).value;
    var afterSerial := TakeMagnitude(afterImprint).value.1;
    var (time, afterTime) := Take(afterSerial, GENERALIZED_TIME).value;
    TakeIsTlv(content, SEQUENCE, info, trailing);
    Integer64Exact(info, 1, afterVersion);
    OidIsTlv(afterVersion, policy, afterPolicy);
    TakeIsTlv(afterPolicy, SEQUENCE, imprint, afterImprint);
    ImprintExactly(imprint, claim.imprint);
    var hashed :| ImprintShape(imprint, claim.imprint, hashed);
    MagnitudeIsTlv(afterImprint, claim.serial, afterSerial);
    TakeIsTlv(afterSerial, GENERALIZED_TIME, time, afterTime);
    var afterAccuracy, afterOrdering, more := NonceShaped(afterTime, claim.nonce);
    p := ClaimParts(info, trailing, afterVersion, policy, afterPolicy, imprint, afterImprint, hashed, afterSerial, time,
                    afterTime, afterAccuracy, afterOrdering, more);
  }

  /** A claim is read from exactly the contents of its shape. */
  lemma ClaimExactly(content: Bytes, claim: Claim)
    ensures ClaimOf(content) == Ok(claim) <==> exists p :: ClaimShape(content, claim, p)
  {
    hide ClaimOf, ClaimShape;
    if ClaimOf(content) == Ok(claim) {
      var p := ClaimShaped(content, claim);
    }
    if exists p :: ClaimShape(content, claim, p) {
      var p :| ClaimShape(content, claim, p);
      ClaimRead(content, claim, p);
    }
  }

  // ---------------------------------------------------------------------------
  // The signed attributes
  // ---------------------------------------------------------------------------

  /** An attribute: its type, the set of its values, and whatever else stands in it. */
  ghost predicate AttributeShape(bytes: Bytes, a: Attribute, body: Bytes, after: Bytes, more: Bytes, rest: Bytes) {
    && IsTlv(bytes, SEQUENCE, body, rest) && IsOid(body, a.oid, after) && IsTlv(after, SET, a.values, more)
  }

  ghost predicate StartsWithAttribute(bytes: Bytes, a: Attribute, rest: Bytes) {
    exists body, after, more :: AttributeShape(bytes, a, body, after, more, rest)
  }

  /** One attribute after another, and nothing else. */
  ghost predicate AttributesShape(body: Bytes, list: seq<Attribute>)
    decreases |list|
  {
    if list == [] then body == []
    else body != [] && exists rest :: StartsWithAttribute(body, list[0], rest) && AttributesShape(rest, list[1..])
  }

  lemma AttributeExactly(bytes: Bytes, a: Attribute, rest: Bytes)
    ensures TakeAttribute(bytes) == Ok((a, rest)) <==> StartsWithAttribute(bytes, a, rest)
  {
    hide IsTlv, IsOid, Take, TakeOid;
    if TakeAttribute(bytes) == Ok((a, rest)) {
      var body := Take(bytes, SEQUENCE).value.0;
      var after := TakeOid(body).value.1;
      var more := Take(after, SET).value.1;
      TakeIsTlv(bytes, SEQUENCE, body, rest);
      OidIsTlv(body, a.oid, after);
      TakeIsTlv(after, SET, a.values, more);
      assert AttributeShape(bytes, a, body, after, more, rest);
    }
    if StartsWithAttribute(bytes, a, rest) {
      var body, after, more :| AttributeShape(bytes, a, body, after, more, rest);
      TakeIsTlv(bytes, SEQUENCE, body, rest);
      OidIsTlv(body, a.oid, after);
      TakeIsTlv(after, SET, a.values, more);
    }
  }

  /** The attributes are read from exactly such a string. */
  lemma {:induction false} AttributesExactly(body: Bytes, list: seq<Attribute>)
    ensures Attributes(body) == Ok(list) <==> AttributesShape(body, list)
    decreases |list|
  {
    hide TakeAttribute, StartsWithAttribute;
    if Attributes(body) == Ok(list) && list != [] {
      var (a, rest) := TakeAttribute(body).value;
      assert list[0] == a && Attributes(rest) == Ok(list[1..]);
      AttributeExactly(body, a, rest);
      AttributesExactly(rest, list[1..]);
    }
    if AttributesShape(body, list) && list != [] {
      var rest :| StartsWithAttribute(body, list[0], rest) && AttributesShape(rest, list[1..]);
      AttributeExactly(body, list[0], rest);
      AttributesExactly(rest, list[1..]);
      assert [list[0]] + list[1..] == list;
    }
  }

  /** One attribute of this type, at this place and nowhere else. */
  ghost predicate OnlyOneAt(list: seq<Attribute>, oid: Bytes, at: nat) {
    at < |list| && forall i :: 0 <= i < |list| ==> (list[i].oid == oid <==> i == at)
  }

  /** The two attributes that bind a signature to its content: one message digest, which is this one, and one content
      type, which names a TSTInfo. */
  ghost predicate Binds(list: seq<Attribute>, digest: Bytes, i: nat, j: nat) {
    && OnlyOneAt(list, [0x2A, 0x86, 0x48, 0x86, 0xF7, 0x0D, 0x01, 0x09, 0x04], i)
    && IsTlv(list[i].values, OCTET_STRING, digest, [])
    && OnlyOneAt(list, [0x2A, 0x86, 0x48, 0x86, 0xF7, 0x0D, 0x01, 0x09, 0x03], j)
    && IsTlv(list[j].values, OID, [0x2A, 0x86, 0x48, 0x86, 0xF7, 0x0D, 0x01, 0x09, 0x10, 0x01, 0x04], [])
  }

  lemma {:induction false} CountedOnce(list: seq<Attribute>, oid: Bytes)
    ensures CountOf(list, oid) == 0 <==> forall i :: 0 <= i < |list| ==> list[i].oid != oid
    ensures CountOf(list, oid) == 1 <==> exists at :: OnlyOneAt(list, oid, at)
  {
    if list != [] {
      var last := |list| - 1;
      var front := list[..last];
      CountedOnce(front, oid);
      if list[last].oid == oid {
        if CountOf(front, oid) == 0 {
          assert OnlyOneAt(list, oid, last);
        }
        if exists at :: OnlyOneAt(list, oid, at) {
          var at :| OnlyOneAt(list, oid, at);
          assert at == last;
        }
      } else {
        if CountOf(front, oid) == 1 {
          var at :| OnlyOneAt(front, oid, at);
          assert OnlyOneAt(list, oid, at);
        }
        if exists at :: OnlyOneAt(list, oid, at) {
          var at :| OnlyOneAt(list, oid, at);
          assert OnlyOneAt(front, oid, at);
        }
      }
    }
  }

  /** The checks of the attributes accept exactly the strings of attributes that bind. */
  lemma AttributesBindExactly(body: Bytes, digest: Bytes)
    ensures AttributesOk(body, digest)
       <==> exists list, i, j :: AttributesShape(body, list) && Binds(list, digest, i, j)
  {
    hide AttributesShape, Attributes, CountOf, ValueOk;
    if AttributesOk(body, digest) {
      var list := Attributes(body).value;
      AttributesExactly(body, list);
      var i, j := BindingPlaces(list, digest);
    }
    if exists list, i, j :: AttributesShape(body, list) && Binds(list, digest, i, j) {
      var list, i, j :| AttributesShape(body, list) && Binds(list, digest, i, j);
      AttributesExactly(body, list);
      PlacesBind(list, digest, i, j);
    }
  }

  lemma BindingPlaces(list: seq<Attribute>, digest: Bytes) returns (i: nat, j: nat)
    requires ValuesOk(list, digest) && CountOf(list, MESSAGE_DIGEST) == 1 && CountOf(list, CONTENT_TYPE) == 1
    ensures Binds(list, digest, i, j)
  {
    CountedOnce(list, MESSAGE_DIGEST);
    CountedOnce(list, CONTENT_TYPE);
    i :| OnlyOneAt(list, MESSAGE_DIGEST, i);
    j :| OnlyOneAt(list, CONTENT_TYPE, j);
    assert ValueOk(list[i], digest) && ValueOk(list[j], digest);
    NamesAreOids();
    hide IsTlv, Take, TakeOid, CountOf, OidContents;
    TakeIsTlv(list[i].values, OCTET_STRING, digest, []);
    OidIsTlv(list[j].values, TST_INFO, []);
  }

  lemma PlacesBind(list: seq<Attribute>, digest: Bytes, i: nat, j: nat)
    requires Binds(list, digest, i, j)
    ensures ValuesOk(list, digest) && CountOf(list, MESSAGE_DIGEST) == 1 && CountOf(list, CONTENT_TYPE) == 1
  {
    CountedOnce(list, MESSAGE_DIGEST);
    CountedOnce(list, CONTENT_TYPE);
    assert OnlyOneAt(list, MESSAGE_DIGEST, i) && OnlyOneAt(list, CONTENT_TYPE, j);
    NamesAreOids();
    hide IsTlv, Take, TakeOid, CountOf, OidContents;
    TakeIsTlv(list[i].values, OCTET_STRING, digest, []);
    OidIsTlv(list[j].values, TST_INFO, []);
  }

  // ---------------------------------------------------------------------------
  // A token that is believed
  // ---------------------------------------------------------------------------

  /** The string that is signed starts with the octet of a SET and is otherwise the attributes as they stand in the
      token. */
  lemma SignedUnderSet(token: Bytes)
    requires Signer(token).Ok?
    ensures var attrs := Signer(token).value.signedAttrs;
      && |attrs| < W && |ToBeSigned(token)| == |Tlv(CONTEXT_0, attrs)|
      && ToBeSigned(token)[0] == 0x31 && ToBeSigned(token)[1..] == Tlv(CONTEXT_0, attrs)[1..]
  {
    SignedAttrsFit(token);
    hide *;
    OtherTag(Signer(token).value.signedAttrs);
    SignedIs(token);
  }

  lemma SignedIs(token: Bytes)
    requires Signer(token).Ok?
    ensures |Signer(token).value.signedAttrs| < W && ToBeSigned(token) == Tlv(SET, Signer(token).value.signedAttrs)
  {
    SignedAttrsFit(token);
    hide Signer, Tlv;
  }

  /** Two tags of one string differ in the first octet. */
  lemma OtherTag(body: Bytes)
    requires |body| < W
    ensures var x, y := Tlv(SET, body), Tlv(CONTEXT_0, body);
      |x| == |y| > 0 && x[0] == 0x31 && y[0] == 0xA0 && x[1..] == y[1..]
  {
  }

  ghost predicate HasContent(token: Bytes, content: Bytes) {
    exists p :: ContentShape(token, content, p)
  }

  ghost predicate HasSigner(token: Bytes, parts: SignerParts) {
    exists si, f, p :: SignerShape(token, si, f) && FieldsShape(si, parts, p)
  }

  ghost predicate HasBinding(body: Bytes, digest: Bytes) {
    exists list, i, j :: AttributesShape(body, list) && Binds(list, digest, i, j)
  }

  ghost predicate HasClaim(content: Bytes, claim: Claim) {
    exists p :: ClaimShape(content, claim, p)
  }

  /** A token around this content, with this signer and this claim: the attributes bind the digest of the content, and
      the signature is the key's over the digest of the attributes under the tag of a SET. */
  ghost predicate Believable(h: Digests, key: RsaPublicKey, token: Bytes, content: Bytes, parts: SignerParts,
                             claim: Claim)
    requires key.Valid()
  {
    && HasContent(token, content) && HasSigner(token, parts) && HasClaim(content, claim)
    && HasBinding(parts.signedAttrs, h(parts.digest, content))
    && |parts.signedAttrs| < W
    && key.Accepts(parts.digest, h(parts.digest, Tlv(SET, parts.signedAttrs)), parts.signature)
  }

  /** What is believed, without a reader: exactly the tokens of these shapes, and what is returned is their claim and
      their digest. */
  lemma BelievedExactly(h: Digests, key: RsaPublicKey, token: Bytes, claim: Claim, digest: DigestKind)
    requires key.Valid()
    ensures Attests(h, key, token) && ClaimOf(ContentBytes(token).value) == Ok(claim)
              && Signer(token).value.digest == digest
       <==> exists content, parts: SignerParts ::
              parts.digest == digest && Believable(h, key, token, content, parts, claim)
  {
    hide ContentBytes, Signer, ClaimOf, AttributesOk, ContentShape, SignerShape, FieldsShape, ClaimShape, HasBinding,
         RsaPublicKey.Accepts, Tlv;
    if Attests(h, key, token) && ClaimOf(ContentBytes(token).value) == Ok(claim)
       && Signer(token).value.digest == digest {
      var content, parts := ContentBytes(token).value, Signer(token).value;
      SignedAttrsFit(token);
      ContentExactly(token, content);
      SignerExactly(token, parts);
      BindingExactly(parts.signedAttrs, h(parts.digest, content));
      ClaimExactly(content, claim);
      assert Believable(h, key, token, content, parts, claim);
    }
    if exists content, parts: SignerParts ::
         parts.digest == digest && Believable(h, key, token, content, parts, claim) {
      var content, parts: SignerParts :| parts.digest == digest && Believable(h, key, token, content, parts, claim);
      ContentExactly(token, content);
      SignerExactly(token, parts);
      BindingExactly(parts.signedAttrs, h(parts.digest, content));
      ClaimExactly(content, claim);
    }
  }

  lemma BindingExactly(body: Bytes, digest: Bytes)
    ensures AttributesOk(body, digest) <==> HasBinding(body, digest)
  {
    hide AttributesOk, AttributesShape, Binds;
    AttributesBindExactly(body, digest);
  }

  // ---------------------------------------------------------------------------
  // What stands behind a value, and values that are not the ones asked for
  // ---------------------------------------------------------------------------

  lemma ContentRefused(token: Bytes, content: Bytes, p: ContentParts, end: Bytes)
    requires ContentFrame(token, p) && IsTlv(p.wrapper, OCTET_STRING, content, end) && end != []
    ensures ContentBytes(token) == Err(Malformed("eContent", TrailingBytes))
  {
    NamesAreOids();
    hide OidContents, IsTlv, DataShape, Take, TakeOid, AfterAlgorithms;
    TakeIsTlv(token, SEQUENCE, p.info, p.trailing);
    OidIsTlv(p.info, SIGNED_DATA, p.afterType);
    DataRead(p.afterType, p.afterAlgorithms, p.data, "ContentInfo content", "SignedData version");
    TakeIsTlv(p.afterAlgorithms, SEQUENCE, p.encapsulated, p.moreData);
    OidIsTlv(p.encapsulated, TST_INFO, p.afterContentType);
    TakeIsTlv(p.afterContentType, CONTEXT_0, p.wrapper, p.moreEncapsulated);
    TakeIsTlv(p.wrapper, OCTET_STRING, content, end);
  }

  lemma ImprintRefused(imprint: Bytes, oid: Bytes, hashed: Bytes, digest: Bytes, end: Bytes)
    requires IsAlgorithm(imprint, oid, hashed)
    ensures !NamesDigest(oid, Sha384) ==> ImprintOf(imprint) == Err(ImprintAlgorithm)
    ensures NamesDigest(oid, Sha384) && IsTlv(hashed, OCTET_STRING, digest, end) ==>
      ImprintOf(imprint) == if end != [] then Err(Malformed("messageImprint", TrailingBytes))
                            else if |digest| != 48 then Err(ImprintAlgorithm)
                            else Ok(digest)
  {
    hide IsTlv, IsAlgorithm, Take, TakeAlgorithm;
    AlgorithmIsTlv(imprint, oid, hashed);
    TakeIsTlv(hashed, OCTET_STRING, digest, end);
  }

  /** The two attributes that bind: what is wrong with the value comes before that it is the second of its kind. */
  lemma AttributeRefused(a: Attribute, digest: Bytes, sawDigest: bool, sawType: bool, claimed: Bytes, end: Bytes)
    ensures a.oid == MESSAGE_DIGEST && IsTlv(a.values, OCTET_STRING, claimed, end) ==>
      CheckOne(a, digest, sawDigest, sawType)
      == if end != [] then Err(Malformed("messageDigest", TrailingBytes))
         else if claimed != digest then Err(ContentDigestMismatch)
         else if sawDigest then Err(UnsupportedCms("two messageDigest attributes"))
         else Ok((true, sawType))
    ensures a.oid == CONTENT_TYPE && IsOid(a.values, claimed, end) ==>
      CheckOne(a, digest, sawDigest, sawType)
      == if end != [] then Err(Malformed("contentType", TrailingBytes))
         else if claimed != TST_INFO then Err(ContentTypeMismatch)
         else if sawType then Err(UnsupportedCms("two contentType attributes"))
         else Ok((sawDigest, true))
  {
    assert MESSAGE_DIGEST[8] != CONTENT_TYPE[8];
    hide IsTlv, IsOid, Take, TakeOid;
    TakeIsTlv(a.values, OCTET_STRING, claimed, end);
    OidIsTlv(a.values, claimed, end);
  }

  lemma ClaimRefused(content: Bytes, info: Bytes, trailing: Bytes, version: u64, after: Bytes)
    requires IsTlv(content, SEQUENCE, info, trailing) && info == Integer64(version) + after && version != 1
    ensures ClaimOf(content) == Err(UnknownVersion(version))
  {
    hide IsTlv, Take, TakeInteger64, Integer64;
    TakeIsTlv(content, SEQUENCE, info, trailing);
    Integer64Exact(info, version, after);
  }

  lemma TimeRefused(bytes: Bytes, time: Bytes, rest: Bytes)
    requires IsTlv(bytes, GENERALIZED_TIME, time, rest) && TimeOf(time).None?
    ensures TakeTime(bytes) == Err(BadTime)
  {
    hide IsTlv, Take, TimeOf;
    TakeIsTlv(bytes, GENERALIZED_TIME, time, rest);
  }

  /** A response without a grant, without a token, or with anything behind its token. */
  lemma ResponseRefused(response: Bytes, body: Bytes, end: Bytes, info: Bytes, token: Bytes, status: u64, more: Bytes,
                        rest: Bytes)
    requires IsTlv(response, SEQUENCE, body, end) && IsTlv(body, SEQUENCE, info, token)
    requires info == Integer64(status) + more
    ensures status != 0 ==> TokenOf(response) == Err(Refused(status))
    ensures status == 0 && token == [] ==> TokenOf(response) == Err(NoToken)
    ensures status == 0 && token != [] && AnyTlv(token, rest) && (rest != [] || end != []) ==>
      TokenOf(response) == Err(Malformed("TimeStampResp", TrailingBytes))
  {
    hide IsTlv, AnyTlv, Take, Split, TakeInteger64, Integer64;
    TakeIsTlv(response, SEQUENCE, body, end);
    TakeIsTlv(body, SEQUENCE, info, token);
    Integer64Exact(info, status, more);
    SplitIsAny(token, rest);
  }

  // ---------------------------------------------------------------------------
  // The key
  // ---------------------------------------------------------------------------

  /** A SubjectPublicKeyInfo: rsaEncryption by its identifier, and a bit string of whole bytes around the key. */
  ghost predicate SpkiShape(der: Bytes, key: Bytes, info: Bytes, bits: Bytes) {
    && IsTlv(der, SEQUENCE, info, [])
    && IsAlgorithm(info, [0x2A, 0x86, 0x48, 0x86, 0xF7, 0x0D, 0x01, 0x01, 0x01], bits)
    && IsTlv(bits, BIT_STRING, [0] + key, [])
  }

  /** The algorithm is read the way a token's are. */
  lemma SpkiSteps(der: Bytes)
    ensures ParseSpki(der) == match Take(der, SEQUENCE)
      case Err(e) => Err(BadKey(e))
      case Ok((info, outer)) =>
        match TakeAlgorithm(info)
        case Err(e) => Err(BadKey(e))
        case Ok((oid, after)) =>
          if oid != RSA_ENCRYPTION then Err(NotAnRsaKey)
          else
            match Take(after, BIT_STRING)
            case Err(e) => Err(BadKey(e))
            case Ok((bits, rest)) =>
              if bits == [] || bits[0] != 0 then Err(BadKey(BadBitString))
              else if rest != [] || outer != [] then Err(BadKey(TrailingBytes))
              else Ok(bits[1..])
  {
    hide Take, AlgorithmContents;
  }

  /** A key is read from exactly the strings of that shape. */
  lemma SpkiExactly(der: Bytes, key: Bytes)
    ensures ParseSpki(der) == Ok(key) <==> exists info, bits :: SpkiShape(der, key, info, bits)
  {
    SpkiSteps(der);
    hide Take, TakeAlgorithm, IsTlv, IsAlgorithm, ParseSpki;
    if ParseSpki(der) == Ok(key) {
      var (info, outer) := Take(der, SEQUENCE).value;
      var after := TakeAlgorithm(info).value.1;
      var (bits, rest) := Take(after, BIT_STRING).value;
      TakeIsTlv(der, SEQUENCE, info, []);
      AlgorithmIsTlv(info, RSA_ENCRYPTION, after);
      TakeIsTlv(after, BIT_STRING, bits, []);
      assert bits == [0] + key;
      assert SpkiShape(der, key, info, after);
    }
    if exists info, bits :: SpkiShape(der, key, info, bits) {
      var info, after :| SpkiShape(der, key, info, after);
      TakeIsTlv(der, SEQUENCE, info, []);
      AlgorithmIsTlv(info, RSA_ENCRYPTION, after);
      TakeIsTlv(after, BIT_STRING, [0] + key, []);
      assert ([0] + key)[1..] == key;
    }
  }

  /** A key is said to be of another kind exactly when its algorithm can be read and is another one, whatever the rest
      of it is. */
  lemma NotRsaExactly(der: Bytes)
    ensures ParseSpki(der) == Err(NotAnRsaKey)
       <==> exists info, outer, oid, after :: IsTlv(der, SEQUENCE, info, outer) && IsAlgorithm(info, oid, after)
              && oid != [0x2A, 0x86, 0x48, 0x86, 0xF7, 0x0D, 0x01, 0x01, 0x01]
  {
    SpkiSteps(der);
    hide Take, TakeAlgorithm, IsTlv, IsAlgorithm, ParseSpki;
    if ParseSpki(der) == Err(NotAnRsaKey) {
      var (info, outer) := Take(der, SEQUENCE).value;
      var (oid, after) := TakeAlgorithm(info).value;
      TakeIsTlv(der, SEQUENCE, info, outer);
      AlgorithmIsTlv(info, oid, after);
    }
    if exists info, outer, oid, after :: IsTlv(der, SEQUENCE, info, outer) && IsAlgorithm(info, oid, after)
         && oid != RSA_ENCRYPTION {
      var info, outer, oid, after :| IsTlv(der, SEQUENCE, info, outer) && IsAlgorithm(info, oid, after)
        && oid != RSA_ENCRYPTION;
      TakeIsTlv(der, SEQUENCE, info, outer);
      AlgorithmIsTlv(info, oid, after);
    }
  }

  // ---------------------------------------------------------------------------
  // Object identifiers
  // ---------------------------------------------------------------------------

  /** The numbers of an identifier's octets, seven bits of each, the last of a number below 128. */
  function Numbers(body: Bytes, read: nat): seq<nat> {
    if body == [] then []
    else if body[0] < 128 then [128 * read + body[0]] + Numbers(body[1..], 0)
    else Numbers(body[1..], 128 * read + (body[0] - 128))
  }

  /** The dotted form: the first number stands for two. */
  function Dotted(body: Bytes): seq<nat> {
    var numbers := Numbers(body, 0);
    if numbers == [] then []
    else
      var top := if numbers[0] < 40 then 0 else if numbers[0] < 80 then 1 else 2;
      [top, numbers[0] - 40 * top] + numbers[1..]
  }

  /** Identifiers that start with 1.2.840.113549 and go on in numbers of one octet. */
  lemma CompanyArc(rest: Bytes)
    ensures Numbers([0x2A, 0x86, 0x48, 0x86, 0xF7, 0x0D] + rest, 0) == [42, 840, 113549] + Numbers(rest, 0)
  {
    var e: Bytes := [0x0D] + rest;
    var d, c, b: Bytes := [0xF7] + e, [0x86] + ([0xF7] + e), [0x48] + ([0x86] + ([0xF7] + e));
    var a: Bytes := [0x86] + b;
    assert e[1..] == rest && d[1..] == e && c[1..] == d && b[1..] == c && a[1..] == b;
    var all: Bytes := [0x2A] + a;
    assert all[1..] == a;
    assert [0x2A, 0x86, 0x48, 0x86, 0xF7, 0x0D] + rest == all;
    assert Numbers(e, 887) == [113549] + Numbers(rest, 0);
    assert Numbers(c, 0) == Numbers(d, 6) == Numbers(e, 887);
    assert Numbers(a, 0) == Numbers(b, 6) == [840] + Numbers(c, 0);
  }

  lemma CompanyName(oid: Bytes, rest: Bytes)
    requires oid == [0x2A, 0x86, 0x48, 0x86, 0xF7, 0x0D] + rest
    ensures Dotted(oid) == [1, 2, 840, 113549] + Numbers(rest, 0)
  {
    CompanyArc(rest);
    hide Numbers;
  }

  /** Numbers of one octet each. */
  lemma {:induction false} SmallNumbers(body: Bytes)
    requires forall i :: 0 <= i < |body| ==> body[i] < 128
    ensures |Numbers(body, 0)| == |body| && forall i :: 0 <= i < |body| ==> Numbers(body, 0)[i] == body[i]
  {
    if body != [] {
      SmallNumbers(body[1..]);
    }
  }

  lemma ThreeMore(oid: Bytes, x: nat, y: nat, z: nat)
    requires x < 128 && y < 128 && z < 128
    requires oid == [0x2A, 0x86, 0x48, 0x86, 0xF7, 0x0D] + [x, y, z]
    ensures Dotted(oid) == [1, 2, 840, 113549, x, y, z]
  {
    CompanyName(oid, [x, y, z]);
    SmallNumbers([x, y, z]);
  }

  /** The identifiers by the names their standards give them. */
  lemma DottedNames()
    ensures Dotted(SIGNED_DATA) == [1, 2, 840, 113549, 1, 7, 2]
    ensures Dotted(CONTENT_TYPE) == [1, 2, 840, 113549, 1, 9, 3]
    ensures Dotted(MESSAGE_DIGEST) == [1, 2, 840, 113549, 1, 9, 4]
    ensures Dotted(RSA_ENCRYPTION) == [1, 2, 840, 113549, 1, 1, 1]
    ensures Dotted(SHA256_WITH_RSA) == [1, 2, 840, 113549, 1, 1, 11]
    ensures Dotted(SHA384_WITH_RSA) == [1, 2, 840, 113549, 1, 1, 12]
  {
    hide Dotted;
    ThreeMore(SIGNED_DATA, 1, 7, 2);
    ThreeMore(CONTENT_TYPE, 1, 9, 3);
    ThreeMore(MESSAGE_DIGEST, 1, 9, 4);
    ThreeMore(RSA_ENCRYPTION, 1, 1, 1);
    ThreeMore(SHA256_WITH_RSA, 1, 1, 11);
    ThreeMore(SHA384_WITH_RSA, 1, 1, 12);
  }

  lemma DottedContentName()
    ensures Dotted(TST_INFO) == [1, 2, 840, 113549, 1, 9, 16, 1, 4]
  {
    CompanyName(TST_INFO, [1, 9, 16, 1, 4]);
    SmallNumbers([1, 9, 16, 1, 4]);
  }

  lemma DottedDigestNames()
    ensures Dotted(SHA256_OID) == [2, 16, 840, 1, 101, 3, 4, 2, 1]
    ensures Dotted(SHA384_OID) == [2, 16, 840, 1, 101, 3, 4, 2, 2]
  {
    DigestName(SHA256_OID, 1);
    DigestName(SHA384_OID, 2);
  }

  lemma DigestName(oid: Bytes, last: nat)
    requires last < 128 && oid == [0x60, 0x86, 0x48, 0x01, 0x65, 0x03, 0x04, 0x02, last]
    ensures Dotted(oid) == [2, 16, 840, 1, 101, 3, 4, 2, last]
  {
    var tail := oid[3..];
    SmallNumbers(tail);
    assert oid[1..][2..] == tail;
    assert Numbers(oid[1..], 0) == [840] + Numbers(tail, 0) by {
      assert oid[1..][1..] == oid[2..] && oid[2..][1..] == tail;
      assert Numbers(oid[2..], 6) == [840] + Numbers(tail, 0);
    }
    assert Numbers(oid, 0) == [96] + Numbers(oid[1..], 0);
  }
}
