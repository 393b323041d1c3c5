/** Timestamp tokens: what is read from a token, and what has to hold before any of it is believed. */
module Tsp {
  import opened Words
  import opened Limbs
  import opened Der
  import opened Rsa
  import opened Instants

  const SIGNED_DATA: Bytes := [0x2A, 0x86, 0x48, 0x86, 0xF7, 0x0D, 0x01, 0x07, 0x02]
  const TST_INFO: Bytes := [0x2A, 0x86, 0x48, 0x86, 0xF7, 0x0D, 0x01, 0x09, 0x10, 0x01, 0x04]
  const CONTENT_TYPE: Bytes := [0x2A, 0x86, 0x48, 0x86, 0xF7, 0x0D, 0x01, 0x09, 0x03]
  const MESSAGE_DIGEST: Bytes := [0x2A, 0x86, 0x48, 0x86, 0xF7, 0x0D, 0x01, 0x09, 0x04]
  const SHA256_WITH_RSA: Bytes := [0x2A, 0x86, 0x48, 0x86, 0xF7, 0x0D, 0x01, 0x01, 0x0B]
  const SHA384_WITH_RSA: Bytes := [0x2A, 0x86, 0x48, 0x86, 0xF7, 0x0D, 0x01, 0x01, 0x0C]

  datatype TspError =
    | Malformed(what: string, asn1: Asn1Error)
    | Refused(status: u64)
    | NoToken
    | NotATimestamp
    | UnknownVersion(version: u64)
    | ImprintAlgorithm
    | UnsupportedCms(what: string)
    | UnsupportedAlgorithm
    | ContentDigestMismatch
    | ContentTypeMismatch
    | Signature(rsa: RsaError)

  type Read<T> = Result<T, TspError>

  /** What did not parse, by its name in the structure. */
  function As<T>(what: string, r: Result<T, Asn1Error>): Read<T> {
    match r
    case Ok(v) => Ok(v)
    case Err(e) => Err(Malformed(what, e))
  }

  /** The digests are a parameter. */
  type Digests = (DigestKind, Bytes) -> Bytes

  // ---------------------------------------------------------------------------
  // Down to the signed data
  // ---------------------------------------------------------------------------

  /** What follows `digestAlgorithms` in a SignedData. The two readers call two of its fields by different names. */
  function AfterAlgorithms(bytes: Bytes, content: string, version: string): Read<Bytes> {
    var (explicit, _) :- As(content, Take(bytes, CONTEXT_0));
    var (sd, _) :- As("SignedData", Take(explicit, SEQUENCE));
    var (_, rest) :- As(version, TakeInteger64(sd));
    var algorithms :- As("digestAlgorithms", Split(rest));
    Ok(algorithms.rest)
  }

  /** `tst_info_bytes`: the content, for a token that says it is signed data around a TSTInfo. */
  function ContentBytes(token: Bytes): Read<Bytes> {
    var (ci, _) :- As("ContentInfo", Take(token, SEQUENCE));
    var (contentType, after) :- As("ContentInfo contentType", TakeOid(ci));
    if contentType != SIGNED_DATA then Err(UnsupportedCms("the outer content is not SignedData"))
    else
      var sd :- AfterAlgorithms(after, "ContentInfo content", "SignedData version");
      Encapsulated(sd)
  }

  /** The octets of an EncapsulatedContentInfo around a TSTInfo. */
  function Encapsulated(sd: Bytes): Read<Bytes> {
    var (eci, _) :- As("encapContentInfo", Take(sd, SEQUENCE));
    var (econtentType, after) :- As("eContentType", TakeOid(eci));
    if econtentType != TST_INFO then Err(NotATimestamp)
    else
      var (wrapper, _) :- As("eContent", Take(after, CONTEXT_0));
      var (content, end) :- As("eContent octets", Take(wrapper, OCTET_STRING));
      if end != [] then Err(Malformed("eContent", TrailingBytes)) else Ok(content)
  }

  method ReadSignedData(ci: Reader, content: string, version: string) returns (r: Read<Reader>)
    requires ci.depth == 1
    modifies ci`bytes
    ensures match AfterAlgorithms(old(ci.bytes), content, version)
      case Ok(rest) => r.Ok? && fresh(r.value) && r.value.depth == 3 && r.value.bytes == rest
      case Err(e) => r == Err(e)
  {
    hide Split, TakeInteger64;
    var explicit := ci.TakeNested(CONTEXT_0);
    if explicit.Err? {
      return Err(Malformed(content, explicit.error));
    }
    var sd := explicit.value.TakeNested(SEQUENCE);
    if sd.Err? {
      return Err(Malformed("SignedData", sd.error));
    }
    var number := sd.value.Integer64();
    if number.Err? {
      return Err(Malformed(version, number.error));
    }
    var algorithms := sd.value.TakeAny();
    if algorithms.Err? {
      return Err(Malformed("digestAlgorithms", algorithms.error));
    }
    return Ok(sd.value);
  }

  /** `tst_info_bytes`. */
  method ReadContent(token: Bytes) returns (r: Read<Bytes>)
    ensures r == ContentBytes(token)
  {
    hide AfterAlgorithms, Encapsulated, Split, OidContents;
    var outer := new Reader(token);
    var ci := outer.TakeNested(SEQUENCE);
    if ci.Err? {
      return Err(Malformed("ContentInfo", ci.error));
    }
    var contentType := ci.value.Oid();
    if contentType.Err? {
      return Err(Malformed("ContentInfo contentType", contentType.error));
    }
    if contentType.value != SIGNED_DATA {
      return Err(UnsupportedCms("the outer content is not SignedData"));
    }
    var sd := ReadSignedData(ci.value, "ContentInfo content", "SignedData version");
    if sd.Err? {
      return Err(sd.error);
    }
    r := ReadEncapsulated(sd.value);
  }

  method ReadEncapsulated(sd: Reader) returns (r: Read<Bytes>)
    requires sd.depth == 3
    modifies sd`bytes
    ensures r == Encapsulated(old(sd.bytes))
  {
    hide Split, OidContents;
    var eci := sd.TakeNested(SEQUENCE);
    if eci.Err? {
      return Err(Malformed("encapContentInfo", eci.error));
    }
    var econtentType := eci.value.Oid();
    if econtentType.Err? {
      return Err(Malformed("eContentType", econtentType.error));
    }
    if econtentType.value != TST_INFO {
      return Err(NotATimestamp);
    }
    var wrapper := eci.value.TakeNested(CONTEXT_0);
    if wrapper.Err? {
      return Err(Malformed("eContent", wrapper.error));
    }
    var content := wrapper.value.TakeBody(OCTET_STRING);
    if content.Err? {
      return Err(Malformed("eContent octets", content.error));
    }
    if wrapper.value.bytes != [] {
      return Err(Malformed("eContent", TrailingBytes));
    }
    return Ok(content.value);
  }

  // ---------------------------------------------------------------------------
  // The one signer
  // ---------------------------------------------------------------------------

  function DigestOf(oid: Bytes): Option<DigestKind> {
    if oid == SHA256_OID then Some(Sha256) else if oid == SHA384_OID then Some(Sha384) else None
  }

  /** The signature algorithm may be used with this digest: it names none, or this one. `None` is an algorithm this
      client does not have. */
  function AgreesWith(oid: Bytes, digest: DigestKind): Option<bool> {
    if oid == RSA_ENCRYPTION then Some(true)
    else if oid == SHA256_WITH_RSA then Some(digest == Sha256)
    else if oid == SHA384_WITH_RSA then Some(digest == Sha384)
    else None
  }

  datatype SignerParts = SignerParts(signedAttrs: Bytes, signature: Bytes, digest: DigestKind)

  function SkipField(bytes: Bytes, tag: u8): Result<Bytes, Asn1Error> {
    if bytes == [] || bytes[0] != tag then Ok(bytes)
    else
      var p :- Split(bytes);
      Ok(p.rest)
  }

  function TakeAlgorithm(bytes: Bytes): Parsed<Bytes> {
    var (body, rest) :- Take(bytes, SEQUENCE);
    var algorithm :- AlgorithmContents(body);
    Ok((algorithm.oid, rest))
  }

  /** The contents of the one SignerInfo. */
  function SignerInfo(token: Bytes): Read<Bytes> {
    var (ci, _) :- As("ContentInfo", Take(token, SEQUENCE));
    var contentType :- As("contentType", Split(ci));
    var sd :- AfterAlgorithms(contentType.rest, "content", "version");
    OnlySigner(sd)
  }

  function OnlySigner(sd: Bytes): Read<Bytes> {
    var eci :- As("encapContentInfo", Split(sd));
    var certificates :- As("certificates", SkipField(eci.rest, CONTEXT_0));
    var crls :- As("crls", SkipField(certificates, CONTEXT_1));
    var (signers, _) :- As("signerInfos", Take(crls, SET));
    var (si, others) :- As("SignerInfo", Take(signers, SEQUENCE));
    if others != [] then Err(UnsupportedCms("more than one signer")) else Ok(si)
  }

  function SignerFields(si: Bytes): Read<SignerParts> {
    var (_, afterVersion) :- As("SignerInfo version", TakeInteger64(si));
    var sid :- As("signerIdentifier", Split(afterVersion));
    var (digestOid, attrs) :- As("digestAlgorithm", TakeAlgorithm(sid.rest));
    if DigestOf(digestOid).None? then Err(UnsupportedAlgorithm)
    else if attrs == [] || attrs[0] != CONTEXT_0 then Err(UnsupportedCms("no signed attributes"))
    else
      var digest := DigestOf(digestOid).value;
      var (signedAttrs, rest) :- As("signedAttrs", Take(attrs, CONTEXT_0));
      var (signatureOid, last) :- As("signatureAlgorithm", TakeAlgorithm(rest));
      var agrees := AgreesWith(signatureOid, digest);
      if agrees.None? then Err(UnsupportedAlgorithm)
      else if !agrees.value then Err(UnsupportedCms("the digest and signature algorithms disagree"))
      else
        var (signature, _) :- As("signature", Take(last, OCTET_STRING));
        Ok(SignerParts(signedAttrs, signature, digest))
  }

  /** `signer_parts`: exactly one signer, with signed attributes, and algorithms that do not contradict each other. */
  function Signer(token: Bytes): Read<SignerParts> {
    var si :- SignerInfo(token);
    SignerFields(si)
  }

  method ReadSignerInfo(token: Bytes) returns (r: Read<Reader>)
    ensures match SignerInfo(token)
      case Ok(si) => r.Ok? && fresh(r.value) && r.value.depth == 5 && r.value.bytes == si
      case Err(e) => r == Err(e)
  {
    hide AfterAlgorithms, OnlySigner, Split;
    var outer := new Reader(token);
    var ci := outer.TakeNested(SEQUENCE);
    if ci.Err? {
      return Err(Malformed("ContentInfo", ci.error));
    }
    var contentType := ci.value.TakeAny();
    if contentType.Err? {
      return Err(Malformed("contentType", contentType.error));
    }
    var sd := ReadSignedData(ci.value, "content", "version");
    if sd.Err? {
      return Err(sd.error);
    }
    r := ReadOnlySigner(sd.value);
  }

  method ReadOnlySigner(sd: Reader) returns (r: Read<Reader>)
    requires sd.depth == 3
    modifies sd`bytes
    ensures match OnlySigner(old(sd.bytes))
      case Ok(si) => r.Ok? && fresh(r.value) && r.value.depth == 5 && r.value.bytes == si
      case Err(e) => r == Err(e)
  {
    hide Split;
    var eci := sd.TakeAny();
    if eci.Err? {
      return Err(Malformed("encapContentInfo", eci.error));
    }
    var certificates := sd.SkipIf(CONTEXT_0);
    if certificates.Err? {
      return Err(Malformed("certificates", certificates.error));
    }
    var crls := sd.SkipIf(CONTEXT_1);
    if crls.Err? {
      return Err(Malformed("crls", crls.error));
    }
    var signers := sd.TakeNested(SET);
    if signers.Err? {
      return Err(Malformed("signerInfos", signers.error));
    }
    var si := signers.value.TakeNested(SEQUENCE);
    if si.Err? {
      return Err(Malformed("SignerInfo", si.error));
    }
    if signers.value.bytes != [] {
      return Err(UnsupportedCms("more than one signer"));
    }
    return Ok(si.value);
  }

  method ReadAlgorithm(reader: Reader) returns (r: Result<Bytes, Asn1Error>)
    requires reader.depth + 1 <= MAX_DEPTH
    modifies reader`bytes
    ensures match TakeAlgorithm(old(reader.bytes))
      case Ok((oid, rest)) => r == Ok(oid) && reader.bytes == rest
      case Err(e) => r == Err(e)
  {
    hide Split, AlgorithmContents;
    var a := reader.AlgorithmIdentifier();
    if a.Err? {
      return Err(a.error);
    }
    return Ok(a.value.oid);
  }

  /** `signer_parts`. */
  method ReadSigner(token: Bytes) returns (r: Read<SignerParts>)
    ensures r == Signer(token)
  {
    hide SignerInfo, SignerFields;
    var si := ReadSignerInfo(token);
    if si.Err? {
      return Err(si.error);
    }
    r := ReadSignerFields(si.value);
  }

  method ReadSignerFields(si: Reader) returns (r: Read<SignerParts>)
    requires si.depth == 5
    modifies si`bytes
    ensures r == SignerFields(old(si.bytes))
  {
    hide Split, TakeInteger64, TakeAlgorithm, DigestOf, AgreesWith;
    var version := si.Integer64();
    if version.Err? {
      return Err(Malformed("SignerInfo version", version.error));
    }
    var sid := si.TakeAny();
    if sid.Err? {
      return Err(Malformed("signerIdentifier", sid.error));
    }
    var digestOid := ReadAlgorithm(si);
    if digestOid.Err? {
      return Err(Malformed("digestAlgorithm", digestOid.error));
    }
    var digest := DigestOf(digestOid.value);
    if digest.None? {
      return Err(UnsupportedAlgorithm);
    }
    if si.bytes == [] || si.bytes[0] != CONTEXT_0 {
      return Err(UnsupportedCms("no signed attributes"));
    }
    var signedAttrs := si.TakeBody(CONTEXT_0);
    if signedAttrs.Err? {
      return Err(Malformed("signedAttrs", signedAttrs.error));
    }
    var signatureOid := ReadAlgorithm(si);
    if signatureOid.Err? {
      return Err(Malformed("signatureAlgorithm", signatureOid.error));
    }
    var agrees := AgreesWith(signatureOid.value, digest.value);
    if agrees.None? {
      return Err(UnsupportedAlgorithm);
    }
    if !agrees.value {
      return Err(UnsupportedCms("the digest and signature algorithms disagree"));
    }
    var signature := si.TakeBody(OCTET_STRING);
    if signature.Err? {
      return Err(Malformed("signature", signature.error));
    }
    return Ok(SignerParts(signedAttrs.value, signature.value, digest.value));
  }

  // ---------------------------------------------------------------------------
  // The signed attributes
  // ---------------------------------------------------------------------------

  datatype Attribute = Attribute(oid: Bytes, values: Bytes)

  function TakeAttribute(bytes: Bytes): Read<(Attribute, Bytes)> {
    var (body, rest) :- As("Attribute", Take(bytes, SEQUENCE));
    var (oid, after) :- As("attrType", TakeOid(body));
    var (values, _) :- As("attrValues", Take(after, SET));
    Ok((Attribute(oid, values), rest))
  }

  lemma TakeShortens(bytes: Bytes, tag: u8)
    requires Take(bytes, tag).Ok?
    ensures |Take(bytes, tag).value.1| < |bytes| && |Take(bytes, tag).value.0| < W
  {
    SplitCanonical(bytes);
  }

  lemma AttributeShortens(bytes: Bytes)
    requires TakeAttribute(bytes).Ok?
    ensures |TakeAttribute(bytes).value.1| < |bytes|
  {
    hide Take, TakeOid;
    assert Take(bytes, SEQUENCE).Ok?;
    TakeShortens(bytes, SEQUENCE);
  }

  function Attributes(body: Bytes): Read<seq<Attribute>>
    decreases |body|
  {
    if body == [] then Ok([])
    else
      var (first, rest) :- TakeAttribute(body);
      AttributeShortens(body);
      var others :- Attributes(rest);
      Ok([first] + others)
  }

  function CountOf(attributes: seq<Attribute>, oid: Bytes): nat {
    if attributes == [] then 0
    else CountOf(attributes[..|attributes| - 1], oid) + if attributes[|attributes| - 1].oid == oid then 1 else 0
  }

  /** The two attributes that bind, where they occur, have exactly the value they must have. */
  predicate ValueOk(a: Attribute, digest: Bytes) {
    && (a.oid == MESSAGE_DIGEST ==> Take(a.values, OCTET_STRING) == Ok((digest, [])))
    && (a.oid == CONTENT_TYPE ==> TakeOid(a.values) == Ok((TST_INFO, [])))
  }

  predicate ValuesOk(attributes: seq<Attribute>, digest: Bytes) {
    forall i :: 0 <= i < |attributes| ==> ValueOk(attributes[i], digest)
  }

  /** Exactly one of each. */
  predicate AttributesOk(body: Bytes, digest: Bytes) {
    var attributes := Attributes(body);
    && attributes.Ok? && ValuesOk(attributes.value, digest)
    && CountOf(attributes.value, MESSAGE_DIGEST) == 1 && CountOf(attributes.value, CONTENT_TYPE) == 1
  }

  lemma OneMoreAttribute(seen: seq<Attribute>, a: Attribute, digest: Bytes, oid: Bytes)
    ensures CountOf(seen + [a], oid) == CountOf(seen, oid) + if a.oid == oid then 1 else 0
    ensures ValuesOk(seen + [a], digest) <==> ValuesOk(seen, digest) && ValueOk(a, digest)
  {
    assert (seen + [a])[..|seen|] == seen;
    assert (seen + [a])[|seen|] == a;
    assert forall i :: 0 <= i < |seen| ==> (seen + [a])[i] == seen[i];
  }

  /** Counting and checking do not care where a list is cut. */
  lemma {:induction false} JoinedAttributes(a: seq<Attribute>, b: seq<Attribute>, digest: Bytes, oid: Bytes)
    ensures CountOf(a + b, oid) == CountOf(a, oid) + CountOf(b, oid)
    ensures ValuesOk(a + b, digest) <==> ValuesOk(a, digest) && ValuesOk(b, digest)
  {
    if b == [] {
      assert a + b == a;
    } else {
      var last := |b| - 1;
      assert a + b == (a + b[..last]) + [b[last]] && b == b[..last] + [b[last]];
      JoinedAttributes(a, b[..last], digest, oid);
      OneMoreAttribute(a + b[..last], b[last], digest, oid);
      OneMoreAttribute(b[..last], b[last], digest, oid);
    }
  }

  /** The loop of `check_signed_attrs`, midway: what was seen and what is left. */
  predicate Midway(body: Bytes, digest: Bytes, seen: seq<Attribute>, rest: Bytes, sawDigest: bool, sawType: bool) {
    && (Attributes(rest).Ok? <==> Attributes(body).Ok?)
    && (Attributes(rest).Ok? ==> Attributes(body).value == seen + Attributes(rest).value)
    && ValuesOk(seen, digest)
    && CountOf(seen, MESSAGE_DIGEST) == (if sawDigest then 1 else 0)
    && CountOf(seen, CONTENT_TYPE) == (if sawType then 1 else 0)
  }

  /** What an attribute does to the loop: accepted, it becomes one that was seen; refused, so is the whole. */
  lemma MidwayStep(body: Bytes, digest: Bytes, seen: seq<Attribute>, rest: Bytes, sawDigest: bool, sawType: bool)
    requires rest != [] && Midway(body, digest, seen, rest, sawDigest, sawType)
    ensures var t := TakeAttribute(rest);
      if t.Err? then !AttributesOk(body, digest)
      else
        var (a, after) := t.value;
        if ValueOk(a, digest) && !(a.oid == MESSAGE_DIGEST && sawDigest) && !(a.oid == CONTENT_TYPE && sawType) then
          |after| < |rest| &&
          Midway(body, digest, seen + [a], after, sawDigest || a.oid == MESSAGE_DIGEST,
                 sawType || a.oid == CONTENT_TYPE)
        else !AttributesOk(body, digest)
  {
    hide ValueOk, ValuesOk, CountOf, TakeAttribute;
    var t := TakeAttribute(rest);
    if t.Ok? {
      var (a, after) := t.value;
      AttributeShortens(rest);
      OneMoreAttribute(seen, a, digest, MESSAGE_DIGEST);
      OneMoreAttribute(seen, a, digest, CONTENT_TYPE);
      if Attributes(after).Ok? {
        var others := Attributes(after).value;
        assert seen + ([a] + others) == seen + [a] + others;
        JoinedAttributes(seen + [a], others, digest, MESSAGE_DIGEST);
        JoinedAttributes(seen + [a], others, digest, CONTENT_TYPE);
      }
    }
  }

  lemma MidwayEnds(body: Bytes, digest: Bytes, seen: seq<Attribute>, sawDigest: bool, sawType: bool)
    requires Midway(body, digest, seen, [], sawDigest, sawType)
    ensures AttributesOk(body, digest) <==> sawDigest && sawType
  {
    assert seen + [] == seen;
  }

  lemma MidwayStarts(body: Bytes, digest: Bytes)
    ensures Midway(body, digest, [], body, false, false)
  {
    if Attributes(body).Ok? {
      assert [] + Attributes(body).value == Attributes(body).value;
    }
  }

  /** What the checks say of one attribute, after what was seen. */
  function CheckOne(a: Attribute, digest: Bytes, sawDigest: bool, sawType: bool): Read<(bool, bool)> {
    if a.oid == MESSAGE_DIGEST then
      var (claimed, end) :- As("messageDigest", Take(a.values, OCTET_STRING));
      if end != [] then Err(Malformed("messageDigest", TrailingBytes))
      else if claimed != digest then Err(ContentDigestMismatch)
      else if sawDigest then Err(UnsupportedCms("two messageDigest attributes"))
      else Ok((true, sawType))
    else if a.oid == CONTENT_TYPE then
      var (claimed, end) :- As("contentType", TakeOid(a.values));
      if end != [] then Err(Malformed("contentType", TrailingBytes))
      else if claimed != TST_INFO then Err(ContentTypeMismatch)
      else if sawType then Err(UnsupportedCms("two contentType attributes"))
      else Ok((sawDigest, true))
    else Ok((sawDigest, sawType))
  }

  /** What they say of all that are left: the first refusal, or a missing one. */
  function CheckAll(rest: Bytes, digest: Bytes, sawDigest: bool, sawType: bool): Read<()>
    decreases |rest|
  {
    if rest == [] then
      if !sawDigest then Err(ContentDigestMismatch) else if !sawType then Err(ContentTypeMismatch) else Ok(())
    else
      var (a, after) :- TakeAttribute(rest);
      AttributeShortens(rest);
      var saw :- CheckOne(a, digest, sawDigest, sawType);
      CheckAll(after, digest, saw.0, saw.1)
  }

  lemma CheckOneExactly(a: Attribute, digest: Bytes, sawDigest: bool, sawType: bool)
    ensures var saw := CheckOne(a, digest, sawDigest, sawType);
      if ValueOk(a, digest) && !(a.oid == MESSAGE_DIGEST && sawDigest) && !(a.oid == CONTENT_TYPE && sawType)
      then saw == Ok((sawDigest || a.oid == MESSAGE_DIGEST, sawType || a.oid == CONTENT_TYPE))
      else saw.Err?
  {
    hide Take, TakeOid;
    assert MESSAGE_DIGEST[8] != CONTENT_TYPE[8];
    if a.oid == MESSAGE_DIGEST {
      var t := Take(a.values, OCTET_STRING);
      assert t.Ok? ==> t == Ok((t.value.0, t.value.1));
    } else if a.oid == CONTENT_TYPE {
      var t := TakeOid(a.values);
      assert t.Ok? ==> t == Ok((t.value.0, t.value.1));
    }
  }

  lemma {:induction false} CheckFrom(body: Bytes, digest: Bytes, seen: seq<Attribute>, rest: Bytes, sawDigest: bool,
                                     sawType: bool)
    requires Midway(body, digest, seen, rest, sawDigest, sawType)
    ensures CheckAll(rest, digest, sawDigest, sawType).Ok? <==> AttributesOk(body, digest)
    decreases |rest|
  {
    hide Midway, AttributesOk, ValueOk, CheckOne, TakeAttribute;
    if rest == [] {
      MidwayEnds(body, digest, seen, sawDigest, sawType);
    } else {
      MidwayStep(body, digest, seen, rest, sawDigest, sawType);
      var t := TakeAttribute(rest);
      if t.Ok? {
        CheckOneExactly(t.value.0, digest, sawDigest, sawType);
        var saw := CheckOne(t.value.0, digest, sawDigest, sawType);
        if saw.Ok? {
          CheckFrom(body, digest, seen + [t.value.0], t.value.1, saw.value.0, saw.value.1);
        }
      }
    }
  }

  /** The checks pass exactly when there is one of each, with the value it must have. */
  lemma ChecksAreExact(body: Bytes, digest: Bytes)
    ensures CheckAll(body, digest, false, false).Ok? <==> AttributesOk(body, digest)
  {
    MidwayStarts(body, digest);
    CheckFrom(body, digest, [], body, false, false);
  }

  /** One attribute off the cursor, its values left unread. */
  method ReadAttribute(attrs: Reader) returns (r: Read<(Bytes, Reader)>)
    requires attrs.depth == 0
    modifies attrs`bytes
    ensures match TakeAttribute(old(attrs.bytes))
      case Ok((a, rest)) =>
        r.Ok? && fresh(r.value.1) && a == Attribute(r.value.0, r.value.1.bytes) && attrs.bytes == rest
      case Err(e) => r == Err(e)
  {
    hide Split, OidContents;
    var attr := attrs.TakeNested(SEQUENCE);
    if attr.Err? {
      return Err(Malformed("Attribute", attr.error));
    }
    var oid := attr.value.Oid();
    if oid.Err? {
      return Err(Malformed("attrType", oid.error));
    }
    var values := attr.value.TakeNested(SET);
    if values.Err? {
      return Err(Malformed("attrValues", values.error));
    }
    return Ok((oid.value, values.value));
  }

  /** The checks on one attribute. */
  method CheckAttribute(oid: Bytes, values: Reader, digest: Bytes, sawDigest: bool, sawType: bool)
    returns (r: Read<(bool, bool)>)
    modifies values`bytes
    ensures r == CheckOne(Attribute(oid, old(values.bytes)), digest, sawDigest, sawType)
  {
    hide Split, OidContents;
    if oid == MESSAGE_DIGEST {
      var claimed := values.TakeBody(OCTET_STRING);
      if claimed.Err? {
        return Err(Malformed("messageDigest", claimed.error));
      }
      if values.bytes != [] {
        return Err(Malformed("messageDigest", TrailingBytes));
      }
      if claimed.value != digest {
        return Err(ContentDigestMismatch);
      }
      if sawDigest {
        return Err(UnsupportedCms("two messageDigest attributes"));
      }
      return Ok((true, sawType));
    } else if oid == CONTENT_TYPE {
      var claimed := values.Oid();
      if claimed.Err? {
        return Err(Malformed("contentType", claimed.error));
      }
      if values.bytes != [] {
        return Err(Malformed("contentType", TrailingBytes));
      }
      if claimed.value != TST_INFO {
        return Err(ContentTypeMismatch);
      }
      if sawType {
        return Err(UnsupportedCms("two contentType attributes"));
      }
      return Ok((sawDigest, true));
    }
    return Ok((sawDigest, sawType));
  }

  /** `check_signed_attrs`, given the digest of the content. */
  method CheckSignedAttrs(body: Bytes, digest: Bytes) returns (r: Read<()>)
    ensures r == CheckAll(body, digest, false, false)
    ensures r.Ok? <==> AttributesOk(body, digest)
  {
    ChecksAreExact(body, digest);
    hide AttributesOk, CheckOne, TakeAttribute;
    var attrs := new Reader(body);
    var sawDigest, sawType := false, false;
    while attrs.bytes != []
      invariant attrs.depth == 0 && fresh(attrs)
      invariant CheckAll(body, digest, false, false) == CheckAll(attrs.bytes, digest, sawDigest, sawType)
      decreases |attrs.bytes|
    {
      if TakeAttribute(attrs.bytes).Ok? {
        AttributeShortens(attrs.bytes);
      }
      var attribute := ReadAttribute(attrs);
      if attribute.Err? {
        return Err(attribute.error);
      }
      var saw := CheckAttribute(attribute.value.0, attribute.value.1, digest, sawDigest, sawType);
      if saw.Err? {
        return Err(saw.error);
      }
      sawDigest, sawType := saw.value.0, saw.value.1;
    }
    if !sawDigest {
      return Err(ContentDigestMismatch);
    }
    if !sawType {
      return Err(ContentTypeMismatch);
    }
    return Ok(());
  }

  // ---------------------------------------------------------------------------
  // What a token claims
  // ---------------------------------------------------------------------------

  datatype Claim = Claim(imprint: Bytes, at: int, serial: Bytes, nonce: Option<u64>)

  /** `MessageImprint`: SHA-384, and its length. */
  function ImprintOf(mi: Bytes): Read<Bytes> {
    var (algorithm, rest) :- As("hashAlgorithm", TakeAlgorithm(mi));
    if algorithm != SHA384_OID then Err(ImprintAlgorithm)
    else
      var (hashed, end) :- As("hashedMessage", Take(rest, OCTET_STRING));
      if end != [] then Err(Malformed("messageImprint", TrailingBytes))
      else if |hashed| != 48 then Err(ImprintAlgorithm)
      else Ok(hashed)
  }

  /** The optional fields at the end: two that are skipped, and a nonce. */
  function NonceOf(bytes: Bytes): Read<Option<u64>> {
    var afterAccuracy :- As("accuracy", SkipField(bytes, SEQUENCE));
    var afterOrdering :- As("ordering", SkipField(afterAccuracy, BOOLEAN));
    if afterOrdering == [] || afterOrdering[0] != INTEGER then Ok(None)
    else
      var (nonce, _) :- As("nonce", TakeInteger64(afterOrdering));
      Ok(Some(nonce))
  }

  function TakeTime(bytes: Bytes): Parsed<int> {
    var (body, rest) :- Take(bytes, GENERALIZED_TIME);
    if TimeOf(body).None? then Err(BadTime) else Ok((TimeOf(body).value, rest))
  }

  /** `parse_tst_info`. */
  function ClaimOf(content: Bytes): Read<Claim> {
    var (info, _) :- As("TSTInfo", Take(content, SEQUENCE));
    var (version, afterVersion) :- As("TSTInfo version", TakeInteger64(info));
    if version != 1 then Err(UnknownVersion(version))
    else
      var (_, afterPolicy) :- As("policy", TakeOid(afterVersion));
      var (mi, afterImprint) :- As("messageImprint", Take(afterPolicy, SEQUENCE));
      var imprint :- ImprintOf(mi);
      var (serial, afterSerial) :- As("serialNumber", TakeMagnitude(afterImprint));
      var (at, afterTime) :- As("genTime", TakeTime(afterSerial));
      var nonce :- NonceOf(afterTime);
      Ok(Claim(imprint, at, serial, nonce))
  }

  method ReadImprint(mi: Reader) returns (r: Read<Bytes>)
    requires mi.depth == 2
    modifies mi`bytes
    ensures r == ImprintOf(old(mi.bytes))
  {
    hide TakeAlgorithm, Split;
    var algorithm := ReadAlgorithm(mi);
    if algorithm.Err? {
      return Err(Malformed("hashAlgorithm", algorithm.error));
    }
    if algorithm.value != SHA384_OID {
      return Err(ImprintAlgorithm);
    }
    var hashed := mi.TakeBody(OCTET_STRING);
    if hashed.Err? {
      return Err(Malformed("hashedMessage", hashed.error));
    }
    if mi.bytes != [] {
      return Err(Malformed("messageImprint", TrailingBytes));
    }
    if |hashed.value| != 48 {
      return Err(ImprintAlgorithm);
    }
    return Ok(hashed.value);
  }

  method ReadTime(info: Reader) returns (r: Result<int, Asn1Error>)
    modifies info`bytes
    ensures match TakeTime(old(info.bytes))
      case Ok((at, rest)) => r == Ok(at) && info.bytes == rest
      case Err(e) => r == Err(e)
  {
    hide Split, TimeOf;
    var body := info.TakeBody(GENERALIZED_TIME);
    if body.Err? {
      return Err(body.error);
    }
    var at := ParseGeneralizedTime(body.value);
    if at.None? {
      return Err(BadTime);
    }
    return Ok(at.value);
  }

  method ReadNonce(info: Reader) returns (r: Read<Option<u64>>)
    modifies info`bytes
    ensures r == NonceOf(old(info.bytes))
  {
    hide Split, TakeInteger64;
    var accuracy := info.SkipIf(SEQUENCE);
    if accuracy.Err? {
      return Err(Malformed("accuracy", accuracy.error));
    }
    var ordering := info.SkipIf(BOOLEAN);
    if ordering.Err? {
      return Err(Malformed("ordering", ordering.error));
    }
    if info.bytes == [] || info.bytes[0] != INTEGER {
      return Ok(None);
    }
    var nonce := info.Integer64();
    if nonce.Err? {
      return Err(Malformed("nonce", nonce.error));
    }
    return Ok(Some(nonce.value));
  }

  /** `parse_tst_info`. */
  method ReadClaim(content: Bytes) returns (r: Read<Claim>)
    ensures r == ClaimOf(content)
  {
    hide Split, TakeInteger64, TakeMagnitude, TakeTime, NonceOf, ImprintOf, OidContents;
    var outer := new Reader(content);
    var info := outer.TakeNested(SEQUENCE);
    if info.Err? {
      return Err(Malformed("TSTInfo", info.error));
    }
    var version := info.value.Integer64();
    if version.Err? {
      return Err(Malformed("TSTInfo version", version.error));
    }
    if version.value != 1 {
      return Err(UnknownVersion(version.value));
    }
    var policy := info.value.Oid();
    if policy.Err? {
      return Err(Malformed("policy", policy.error));
    }
    var mi := info.value.TakeNested(SEQUENCE);
    if mi.Err? {
      return Err(Malformed("messageImprint", mi.error));
    }
    var imprint := ReadImprint(mi.value);
    if imprint.Err? {
      return Err(imprint.error);
    }
    var serial := info.value.IntegerBytes();
    if serial.Err? {
      return Err(Malformed("serialNumber", serial.error));
    }
    var at := ReadTime(info.value);
    if at.Err? {
      return Err(Malformed("genTime", at.error));
    }
    var nonce := ReadNonce(info.value);
    if nonce.Err? {
      return Err(nonce.error);
    }
    return Ok(Claim(imprint.value, at.value, serial.value, nonce.value));
  }

  // ---------------------------------------------------------------------------
  // Attesting
  // ---------------------------------------------------------------------------

  /** A DER value has a length that fits a word. */
  lemma SignedAttrsFit(token: Bytes)
    requires Signer(token).Ok?
    ensures |Signer(token).value.signedAttrs| < W
  {
    hide Split, TakeInteger64, TakeAlgorithm, DigestOf, AgreesWith, Take, SignerInfo;
    var si := SignerInfo(token).value;
    var (_, afterVersion) := TakeInteger64(si).value;
    var attrs := TakeAlgorithm(Split(afterVersion).value.rest).value.1;
    TakeShortens(attrs, CONTEXT_0);
  }

  /** The string that is signed: the signed attributes under the tag SET OF, not the tag they carry in the token
      (section 5.4 of RFC 5652). */
  function ToBeSigned(token: Bytes): Bytes
    requires Signer(token).Ok?
  {
    SignedAttrsFit(token);
    Tlv(SET, Signer(token).value.signedAttrs)
  }

  /** What has to hold of a token before it is believed. */
  ghost predicate Attests(h: Digests, key: RsaPublicKey, token: Bytes)
    requires key.Valid()
  {
    && ContentBytes(token).Ok? && Signer(token).Ok?
    && var content, signer := ContentBytes(token).value, Signer(token).value;
    && AttributesOk(signer.signedAttrs, h(signer.digest, content))
    && key.Accepts(signer.digest, h(signer.digest, ToBeSigned(token)), signer.signature)
    && ClaimOf(content).Ok?
  }

  /** Why a token is not believed: the first of the five steps that fails, with its own error. */
  ghost predicate Refuses(h: Digests, key: RsaPublicKey, token: Bytes, e: TspError)
    requires key.Valid()
  {
    var content, signer := ContentBytes(token), Signer(token);
    if content.Err? then e == content.error
    else if signer.Err? then e == signer.error
    else
      var checked := CheckAll(signer.value.signedAttrs, h(signer.value.digest, content.value), false, false);
      if checked.Err? then e == checked.error
      else
        var kind, signature := signer.value.digest, signer.value.signature;
        var digest := h(kind, ToBeSigned(token));
        if !key.Accepts(kind, digest, signature) then e == Signature(key.Refusal(kind, digest, signature))
        else ClaimOf(content.value) == Err(e)
  }

  datatype Attested = Attested(claim: Claim, digest: DigestKind)

  /** `attest`: a token is believed exactly when the pinned key signed the attributes, the attributes bind the
      content, and the content is a TSTInfo; and what is returned is read from that very content. */
  method Attest(h: Digests, key: RsaPublicKey, token: Bytes) returns (r: Read<Attested>)
    requires key.Valid()
    ensures r.Ok? <==> Attests(h, key, token)
    ensures r.Ok? ==> r.value == Attested(ClaimOf(ContentBytes(token).value).value, Signer(token).value.digest)
    ensures r.Err? ==> Refuses(h, key, token, r.error)
  {
    hide ContentBytes, Signer, AttributesOk, ClaimOf, CheckAll;
    var content := ReadContent(token);
    if content.Err? {
      return Err(content.error);
    }
    var signer := ReadSigner(token);
    if signer.Err? {
      return Err(signer.error);
    }
    var checked := CheckSignedAttrs(signer.value.signedAttrs, h(signer.value.digest, content.value));
    if checked.Err? {
      return Err(checked.error);
    }
    SignedAttrsFit(token);
    var toBeSigned := WriteTlv(SET, signer.value.signedAttrs);
    var verified := key.Verify(signer.value.digest, h(signer.value.digest, toBeSigned), signer.value.signature);
    if verified.Err? {
      return Err(Signature(verified.error));
    }
    var claim := ReadClaim(content.value);
    if claim.Err? {
      return Err(claim.error);
    }
    return Ok(Attested(claim.value, signer.value.digest));
  }

  /** No two of these strings share a digest of this kind. */
  ghost predicate CollisionFree(h: Digests, kind: DigestKind, s: set<Bytes>) {
    forall x, y :: x in s && y in s && h(kind, x) == h(kind, y) ==> x == y
  }

  lemma {:induction false} SomeAttribute(attributes: seq<Attribute>, oid: Bytes) returns (i: nat)
    requires CountOf(attributes, oid) >= 1
    ensures i < |attributes| && attributes[i].oid == oid
  {
    var last := |attributes| - 1;
    if attributes[last].oid == oid {
      i := last;
    } else {
      i := SomeAttribute(attributes[..last], oid);
    }
  }

  /** The attributes name one content digest. */
  lemma OneContentDigest(body: Bytes, d: Bytes, e: Bytes)
    requires AttributesOk(body, d) && AttributesOk(body, e)
    ensures d == e
  {
    var attributes := Attributes(body).value;
    var i := SomeAttribute(attributes, MESSAGE_DIGEST);
    assert ValueOk(attributes[i], d) && ValueOk(attributes[i], e);
  }

  lemma SameTlv(tag: u8, a: Bytes, b: Bytes)
    requires LowTag(tag) && |a| < W && |b| < W && Tlv(tag, a) == Tlv(tag, b)
    ensures a == b
  {
    assert Tlv(tag, a) + [] == Tlv(tag, b) + [];
    TlvUnique(tag, a, [], tag, b, []);
  }

  /** One signature vouches for one claim: whatever else two tokens differ in, if the same key attests both under
      the same signature they say the same, or two of the four strings that were hashed collide. */
  lemma SignatureDecidesClaim(h: Digests, key: RsaPublicKey, t: Bytes, u: Bytes)
    requires key.Valid() && Attests(h, key, t) && Attests(h, key, u)
    requires Signer(t).value.signature == Signer(u).value.signature
    ensures Signer(t).value.digest == Signer(u).value.digest
    ensures
      || (ContentBytes(t) == ContentBytes(u) && Signer(t).value.signedAttrs == Signer(u).value.signedAttrs
          && ClaimOf(ContentBytes(t).value) == ClaimOf(ContentBytes(u).value))
      || !CollisionFree(h, Signer(t).value.digest,
                        {ToBeSigned(t), ToBeSigned(u), ContentBytes(t).value, ContentBytes(u).value})
  {
    hide ContentBytes, Signer, AttributesOk, ClaimOf, RsaPublicKey.Accepts;
    var a, b := Signer(t).value, Signer(u).value;
    var c, d := ContentBytes(t).value, ContentBytes(u).value;
    key.AcceptsOneDigest(a.digest, h(a.digest, ToBeSigned(t)), b.digest, h(b.digest, ToBeSigned(u)), a.signature);
    if CollisionFree(h, a.digest, {ToBeSigned(t), ToBeSigned(u), c, d}) {
      assert ToBeSigned(t) == ToBeSigned(u);
      SignedAttrsFit(t);
      SignedAttrsFit(u);
      SameTlv(SET, a.signedAttrs, b.signedAttrs);
      OneContentDigest(a.signedAttrs, h(a.digest, c), h(a.digest, d));
    }
  }

  // ---------------------------------------------------------------------------
  // The response
  // ---------------------------------------------------------------------------

  function TokenOf(response: Bytes): Read<Bytes> {
    var (body, end) :- As("TimeStampResp", Take(response, SEQUENCE));
    var (info, token) :- As("PKIStatusInfo", Take(body, SEQUENCE));
    var (status, _) :- As("PKIStatus", TakeInteger64(info));
    if status != 0 then Err(Refused(status))
    else if token == [] then Err(NoToken)
    else
      var p :- As("TimeStampToken", Split(token));
      if p.rest != [] || end != [] then Err(Malformed("TimeStampResp", TrailingBytes)) else Ok(token)
  }

  /** The one string an authority that grants can send around this token, given what else is in the status. */
  predicate Granted(response: Bytes, more: Bytes, token: Bytes) {
    var info := Integer64(0) + more;
    && |info| < W && |Tlv(SEQUENCE, info) + token| < W && response == Tlv(SEQUENCE, Tlv(SEQUENCE, info) + token)
    && Split(token).Ok? && Split(token).value.rest == []
  }

  /** A granted response gives its token byte for byte. */
  lemma GrantedGivesToken(response: Bytes, more: Bytes, token: Bytes)
    requires Granted(response, more, token)
    ensures TokenOf(response) == Ok(token)
  {
    var info := Integer64(0) + more;
    var body := Tlv(SEQUENCE, info) + token;
    assert token != [];
    hide Split, TakeInteger64, Take, Tlv;
    assert response + [] == response;
    TakeExact(response, SEQUENCE, body, []);
    TakeExact(body, SEQUENCE, info, token);
    Integer64Exact(info, 0, more);
  }

  /** And a response that gives a token is such a string: status zero, one value, nothing behind it. */
  lemma TokenIsGranted(response: Bytes, token: Bytes) returns (more: Bytes)
    requires TokenOf(response) == Ok(token)
    ensures Granted(response, more, token)
  {
    hide Split, TakeInteger64, Take;
    var body := Take(response, SEQUENCE).value.0;
    var info := Take(body, SEQUENCE).value.0;
    more := TakeInteger64(info).value.1;
    TakeShortens(response, SEQUENCE);
    TakeShortens(body, SEQUENCE);
    hide Tlv, TokenOf;
    TakeExact(response, SEQUENCE, body, []);
    TakeExact(body, SEQUENCE, info, token);
    Integer64Exact(info, 0, more);
    assert Tlv(SEQUENCE, body) + [] == Tlv(SEQUENCE, body);
  }

  /** `token_from_response`: the token of a granted response, byte for byte. */
  method TokenFromResponse(response: Bytes) returns (r: Read<Bytes>)
    ensures r == TokenOf(response)
  {
    hide Split, TakeInteger64;
    var outer := new Reader(response);
    var resp := outer.TakeNested(SEQUENCE);
    if resp.Err? {
      return Err(Malformed("TimeStampResp", resp.error));
    }
    var info := resp.value.TakeNested(SEQUENCE);
    if info.Err? {
      return Err(Malformed("PKIStatusInfo", info.error));
    }
    var status := info.value.Integer64();
    if status.Err? {
      return Err(Malformed("PKIStatus", status.error));
    }
    if status.value != 0 {
      return Err(Refused(status.value));
    }
    if resp.value.bytes == [] {
      return Err(NoToken);
    }
    var token := resp.value.TakeRaw();
    if token.Err? {
      return Err(Malformed("TimeStampToken", token.error));
    }
    if resp.value.bytes != [] || outer.bytes != [] {
      return Err(Malformed("TimeStampResp", TrailingBytes));
    }
    assert token.value + [] == token.value;
    return Ok(token.value);
  }
}
