/** A strict DER reader and a minimal writer (X.690, section 10.1), and the proof that they are inverses. */
module Der {
  import opened Words
  import opened LimbBytes
  import opened Limbs

  const MAX_DEPTH: nat := 16

  const BOOLEAN: u8 := 0x01
  const INTEGER: u8 := 0x02
  const BIT_STRING: u8 := 0x03
  const OCTET_STRING: u8 := 0x04
  const NULL: u8 := 0x05
  const OID: u8 := 0x06
  const GENERALIZED_TIME: u8 := 0x18
  const SEQUENCE: u8 := 0x30
  const SET: u8 := 0x31
  const CONTEXT_0: u8 := 0xA0
  const CONTEXT_1: u8 := 0xA1

  datatype Asn1Error =
    | Truncated | Indefinite | NonMinimalLength | LengthTooLarge | HighTagNumber
    | UnexpectedTag(expected: u8, found: u8)
    | TrailingBytes | TooDeep | BadInteger | BadBoolean | BadOid | BadBitString | BadTime

  // ---------------------------------------------------------------------------
  // The writer
  // ---------------------------------------------------------------------------

  /** The shortest big-endian digits of a length. */
  function LengthDigits(length: u64): Bytes {
    Trim(BeBytes(length, 8))
  }

  function LengthBytes(length: u64): Bytes {
    LengthDigitsWidth(length);
    if length < 0x80 then [length] else [0x80 + |LengthDigits(length)|] + LengthDigits(length)
  }

  lemma LengthDigitsWidth(length: u64)
    ensures |LengthDigits(length)| <= 8
    ensures BigEndian(LengthDigits(length)) == length
    ensures length > 0 ==> LengthDigits(length) != []
  {
    EightBytes(0);
    BeBytesValue(length, 8);
    TrimKeepsValue(BeBytes(length, 8));
  }

  /** One TLV in its only DER spelling. */
  function Tlv(tag: u8, contents: Bytes): Bytes
    requires |contents| < W
  {
    [tag] + LengthBytes(|contents|) + contents
  }

  /** `write_length`. */
  method WriteLength(out: Bytes, length: u64) returns (r: Bytes)
    ensures r == out + LengthBytes(length)
  {
    if length < 0x80 {
      return out + [length];
    }
    LengthDigitsWidth(length);
    var bytes := BeBytes(length, 8);
    var first := 0;
    while first < 7 && bytes[first] == 0
      invariant 0 <= first <= 7
      invariant Trim(bytes[first..]) == LengthDigits(length)
    {
      assert bytes[first..][1..] == bytes[first + 1..];
      first := first + 1;
    }
    var digits := bytes[first..];
    assert Trim(digits) != [];
    r := out + [0x80 + |digits|];
    r := r + digits;
    assert r == out + ([0x80 + |digits|] + digits);
  }

  /** `tlv`. */
  method WriteTlv(tag: u8, contents: Bytes) returns (out: Bytes)
    requires |contents| < W
    ensures out == Tlv(tag, contents)
  {
    out := [tag];
    out := WriteLength(out, |contents|);
    out := out + contents;
  }

  // ---------------------------------------------------------------------------
  // Splitting one TLV off the front
  // ---------------------------------------------------------------------------

  datatype Piece = Piece(tag: u8, body: Bytes, rest: Bytes)

  /** The definite length that starts `bytes`, and what follows it. */
  function ReadLength(bytes: Bytes): Result<(u64, Bytes), Asn1Error> {
    if bytes == [] then Err(Truncated)
    else if bytes[0] < 0x80 then Ok((bytes[0], bytes[1..]))
    else if bytes[0] == 0x80 then Err(Indefinite)
    else if bytes[0] == 0xFF then Err(NonMinimalLength)
    else
      var count := bytes[0] - 0x80;
      if count > 8 then Err(LengthTooLarge)
      else if count > |bytes| - 1 then Err(Truncated)
      else
        var digits := bytes[1..1 + count];
        DigitsFit(digits);
        if digits[0] == 0 || BigEndian(digits) < 0x80 then Err(NonMinimalLength)
        else Ok((BigEndian(digits), bytes[1 + count..]))
  }

  lemma DigitsFit(digits: Bytes)
    requires |digits| <= 8
    ensures BigEndian(digits) < W
  {
    BigEndianBound(digits);
    BytePowMono(|digits|, 8);
    EightBytes(0);
  }

  /** Tag, contents and remainder of the TLV that starts `bytes`. */
  function Split(bytes: Bytes): Result<Piece, Asn1Error> {
    if bytes == [] then Err(Truncated)
    else if bytes[0] % 0x20 == 0x1F then Err(HighTagNumber)
    else
      var (length, after) :- ReadLength(bytes[1..]);
      if length > |after| then Err(Truncated)
      else Ok(Piece(bytes[0], after[..length], after[length..]))
  }

  /** `split_tlv`. With at most eight digits the checked multiplication and addition never fail. */
  method SplitTlv(bytes: Bytes) returns (r: Result<Piece, Asn1Error>)
    ensures r == Split(bytes)
  {
    if bytes == [] {
      return Err(Truncated);
    }
    var tag, afterTag := bytes[0], bytes[1..];
    if tag % 0x20 == 0x1F {
      return Err(HighTagNumber);
    }
    if afterTag == [] {
      return Err(Truncated);
    }
    var first, afterFirst := afterTag[0], afterTag[1..];
    var length: u64, afterLength := 0, afterFirst;
    if first < 0x80 {
      length := first;
    } else if first == 0x80 {
      return Err(Indefinite);
    } else if first == 0xFF {
      return Err(NonMinimalLength);
    } else {
      var count := first - 0x80;
      if count > 8 {
        return Err(LengthTooLarge);
      }
      if count > |afterFirst| {
        return Err(Truncated);
      }
      var digits := afterFirst[..count];
      assert digits == afterTag[1..1 + count];
      if digits[0] == 0 {
        return Err(NonMinimalLength);
      }
      for i := 0 to |digits|
        invariant length == BigEndian(digits[..i])
      {
        assert digits[..i + 1][..i] == digits[..i];
        DigitsFit(digits[..i + 1]);
        length := length * 0x100 + digits[i];
      }
      assert digits[..|digits|] == digits;
      if length < 0x80 {
        return Err(NonMinimalLength);
      }
      afterLength := afterFirst[count..];
      assert afterLength == afterTag[1 + count..];
    }
    if length > |afterLength| {
      return Err(Truncated);
    }
    return Ok(Piece(tag, afterLength[..length], afterLength[length..]));
  }

  /** Tag numbers of 31 and up continue in further bytes and are not read here. */
  predicate LowTag(tag: u8) {
    tag % 0x20 != 0x1F
  }

  lemma LengthRoundTrip(length: u64, rest: Bytes)
    ensures ReadLength(LengthBytes(length) + rest) == Ok((length, rest))
  {
    var s := LengthBytes(length) + rest;
    if length < 0x80 {
      assert s[1..] == rest;
    } else {
      var digits := LengthDigits(length);
      LengthDigitsWidth(length);
      assert s[0] == 0x80 + |digits|;
      assert s[1..1 + |digits|] == digits;
      assert s[1 + |digits|..] == rest;
    }
  }

  lemma {:induction false} TrimUnique(s: Bytes, n: nat)
    requires s != [] && s[0] != 0 && |s| <= n
    ensures Trim(BeBytes(BigEndian(s), n)) == s
  {
    BigEndianBound(s);
    BytePowMono(|s|, n);
    var padded := seq(n - |s|, _ => 0) + s;
    BigEndianAppend(padded[..n - |s|], s);
    BigEndianZeros(padded[..n - |s|]);
    assert padded == padded[..n - |s|] + s;
    BeBytesValue(BigEndian(s), n);
    BigEndianInjective(padded, BeBytes(BigEndian(s), n));
    TrimPadded(s, n - |s|);
  }

  lemma {:induction false} TrimPadded(s: Bytes, k: nat)
    requires s != [] && s[0] != 0
    ensures Trim(seq(k, _ => 0) + s) == s
  {
    var padded: Bytes := seq(k, _ => 0) + s;
    if k > 0 {
      assert padded[1..] == seq(k - 1, _ => 0) + s;
      assert padded[0] == 0;
      TrimPadded(s, k - 1);
    } else {
      assert padded == s;
    }
  }

  lemma LengthCanonical(bytes: Bytes)
    requires ReadLength(bytes).Ok?
    ensures bytes == LengthBytes(ReadLength(bytes).value.0) + ReadLength(bytes).value.1
  {
    hide Trim, BeBytes, BigEndian;
    if bytes[0] >= 0x80 {
      var count := bytes[0] - 0x80;
      var digits := bytes[1..1 + count];
      TrimUnique(digits, 8);
      var length := BigEndian(digits);
      assert LengthBytes(length) == [bytes[0]] + digits;
      assert bytes == [bytes[0]] + digits + bytes[1 + count..];
    } else {
      assert bytes == [bytes[0]] + bytes[1..];
    }
  }

  /** What the writer writes the reader reads back, whatever follows it. */
  lemma SplitRoundTrip(tag: u8, contents: Bytes, rest: Bytes)
    requires |contents| < W && LowTag(tag)
    ensures Split(Tlv(tag, contents) + rest) == Ok(Piece(tag, contents, rest))
  {
    var s := Tlv(tag, contents) + rest;
    assert s[1..] == LengthBytes(|contents|) + (contents + rest);
    LengthRoundTrip(|contents|, contents + rest);
    assert (contents + rest)[..|contents|] == contents && (contents + rest)[|contents|..] == rest;
  }

  /** Whatever the reader accepts is what the writer would have written: one spelling per value. */
  lemma SplitCanonical(bytes: Bytes)
    requires Split(bytes).Ok?
    ensures var p := Split(bytes).value;
      LowTag(p.tag) && |p.body| < W && bytes == Tlv(p.tag, p.body) + p.rest
  {
    var (length, after) := ReadLength(bytes[1..]).value;
    LengthCanonical(bytes[1..]);
    assert after == after[..length] + after[length..];
    assert bytes == [bytes[0]] + bytes[1..];
  }

  /** The reader accepts exactly the strings that start with a written TLV. */
  lemma SplitAcceptsExactly(bytes: Bytes, tag: u8, body: Bytes, rest: Bytes)
    requires |body| < W
    ensures Split(bytes) == Ok(Piece(tag, body, rest)) <==> LowTag(tag) && bytes == Tlv(tag, body) + rest
  {
    if Split(bytes) == Ok(Piece(tag, body, rest)) {
      SplitCanonical(bytes);
    }
    if LowTag(tag) && bytes == Tlv(tag, body) + rest {
      SplitRoundTrip(tag, body, rest);
    }
  }

  /** How long a length says it is, when it is not a byte of its own. */
  function LengthCount(bytes: Bytes): int
    requires |bytes| >= 2
  {
    var first: int := bytes[1];
    first - 0x80
  }

  /** A length with more bytes than it needs, or with the one first byte that is reserved. */
  predicate Padded(bytes: Bytes)
    requires |bytes| >= 2
  {
    var count := LengthCount(bytes);
    count == 0x7F
    || (1 <= count <= 8 && |bytes| >= 2 + count && (bytes[2] == 0 || BigEndian(bytes[2..2 + count]) < 0x80))
  }

  /** Which refusal is for what; whatever else is refused is truncated. */
  lemma SplitRefusals(bytes: Bytes)
    ensures Split(bytes) == Err(HighTagNumber) <==> bytes != [] && !LowTag(bytes[0])
    ensures Split(bytes) == Err(Indefinite) <==> |bytes| >= 2 && LowTag(bytes[0]) && bytes[1] == 0x80
    ensures Split(bytes) == Err(LengthTooLarge) <==> |bytes| >= 2 && LowTag(bytes[0]) && 8 < LengthCount(bytes) < 0x7F
    ensures Split(bytes) == Err(NonMinimalLength) <==> |bytes| >= 2 && LowTag(bytes[0]) && Padded(bytes)
    ensures Split(bytes).Err? ==>
      Split(bytes).error in {HighTagNumber, Indefinite, LengthTooLarge, NonMinimalLength, Truncated}
  {
    if |bytes| >= 2 && LowTag(bytes[0]) && 1 <= LengthCount(bytes) <= 8 && |bytes| >= 2 + LengthCount(bytes) {
      assert bytes[1..][1..1 + LengthCount(bytes)] == bytes[2..2 + LengthCount(bytes)];
    }
    hide BigEndian;
  }

  /** What is refused and can be completed is truncated. */
  lemma CutIsTruncated(bytes: Bytes, more: Bytes)
    requires Split(bytes).Err? && Split(bytes + more).Ok?
    ensures Split(bytes) == Err(Truncated)
  {
    SplitRefusals(bytes);
    SplitRefusals(bytes + more);
    var all := bytes + more;
    assert |bytes| >= 2 ==> all[0] == bytes[0] && all[1] == bytes[1];
    if |bytes| >= 2 && 1 <= LengthCount(bytes) <= 8 && |bytes| >= 2 + LengthCount(bytes) {
      assert all[2..2 + LengthCount(bytes)] == bytes[2..2 + LengthCount(bytes)] && all[2] == bytes[2];
    }
    hide Split, BigEndian;
  }

  /** A TLV cut short anywhere is refused as truncated. */
  lemma NoProperPrefixIsAccepted(tag: u8, contents: Bytes, cut: nat)
    requires |contents| < W && LowTag(tag) && cut < |Tlv(tag, contents)|
    ensures Split(Tlv(tag, contents)[..cut]) == Err(Truncated)
  {
    hide *;
    var whole := Tlv(tag, contents);
    var short := whole[..cut];
    assert whole == short + whole[cut..] && whole == whole + [];
    SplitRoundTrip(tag, contents, []);
    if Split(short).Ok? {
      var p := Split(short).value;
      SplitCanonical(short);
      var tail := p.rest + whole[cut..];
      assert whole == short + whole[cut..] == Tlv(p.tag, p.body) + tail;
      assert |tail| > 0;
      TlvUnique(tag, contents, [], p.tag, p.body, tail);
    } else {
      CutIsTruncated(short, whole[cut..]);
    }
  }

  /** Concatenated TLVs come apart in one way only. */
  lemma TlvUnique(t: u8, c: Bytes, r: Bytes, t': u8, c': Bytes, r': Bytes)
    requires |c| < W && |c'| < W && LowTag(t) && LowTag(t')
    requires Tlv(t, c) + r == Tlv(t', c') + r'
    ensures t == t' && c == c' && r == r'
  {
    SplitRoundTrip(t, c, r);
    SplitRoundTrip(t', c', r');
  }

  // ---------------------------------------------------------------------------
  // INTEGER and OBJECT IDENTIFIER contents
  // ---------------------------------------------------------------------------

  /** The rules every INTEGER's contents obey: at least one byte, and no padded spelling. */
  predicate IntegerContents(body: Bytes) {
    body != [] &&
    (|body| > 1 ==> !(body[0] == 0 && body[1] < 0x80) && !(body[0] == 0xFF && body[1] >= 0x80))
  }

  /** A minimal magnitude: no leading zero, except for zero itself. */
  predicate Magnitude(m: Bytes) {
    m != [] && (|m| > 1 ==> m[0] != 0)
  }

  /** A magnitude as INTEGER contents: one zero byte before a first byte of 0x80 or more. */
  function SignedBody(m: Bytes): Bytes
    requires m != []
  {
    if m[0] >= 0x80 then [0] + m else m
  }

  /** The non-negative magnitude that INTEGER contents hold. */
  function MagnitudeOf(body: Bytes): Result<Bytes, Asn1Error> {
    if !IntegerContents(body) || body[0] >= 0x80 then Err(BadInteger)
    else if body[0] == 0 && |body| > 1 then Ok(body[1..])
    else Ok(body)
  }

  /** Contents and magnitudes correspond one to one. */
  lemma MagnitudeExact(body: Bytes, m: Bytes)
    ensures MagnitudeOf(body) == Ok(m) <==> Magnitude(m) && body == SignedBody(m)
  {
    if MagnitudeOf(body) == Ok(m) && body[0] == 0 && |body| > 1 {
      assert body == [0] + body[1..];
    }
    if Magnitude(m) && body == SignedBody(m) && m[0] >= 0x80 {
      assert body[1..] == m;
    }
  }

  /** The minimal magnitude of a word: `value.to_be_bytes()` from its first nonzero byte, or its last byte. */
  function Digits64(value: u64): (m: Bytes)
    ensures Magnitude(m)
  {
    if value == 0 then [0] else LengthDigitsWidth(value); LengthDigits(value)
  }

  function Integer64(value: u64): Bytes {
    Digits64Width(value);
    Tlv(INTEGER, SignedBody(Digits64(value)))
  }

  lemma Digits64Width(value: u64)
    ensures |Digits64(value)| <= 8
    ensures BigEndian(Digits64(value)) == value
  {
    LengthDigitsWidth(value);
    if value == 0 {
      assert [0][..0] == [];
    }
  }

  /** `integer_u64`, the writer. */
  method WriteInteger64(value: u64) returns (r: Bytes)
    ensures r == Integer64(value)
  {
    Digits64Width(value);
    var bytes := BeBytes(value, 8);
    var first := 0;
    while first < 7 && bytes[first] == 0
      invariant 0 <= first <= 7
      invariant Trim(bytes[first..]) == LengthDigits(value)
    {
      assert bytes[first..][1..] == bytes[first + 1..];
      first := first + 1;
    }
    LengthDigitsWidth(value);
    var digits := bytes[first..];
    assert digits[0] == 0 ==> digits == [0];
    var body := [];
    if bytes[first] >= 0x80 {
      body := body + [0];
    }
    body := body + digits;
    r := WriteTlv(INTEGER, body);
  }

  /** The u64 that INTEGER contents hold. */
  function Value64(body: Bytes): Result<u64, Asn1Error> {
    if !IntegerContents(body) || body[0] >= 0x80 then Err(BadInteger)
    else
      var significant := if body[0] == 0 then body[1..] else body;
      if |significant| > 8 then Err(BadInteger)
      else
        DigitsFit(significant);
        Ok(BigEndian(significant))
  }

  /** A word has exactly one INTEGER spelling. */
  lemma Value64Exact(body: Bytes, value: u64)
    ensures Value64(body) == Ok(value) <==> body == SignedBody(Digits64(value))
  {
    Digits64Width(value);
    if Value64(body) == Ok(value) {
      var significant := if body[0] == 0 then body[1..] else body;
      if significant == [] {
        assert body == [0];
      } else {
        TrimUnique(significant, 8);
        assert body[0] == 0 ==> body == [0] + body[1..];
        TrimmedWidth(significant);
      }
    }
    if body == SignedBody(Digits64(value)) {
      var m := Digits64(value);
      if m[0] >= 0x80 {
        assert body[1..] == m;
      } else if m[0] == 0 {
        assert m == [0] && body[1..] == [];
      }
    }
  }

  /** An arc starts here: at the front, or behind the last octet of another one. */
  predicate StartsArc(body: Bytes, i: nat)
    requires i < |body|
  {
    i == 0 || body[i - 1] < 0x80
  }

  /** An OBJECT IDENTIFIER's contents: arcs in base 128, none padded and none left open. */
  predicate OidContents(body: Bytes) {
    body != [] && body[|body| - 1] < 0x80 &&
    forall i :: 0 <= i < |body| && StartsArc(body, i) ==> body[i] != 0x80
  }

  /** `validate_oid`. */
  method ValidateOid(body: Bytes) returns (ok: bool)
    ensures ok <==> OidContents(body)
  {
    if body == [] {
      return false;
    }
    var startOfArc := true;
    for i := 0 to |body|
      invariant startOfArc <==> i == 0 || body[i - 1] < 0x80
      invariant forall j :: 0 <= j < i && StartsArc(body, j) ==> body[j] != 0x80
      invariant i == |body| ==> body[|body| - 1] < 0x80
    {
      if startOfArc && body[i] == 0x80 {
        return false;
      }
      startOfArc := body[i] < 0x80;
      if i == |body| - 1 && body[i] >= 0x80 {
        return false;
      }
    }
    return true;
  }

  /** The octets of a number that are not its last: seven bits each, the top bit set, no leading zero. */
  function ArcLead(v: nat): Bytes {
    if v == 0 then [] else ArcLead(v / 128) + [128 + v % 128]
  }

  /** A number in base 128, in as few octets as it needs. */
  function ArcBytes(v: nat): Bytes {
    ArcLead(v / 128) + [v % 128]
  }

  function ArcsBytes(arcs: seq<nat>): Bytes {
    if arcs == [] then [] else ArcBytes(arcs[0]) + ArcsBytes(arcs[1..])
  }

  /** The octets before the last one of an arc, if it is not padded. */
  predicate Leading(s: Bytes) {
    (forall i :: 0 <= i < |s| ==> s[i] >= 0x80) && (s != [] ==> s[0] != 0x80)
  }

  lemma {:induction false} LeadIsLeading(v: nat)
    ensures Leading(ArcLead(v))
  {
    if v > 0 {
      LeadIsLeading(v / 128);
    }
  }

  lemma {:induction false} LeadingIsLead(s: Bytes) returns (v: nat)
    requires Leading(s)
    ensures ArcLead(v) == s && (s != [] ==> v > 0)
  {
    v := 0;
    if s != [] {
      var last := |s| - 1;
      var w := LeadingIsLead(s[..last]);
      v := 128 * w + (s[last] - 128);
      assert v / 128 == w && v % 128 == s[last] - 128;
      assert s == s[..last] + [s[last]];
    }
  }

  lemma FirstOctet(body: Bytes)
    requires OidContents(body)
    ensures body[0] != 0x80
  {
    assert StartsArc(body, 0);
  }

  lemma OidFront(lead: Bytes, last: u8, rest: Bytes)
    requires (forall i :: 0 <= i < |lead| ==> lead[i] >= 0x80) && last < 0x80
    ensures OidContents(lead + [last] + rest) <==> Leading(lead) && (rest == [] || OidContents(rest))
  {
    var body, n := lead + [last] + rest, |lead| + 1;
    assert body[n - 1] == last && forall i :: 0 <= i < |rest| ==> body[n + i] == rest[i];
    assert forall i :: 0 <= i < |lead| ==> body[i] == lead[i];
    if OidContents(body) {
      FirstOctet(body);
      assert lead != [] ==> body[0] == lead[0];
      forall i | 0 <= i < |rest| && StartsArc(rest, i)
        ensures rest[i] != 0x80
      {
        assert StartsArc(body, n + i);
      }
    }
    if Leading(lead) && (rest == [] || OidContents(rest)) {
      forall i | 0 <= i < |body| && StartsArc(body, i)
        ensures body[i] != 0x80
      {
        if i >= n {
          assert StartsArc(rest, i - n);
        }
      }
    }
  }

  /** The contents that pass are exactly the encodings of lists of numbers, each in its least count of octets. */
  lemma OidContentsExactly(body: Bytes)
    ensures OidContents(body) <==> exists arcs :: arcs != [] && body == ArcsBytes(arcs)
  {
    if OidContents(body) {
      var arcs := ReadArcs(body);
    }
    if exists arcs :: arcs != [] && body == ArcsBytes(arcs) {
      var arcs :| arcs != [] && body == ArcsBytes(arcs);
      ArcsAreContents(arcs);
    }
  }

  lemma {:induction false} ArcsAreContents(arcs: seq<nat>)
    requires arcs != []
    ensures OidContents(ArcsBytes(arcs))
  {
    var lead, last, rest := ArcLead(arcs[0] / 128), arcs[0] % 128, ArcsBytes(arcs[1..]);
    LeadIsLeading(arcs[0] / 128);
    if |arcs| > 1 {
      ArcsAreContents(arcs[1..]);
    }
    hide OidContents, ArcLead;
    OidFront(lead, last, rest);
  }

  lemma {:induction false} ReadArcs(body: Bytes) returns (arcs: seq<nat>)
    requires OidContents(body)
    ensures arcs != [] && body == ArcsBytes(arcs)
    decreases |body|
  {
    var n := 0;
    while body[n] >= 0x80
      invariant 0 <= n < |body| && forall i :: 0 <= i < n ==> body[i] >= 0x80
      decreases |body| - n
    {
      n := n + 1;
    }
    var lead, last, rest := body[..n], body[n], body[n + 1..];
    assert body == lead + [last] + rest;
    hide OidContents;
    OidFront(lead, last, rest);
    var v := LeadingIsLead(lead);
    var first := 128 * v + last;
    assert first / 128 == v && first % 128 == last;
    var more: seq<nat> := [];
    if rest != [] {
      more := ReadArcs(rest);
    }
    arcs := [first] + more;
    assert arcs[1..] == more;
  }

  // ---------------------------------------------------------------------------
  // Reading with a cursor
  // ---------------------------------------------------------------------------

  type Parsed<T> = Result<(T, Bytes), Asn1Error>

  function Take(bytes: Bytes, expected: u8): Parsed<Bytes> {
    var p :- Split(bytes);
    if p.tag != expected then Err(UnexpectedTag(expected, p.tag)) else Ok((p.body, p.rest))
  }

  function TakeInteger64(bytes: Bytes): Parsed<u64> {
    var (body, rest) :- Take(bytes, INTEGER);
    var value :- Value64(body);
    Ok((value, rest))
  }

  function TakeMagnitude(bytes: Bytes): Parsed<Bytes> {
    var (body, rest) :- Take(bytes, INTEGER);
    var m :- MagnitudeOf(body);
    Ok((m, rest))
  }

  function TakeOid(bytes: Bytes): Parsed<Bytes> {
    var (body, rest) :- Take(bytes, OID);
    if OidContents(body) then Ok((body, rest)) else Err(BadOid)
  }

  datatype Algorithm = Algorithm(oid: Bytes, parameters: Option<(u8, Bytes)>)

  /** What is inside an AlgorithmIdentifier: an object identifier, at most one value of any type, no more. */
  function AlgorithmContents(body: Bytes): Result<Algorithm, Asn1Error> {
    var (oid, rest) :- TakeOid(body);
    if rest == [] then Ok(Algorithm(oid, None))
    else
      var p :- Split(rest);
      if p.rest != [] then Err(TrailingBytes) else Ok(Algorithm(oid, Some((p.tag, p.body))))
  }

  /** The cursor. A failed read leaves it wherever the last successful one did. */
  class Reader {
    var bytes: Bytes
    var depth: nat

    constructor (bytes: Bytes)
      ensures this.bytes == bytes && depth == 0
    {
      this.bytes := bytes;
      depth := 0;
    }

    /** A reader over contents, at a given depth. */
    constructor Inner(bytes: Bytes, depth: nat)
      ensures this.bytes == bytes && this.depth == depth
    {
      this.bytes := bytes;
      this.depth := depth;
    }

    /** `take`: consume one TLV of the given tag. */
    method TakeBody(expected: u8) returns (r: Result<Bytes, Asn1Error>)
      modifies this`bytes
      ensures match Take(old(bytes), expected)
        case Ok((body, rest)) => r == Ok(body) && bytes == rest
        case Err(e) => r == Err(e) && bytes == old(bytes)
    {
      var p :- SplitTlv(bytes);
      if p.tag != expected {
        return Err(UnexpectedTag(expected, p.tag));
      }
      bytes := p.rest;
      return Ok(p.body);
    }

    /** `take_any`, `skip`: consume one TLV of any tag. */
    method TakeAny() returns (r: Result<(u8, Bytes), Asn1Error>)
      modifies this`bytes
      ensures match Split(old(bytes))
        case Ok(p) => r == Ok((p.tag, p.body)) && bytes == p.rest
        case Err(e) => r == Err(e) && bytes == old(bytes)
    {
      var p :- SplitTlv(bytes);
      bytes := p.rest;
      return Ok((p.tag, p.body));
    }

    /** `take_raw`: the next TLV as it stands in the input, tag and length included. */
    method TakeRaw() returns (r: Result<Bytes, Asn1Error>)
      modifies this`bytes
      ensures r.Ok? <==> Split(old(bytes)).Ok?
      ensures r.Ok? ==> var p := Split(old(bytes)).value;
        |p.body| < W && r.value == Tlv(p.tag, p.body) && bytes == p.rest && old(bytes) == r.value + bytes
      ensures r.Err? ==> r.error == Split(old(bytes)).error && bytes == old(bytes)
    {
      var before := bytes;
      var p :- SplitTlv(before);
      SplitCanonical(before);
      bytes := p.rest;
      r := Ok(before[..|before| - |p.rest|]);
    }

    /** `skip_if`: consume one TLV if it carries this tag. */
    method SkipIf(tag: u8) returns (r: Result<bool, Asn1Error>)
      modifies this`bytes
      ensures old(bytes) == [] || old(bytes)[0] != tag ==> r == Ok(false) && bytes == old(bytes)
      ensures old(bytes) != [] && old(bytes)[0] == tag ==>
        match Split(old(bytes))
        case Ok(p) => r == Ok(true) && bytes == p.rest
        case Err(e) => r == Err(e) && bytes == old(bytes)
    {
      if bytes != [] && bytes[0] == tag {
        var p :- SplitTlv(bytes);
        bytes := p.rest;
        return Ok(true);
      }
      return Ok(false);
    }

    /** `take_nested`: a reader over one TLV's contents, one level deeper, never below MAX_DEPTH. */
    method TakeNested(expected: u8) returns (r: Result<Reader, Asn1Error>)
      modifies this`bytes
      ensures depth + 1 > MAX_DEPTH ==> r == Err(TooDeep) && bytes == old(bytes)
      ensures depth + 1 <= MAX_DEPTH ==>
        match Take(old(bytes), expected)
        case Ok((body, rest)) =>
          r.Ok? && fresh(r.value) && r.value.bytes == body && r.value.depth == depth + 1 && bytes == rest
        case Err(e) => r == Err(e) && bytes == old(bytes)
    {
      if depth + 1 > MAX_DEPTH {
        return Err(TooDeep);
      }
      var body :- TakeBody(expected);
      var inner := new Reader.Inner(body, depth + 1);
      return Ok(inner);
    }

    /** `integer_u64`, the reader. */
    method Integer64() returns (r: Result<u64, Asn1Error>)
      modifies this`bytes
      ensures match TakeInteger64(old(bytes))
        case Ok((value, rest)) => r == Ok(value) && bytes == rest
        case Err(e) => r == Err(e)
    {
      var body :- TakeBody(INTEGER);
      if !IntegerContents(body) || body[0] >= 0x80 {
        return Err(BadInteger);
      }
      var significant := if body[0] == 0 then body[1..] else body;
      if |significant| > 8 {
        return Err(BadInteger);
      }
      var value := LimbOf(significant);
      return Ok(value);
    }

    /** `integer_bytes`: a magnitude too large for a word. */
    method IntegerBytes() returns (r: Result<Bytes, Asn1Error>)
      modifies this`bytes
      ensures match TakeMagnitude(old(bytes))
        case Ok((m, rest)) => r == Ok(m) && bytes == rest
        case Err(e) => r == Err(e)
    {
      var body :- TakeBody(INTEGER);
      return MagnitudeOf(body);
    }

    /** `oid`, still encoded and validated. */
    method Oid() returns (r: Result<Bytes, Asn1Error>)
      modifies this`bytes
      ensures match TakeOid(old(bytes))
        case Ok((body, rest)) => r == Ok(body) && bytes == rest
        case Err(e) => r == Err(e)
    {
      var body :- TakeBody(OID);
      var ok := ValidateOid(body);
      return if ok then Ok(body) else Err(BadOid);
    }

    /** `algorithm_identifier`. */
    method AlgorithmIdentifier() returns (r: Result<Algorithm, Asn1Error>)
      modifies this`bytes
      ensures depth + 1 > MAX_DEPTH ==> r == Err(TooDeep)
      ensures depth + 1 <= MAX_DEPTH ==>
        match Take(old(bytes), SEQUENCE)
        case Ok((body, rest)) => r == AlgorithmContents(body) && bytes == rest
        case Err(e) => r == Err(e)
    {
      var inner :- TakeNested(SEQUENCE);
      var oid :- inner.Oid();
      var parameters: Option<(u8, Bytes)> := None;
      if inner.bytes != [] {
        var any :- inner.TakeAny();
        parameters := Some(any);
      }
      if inner.bytes != [] {
        return Err(TrailingBytes);
      }
      return Ok(Algorithm(oid, parameters));
    }

    /** `bit_string`, with no unused bits. */
    method BitString() returns (r: Result<Bytes, Asn1Error>)
      modifies this`bytes
      ensures match Take(old(bytes), BIT_STRING)
        case Ok((body, rest)) =>
          bytes == rest && r == if body == [] || body[0] != 0 then Err(BadBitString) else Ok(body[1..])
        case Err(e) => r == Err(e)
    {
      var body :- TakeBody(BIT_STRING);
      if body == [] || body[0] != 0 {
        return Err(BadBitString);
      }
      return Ok(body[1..]);
    }
  }

  lemma TakeExact(bytes: Bytes, tag: u8, body: Bytes, rest: Bytes)
    requires LowTag(tag) && |body| < W
    ensures Take(bytes, tag) == Ok((body, rest)) <==> bytes == Tlv(tag, body) + rest
  {
    SplitAcceptsExactly(bytes, tag, body, rest);
  }

  /** Reading a written word gives it back, and a word is read from its written form only. */
  lemma Integer64Exact(bytes: Bytes, value: u64, rest: Bytes)
    ensures TakeInteger64(bytes) == Ok((value, rest)) <==> bytes == Integer64(value) + rest
  {
    Digits64Width(value);
    Value64Exact(SignedBody(Digits64(value)), value);
    SplitAcceptsExactly(bytes, INTEGER, SignedBody(Digits64(value)), rest);
    if TakeInteger64(bytes) == Ok((value, rest)) {
      Value64Exact(Take(bytes, INTEGER).value.0, value);
    }
  }

  /** The same for magnitudes of any width. */
  lemma MagnitudeReadExactly(bytes: Bytes, m: Bytes, rest: Bytes)
    requires |m| < W - 1
    ensures TakeMagnitude(bytes) == Ok((m, rest)) <==>
            Magnitude(m) && bytes == Tlv(INTEGER, SignedBody(m)) + rest
  {
    if Magnitude(m) {
      MagnitudeExact(SignedBody(m), m);
      SplitAcceptsExactly(bytes, INTEGER, SignedBody(m), rest);
    }
    if TakeMagnitude(bytes) == Ok((m, rest)) {
      MagnitudeExact(Take(bytes, INTEGER).value.0, m);
    }
  }
}
