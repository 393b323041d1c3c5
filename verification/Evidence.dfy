/** An evidence pack, what its roots are computed over, and what a pack has to satisfy to be called verified. */
module Evidence {
  import opened Words
  import opened Merkle
  import opened Sorting
  import opened Strings

  // ---------------------------------------------------------------------------
  // An evidence pack
  // ---------------------------------------------------------------------------

  /** A name is text: the bytes in the file are its UTF-8, and reading refuses any others. */
  datatype IndexRoot = IndexRoot(name: string, root: Digest)

  datatype Segment = Segment(
    formatVersion: u16, segment: u64, shard: u16, records: u64,
    historyRoot: Digest, chainBefore: Digest, chainAfter: Digest, indexRoots: seq<IndexRoot>,
    firstRecordedAt: u64, lastRecordedAt: u64, algorithms: Bytes)

  datatype ShardInfo = ShardInfo(shard: u16, segmentCount: u32, root: Digest)

  datatype RecordSet = RecordSet(shard: u16, segment: u64, records: seq<Bytes>)

  /** The parts of a pack that the checks read. */
  datatype Pack = Pack(
    storeRoot: Digest, shardCount: u32, shards: seq<ShardInfo>, segments: seq<Segment>,
    recordSets: seq<RecordSet>, anchors: seq<Digest>, signed: bool, witnesses: nat)

  /** What reading a manifest guarantees: lengths of names are 32-bit fields, counts have a ceiling. */
  predicate Read(s: Segment) {
    && |s.algorithms| == 3 && |s.indexRoots| <= 100_000_000
    && forall i :: 0 <= i < |s.indexRoots| ==> |Utf8(s.indexRoots[i].name)| < 0x1_0000_0000
  }

  predicate PackRead(p: Pack) {
    && (forall i :: 0 <= i < |p.segments| ==> Read(p.segments[i]))
    && |p.segments| < 0x1_0000_0000_0000_0000
  }

  /** What the canonical record says, as far as the checks go. */
  datatype Fields = Fields(id: u128, recordedAt: u64, agentId: Bytes, runId: Bytes, eventType: u8, seqno: u64)

  /** Reading a canonical record: the fields, or a refusal. */
  type Decoder = Bytes -> Option<Fields>

  // ---------------------------------------------------------------------------
  // What is hashed
  // ---------------------------------------------------------------------------

  function ChainPreimage(prev: Digest, seqno: u64, body: Bytes): Bytes {
    Ascii("trailryx/chain/v1\0") + prev + BeBytes(seqno, 8) + BeBytes(|body|, 8) + body
  }

  lemma ChainPreimageDecides(p: Digest, n: u64, b: Bytes, p': Digest, n': u64, b': Bytes)
    requires ChainPreimage(p, n, b) == ChainPreimage(p', n', b')
    ensures p == p' && n == n' && b == b'
  {
    var l := Ascii("trailryx/chain/v1\0");
    ByteWidths();
    hide Ascii, BeBytes, BytePow;
    SplitEqual(l + p + BeBytes(n, 8) + BeBytes(|b|, 8), l + p' + BeBytes(n', 8) + BeBytes(|b'|, 8), b, b');
    SplitEqual(l + p + BeBytes(n, 8), l + p' + BeBytes(n', 8), BeBytes(|b|, 8), BeBytes(|b'|, 8));
    SplitEqual(l + p, l + p', BeBytes(n, 8), BeBytes(n', 8));
    SplitEqual(l, l, p, p');
    BeBytesInjective(n, n', 8);
  }

  /** A link's string by the places of its bytes: the label, the link before, the number, the length and the body. */
  lemma ChainLayout(prev: Digest, seqno: u64, body: Bytes)
    requires |body| < 0x1_0000_0000_0000_0000
    ensures var x := ChainPreimage(prev, seqno, body);
      && |x| == 82 + |body| && x[..18] == Ascii("trailryx/chain/v1\0") && x[18..66] == prev
      && BigEndian(x[66..74]) == seqno && BigEndian(x[74..82]) == |body| && x[82..] == body
  {
    ByteWidths();
    BeBytesValue(seqno, 8);
    BeBytesValue(|body|, 8);
    var n, m := BeBytes(seqno, 8), BeBytes(|body|, 8);
    hide Ascii, BeBytes, BytePow, BigEndian;
    assert ChainPreimage(prev, seqno, body)[66..74] == n && ChainPreimage(prev, seqno, body)[74..82] == m;
  }

  /** A name goes in with the number of its characters, and then as its bytes. */
  function RootBytes(r: IndexRoot): Bytes {
    BeBytes(|r.name|, 8) + Utf8(r.name) + r.root
  }

  /** An index root by the places of its bytes, and the bytes of one more. */
  lemma RootLayout(r: IndexRoot, rest: seq<IndexRoot>)
    requires |Utf8(r.name)| < 0x1_0000_0000
    ensures var x, n := RootBytes(r), |Utf8(r.name)|;
      && |x| == 56 + n && BigEndian(x[..8]) == |r.name| && x[8..8 + n] == Utf8(r.name) && x[8 + n..] == r.root
    ensures RootsBytes([]) == [] && RootsBytes([r] + rest) == RootBytes(r) + RootsBytes(rest)
  {
    ByteWidths();
    ByteCount(r.name);
    BeBytesValue(|r.name|, 8);
    hide Utf8, BeBytes, BytePow, BigEndian;
    assert RootBytes(r)[..8] == BeBytes(|r.name|, 8);
    assert ([r] + rest)[1..] == rest;
  }

  function RootsBytes(roots: seq<IndexRoot>): Bytes {
    if roots == [] then [] else RootBytes(roots[0]) + RootsBytes(roots[1..])
  }

  predicate ShortNames(roots: seq<IndexRoot>) {
    forall i :: 0 <= i < |roots| ==> |Utf8(roots[i].name)| < 0x1_0000_0000
  }

  lemma Regroup(a: Bytes, b: Bytes, c: Bytes, d: Bytes)
    ensures a + b + c + d == a + (b + (c + d))
  {
  }

  /** The count of characters is enough to find the end of a name, because UTF-8 is self-delimiting. */
  lemma FirstRootDecides(a: IndexRoot, b: IndexRoot, x: Bytes, y: Bytes)
    requires |Utf8(a.name)| < 0x1_0000_0000 && |Utf8(b.name)| < 0x1_0000_0000
    requires RootBytes(a) + x == RootBytes(b) + y
    ensures a == b && x == y
  {
    var m, n := BeBytes(|a.name|, 8), BeBytes(|b.name|, 8);
    ByteWidths();
    ByteCount(a.name);
    ByteCount(b.name);
    hide BeBytes, BytePow, Utf8;
    Regroup(m, Utf8(a.name), a.root, x);
    Regroup(n, Utf8(b.name), b.root, y);
    SplitEqual(m, n, Utf8(a.name) + (a.root + x), Utf8(b.name) + (b.root + y));
    BeBytesInjective(|a.name|, |b.name|, 8);
    TextDecides(a.name, b.name, a.root + x, b.root + y);
    SplitEqual(a.root, b.root, x, y);
  }

  lemma {:induction false} RootsBytesDecide(a: seq<IndexRoot>, b: seq<IndexRoot>, x: Bytes, y: Bytes)
    requires ShortNames(a) && ShortNames(b) && |a| == |b|
    requires RootsBytes(a) + x == RootsBytes(b) + y
    ensures a == b && x == y
  {
    hide RootBytes;
    if a == [] {
      assert [] + x == x && [] + y == y;
    } else {
      Associate(RootBytes(a[0]), RootsBytes(a[1..]), x);
      Associate(RootBytes(b[0]), RootsBytes(b[1..]), y);
      hide RootsBytes;
      FirstRootDecides(a[0], b[0], RootsBytes(a[1..]) + x, RootsBytes(b[1..]) + y);
      RootsBytesDecide(a[1..], b[1..], x, y);
      assert a == [a[0]] + a[1..] && b == [b[0]] + b[1..];
    }
  }

  /** The fixed-width front of a manifest. */
  function ManifestFront(s: Segment): Bytes {
    Ascii("trailryx/segment-manifest/v1\0") + BeBytes(s.formatVersion, 2) + BeBytes(s.segment, 8) + BeBytes(s.shard, 2)
    + BeBytes(s.records, 8) + s.historyRoot + s.chainBefore + s.chainAfter + BeBytes(|s.indexRoots|, 8)
  }

  function ManifestBack(s: Segment): Bytes {
    BeBytes(s.firstRecordedAt, 8) + BeBytes(s.lastRecordedAt, 8) + s.algorithms
  }

  function ManifestPreimage(s: Segment): Bytes {
    ManifestFront(s) + (RootsBytes(s.indexRoots) + ManifestBack(s))
  }

  /** A manifest's string by the places of its bytes: the label, version, segment, shard and count of records, the
      three digests, the count of the indexes, their roots, and at the end both times and the algorithms. */
  lemma ManifestLayout(s: Segment)
    requires Read(s)
    ensures var x, end := ManifestPreimage(s), |ManifestPreimage(s)| - 19;
      && |x| == 220 + |RootsBytes(s.indexRoots)|
      && x[..29] == Ascii("trailryx/segment-manifest/v1\0")
      && BigEndian(x[29..31]) == s.formatVersion && BigEndian(x[31..39]) == s.segment
      && BigEndian(x[39..41]) == s.shard && BigEndian(x[41..49]) == s.records
      && x[49..97] == s.historyRoot && x[97..145] == s.chainBefore && x[145..193] == s.chainAfter
      && BigEndian(x[193..201]) == |s.indexRoots| && x[201..end] == RootsBytes(s.indexRoots)
      && BigEndian(x[end..end + 8]) == s.firstRecordedAt && BigEndian(x[end + 8..end + 16]) == s.lastRecordedAt
      && x[end + 16..] == s.algorithms
  {
    FrontLayout(s);
    BackLayout(s);
    var x, f, r, b := ManifestPreimage(s), ManifestFront(s), RootsBytes(s.indexRoots), ManifestBack(s);
    hide Ascii, ManifestFront, ManifestBack, RootsBytes, BigEndian, Read;
    PartsOf(x, f, r, b);
  }

  lemma PartsOf(x: Bytes, f: Bytes, r: Bytes, b: Bytes)
    requires x == f + (r + b) && |f| == 201 && |b| == 19
    ensures |x| == 220 + |r| && x[201..|x| - 19] == r
    ensures x[..29] == f[..29] && x[29..31] == f[29..31] && x[31..39] == f[31..39] && x[39..41] == f[39..41]
    ensures x[41..49] == f[41..49] && x[49..97] == f[49..97] && x[97..145] == f[97..145] && x[145..193] == f[145..193]
    ensures x[193..201] == f[193..]
    ensures var end := |x| - 19;
      x[end..end + 8] == b[..8] && x[end + 8..end + 16] == b[8..16] && x[end + 16..] == b[16..]
  {
  }

  lemma FrontLayout(s: Segment)
    requires Read(s)
    ensures var f := ManifestFront(s);
      && |f| == 201 && f[..29] == Ascii("trailryx/segment-manifest/v1\0")
      && BigEndian(f[29..31]) == s.formatVersion && BigEndian(f[31..39]) == s.segment
      && BigEndian(f[39..41]) == s.shard && BigEndian(f[41..49]) == s.records
      && f[49..97] == s.historyRoot && f[97..145] == s.chainBefore && f[145..193] == s.chainAfter
      && BigEndian(f[193..]) == |s.indexRoots|
  {
    ByteWidths();
    BeBytesValue(s.formatVersion, 2);
    BeBytesValue(s.segment, 8);
    BeBytesValue(s.shard, 2);
    BeBytesValue(s.records, 8);
    BeBytesValue(|s.indexRoots|, 8);
    var f := ManifestFront(s);
    var l, v, n := Ascii("trailryx/segment-manifest/v1\0"), BeBytes(s.formatVersion, 2), BeBytes(s.segment, 8);
    var d, r, m := BeBytes(s.shard, 2), BeBytes(s.records, 8), BeBytes(|s.indexRoots|, 8);
    hide *;
    NineParts(l, v, n, d, r, s.historyRoot, s.chainBefore, s.chainAfter, m);
  }

  lemma NineParts(l: Bytes, v: Bytes, n: Bytes, d: Bytes, r: Bytes, x: Digest, y: Digest, z: Digest, m: Bytes)
    requires |l| == 29 && |v| == 2 && |n| == 8 && |d| == 2 && |r| == 8 && |m| == 8
    ensures var f := l + v + n + d + r + x + y + z + m;
      && |f| == 201 && f[..29] == l && f[29..31] == v && f[31..39] == n && f[39..41] == d && f[41..49] == r
      && f[49..97] == x && f[97..145] == y && f[145..193] == z && f[193..] == m
  {
  }

  lemma BackLayout(s: Segment)
    requires Read(s)
    ensures var b := ManifestBack(s);
      && |b| == 19 && BigEndian(b[..8]) == s.firstRecordedAt && BigEndian(b[8..16]) == s.lastRecordedAt
      && b[16..] == s.algorithms
  {
    ByteWidths();
    BeBytesValue(s.firstRecordedAt, 8);
    BeBytesValue(s.lastRecordedAt, 8);
    var b := ManifestBack(s);
    hide BeBytes, BytePow, BigEndian;
    assert b[..8] == BeBytes(s.firstRecordedAt, 8) && b[8..16] == BeBytes(s.lastRecordedAt, 8);
  }

  lemma ManifestFrontDecides(a: Segment, b: Segment)
    requires Read(a) && Read(b) && ManifestFront(a) == ManifestFront(b)
    ensures a.formatVersion == b.formatVersion && a.segment == b.segment && a.shard == b.shard
    ensures a.records == b.records && a.historyRoot == b.historyRoot
    ensures a.chainBefore == b.chainBefore && a.chainAfter == b.chainAfter && |a.indexRoots| == |b.indexRoots|
  {
    var l := Ascii("trailryx/segment-manifest/v1\0");
    var f, f' := BeBytes(a.formatVersion, 2), BeBytes(b.formatVersion, 2);
    var g, g' := BeBytes(a.segment, 8), BeBytes(b.segment, 8);
    var s, s' := BeBytes(a.shard, 2), BeBytes(b.shard, 2);
    var n, n' := BeBytes(a.records, 8), BeBytes(b.records, 8);
    var m, m' := BeBytes(|a.indexRoots|, 8), BeBytes(|b.indexRoots|, 8);
    ByteWidths();
    hide Ascii, BeBytes, BytePow;
    var h, h', c, c', d, d' := a.historyRoot, b.historyRoot, a.chainBefore, b.chainBefore, a.chainAfter, b.chainAfter;
    SplitEqual(l + f + g + s + n + h + c + d, l + f' + g' + s' + n' + h' + c' + d', m, m');
    SplitEqual(l + f + g + s + n + h + c, l + f' + g' + s' + n' + h' + c', d, d');
    SplitEqual(l + f + g + s + n + h, l + f' + g' + s' + n' + h', c, c');
    SplitEqual(l + f + g + s + n, l + f' + g' + s' + n', h, h');
    SplitEqual(l + f + g + s, l + f' + g' + s', n, n');
    SplitEqual(l + f + g, l + f' + g', s, s');
    SplitEqual(l + f, l + f', g, g');
    SplitEqual(l, l, f, f');
    BeBytesInjective(a.formatVersion, b.formatVersion, 2);
    BeBytesInjective(a.segment, b.segment, 8);
    BeBytesInjective(a.shard, b.shard, 2);
    BeBytesInjective(a.records, b.records, 8);
    BeBytesInjective(|a.indexRoots|, |b.indexRoots|, 8);
  }

  lemma ManifestBackDecides(a: Segment, b: Segment)
    requires Read(a) && Read(b) && ManifestBack(a) == ManifestBack(b)
    ensures a.firstRecordedAt == b.firstRecordedAt && a.lastRecordedAt == b.lastRecordedAt
    ensures a.algorithms == b.algorithms
  {
    var f, f' := BeBytes(a.firstRecordedAt, 8), BeBytes(b.firstRecordedAt, 8);
    var l, l' := BeBytes(a.lastRecordedAt, 8), BeBytes(b.lastRecordedAt, 8);
    ByteWidths();
    hide BeBytes, BytePow;
    SplitEqual(f + l, f' + l', a.algorithms, b.algorithms);
    SplitEqual(f, f', l, l');
    BeBytesInjective(a.firstRecordedAt, b.firstRecordedAt, 8);
    BeBytesInjective(a.lastRecordedAt, b.lastRecordedAt, 8);
  }

  /** Two manifests with one preimage are one manifest: every field is there, at a place the ones before it decide. */
  lemma ManifestPreimageDecides(a: Segment, b: Segment)
    requires Read(a) && Read(b) && ManifestPreimage(a) == ManifestPreimage(b)
    ensures a == b
  {
    assert |ManifestFront(a)| == |ManifestFront(b)|;
    assert ShortNames(a.indexRoots) && ShortNames(b.indexRoots);
    hide ManifestFront, ManifestBack, RootsBytes;
    SplitEqual(ManifestFront(a), ManifestFront(b), RootsBytes(a.indexRoots) + ManifestBack(a),
               RootsBytes(b.indexRoots) + ManifestBack(b));
    ManifestFrontDecides(a, b);
    RootsBytesDecide(a.indexRoots, b.indexRoots, ManifestBack(a), ManifestBack(b));
    ManifestBackDecides(a, b);
  }

  // ---------------------------------------------------------------------------
  // The manifest as it is sealed
  // ---------------------------------------------------------------------------

  /** What is sealed counts the bytes of a name. */
  function SealedRootBytes(r: IndexRoot): Bytes {
    BeBytes(|Utf8(r.name)|, 8) + Utf8(r.name) + r.root
  }

  function SealedRootsBytes(roots: seq<IndexRoot>): Bytes {
    if roots == [] then [] else SealedRootBytes(roots[0]) + SealedRootsBytes(roots[1..])
  }

  function SealedPreimage(s: Segment): Bytes {
    ManifestFront(s) + (SealedRootsBytes(s.indexRoots) + ManifestBack(s))
  }

  predicate AsciiNames(roots: seq<IndexRoot>) {
    forall i :: 0 <= i < |roots| ==> AsciiOnly(roots[i].name)
  }

  lemma SameLengths(r: IndexRoot)
    ensures |RootBytes(r)| == |SealedRootBytes(r)|
    ensures |Utf8(r.name)| < 0x1_0000_0000 ==> (RootBytes(r) == SealedRootBytes(r) <==> AsciiOnly(r.name))
  {
    ByteCount(r.name);
    if |Utf8(r.name)| < 0x1_0000_0000 && RootBytes(r) == SealedRootBytes(r) {
      var m, n := BeBytes(|r.name|, 8), BeBytes(|Utf8(r.name)|, 8);
      ByteWidths();
      hide BeBytes, BytePow, Utf8, AsciiOnly;
      SplitEqual(m + Utf8(r.name), n + Utf8(r.name), r.root, r.root);
      SplitEqual(m, n, Utf8(r.name), Utf8(r.name));
      BeBytesInjective(|r.name|, |Utf8(r.name)|, 8);
    }
  }

  lemma {:induction false} RootsAgree(roots: seq<IndexRoot>)
    requires ShortNames(roots)
    ensures |RootsBytes(roots)| == |SealedRootsBytes(roots)|
    ensures RootsBytes(roots) == SealedRootsBytes(roots) <==> AsciiNames(roots)
  {
    hide RootBytes, SealedRootBytes, AsciiOnly;
    if roots != [] {
      var r, rest := roots[0], roots[1..];
      SameLengths(r);
      RootsAgree(rest);
      assert AsciiNames(roots) <==> AsciiOnly(r.name) && AsciiNames(rest) by {
        assert roots == [r] + rest;
      }
      if RootsBytes(roots) == SealedRootsBytes(roots) {
        SplitEqual(RootBytes(r), SealedRootBytes(r), RootsBytes(rest), SealedRootsBytes(rest));
      }
    }
  }

  /** The verifier hashes what was sealed if and only if every index name is ASCII. */
  lemma SealedAgrees(s: Segment)
    requires Read(s)
    ensures ManifestPreimage(s) == SealedPreimage(s) <==> AsciiNames(s.indexRoots)
  {
    assert ShortNames(s.indexRoots);
    RootsAgree(s.indexRoots);
    hide ManifestFront, ManifestBack, RootsBytes, SealedRootsBytes, AsciiNames, ShortNames;
    var f, b, x, y := ManifestFront(s), ManifestBack(s), RootsBytes(s.indexRoots), SealedRootsBytes(s.indexRoots);
    if f + (x + b) == f + (y + b) {
      SplitEqual(f, f, x + b, y + b);
      SplitEqual(x, y, b, b);
    }
  }

  /** One accented letter: a name of one character and two bytes. */
  lemma AccentedName(s: Segment, root: Digest)
    requires Read(s) && s.indexRoots == [IndexRoot("\U{00E9}", root)]
    ensures Utf8("\U{00E9}") == [0xC3, 0xA9]
    ensures RootBytes(s.indexRoots[0])[7] == 1 && SealedRootBytes(s.indexRoots[0])[7] == 2
    ensures ManifestPreimage(s) != SealedPreimage(s)
  {
    var name := "\U{00E9}";
    assert name[1..] == [] && Utf8([]) == [];
    assert CharBytes(name[0]) + [] == [0xC3, 0xA9];
    SealedAgrees(s);
    assert s.indexRoots[0].name[0] as int >= 0x80;
  }

  function ShardPreimage(shard: u16, segments: nat, root: Digest): Bytes {
    Ascii("trailryx/store-leaf/v1\0") + BeBytes(shard, 2) + BeBytes(segments, 8) + root
  }

  /** A shard's string by the places of its bytes. */
  lemma ShardLayout(shard: u16, segments: nat, root: Digest)
    requires segments < 0x1_0000_0000_0000_0000
    ensures var x := ShardPreimage(shard, segments, root);
      && |x| == 81 && x[..23] == Ascii("trailryx/store-leaf/v1\0") && BigEndian(x[23..25]) == shard
      && BigEndian(x[25..33]) == segments && x[33..] == root
  {
    ByteWidths();
    BeBytesValue(shard, 2);
    BeBytesValue(segments, 8);
    var x := ShardPreimage(shard, segments, root);
    hide Ascii, BeBytes, BytePow, BigEndian;
    assert x[23..25] == BeBytes(shard, 2) && x[25..33] == BeBytes(segments, 8);
  }

  lemma ShardPreimageDecides(s: u16, n: nat, r: Digest, s': u16, n': nat, r': Digest)
    requires n < 0x1_0000_0000_0000_0000 && n' < 0x1_0000_0000_0000_0000
    requires ShardPreimage(s, n, r) == ShardPreimage(s', n', r')
    ensures s == s' && n == n' && r == r'
  {
    var l := Ascii("trailryx/store-leaf/v1\0");
    ByteWidths();
    hide Ascii, BeBytes, BytePow;
    SplitEqual(l + BeBytes(s, 2) + BeBytes(n, 8), l + BeBytes(s', 2) + BeBytes(n', 8), r, r');
    SplitEqual(l + BeBytes(s, 2), l + BeBytes(s', 2), BeBytes(n, 8), BeBytes(n', 8));
    SplitEqual(l, l, BeBytes(s, 2), BeBytes(s', 2));
    BeBytesInjective(s, s', 2);
    BeBytesInjective(n, n', 8);
  }

  // ---------------------------------------------------------------------------
  // The hash chain
  // ---------------------------------------------------------------------------

  function Seqno(decode: Decoder, body: Bytes): u64 {
    var f := decode(body);
    if f.None? then 0 else f.value.seqno
  }

  /** The head of the chain after these records. */
  function Head(h: Hash, decode: Decoder, before: Digest, bodies: seq<Bytes>): Digest {
    if bodies == [] then before
    else
      var last := |bodies| - 1;
      h(ChainPreimage(Head(h, decode, before, bodies[..last]), Seqno(decode, bodies[last]), bodies[last]))
  }

  /** The head after every record. */
  function Links(h: Hash, decode: Decoder, before: Digest, bodies: seq<Bytes>): (r: seq<Digest>)
    ensures |r| == |bodies|
  {
    if bodies == [] then []
    else Links(h, decode, before, bodies[..|bodies| - 1]) + [Head(h, decode, before, bodies)]
  }

  function ChainPreimages(h: Hash, decode: Decoder, before: Digest, bodies: seq<Bytes>): set<Bytes> {
    if bodies == [] then {}
    else
      var last := |bodies| - 1;
      ChainPreimages(h, decode, before, bodies[..last])
      + {ChainPreimage(Head(h, decode, before, bodies[..last]), Seqno(decode, bodies[last]), bodies[last])}
  }

  /** The links pin down every record body, and the head they start from when there is a record. */
  lemma {:induction false} LinksDecide(h: Hash, decode: Decoder, s: set<Bytes>, b: Digest, x: seq<Bytes>, c: Digest,
                                       y: seq<Bytes>)
    requires CollisionFree(h, s)
    requires ChainPreimages(h, decode, b, x) <= s && ChainPreimages(h, decode, c, y) <= s
    requires Links(h, decode, b, x) == Links(h, decode, c, y)
    ensures x == y && (x != [] ==> b == c)
  {
    assert |x| == |y|;
    if x != [] {
      var last := |x| - 1;
      var u := ChainPreimage(Head(h, decode, b, x[..last]), Seqno(decode, x[last]), x[last]);
      var v := ChainPreimage(Head(h, decode, c, y[..last]), Seqno(decode, y[last]), y[last]);
      LinksSnoc(h, decode, b, x);
      LinksSnoc(h, decode, c, y);
      assert ChainPreimages(h, decode, b, x[..last]) <= s && ChainPreimages(h, decode, c, y[..last]) <= s;
      hide *;
      NoCollision(h, s, u, v);
      ChainPreimageDecides(Head(h, decode, b, x[..last]), Seqno(decode, x[last]), x[last],
                           Head(h, decode, c, y[..last]), Seqno(decode, y[last]), y[last]);
      LinksDecide(h, decode, s, b, x[..last], c, y[..last]);
      assert x == x[..last] + [x[last]] && y == y[..last] + [y[last]];
      if last == 0 {
        NoHeadYet(h, decode, b);
        NoHeadYet(h, decode, c);
        assert x[..last] == [] && y[..last] == [];
      }
    }
  }

  lemma NoHeadYet(h: Hash, decode: Decoder, before: Digest)
    ensures Head(h, decode, before, []) == before
  {
  }

  lemma LinksSnoc(h: Hash, decode: Decoder, b: Digest, x: seq<Bytes>)
    requires x != []
    ensures var last := |x| - 1;
      var u := ChainPreimage(Head(h, decode, b, x[..last]), Seqno(decode, x[last]), x[last]);
      && Links(h, decode, b, x)[..last] == Links(h, decode, b, x[..last])
      && Links(h, decode, b, x)[last] == h(u) && u in ChainPreimages(h, decode, b, x)
  {
  }

  // ---------------------------------------------------------------------------
  // The index
  // ---------------------------------------------------------------------------

  const ID: string := "id"
  const RECORDED_AT: string := "recorded_at"
  const AGENT_ID: string := "agent_id"
  const RUN_ID: string := "run_id"
  const EVENT_TYPE: string := "event_type"

  predicate Known(dimension: string) {
    dimension in [ID, RECORDED_AT, AGENT_ID, RUN_ID, EVENT_TYPE]
  }

  /** Big-endian for numbers. */
  function IndexKey(dimension: string, f: Fields): (r: Option<Bytes>)
    ensures r.Some? <==> Known(dimension)
  {
    if dimension == ID then Some(BeBytes(f.id, 16))
    else if dimension == RECORDED_AT then Some(BeBytes(f.recordedAt, 8))
    else if dimension == AGENT_ID then Some(f.agentId)
    else if dimension == RUN_ID then Some(f.runId)
    else if dimension == EVENT_TYPE then Some([f.eventType])
    else None
  }

  /** The dimensions that can be keyed are named in ASCII, so an index over them is sealed as it is verified. */
  lemma KnownIsAscii(dimension: string)
    requires Known(dimension)
    ensures AsciiOnly(dimension)
  {
  }

  datatype Entry = Entry(key: Bytes, seqno: u64, link: Digest)

  function EntryData(e: Entry): Bytes {
    BeBytes(|e.key|, 8) + e.key + BeBytes(e.seqno, 8) + e.link
  }

  /** An entry's leaf by the places of its bytes: the octet of a leaf, the length of the key, the key, the number and
      the link. */
  lemma EntryLayout(e: Entry)
    requires |e.key| < 0x1_0000_0000_0000_0000
    ensures var x, n := Leaf(EntryData(e)), |e.key|;
      && |x| == 65 + n && x[0] == 0 && BigEndian(x[1..9]) == n && x[9..9 + n] == e.key
      && BigEndian(x[9 + n..17 + n]) == e.seqno && x[17 + n..] == e.link
  {
    ByteWidths();
    BeBytesValue(|e.key|, 8);
    BeBytesValue(e.seqno, 8);
    var x, n := Leaf(EntryData(e)), |e.key|;
    hide BeBytes, BytePow, BigEndian;
    FourParts(BeBytes(n, 8), e.key, BeBytes(e.seqno, 8), e.link);
  }

  lemma FourParts(a: Bytes, b: Bytes, c: Bytes, d: Bytes)
    requires |a| == |c| == 8
    ensures var x, n := [0] + (a + b + c + d), |b|;
      && |x| == 17 + n + |d| && x[0] == 0 && x[1..9] == a && x[9..9 + n] == b && x[9 + n..17 + n] == c
      && x[17 + n..] == d
  {
  }

  /** By key, then by sequence number. */
  predicate EntryLess(a: Entry, b: Entry) {
    Precedes(a.key, b.key) || (a.key == b.key && a.seqno < b.seqno)
  }

  lemma EntryOrder()
    ensures StrictOrder(EntryLess)
  {
    forall a: Entry
      ensures !EntryLess(a, a)
    {
      PrecedesIrreflexive(a.key);
    }
    forall a: Entry, b: Entry, c: Entry | EntryLess(a, b) && EntryLess(b, c)
      ensures EntryLess(a, c)
    {
      if Precedes(a.key, b.key) && Precedes(b.key, c.key) {
        PrecedesTransitive(a.key, b.key, c.key);
      }
    }
  }

  function EntryDatas(es: seq<Entry>): (r: seq<Bytes>)
    ensures |r| == |es|
    ensures forall i :: 0 <= i < |r| ==> r[i] == EntryData(es[i])
  {
    seq(|es|, i requires 0 <= i < |es| => EntryData(es[i]))
  }

  function NoFields(): Fields {
    Fields(0, 0, [], [], 0, 0)
  }

  function FieldsOf(decode: Decoder, body: Bytes): Fields {
    if decode(body).Some? then decode(body).value else NoFields()
  }

  /** One entry per record, in record order. */
  function Entries(h: Hash, decode: Decoder, before: Digest, bodies: seq<Bytes>, dimension: string): (r: seq<Entry>)
    requires Known(dimension)
    ensures |r| == |bodies|
  {
    if bodies == [] then []
    else
      var last := |bodies| - 1;
      var f := FieldsOf(decode, bodies[last]);
      Entries(h, decode, before, bodies[..last], dimension)
      + [Entry(IndexKey(dimension, f).value, f.seqno, Head(h, decode, before, bodies))]
  }

  // ---------------------------------------------------------------------------
  // What a verified segment satisfies
  // ---------------------------------------------------------------------------

  predicate AllDecode(decode: Decoder, bodies: seq<Bytes>) {
    forall i :: 0 <= i < |bodies| ==> decode(bodies[i]).Some?
  }

  /** The records carry the numbers one to n, in this order. */
  predicate Contiguous(decode: Decoder, bodies: seq<Bytes>) {
    forall i :: 0 <= i < |bodies| ==> Seqno(decode, bodies[i]) == i + 1
  }

  /** The index is the tree over its entries in ascending order. One for a dimension this verifier does not know is
      checked only when there is nothing in it. */
  predicate IndexOk(h: Hash, decode: Decoder, before: Digest, bodies: seq<Bytes>, r: IndexRoot) {
    if Known(r.name) then
      TreeHash(h, EntryDatas(Sorted(EntryLess, Entries(h, decode, before, bodies, r.name)))) == r.root
    else bodies == [] ==> TreeHash(h, []) == r.root
  }

  /** The first n indexes. */
  predicate IndexesOk(h: Hash, decode: Decoder, s: Segment, bodies: seq<Bytes>, n: nat)
    requires n <= |s.indexRoots|
  {
    forall i :: 0 <= i < n ==> IndexOk(h, decode, s.chainBefore, bodies, s.indexRoots[i])
  }

  predicate SegmentOk(h: Hash, decode: Decoder, s: Segment, bodies: seq<Bytes>) {
    && |bodies| == s.records
    && AllDecode(decode, bodies)
    && Head(h, decode, s.chainBefore, bodies) == s.chainAfter
    && TreeHash(h, Links(h, decode, s.chainBefore, bodies)) == s.historyRoot
    && Contiguous(decode, bodies)
    && IndexesOk(h, decode, s, bodies, |s.indexRoots|)
  }

  /** The chain of a segment, forwards: from the head before it, one link for each record, to the head after it. Each
      link is over the one before, the number of the record and its body, and the records carry these numbers. */
  predicate Chained(h: Hash, decode: Decoder, s: Segment, bodies: seq<Bytes>, links: seq<Digest>) {
    && |links| == |bodies| + 1 && |bodies| < 0x1_0000_0000_0000_0000
    && links[0] == s.chainBefore && links[|bodies|] == s.chainAfter
    && (forall i :: 0 <= i < |bodies| ==> decode(bodies[i]).Some? && decode(bodies[i]).value.seqno == i + 1)
    && (forall i :: 0 <= i < |bodies| ==> links[i + 1] == h(ChainPreimage(links[i], i + 1, bodies[i])))
    && TreeHash(h, links[1..]) == s.historyRoot
  }

  /** A segment checks out exactly when there is such a chain of as many records as it says and every index is in
      order. */
  lemma SegmentExactly(h: Hash, decode: Decoder, s: Segment, bodies: seq<Bytes>)
    ensures SegmentOk(h, decode, s, bodies)
       <==> && |bodies| == s.records
            && (exists links :: Chained(h, decode, s, bodies, links))
            && forall r :: r in s.indexRoots ==> IndexOk(h, decode, s.chainBefore, bodies, r)
  {
    hide SegmentOk, Chained;
    IndexesExactly(h, decode, s, bodies);
    if SegmentOk(h, decode, s, bodies) {
      var links := SegmentIsChained(h, decode, s, bodies);
    }
    if |bodies| == s.records && (exists links :: Chained(h, decode, s, bodies, links)) {
      var links :| Chained(h, decode, s, bodies, links);
      ChainedIsSegment(h, decode, s, bodies, links);
    }
  }

  lemma IndexesExactly(h: Hash, decode: Decoder, s: Segment, bodies: seq<Bytes>)
    ensures IndexesOk(h, decode, s, bodies, |s.indexRoots|)
       <==> forall r :: r in s.indexRoots ==> IndexOk(h, decode, s.chainBefore, bodies, r)
    ensures SegmentOk(h, decode, s, bodies) ==>
      |bodies| == s.records && IndexesOk(h, decode, s, bodies, |s.indexRoots|)
  {
    hide IndexOk, Head, Links, TreeHash, AllDecode, Contiguous;
  }

  lemma SegmentIsChained(h: Hash, decode: Decoder, s: Segment, bodies: seq<Bytes>) returns (links: seq<Digest>)
    requires SegmentOk(h, decode, s, bodies)
    ensures Chained(h, decode, s, bodies, links)
  {
    hide ChainPreimage, IndexesOk, TreeHash;
    links := [s.chainBefore] + Links(h, decode, s.chainBefore, bodies);
    LinksAreHeads(h, decode, s.chainBefore, bodies);
    assert links[1..] == Links(h, decode, s.chainBefore, bodies);
    assert bodies[..|bodies|] == bodies;
    forall i | 0 <= i < |bodies|
      ensures decode(bodies[i]).Some? && decode(bodies[i]).value.seqno == i + 1
      ensures links[i + 1] == h(ChainPreimage(links[i], i + 1, bodies[i]))
    {
      assert Seqno(decode, bodies[i]) == i + 1;
      HeadStep(h, decode, s.chainBefore, bodies, i);
    }
  }

  lemma ChainedIsSegment(h: Hash, decode: Decoder, s: Segment, bodies: seq<Bytes>, links: seq<Digest>)
    requires Chained(h, decode, s, bodies, links) && |bodies| == s.records
    ensures IndexesOk(h, decode, s, bodies, |s.indexRoots|) ==> SegmentOk(h, decode, s, bodies)
  {
    hide ChainPreimage, IndexesOk, TreeHash;
    ChainedAreHeads(h, decode, s, bodies, links, |bodies|);
    LinksAreHeads(h, decode, s.chainBefore, bodies);
    assert bodies[..|bodies|] == bodies;
    forall i | 0 <= i < |bodies|
      ensures Links(h, decode, s.chainBefore, bodies)[i] == links[1..][i] && Seqno(decode, bodies[i]) == i + 1
    {
      ChainedAreHeads(h, decode, s, bodies, links, i + 1);
    }
    assert Links(h, decode, s.chainBefore, bodies) == links[1..];
  }

  lemma HeadStep(h: Hash, decode: Decoder, before: Digest, bodies: seq<Bytes>, i: nat)
    requires i < |bodies|
    ensures Head(h, decode, before, bodies[..i + 1])
         == h(ChainPreimage(Head(h, decode, before, bodies[..i]), Seqno(decode, bodies[i]), bodies[i]))
    ensures Head(h, decode, before, []) == before
  {
    assert bodies[..i + 1][..i] == bodies[..i];
  }

  lemma {:induction false} LinksAreHeads(h: Hash, decode: Decoder, before: Digest, bodies: seq<Bytes>)
    ensures forall i :: 0 <= i < |bodies| ==>
      Links(h, decode, before, bodies)[i] == Head(h, decode, before, bodies[..i + 1])
    decreases |bodies|
  {
    hide Head;
    if bodies != [] {
      var front := bodies[..|bodies| - 1];
      LinksAreHeads(h, decode, before, front);
      assert bodies[..|bodies|] == bodies;
      forall i | 0 <= i < |front|
        ensures Links(h, decode, before, bodies)[i] == Head(h, decode, before, bodies[..i + 1])
      {
        assert front[..i + 1] == bodies[..i + 1];
        assert Links(h, decode, before, front)[i] == Head(h, decode, before, front[..i + 1]);
      }
    }
  }

  lemma {:induction false} ChainedAreHeads(h: Hash, decode: Decoder, s: Segment, bodies: seq<Bytes>,
                                           links: seq<Digest>, i: nat)
    requires Chained(h, decode, s, bodies, links) && i <= |bodies|
    ensures links[i] == Head(h, decode, s.chainBefore, bodies[..i])
  {
    hide ChainPreimage;
    if i > 0 {
      ChainedAreHeads(h, decode, s, bodies, links, i - 1);
      HeadStep(h, decode, s.chainBefore, bodies, i - 1);
    } else {
      assert bodies[..0] == [];
    }
  }

  lemma {:induction false} EntriesAt(h: Hash, decode: Decoder, before: Digest, bodies: seq<Bytes>, dimension: string,
                                     i: nat)
    requires Known(dimension) && i < |bodies|
    ensures Entries(h, decode, before, bodies, dimension)[i].seqno == FieldsOf(decode, bodies[i]).seqno
  {
    if i < |bodies| - 1 {
      EntriesAt(h, decode, before, bodies[..|bodies| - 1], dimension, i);
    }
  }

  /** With the numbers one to n no two entries tie. */
  lemma EntriesApart(h: Hash, decode: Decoder, before: Digest, bodies: seq<Bytes>, dimension: string)
    requires Known(dimension) && AllDecode(decode, bodies) && Contiguous(decode, bodies)
    ensures Apart(EntryLess, Entries(h, decode, before, bodies, dimension))
  {
    var es := Entries(h, decode, before, bodies, dimension);
    forall i, j | 0 <= i < j < |es|
      ensures EntryLess(es[i], es[j]) || EntryLess(es[j], es[i])
    {
      EntriesAt(h, decode, before, bodies, dimension, i);
      EntriesAt(h, decode, before, bodies, dimension, j);
      assert Seqno(decode, bodies[i]) == i + 1 && Seqno(decode, bodies[j]) == j + 1;
      PrecedesTotal(es[i].key, es[j].key);
    }
  }

  /** The root of a recognised index is the root of the one strictly ascending arrangement of one entry per record. */
  lemma IndexIsOfTheOneArrangement(h: Hash, decode: Decoder, s: Segment, bodies: seq<Bytes>, r: IndexRoot,
                                   es: seq<Entry>)
    requires SegmentOk(h, decode, s, bodies) && r in s.indexRoots && Known(r.name)
    requires Ascending(EntryLess, es)
    requires multiset(es) == multiset(Entries(h, decode, s.chainBefore, bodies, r.name))
    ensures es == Sorted(EntryLess, Entries(h, decode, s.chainBefore, bodies, r.name))
    ensures TreeHash(h, EntryDatas(es)) == r.root
  {
    var all := Entries(h, decode, s.chainBefore, bodies, r.name);
    EntriesApart(h, decode, s.chainBefore, bodies, r.name);
    EntryOrder();
    SortedAscends(EntryLess, all);
    OneArrangement(EntryLess, es, Sorted(EntryLess, all));
  }

  predicate InRange(key: Bytes, lo: Bytes, hi: Bytes) {
    !Precedes(key, lo) && !Precedes(hi, key)
  }

  /** The entries of a range of keys are one run, and right outside it are keys below and above the range. */
  lemma RangeIsOneRun(es: seq<Entry>, lo: Bytes, hi: Bytes) returns (from: nat, to: nat)
    requires Ascending(EntryLess, es)
    ensures from <= to <= |es|
    ensures forall i :: 0 <= i < |es| ==> (InRange(es[i].key, lo, hi) <==> from <= i < to)
    ensures forall i :: 0 <= i < from ==> Precedes(es[i].key, lo)
    ensures forall i :: to <= i < |es| ==> Precedes(hi, es[i].key)
  {
    from := 0;
    while from < |es| && Precedes(es[from].key, lo)
      invariant 0 <= from <= |es|
      invariant forall i :: 0 <= i < from ==> Precedes(es[i].key, lo)
    {
      from := from + 1;
    }
    to := from;
    while to < |es| && !Precedes(hi, es[to].key)
      invariant from <= to <= |es|
      invariant forall i :: from <= i < to ==> !Precedes(hi, es[i].key)
    {
      to := to + 1;
    }
    forall i | 0 <= i < |es|
      ensures i < from ==> !InRange(es[i].key, lo, hi)
      ensures from <= i < to ==> InRange(es[i].key, lo, hi)
      ensures to <= i ==> Precedes(hi, es[i].key)
    {
      if from < i {
        KeysAscend(es, from, i, lo);
      }
      if to < i {
        KeysAscendAbove(es, to, i, hi);
      }
    }
  }

  // ---------------------------------------------------------------------------
  // Ranges of numbers
  // ---------------------------------------------------------------------------

  /** The dimensions that are numbers. */
  predicate Numeric(dimension: string) {
    dimension in [ID, RECORDED_AT, EVENT_TYPE]
  }

  function KeyWidth(dimension: string): nat {
    if dimension == ID then 16 else if dimension == RECORDED_AT then 8 else 1
  }

  function NumberOf(dimension: string, f: Fields): nat {
    if dimension == ID then f.id else if dimension == RECORDED_AT then f.recordedAt else f.eventType
  }

  /** The key of a numeric dimension is the number, in one width. */
  lemma KeyIsNumber(dimension: string, f: Fields)
    requires Numeric(dimension)
    ensures Known(dimension)
    ensures var key := IndexKey(dimension, f).value;
      |key| == KeyWidth(dimension) && BigEndian(key) == NumberOf(dimension, f)
  {
    ByteWidths();
    if dimension == ID {
      BeBytesValue(f.id, 16);
    } else if dimension == RECORDED_AT {
      BeBytesValue(f.recordedAt, 8);
    } else {
      OneByte(f.eventType);
    }
  }

  lemma {:induction false} EntryKeyAt(h: Hash, decode: Decoder, before: Digest, bodies: seq<Bytes>, dimension: string,
                                      i: nat)
    requires Known(dimension) && i < |bodies|
    ensures var f := FieldsOf(decode, bodies[i]);
      Entries(h, decode, before, bodies, dimension)[i].key == IndexKey(dimension, f).value
    decreases |bodies|
  {
    hide IndexKey;
    if i < |bodies| - 1 {
      EntryKeyAt(h, decode, before, bodies[..|bodies| - 1], dimension, i);
    }
  }

  /** Entries whose keys have one width. */
  predicate OneWidth(es: seq<Entry>, width: nat) {
    forall i :: 0 <= i < |es| ==> |es[i].key| == width
  }

  function Number(e: Entry): nat {
    BigEndian(e.key)
  }

  /** Entries before `from` have a smaller number than the range, those from `to` on a greater one, and those between
      are in it. An empty range is in no entry. */
  predicate IsRun(es: seq<Entry>, lo: nat, hi: nat, from: nat, to: nat) {
    && from <= to <= |es|
    && (forall i :: 0 <= i < |es| ==> (lo <= Number(es[i]) <= hi <==> from <= i < to))
    && (forall i :: 0 <= i < from ==> Number(es[i]) < lo)
    && (forall i :: to <= i < |es| ==> hi < Number(es[i]))
  }

  lemma NumbersAscend(es: seq<Entry>, width: nat, i: nat, j: nat)
    requires Ascending(EntryLess, es) && OneWidth(es, width) && i <= j < |es|
    ensures Number(es[i]) <= Number(es[j])
  {
    if i < j {
      assert EntryLess(es[i], es[j]);
      PrecedesIsNumeric(es[i].key, es[j].key);
    }
  }

  lemma NumbersInOneRun(es: seq<Entry>, width: nat, lo: nat, hi: nat) returns (from: nat, to: nat)
    requires Ascending(EntryLess, es) && OneWidth(es, width)
    ensures IsRun(es, lo, hi, from, to)
  {
    from := 0;
    while from < |es| && Number(es[from]) < lo
      invariant 0 <= from <= |es|
      invariant forall i :: 0 <= i < from ==> Number(es[i]) < lo
    {
      from := from + 1;
    }
    to := from;
    while to < |es| && Number(es[to]) <= hi
      invariant from <= to <= |es|
      invariant forall i :: from <= i < to ==> Number(es[i]) <= hi
    {
      to := to + 1;
    }
    forall i | 0 <= i < |es|
      ensures from <= i ==> lo <= Number(es[i])
      ensures to <= i ==> hi < Number(es[i])
    {
      hide Number, Ascending;
      if from <= i {
        NumbersAscend(es, width, from, i);
      }
      if to <= i {
        NumbersAscend(es, width, to, i);
      }
    }
  }

  /** What makes an answer over a range complete: in a segment that checks out, the tree under the root of a numeric
      index holds the records whose number is in the range as one run, with a smaller number right before it and a
      greater one right after it. */
  lemma RangeIsComplete(h: Hash, decode: Decoder, s: Segment, bodies: seq<Bytes>, r: IndexRoot, lo: nat, hi: nat)
    returns (es: seq<Entry>, from: nat, to: nat)
    requires SegmentOk(h, decode, s, bodies) && r in s.indexRoots && Numeric(r.name)
    ensures Known(r.name) && multiset(es) == multiset(Entries(h, decode, s.chainBefore, bodies, r.name))
    ensures Ascending(EntryLess, es) && TreeHash(h, EntryDatas(es)) == r.root
    ensures IsRun(es, lo, hi, from, to)
    ensures forall k :: 0 <= k < |bodies| ==>
      (lo <= NumberOf(r.name, FieldsOf(decode, bodies[k])) <= hi
       <==> Entries(h, decode, s.chainBefore, bodies, r.name)[k] in es[from..to])
  {
    KeyIsNumber(r.name, NoFields());
    var all := Entries(h, decode, s.chainBefore, bodies, r.name);
    es := Sorted(EntryLess, all);
    EntriesApart(h, decode, s.chainBefore, bodies, r.name);
    EntryOrder();
    SortedAscends(EntryLess, all);
    IndexIsOfTheOneArrangement(h, decode, s, bodies, r, es);
    hide *;
    forall k | 0 <= k < |bodies|
      ensures |all[k].key| == KeyWidth(r.name) && Number(all[k]) == NumberOf(r.name, FieldsOf(decode, bodies[k]))
    {
      NumberAt(h, decode, s.chainBefore, bodies, r.name, k);
    }
    SortedWidth(all, es, KeyWidth(r.name));
    from, to := NumbersInOneRun(es, KeyWidth(r.name), lo, hi);
    forall k | 0 <= k < |bodies|
      ensures lo <= NumberOf(r.name, FieldsOf(decode, bodies[k])) <= hi <==> all[k] in es[from..to]
    {
      InTheRun(all, es, lo, hi, from, to, k);
    }
  }

  lemma NumberAt(h: Hash, decode: Decoder, before: Digest, bodies: seq<Bytes>, dimension: string, k: nat)
    requires Numeric(dimension) && Known(dimension) && k < |bodies|
    ensures var e := Entries(h, decode, before, bodies, dimension)[k];
      |e.key| == KeyWidth(dimension) && Number(e) == NumberOf(dimension, FieldsOf(decode, bodies[k]))
  {
    EntryKeyAt(h, decode, before, bodies, dimension, k);
    KeyIsNumber(dimension, FieldsOf(decode, bodies[k]));
    hide Entries, IndexKey, FieldsOf;
  }

  lemma SortedWidth(all: seq<Entry>, es: seq<Entry>, width: nat)
    requires multiset(es) == multiset(all) && forall k :: 0 <= k < |all| ==> |all[k].key| == width
    ensures OneWidth(es, width)
  {
    forall i | 0 <= i < |es|
      ensures |es[i].key| == width
    {
      assert es[i] in multiset(all);
    }
  }

  lemma InTheRun(all: seq<Entry>, es: seq<Entry>, lo: nat, hi: nat, from: nat, to: nat, k: nat)
    requires multiset(es) == multiset(all) && IsRun(es, lo, hi, from, to) && k < |all|
    ensures lo <= Number(all[k]) <= hi <==> all[k] in es[from..to]
  {
    var e := all[k];
    hide Number;
    if lo <= Number(e) <= hi {
      assert e in multiset(es);
      var i :| 0 <= i < |es| && es[i] == e;
      assert es[from..to][i - from] == e;
    }
    if e in es[from..to] {
      var i :| 0 <= i < |es[from..to]| && es[from..to][i] == e;
      assert es[from + i] == e;
    }
  }

  /** An entry says which record it is of: the record's number and the link at it. */
  lemma {:induction false} EntryIsOfItsRecord(h: Hash, decode: Decoder, before: Digest, bodies: seq<Bytes>,
                                              dimension: string, i: nat)
    requires Known(dimension) && i < |bodies|
    ensures var e := Entries(h, decode, before, bodies, dimension)[i];
      e.seqno == FieldsOf(decode, bodies[i]).seqno && e.link == Head(h, decode, before, bodies[..i + 1])
    decreases |bodies|
  {
    hide IndexKey, Head;
    if i < |bodies| - 1 {
      EntryIsOfItsRecord(h, decode, before, bodies[..|bodies| - 1], dimension, i);
      assert bodies[..|bodies| - 1][..i + 1] == bodies[..i + 1];
    } else {
      assert bodies[..i + 1] == bodies;
    }
  }

  /** Entries before `from` have a smaller key, those from `to` on a greater one, and those between have this one. */
  predicate IsKeyRun(es: seq<Entry>, key: Bytes, from: nat, to: nat) {
    && from <= to <= |es|
    && (forall i :: 0 <= i < |es| ==> (es[i].key == key <==> from <= i < to))
    && (forall i :: 0 <= i < from ==> Precedes(es[i].key, key))
    && (forall i :: to <= i < |es| ==> Precedes(key, es[i].key))
  }

  lemma OneKeyIsOneRun(es: seq<Entry>, key: Bytes) returns (from: nat, to: nat)
    requires Ascending(EntryLess, es)
    ensures IsKeyRun(es, key, from, to)
  {
    from, to := RangeIsOneRun(es, key, key);
    forall i | 0 <= i < |es|
      ensures es[i].key == key <==> InRange(es[i].key, key, key)
    {
      PrecedesIrreflexive(key);
      PrecedesTotal(es[i].key, key);
    }
  }

  lemma InTheKeyRun(all: seq<Entry>, es: seq<Entry>, key: Bytes, from: nat, to: nat, k: nat)
    requires multiset(es) == multiset(all) && IsKeyRun(es, key, from, to) && k < |all|
    ensures all[k].key == key <==> all[k] in es[from..to]
  {
    var e := all[k];
    if e.key == key {
      assert e in multiset(es);
      var i :| 0 <= i < |es| && es[i] == e;
      assert es[from..to][i - from] == e;
    }
    if e in es[from..to] {
      var i :| 0 <= i < |es[from..to]| && es[from..to][i] == e;
      assert es[from + i] == e;
    }
  }

  /** The agent, or the run, that a record names itself. */
  predicate Names(decode: Decoder, body: Bytes, dimension: string, name: Bytes) {
    && decode(body).Some?
    && name == if dimension == "agent_id" then decode(body).value.agentId else decode(body).value.runId
  }

  /** The same for the two names: whatever name is asked for, the tree under the root of an `agent_id` index holds the
      records of the agent of that name as one run, and that of a `run_id` index those of the run. */
  lemma NameIsComplete(h: Hash, decode: Decoder, s: Segment, bodies: seq<Bytes>, r: IndexRoot, name: Bytes)
    returns (es: seq<Entry>, from: nat, to: nat)
    requires SegmentOk(h, decode, s, bodies) && r in s.indexRoots && (r.name == "agent_id" || r.name == "run_id")
    ensures Known(r.name) && multiset(es) == multiset(Entries(h, decode, s.chainBefore, bodies, r.name))
    ensures Ascending(EntryLess, es) && TreeHash(h, EntryDatas(es)) == r.root
    ensures IsKeyRun(es, name, from, to)
    ensures forall k :: 0 <= k < |bodies| ==>
      (Names(decode, bodies[k], r.name, name)
       <==> Entries(h, decode, s.chainBefore, bodies, r.name)[k] in es[from..to])
  {
    var all := Entries(h, decode, s.chainBefore, bodies, r.name);
    es := Sorted(EntryLess, all);
    EntriesApart(h, decode, s.chainBefore, bodies, r.name);
    EntryOrder();
    SortedAscends(EntryLess, all);
    IndexIsOfTheOneArrangement(h, decode, s, bodies, r, es);
    from, to := OneKeyIsOneRun(es, name);
    forall k | 0 <= k < |bodies|
      ensures Names(decode, bodies[k], r.name, name) <==> all[k] in es[from..to]
    {
      assert decode(bodies[k]).Some?;
      EntryKeyAt(h, decode, s.chainBefore, bodies, r.name, k);
      NameKey(r.name, FieldsOf(decode, bodies[k]));
      hide IndexKey, Entries, IsKeyRun, SegmentOk, Ascending, Sorted;
      InTheKeyRun(all, es, name, from, to, k);
    }
  }

  /** The key of a name is the name. */
  lemma NameKey(dimension: string, f: Fields)
    requires dimension == "agent_id" || dimension == "run_id"
    ensures IndexKey(dimension, f) == Some(if dimension == "agent_id" then f.agentId else f.runId)
  {
    assert "agent_id"[0] != "run_id"[0];
  }

  lemma KeysAscend(es: seq<Entry>, i: nat, j: nat, lo: Bytes)
    requires Ascending(EntryLess, es) && i < j < |es| && !Precedes(es[i].key, lo)
    ensures !Precedes(es[j].key, lo)
  {
    assert EntryLess(es[i], es[j]);
    if Precedes(es[j].key, lo) && Precedes(es[i].key, es[j].key) {
      PrecedesTransitive(es[i].key, es[j].key, lo);
    }
  }

  lemma KeysAscendAbove(es: seq<Entry>, i: nat, j: nat, hi: Bytes)
    requires Ascending(EntryLess, es) && i < j < |es| && Precedes(hi, es[i].key)
    ensures Precedes(hi, es[j].key)
  {
    assert EntryLess(es[i], es[j]);
    if Precedes(es[i].key, es[j].key) {
      PrecedesTransitive(hi, es[i].key, es[j].key);
    }
  }

  // ---------------------------------------------------------------------------
  // What a verified pack satisfies
  // ---------------------------------------------------------------------------

  predicate BySegment(a: Segment, b: Segment) {
    a.segment < b.segment
  }

  predicate ByShard(a: ShardInfo, b: ShardInfo) {
    a.shard < b.shard
  }

  function OfShard(segments: seq<Segment>, shard: u16): (r: seq<Segment>)
    ensures forall s :: s in r <==> s in segments && s.shard == shard
  {
    if segments == [] then []
    else
      var last := |segments| - 1;
      OfShard(segments[..last], shard) + if segments[last].shard == shard then [segments[last]] else []
  }

  /** The segments of a shard in the order of their ids. */
  function SegmentsOf(p: Pack, shard: u16): seq<Segment> {
    Sorted(BySegment, OfShard(p.segments, shard))
  }

  function RecordMap(sets: seq<RecordSet>): map<(u16, u64), seq<Bytes>> {
    if sets == [] then map[]
    else
      var last := sets[|sets| - 1];
      RecordMap(sets[..|sets| - 1])[(last.shard, last.segment) := last.records]
  }

  /** The first n segments continue each other's chains. */
  predicate Continues(segments: seq<Segment>, n: nat)
    requires n <= |segments|
  {
    forall i :: 0 < i < n ==> segments[i - 1].chainAfter == segments[i].chainBefore
  }

  function Manifests(h: Hash, segments: seq<Segment>): (r: seq<Bytes>)
    ensures |r| == |segments|
    ensures forall i :: 0 <= i < |r| ==> r[i] == h(ManifestPreimage(segments[i]))
  {
    seq(|segments|, i requires 0 <= i < |segments| => h(ManifestPreimage(segments[i])))
  }

  predicate RecordsOk(h: Hash, decode: Decoder, records: map<(u16, u64), seq<Bytes>>, s: Segment) {
    (s.shard, s.segment) in records ==> SegmentOk(h, decode, s, records[(s.shard, s.segment)])
  }

  predicate AllRecordsOk(h: Hash, decode: Decoder, records: map<(u16, u64), seq<Bytes>>, segments: seq<Segment>, n: nat)
    requires n <= |segments|
  {
    forall i :: 0 <= i < n ==> RecordsOk(h, decode, records, segments[i])
  }

  predicate ShardOk(h: Hash, decode: Decoder, p: Pack, info: ShardInfo) {
    var segments := SegmentsOf(p, info.shard);
    && |segments| == info.segmentCount
    && AllRecordsOk(h, decode, RecordMap(p.recordSets), segments, |segments|)
    && Continues(segments, |segments|)
    && TreeHash(h, Manifests(h, segments)) == info.root
  }

  function ShardEntry(h: Hash, p: Pack, info: ShardInfo): Bytes {
    h(ShardPreimage(info.shard, |SegmentsOf(p, info.shard)|, info.root))
  }

  function StoreEntries(h: Hash, p: Pack): (r: seq<Bytes>)
    ensures |r| == |p.shards|
    ensures forall i :: 0 <= i < |r| ==> r[i] == ShardEntry(h, p, Sorted(ByShard, p.shards)[i])
  {
    var shards := Sorted(ByShard, p.shards);
    seq(|shards|, i requires 0 <= i < |shards| => ShardEntry(h, p, shards[i]))
  }

  predicate SetsDiffer(sets: seq<RecordSet>) {
    forall i, j :: 0 <= i < j < |sets| ==> (sets[i].shard, sets[i].segment) != (sets[j].shard, sets[j].segment)
  }

  predicate Listed(p: Pack, s: Segment) {
    exists i :: 0 <= i < |p.shards| && p.shards[i].shard == s.shard
  }

  predicate AllListed(p: Pack, n: nat)
    requires n <= |p.segments|
  {
    forall i :: 0 <= i < n ==> Listed(p, p.segments[i])
  }

  predicate AllShardsOk(h: Hash, decode: Decoder, p: Pack, n: nat)
    requires n <= |p.shards|
  {
    forall i :: 0 <= i < n ==> ShardOk(h, decode, p, Sorted(ByShard, p.shards)[i])
  }

  predicate AnchorsAgree(p: Pack, n: nat)
    requires n <= |p.anchors|
  {
    forall i :: 0 <= i < n ==> p.anchors[i] == p.storeRoot
  }

  predicate PackOk(h: Hash, decode: Decoder, p: Pack) {
    && SetsDiffer(p.recordSets)
    && AllListed(p, |p.segments|)
    && |p.shards| == p.shardCount
    && AllShardsOk(h, decode, p, |p.shards|)
    && TreeHash(h, StoreEntries(h, p)) == p.storeRoot
    && AnchorsAgree(p, |p.anchors|)
  }

  // ---------------------------------------------------------------------------
  // The order of segments and shards
  // ---------------------------------------------------------------------------

  /** The segments of a shard are taken by their numbers, those with one number in the order they came. */
  lemma SegmentsInOrder(p: Pack, shard: u16, number: u64)
    ensures forall s :: s in SegmentsOf(p, shard) <==> s in p.segments && s.shard == shard
    ensures forall i, j :: 0 <= i < j < |SegmentsOf(p, shard)| ==>
      SegmentsOf(p, shard)[i].segment <= SegmentsOf(p, shard)[j].segment
    ensures var numbered := (s: Segment) => s.segment == number;
      Picked(numbered, SegmentsOf(p, shard)) == Picked(numbered, OfShard(p.segments, shard))
  {
    forall s
      ensures s in SegmentsOf(p, shard) <==> s in p.segments && s.shard == shard
    {
      SameMembers(BySegment, OfShard(p.segments, shard), s);
    }
    SortedWeak(BySegment, OfShard(p.segments, shard));
    SortedIsStable(BySegment, OfShard(p.segments, shard), (s: Segment) => s.segment == number);
  }

  /** When no two segments of a shard have one number, a shard checks out exactly when its segments, lined up by their
      numbers, are as many as it says, each starts at the head the one before it left, the tree over their manifests
      has the shard's root, and every segment with records checks out. */
  lemma ShardExactly(h: Hash, decode: Decoder, p: Pack, info: ShardInfo, line: seq<Segment>)
    requires forall i, j :: 0 <= i < j < |line| ==> line[i].segment < line[j].segment
    requires multiset(line) == multiset(OfShard(p.segments, info.shard))
    ensures ShardOk(h, decode, p, info) <==>
      && |line| == info.segmentCount
      && (forall i :: 0 < i < |line| ==> line[i].chainBefore == line[i - 1].chainAfter)
      && TreeHash(h, Manifests(h, line)) == info.root
      && forall s :: s in p.segments && s.shard == info.shard ==> RecordsOk(h, decode, RecordMap(p.recordSets), s)
  {
    LineIsSorted(BySegment, line, OfShard(p.segments, info.shard));
    EveryRecord(h, decode, p, info.shard, line);
    assert SegmentsOf(p, info.shard) == line;
    hide SegmentsOf, RecordsOk, AllRecordsOk, RecordMap, TreeHash, OfShard, Manifests;
  }

  lemma EveryRecord(h: Hash, decode: Decoder, p: Pack, shard: u16, line: seq<Segment>)
    requires multiset(line) == multiset(OfShard(p.segments, shard))
    ensures AllRecordsOk(h, decode, RecordMap(p.recordSets), line, |line|)
       <==> forall s :: s in p.segments && s.shard == shard ==> RecordsOk(h, decode, RecordMap(p.recordSets), s)
  {
    hide RecordsOk, RecordMap, OfShard;
    forall s
      ensures s in line <==> s in p.segments && s.shard == shard
    {
      assert s in line <==> s in multiset(OfShard(p.segments, shard));
    }
  }

  /** The leaves under a store root, when no two shards have one number: the shards lined up by their numbers, each with
      the count of its segments and its root. */
  lemma StoreExactly(h: Hash, p: Pack, line: seq<ShardInfo>)
    requires forall i, j :: 0 <= i < j < |line| ==> line[i].shard < line[j].shard
    requires multiset(line) == multiset(p.shards)
    ensures |StoreEntries(h, p)| == |line|
    ensures forall i :: 0 <= i < |line| ==>
      StoreEntries(h, p)[i] == h(ShardPreimage(line[i].shard, |SegmentsOf(p, line[i].shard)|, line[i].root))
  {
    hide SegmentsOf, ShardPreimage;
    LineIsSorted(ByShard, line, p.shards);
  }

  /** A pack checks out exactly when no two record sets are for one segment, every segment names a shard of the list,
      the list is as long as the header says, every shard of it checks out, the tree over the list has the store root,
      and every anchor is over that root. */
  lemma PackExactly(h: Hash, decode: Decoder, p: Pack)
    ensures PackOk(h, decode, p) <==>
      && (forall i, j :: 0 <= i < |p.recordSets| && 0 <= j < |p.recordSets| && i != j ==>
            p.recordSets[i].shard != p.recordSets[j].shard || p.recordSets[i].segment != p.recordSets[j].segment)
      && (forall s :: s in p.segments ==> exists info :: info in p.shards && info.shard == s.shard)
      && |p.shards| == p.shardCount
      && (forall info :: info in p.shards ==> ShardOk(h, decode, p, info))
      && TreeHash(h, StoreEntries(h, p)) == p.storeRoot
      && forall anchor :: anchor in p.anchors ==> anchor == p.storeRoot
  {
    EveryShard(h, decode, p);
    EverySegmentListed(p);
    SetsDifferExactly(p.recordSets);
    EveryAnchor(p);
    hide ShardOk, AllShardsOk, TreeHash, StoreEntries, AllListed, SetsDiffer, AnchorsAgree;
  }

  lemma EveryShard(h: Hash, decode: Decoder, p: Pack)
    ensures AllShardsOk(h, decode, p, |p.shards|) <==> forall info :: info in p.shards ==> ShardOk(h, decode, p, info)
  {
    hide ShardOk;
    forall info
      ensures info in Sorted(ByShard, p.shards) <==> info in p.shards
    {
      SameMembers(ByShard, p.shards, info);
    }
    hide Sorted;
  }

  lemma EverySegmentListed(p: Pack)
    ensures AllListed(p, |p.segments|)
       <==> forall s :: s in p.segments ==> exists info :: info in p.shards && info.shard == s.shard
  {
    if AllListed(p, |p.segments|) {
      forall s | s in p.segments
        ensures exists info :: info in p.shards && info.shard == s.shard
      {
        var k :| 0 <= k < |p.segments| && p.segments[k] == s;
        assert Listed(p, p.segments[k]);
        var i :| 0 <= i < |p.shards| && p.shards[i].shard == s.shard;
        assert p.shards[i] in p.shards;
      }
    }
    if forall s :: s in p.segments ==> exists info :: info in p.shards && info.shard == s.shard {
      forall k | 0 <= k < |p.segments|
        ensures Listed(p, p.segments[k])
      {
        assert p.segments[k] in p.segments;
        var info :| info in p.shards && info.shard == p.segments[k].shard;
      }
    }
  }

  lemma EveryAnchor(p: Pack)
    ensures AnchorsAgree(p, |p.anchors|) <==> forall anchor :: anchor in p.anchors ==> anchor == p.storeRoot
  {
    if forall anchor :: anchor in p.anchors ==> anchor == p.storeRoot {
      assert forall i :: 0 <= i < |p.anchors| ==> p.anchors[i] in p.anchors;
    }
  }

  lemma SetsDifferExactly(sets: seq<RecordSet>)
    ensures SetsDiffer(sets) <==> forall i, j :: 0 <= i < |sets| && 0 <= j < |sets| && i != j ==>
      sets[i].shard != sets[j].shard || sets[i].segment != sets[j].segment
  {
    if SetsDiffer(sets) {
      forall i, j | 0 <= i < |sets| && 0 <= j < |sets| && i != j
        ensures sets[i].shard != sets[j].shard || sets[i].segment != sets[j].segment
      {
        assert if i < j then (sets[i].shard, sets[i].segment) != (sets[j].shard, sets[j].segment)
               else (sets[j].shard, sets[j].segment) != (sets[i].shard, sets[i].segment);
      }
    }
  }

  // ---------------------------------------------------------------------------
  // What a store root pins down
  // ---------------------------------------------------------------------------

  /** What checking the records of a segment hashes. */
  function RecordHashes(h: Hash, decode: Decoder, p: Pack, s: Segment): set<Bytes> {
    var records := RecordMap(p.recordSets);
    if (s.shard, s.segment) !in records then {}
    else
      var bodies := records[(s.shard, s.segment)];
      Hashed(h, Links(h, decode, s.chainBefore, bodies)) + ChainPreimages(h, decode, s.chainBefore, bodies)
  }

  function ShardHashes(h: Hash, decode: Decoder, p: Pack, info: ShardInfo): set<Bytes> {
    var segments := SegmentsOf(p, info.shard);
    Hashed(h, Manifests(h, segments))
    + (set s | s in segments :: ManifestPreimage(s))
    + (set s, x | s in segments && x in RecordHashes(h, decode, p, s) :: x)
  }

  /** Everything that is hashed on the way to the store root. */
  function PackHashes(h: Hash, decode: Decoder, p: Pack): set<Bytes> {
    Hashed(h, StoreEntries(h, p))
    + (set info | info in p.shards :: ShardPreimage(info.shard, |SegmentsOf(p, info.shard)|, info.root))
    + (set info, x | info in p.shards && x in ShardHashes(h, decode, p, info) :: x)
  }

  /** The manifests of a shard as they were sealed. */
  function SealedManifests(h: Hash, segments: seq<Segment>): (r: seq<Bytes>)
    ensures |r| == |segments|
    ensures forall i :: 0 <= i < |r| ==> r[i] == h(SealedPreimage(segments[i]))
  {
    seq(|segments|, i requires 0 <= i < |segments| => h(SealedPreimage(segments[i])))
  }

  /** A shard root that was sealed is the one the verifier computes if and only if every index name of the shard is
      ASCII, as long as no two of the strings hashed on either side collide. */
  lemma SealedRootAgrees(h: Hash, s: set<Bytes>, segments: seq<Segment>)
    requires CollisionFree(h, s)
    requires forall x :: x in segments ==> Read(x) && ManifestPreimage(x) in s && SealedPreimage(x) in s
    requires Hashed(h, Manifests(h, segments)) <= s && Hashed(h, SealedManifests(h, segments)) <= s
    ensures TreeHash(h, Manifests(h, segments)) == TreeHash(h, SealedManifests(h, segments))
       <==> forall x :: x in segments ==> AsciiNames(x.indexRoots)
  {
    forall x | x in segments
      ensures ManifestPreimage(x) == SealedPreimage(x) <==> AsciiNames(x.indexRoots)
    {
      SealedAgrees(x);
    }
    var a, b := Manifests(h, segments), SealedManifests(h, segments);
    hide ManifestPreimage, SealedPreimage, Read, AsciiNames, TreeHash, Hashed;
    if TreeHash(h, a) == TreeHash(h, b) {
      RootDecides(h, s, a, b);
      forall x | x in segments
        ensures AsciiNames(x.indexRoots)
      {
        var i :| 0 <= i < |segments| && segments[i] == x;
        assert a[i] == b[i];
        NoCollision(h, s, ManifestPreimage(x), SealedPreimage(x));
      }
    }
    if forall x :: x in segments ==> AsciiNames(x.indexRoots) {
      assert forall i :: 0 <= i < |segments| ==> segments[i] in segments && a[i] == b[i];
      assert a == b;
    }
  }

  lemma ManifestsDecide(h: Hash, s: set<Bytes>, a: seq<Segment>, b: seq<Segment>)
    requires CollisionFree(h, s)
    requires forall x :: x in a ==> Read(x) && ManifestPreimage(x) in s
    requires forall x :: x in b ==> Read(x) && ManifestPreimage(x) in s
    requires Manifests(h, a) == Manifests(h, b)
    ensures a == b
  {
    assert |a| == |b|;
    forall i | 0 <= i < |a|
      ensures a[i] == b[i]
    {
      assert Manifests(h, a)[i] == Manifests(h, b)[i];
      hide ManifestPreimage, Read, CollisionFree;
      NoCollision(h, s, ManifestPreimage(a[i]), ManifestPreimage(b[i]));
      ManifestPreimageDecides(a[i], b[i]);
    }
  }

  /** Equal store roots: the same shards, each with the same root and the same number of segments. */
  lemma RootDecidesShards(h: Hash, decode: Decoder, s: set<Bytes>, p: Pack, q: Pack)
    requires CollisionFree(h, s) && PackHashes(h, decode, p) <= s && PackHashes(h, decode, q) <= s
    requires PackRead(p) && PackRead(q) && PackOk(h, decode, p) && PackOk(h, decode, q)
    requires p.storeRoot == q.storeRoot
    ensures Sorted(ByShard, p.shards) == Sorted(ByShard, q.shards)
  {
    var a, b := Sorted(ByShard, p.shards), Sorted(ByShard, q.shards);
    assert Hashed(h, StoreEntries(h, p)) <= s && Hashed(h, StoreEntries(h, q)) <= s;
    RootDecides(h, s, StoreEntries(h, p), StoreEntries(h, q));
    assert |a| == |b|;
    forall i | 0 <= i < |a|
      ensures a[i] == b[i]
    {
      SameMembers(ByShard, p.shards, a[i]);
      SameMembers(ByShard, q.shards, b[i]);
      var x := ShardPreimage(a[i].shard, |SegmentsOf(p, a[i].shard)|, a[i].root);
      var y := ShardPreimage(b[i].shard, |SegmentsOf(q, b[i].shard)|, b[i].root);
      assert x in PackHashes(h, decode, p) && y in PackHashes(h, decode, q);
      assert ShardOk(h, decode, p, a[i]) && ShardOk(h, decode, q, b[i]);
      assert StoreEntries(h, p)[i] == h(x) && StoreEntries(h, q)[i] == h(y);
      hide ShardPreimage, CollisionFree, SegmentsOf, PackHashes;
      NoCollision(h, s, x, y);
      ShardPreimageDecides(a[i].shard, a[i].segmentCount, a[i].root, b[i].shard, b[i].segmentCount, b[i].root);
    }
  }

  lemma ShardHashesIncluded(h: Hash, decode: Decoder, p: Pack, info: ShardInfo)
    requires info in p.shards
    ensures ShardHashes(h, decode, p, info) <= PackHashes(h, decode, p)
  {
    forall x | x in ShardHashes(h, decode, p, info)
      ensures x in PackHashes(h, decode, p)
    {
    }
  }

  lemma RecordHashesIncluded(h: Hash, decode: Decoder, p: Pack, info: ShardInfo, seg: Segment)
    requires seg in SegmentsOf(p, info.shard)
    ensures ManifestPreimage(seg) in ShardHashes(h, decode, p, info)
    ensures RecordHashes(h, decode, p, seg) <= ShardHashes(h, decode, p, info)
  {
    forall x | x in RecordHashes(h, decode, p, seg)
      ensures x in ShardHashes(h, decode, p, info)
    {
    }
  }

  lemma SegmentsAreRead(p: Pack, shard: u16)
    requires PackRead(p)
    ensures forall s :: s in SegmentsOf(p, shard) ==> Read(s) && s.shard == shard
  {
    forall s | s in SegmentsOf(p, shard)
      ensures Read(s) && s.shard == shard
    {
      SameMembers(BySegment, OfShard(p.segments, shard), s);
    }
  }

  /** A shard root pins down the manifests of its segments. */
  lemma ShardDecides(h: Hash, decode: Decoder, s: set<Bytes>, p: Pack, q: Pack, info: ShardInfo)
    requires CollisionFree(h, s) && PackRead(p) && PackRead(q)
    requires ShardHashes(h, decode, p, info) <= s && ShardHashes(h, decode, q, info) <= s
    requires ShardOk(h, decode, p, info) && ShardOk(h, decode, q, info)
    ensures SegmentsOf(p, info.shard) == SegmentsOf(q, info.shard)
  {
    var a, b := SegmentsOf(p, info.shard), SegmentsOf(q, info.shard);
    assert Hashed(h, Manifests(h, a)) <= s && Hashed(h, Manifests(h, b)) <= s;
    RootDecides(h, s, Manifests(h, a), Manifests(h, b));
    SegmentsAreRead(p, info.shard);
    SegmentsAreRead(q, info.shard);
    hide ShardOk, SegmentsOf, Read, ManifestPreimage, CollisionFree, ShardHashes;
    forall x | x in a
      ensures ManifestPreimage(x) in s
    {
      RecordHashesIncluded(h, decode, p, info, x);
    }
    forall x | x in b
      ensures ManifestPreimage(x) in s
    {
      RecordHashesIncluded(h, decode, q, info, x);
    }
    ManifestsDecide(h, s, a, b);
  }

  predicate HasRecords(p: Pack, s: Segment) {
    (s.shard, s.segment) in RecordMap(p.recordSets)
  }

  function RecordsOf(p: Pack, s: Segment): seq<Bytes>
    requires HasRecords(p, s)
  {
    RecordMap(p.recordSets)[(s.shard, s.segment)]
  }

  /** A manifest pins down the bodies of the records under it. */
  lemma SegmentDecides(h: Hash, decode: Decoder, s: set<Bytes>, seg: Segment, x: seq<Bytes>, y: seq<Bytes>)
    requires CollisionFree(h, s) && SegmentOk(h, decode, seg, x) && SegmentOk(h, decode, seg, y)
    requires Hashed(h, Links(h, decode, seg.chainBefore, x)) + ChainPreimages(h, decode, seg.chainBefore, x) <= s
    requires Hashed(h, Links(h, decode, seg.chainBefore, y)) + ChainPreimages(h, decode, seg.chainBefore, y) <= s
    ensures x == y
  {
    hide Hashed, ChainPreimages, Links, Head, IndexOk, CollisionFree;
    RootDecides(h, s, Links(h, decode, seg.chainBefore, x), Links(h, decode, seg.chainBefore, y));
    LinksDecide(h, decode, s, seg.chainBefore, x, seg.chainBefore, y);
  }

  /** Two packs agree on one shard: on its segments, and on the records of each that both carry. */
  ghost predicate AgreeOnShard(p: Pack, q: Pack, shard: u16) {
    && SegmentsOf(p, shard) == SegmentsOf(q, shard)
    && forall s :: s in SegmentsOf(p, shard) && HasRecords(p, s) && HasRecords(q, s) ==>
         RecordsOf(p, s) == RecordsOf(q, s)
  }

  lemma ShardAgrees(h: Hash, decode: Decoder, s: set<Bytes>, p: Pack, q: Pack, info: ShardInfo)
    requires CollisionFree(h, s) && PackRead(p) && PackRead(q)
    requires ShardHashes(h, decode, p, info) <= s && ShardHashes(h, decode, q, info) <= s
    requires ShardOk(h, decode, p, info) && ShardOk(h, decode, q, info)
    ensures AgreeOnShard(p, q, info.shard)
  {
    ShardDecides(h, decode, s, p, q, info);
    var segments := SegmentsOf(p, info.shard);
    forall seg | seg in segments && HasRecords(p, seg) && HasRecords(q, seg)
      ensures RecordsOf(p, seg) == RecordsOf(q, seg)
    {
      var i :| 0 <= i < |segments| && segments[i] == seg;
      assert RecordsOk(h, decode, RecordMap(p.recordSets), segments[i]);
      assert RecordsOk(h, decode, RecordMap(q.recordSets), segments[i]);
      RecordHashesIncluded(h, decode, p, info, seg);
      RecordHashesIncluded(h, decode, q, info, seg);
      hide ShardOk, SegmentsOf, SegmentOk, ShardHashes, RecordMap, CollisionFree;
      SegmentDecides(h, decode, s, seg, RecordsOf(p, seg), RecordsOf(q, seg));
    }
  }

  lemma ShardIsOk(h: Hash, decode: Decoder, p: Pack, info: ShardInfo)
    requires PackOk(h, decode, p) && info in Sorted(ByShard, p.shards)
    ensures info in p.shards && ShardOk(h, decode, p, info)
  {
    SameMembers(ByShard, p.shards, info);
    var i :| 0 <= i < |p.shards| && Sorted(ByShard, p.shards)[i] == info;
    assert ShardOk(h, decode, p, Sorted(ByShard, p.shards)[i]);
  }

  /** Two verified packs with one store root hold the same shards, the same manifests in the same order, and the same
      record bodies in the same order, or two of the strings that were hashed share a digest. */
  lemma StoreRootDecides(h: Hash, decode: Decoder, p: Pack, q: Pack)
    requires PackRead(p) && PackRead(q) && PackOk(h, decode, p) && PackOk(h, decode, q)
    requires p.storeRoot == q.storeRoot
    ensures
      || (Sorted(ByShard, p.shards) == Sorted(ByShard, q.shards)
          && forall info :: info in p.shards ==> AgreeOnShard(p, q, info.shard))
      || !CollisionFree(h, PackHashes(h, decode, p) + PackHashes(h, decode, q))
  {
    var s := PackHashes(h, decode, p) + PackHashes(h, decode, q);
    if CollisionFree(h, s) {
      RootDecidesShards(h, decode, s, p, q);
      forall info | info in p.shards
        ensures AgreeOnShard(p, q, info.shard)
      {
        SameMembers(ByShard, p.shards, info);
        hide *;
        ShardIsOk(h, decode, p, info);
        ShardIsOk(h, decode, q, info);
        ShardHashesIncluded(h, decode, p, info);
        ShardHashesIncluded(h, decode, q, info);
        ShardAgrees(h, decode, s, p, q, info);
      }
    }
  }

  // ---------------------------------------------------------------------------
  // Record sets nobody walks to
  // ---------------------------------------------------------------------------

  /** No segment is the one the record set names. */
  predicate Orphan(p: Pack, rs: RecordSet) {
    forall i :: 0 <= i < |p.segments| ==> (p.segments[i].shard, p.segments[i].segment) != (rs.shard, rs.segment)
  }

  lemma {:induction false} RecordMapKeys(sets: seq<RecordSet>, key: (u16, u64))
    ensures key in RecordMap(sets) <==> exists i :: 0 <= i < |sets| && (sets[i].shard, sets[i].segment) == key
  {
    if sets != [] {
      RecordMapKeys(sets[..|sets| - 1], key);
    }
  }

  lemma OrphanLeavesShard(h: Hash, decode: Decoder, p: Pack, rs: RecordSet, info: ShardInfo)
    requires ShardOk(h, decode, p, info) && Orphan(p, rs)
    ensures ShardOk(h, decode, p.(recordSets := p.recordSets + [rs]), info)
  {
    var q := p.(recordSets := p.recordSets + [rs]);
    assert q.recordSets[..|q.recordSets| - 1] == p.recordSets;
    assert RecordMap(q.recordSets) == RecordMap(p.recordSets)[(rs.shard, rs.segment) := rs.records];
    var segments := SegmentsOf(p, info.shard);
    assert SegmentsOf(q, info.shard) == segments;
    assert AllRecordsOk(h, decode, RecordMap(p.recordSets), segments, |segments|);
    hide SegmentOk, RecordMap;
    forall j | 0 <= j < |segments|
      ensures RecordsOk(h, decode, RecordMap(q.recordSets), segments[j])
    {
      SameMembers(BySegment, OfShard(p.segments, info.shard), segments[j]);
      assert RecordsOk(h, decode, RecordMap(p.recordSets), segments[j]);
    }
  }

  lemma OrphanSetsDiffer(sets: seq<RecordSet>, rs: RecordSet)
    requires SetsDiffer(sets) && (rs.shard, rs.segment) !in RecordMap(sets)
    ensures SetsDiffer(sets + [rs])
  {
    RecordMapKeys(sets, (rs.shard, rs.segment));
  }

  lemma OrphanLeavesRest(h: Hash, p: Pack, rs: RecordSet)
    requires AllListed(p, |p.segments|)
    ensures var q := p.(recordSets := p.recordSets + [rs]);
      AllListed(q, |q.segments|) && StoreEntries(h, q) == StoreEntries(h, p)
  {
    var q := p.(recordSets := p.recordSets + [rs]);
    assert StoreEntries(h, q) == StoreEntries(h, p);
    forall i | 0 <= i < |q.segments|
      ensures Listed(q, q.segments[i])
    {
      assert Listed(p, p.segments[i]);
    }
  }

  /** A record set that names no segment changes no check: a verified pack stays verified with one added, and its
      store root says nothing about it. */
  lemma OrphanRecordsPass(h: Hash, decode: Decoder, p: Pack, rs: RecordSet)
    requires PackOk(h, decode, p) && Orphan(p, rs) && (rs.shard, rs.segment) !in RecordMap(p.recordSets)
    ensures PackOk(h, decode, p.(recordSets := p.recordSets + [rs]))
  {
    var q := p.(recordSets := p.recordSets + [rs]);
    hide ShardOk, TreeHash, StoreEntries, RecordMap, Orphan, SetsDiffer, AllListed;
    OrphanSetsDiffer(p.recordSets, rs);
    OrphanLeavesRest(h, p, rs);
    forall i | 0 <= i < |p.shards|
      ensures ShardOk(h, decode, q, Sorted(ByShard, p.shards)[i])
    {
      OrphanLeavesShard(h, decode, p, rs, Sorted(ByShard, p.shards)[i]);
    }
  }

  /** The records of a pack under a segment of it. */
  ghost predicate Reached(p: Pack, key: (u16, u64)) {
    exists i :: 0 <= i < |p.segments| && (p.segments[i].shard, p.segments[i].segment) == key
  }

  lemma ReachedAgrees(p: Pack, q: Pack, key: (u16, u64))
    requires AllListed(p, |p.segments|)
    requires forall info :: info in p.shards ==> AgreeOnShard(p, q, info.shard)
    requires Reached(p, key) && key in RecordMap(p.recordSets) && key in RecordMap(q.recordSets)
    ensures RecordMap(p.recordSets)[key] == RecordMap(q.recordSets)[key]
  {
    var i :| 0 <= i < |p.segments| && (p.segments[i].shard, p.segments[i].segment) == key;
    var seg := p.segments[i];
    assert Listed(p, seg);
    var j :| 0 <= j < |p.shards| && p.shards[j].shard == seg.shard;
    assert p.shards[j] in p.shards;
    assert AgreeOnShard(p, q, seg.shard);
    SameMembers(BySegment, OfShard(p.segments, seg.shard), seg);
    hide Sorted, OfShard, RecordMap;
    assert RecordsOf(p, seg) == RecordsOf(q, seg);
  }

  /** Two packs that agree shard by shard carry the same records exactly when they carry the same orphans and have
      records for the same segments. */
  lemma RecordsAgreeExactly(p: Pack, q: Pack)
    requires AllListed(p, |p.segments|)
    requires forall info :: info in p.shards ==> AgreeOnShard(p, q, info.shard)
    ensures var a, b := RecordMap(p.recordSets), RecordMap(q.recordSets);
      a == b <==>
        && a.Keys == b.Keys
        && forall key :: key in a && key in b && !Reached(p, key) ==> a[key] == b[key]
  {
    var a, b := RecordMap(p.recordSets), RecordMap(q.recordSets);
    hide RecordMap, AgreeOnShard, Listed, Reached;
    if a.Keys == b.Keys && forall key :: key in a && key in b && !Reached(p, key) ==> a[key] == b[key] {
      forall key | key in a
        ensures a[key] == b[key]
      {
        if Reached(p, key) {
          ReachedAgrees(p, q, key);
        }
      }
    }
  }
}
