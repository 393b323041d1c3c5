/** Streaming hashing: block buffers that give the one-shot digest of section 6 of FIPS 180-4 however the message is
    cut up, and the keyed hash built on them. The compression functions and initial values are parameters. */
module Hashing {
  import opened Words

  // ---------------------------------------------------------------------------
  // The one-shot digest
  // ---------------------------------------------------------------------------

  /** Fold a compression function over whole blocks; what does not fill one is not looked at. */
  function Fold<S>(f: (S, Bytes) -> S, block: nat, s: S, data: Bytes): S
    requires block > 0
    decreases |data|
  {
    if |data| < block then s else Fold(f, block, f(s, data[..block]), data[block..])
  }

  predicate Whole(block: nat, data: Bytes)
    requires block > 0
    decreases |data|
  {
    data == [] || (|data| >= block && Whole(block, data[block..]))
  }

  lemma {:induction false} FoldAppend<S>(f: (S, Bytes) -> S, block: nat, s: S, a: Bytes, b: Bytes)
    requires block > 0 && Whole(block, a)
    ensures Fold(f, block, s, a + b) == Fold(f, block, Fold(f, block, s, a), b)
    decreases |a|
  {
    if a == [] {
      assert a + b == b;
    } else {
      FoldAppend(f, block, f(s, a[..block]), a[block..], b);
      assert (a + b)[..block] == a[..block];
      assert (a + b)[block..] == a[block..] + b;
    }
  }

  lemma {:induction false} WholeAppend(block: nat, a: Bytes, b: Bytes)
    requires block > 0 && Whole(block, a) && Whole(block, b)
    ensures Whole(block, a + b)
    decreases |a|
  {
    if a == [] {
      assert a + b == b;
    } else {
      WholeAppend(block, a[block..], b);
      assert (a + b)[block..] == a[block..] + b;
    }
  }

  /** One block more. */
  lemma FoldBlock<S>(f: (S, Bytes) -> S, block: nat, s: S, a: Bytes, b: Bytes)
    requires block > 0 && Whole(block, a) && |b| == block
    ensures Whole(block, a + b) && Fold(f, block, s, a + b) == f(Fold(f, block, s, a), b)
  {
    assert b[..block] == b && b[block..] == [];
    FoldAppend(f, block, s, a, b);
    WholeAppend(block, a, b);
  }

  function Zeros(n: nat): (r: Bytes)
    ensures |r| == n
  {
    seq(n, _ => 0)
  }

  /** The message, one set bit, zeros, and the length in bits: sections 5.1.1 and 5.1.2. */
  function Padded(message: Bytes, zeros: nat, width: nat): Bytes {
    message + [0x80] + Zeros(zeros) + BeBytes(8 * |message|, width)
  }

  /** Blocks of 128 bytes, a length of 16. */
  function Padded128(message: Bytes): Bytes {
    Padded(message, (111 - |message|) % 128, 16)
  }

  /** Blocks of 64 bytes, a length of 8. */
  function Padded64(message: Bytes): Bytes {
    Padded(message, (55 - |message|) % 64, 8)
  }

  lemma {:induction false} WholeByLength(block: nat, data: Bytes)
    requires block == 64 || block == 128
    ensures Whole(block, data) <==> |data| % block == 0
    decreases |data|
  {
    if |data| >= block {
      WholeByLength(block, data[block..]);
    }
  }

  lemma PaddedDecides(a: Bytes, m: nat, b: Bytes, n: nat, width: nat)
    requires 8 * |a| < BytePow(width) && 8 * |b| < BytePow(width)
    requires Padded(a, m, width) == Padded(b, n, width)
    ensures a == b
  {
    hide BeBytes, Zeros, BytePow;
    var x, y := a + [0x80] + Zeros(m), b + [0x80] + Zeros(n);
    assert |x| == |y|;
    SplitEqual(x, y, BeBytes(8 * |a|, width), BeBytes(8 * |b|, width));
    BeBytesInjective(8 * |a|, 8 * |b|, width);
    assert a == x[..|a|] && b == y[..|b|];
  }

  lemma Zeros128(n: nat)
    ensures (n + 1 + (111 - n) % 128 + 16) % 128 == 0 && 0 <= (111 - n) % 128 < 128
  {
    var q := n / 128;
    assert n == 128 * q + n % 128;
  }

  lemma Zeros64(n: nat)
    ensures (n + 1 + (55 - n) % 64 + 8) % 64 == 0 && 0 <= (55 - n) % 64 < 64
  {
    var q := n / 64;
    assert n == 64 * q + n % 64;
  }

  /** Padding fills blocks, with fewer zeros than a block has bytes. */
  lemma PaddingFits(a: Bytes)
    ensures Whole(128, Padded128(a)) && |Padded128(a)| < |a| + 17 + 128
    ensures Whole(64, Padded64(a)) && |Padded64(a)| < |a| + 9 + 64
  {
    Zeros128(|a|);
    Zeros64(|a|);
    assert |Padded128(a)| == |a| + 1 + (111 - |a|) % 128 + 16;
    assert |Padded64(a)| == |a| + 1 + (55 - |a|) % 64 + 8;
    hide *;
    WholeByLength(128, Padded128(a));
    WholeByLength(64, Padded64(a));
  }

  /** Within the range of the length field, no two messages are padded to the same string: nothing is confused before
      it is hashed. */
  lemma PaddingDecides(a: Bytes, b: Bytes)
    ensures 8 * |a| < BytePow(16) && 8 * |b| < BytePow(16) && Padded128(a) == Padded128(b) ==> a == b
    ensures 8 * |a| < BytePow(8) && 8 * |b| < BytePow(8) && Padded64(a) == Padded64(b) ==> a == b
  {
    hide Padded, BytePow;
    if 8 * |a| < BytePow(16) && 8 * |b| < BytePow(16) && Padded128(a) == Padded128(b) {
      PaddedDecides(a, (111 - |a|) % 128, b, (111 - |b|) % 128, 16);
    }
    if 8 * |a| < BytePow(8) && 8 * |b| < BytePow(8) && Padded64(a) == Padded64(b) {
      PaddedDecides(a, (55 - |a|) % 64, b, (55 - |b|) % 64, 8);
    }
  }

  /** A padded message by the places of its bytes: the message, the octet 0x80, zeros, and in the last `width` bytes
      how many bits the message has. */
  ghost predicate PaddedShape(x: Bytes, message: Bytes, block: nat, width: nat)
    requires block > 0
  {
    var n := |message|;
    && |x| % block == 0 && n + 1 + width <= |x| < n + 1 + width + block
    && x[..n] == message && x[n] == 0x80 && BigEndian(x[|x| - width..]) == 8 * n
    && forall i :: n < i < |x| - width ==> x[i] == 0
  }

  lemma PaddedLayout(message: Bytes)
    ensures 8 * |message| < BytePow(16) ==> PaddedShape(Padded128(message), message, 128, 16)
    ensures 8 * |message| < BytePow(8) ==> PaddedShape(Padded64(message), message, 64, 8)
  {
    hide *;
    var many, few := Fillings(message);
    if 8 * |message| < BytePow(16) {
      PaddedHasShape(message, many, 16, 128);
    }
    if 8 * |message| < BytePow(8) {
      PaddedHasShape(message, few, 8, 64);
    }
  }

  lemma Fillings(message: Bytes) returns (many: nat, few: nat)
    ensures Padded128(message) == Padded(message, many, 16) && many < 128 && (|message| + 1 + many + 16) % 128 == 0
    ensures Padded64(message) == Padded(message, few, 8) && few < 64 && (|message| + 1 + few + 8) % 64 == 0
  {
    Zeros128(|message|);
    Zeros64(|message|);
    hide Padded;
    many, few := (111 - |message|) % 128, (55 - |message|) % 64;
  }

  lemma PaddedHasShape(message: Bytes, zeros: nat, width: nat, block: nat)
    requires 8 * |message| < BytePow(width) && zeros < block && (|message| + 1 + zeros + width) % block == 0
    ensures PaddedShape(Padded(message, zeros, width), message, block, width)
  {
    BeBytesValue(8 * |message|, width);
    hide BytePow, BigEndian, BeBytes, Zeros;
    PaddedPlaces(message, zeros, BeBytes(8 * |message|, width));
  }

  lemma PaddedPlaces(message: Bytes, zeros: nat, tail: Bytes)
    ensures var x, n := message + [0x80] + Zeros(zeros) + tail, |message|;
      && |x| == n + 1 + zeros + |tail| && x[..n] == message && x[n] == 0x80 && x[|x| - |tail|..] == tail
      && forall i :: n < i < |x| - |tail| ==> x[i] == 0
  {
  }

  function Concat(chunks: seq<Bytes>): Bytes {
    if chunks == [] then [] else Concat(chunks[..|chunks| - 1]) + chunks[|chunks| - 1]
  }

  function WordBytes(words: seq<u64>, width: nat): Bytes {
    if words == [] then [] else WordBytes(words[..|words| - 1], width) + BeBytes(words[|words| - 1], width)
  }

  /** The words of a digest stand in it in their order, each in its width, the greatest byte first. */
  lemma {:induction false} WordAt(words: seq<u64>, width: nat, i: nat)
    requires i < |words| && words[i] < BytePow(width)
    ensures 0 <= width * i <= width * i + width <= |WordBytes(words, width)| == width * |words|
    ensures BigEndian(WordBytes(words, width)[width * i..width * i + width]) == words[i]
  {
    var last := |words| - 1;
    var front, back := WordBytes(words[..last], width), BeBytes(words[last], width);
    assert WordBytes(words, width) == front + back;
    WordBytesLength(words, width);
    WordBytesLength(words[..last], width);
    WordPlace(i, |words|, width);
    if i < last {
      WordAt(words[..last], width, i);
      hide *;
      SliceOfFront(front, back, width * i, width * i + width);
    } else {
      BeBytesValue(words[i], width);
      hide *;
      SliceOfBack(front, back);
    }
  }

  lemma WordPlace(i: nat, n: nat, width: nat)
    requires i < n
    ensures width * i + width <= width * n && (i < n - 1 ==> width * i + width <= width * (n - 1))
    ensures width * (n - 1) + width == width * n && 0 <= width * i
  {
    MulMono(i + 1, n, width);
    if i < n - 1 {
      MulMono(i + 1, n - 1, width);
    }
  }

  lemma SliceOfFront(a: Bytes, b: Bytes, lo: nat, hi: nat)
    requires lo <= hi <= |a|
    ensures (a + b)[lo..hi] == a[lo..hi]
  {
  }

  lemma SliceOfBack(a: Bytes, b: Bytes)
    ensures (a + b)[|a|..|a| + |b|] == b
  {
  }

  lemma {:induction false} WordBytesLength(words: seq<u64>, width: nat)
    ensures |WordBytes(words, width)| == width * |words|
  {
    if words != [] {
      WordBytesLength(words[..|words| - 1], width);
      assert width * |words| == width * (|words| - 1) + width;
    }
  }

  type State = s: seq<u64> | |s| == 8 witness seq(8, _ => 0)
  type Compress = (State, Bytes) -> State

  function Digest384(f: Compress, iv: State, message: Bytes): Bytes {
    WordBytes(Fold(f, 128, iv, Padded128(message))[..6], 8)
  }

  function Digest256(f: Compress, iv: State, message: Bytes): Bytes {
    WordBytes(Fold(f, 64, iv, Padded64(message)), 4)
  }

  lemma Joined(s: Bytes, a: Bytes, b: Bytes)
    requires |s| == |a| + |b|
    requires (forall i :: 0 <= i < |a| ==> s[i] == a[i]) && forall i :: 0 <= i < |b| ==> s[|a| + i] == b[i]
    ensures s == a + b
  {
  }

  // ---------------------------------------------------------------------------
  // The block buffer
  // ---------------------------------------------------------------------------

  /** What a hasher is after some bytes: the state over the whole blocks, and the rest in the buffer. */
  ghost predicate Holds(f: Compress, block: nat, iv: State, fed: Bytes, h: State, buffered: Bytes)
    requires block > 0
  {
    && |buffered| <= |fed| && fed == fed[..|fed| - |buffered|] + buffered
    && Whole(block, fed[..|fed| - |buffered|])
    && h == Fold(f, block, iv, fed[..|fed| - |buffered|])
  }

  lemma HoldsNothing(f: Compress, block: nat, iv: State)
    requires block > 0
    ensures Holds(f, block, iv, [], iv, [])
  {
  }

  /** Buffering more. */
  lemma HoldsMore(f: Compress, block: nat, iv: State, fed: Bytes, h: State, buffered: Bytes, data: Bytes)
    requires block > 0 && Holds(f, block, iv, fed, h, buffered)
    ensures Holds(f, block, iv, fed + data, h, buffered + data)
  {
    var k := |fed| - |buffered|;
    assert (fed + data)[..k] == fed[..k];
    assert fed[..k] + buffered + data == fed[..k] + (buffered + data);
  }

  /** Compressing a full buffer. */
  lemma HoldsBlock(f: Compress, block: nat, iv: State, fed: Bytes, h: State, buffered: Bytes)
    requires block > 0 && Holds(f, block, iv, fed, h, buffered) && |buffered| == block
    ensures Holds(f, block, iv, fed, f(h, buffered), [])
  {
    FoldBlock(f, block, iv, fed[..|fed| - block], buffered);
    assert fed[..|fed|] == fed && fed + [] == fed;
  }

  /** With nothing buffered, the state is the fold of everything. */
  lemma HoldsAll(f: Compress, block: nat, iv: State, fed: Bytes, h: State)
    requires block > 0 && Holds(f, block, iv, fed, h, [])
    ensures Whole(block, fed) && h == Fold(f, block, iv, fed)
  {
    assert fed[..|fed|] == fed;
  }

  /** How much is buffered. */
  lemma HoldsLength(f: Compress, block: nat, iv: State, fed: Bytes, h: State, buffered: Bytes)
    requires (block == 64 || block == 128) && Holds(f, block, iv, fed, h, buffered) && |buffered| < block
    ensures |buffered| == |fed| % block
  {
    WholeByLength(block, fed[..|fed| - |buffered|]);
  }

  /** Remainders by their quotient. */
  lemma Remainder128(x: int, q: int)
    requires 128 * q <= x < 128 * q + 128
    ensures x % 128 == x - 128 * q
  {
  }

  lemma Remainder64(x: int, q: int)
    requires 64 * q <= x < 64 * q + 64
    ensures x % 64 == x - 64 * q
  {
  }

  /** Where the zeros stop. */
  lemma ZerosStop128(n: nat, k: nat)
    requires k <= (111 - n) % 128
    ensures (n + 1 + k) % 128 == 112 <==> k == (111 - n) % 128
  {
    var q := n / 128;
    var r := n - 128 * q;
    assert 0 <= r < 128;
    if r <= 111 {
      Remainder128(111 - n, -q);
      Remainder128(n + 1 + k, q);
    } else {
      Remainder128(111 - n, -q - 1);
      if r + 1 + k < 128 {
        Remainder128(n + 1 + k, q);
      } else {
        Remainder128(n + 1 + k, q + 1);
      }
    }
  }

  lemma ZerosStop64(n: nat, k: nat)
    requires k <= (55 - n) % 64
    ensures (n + 1 + k) % 64 == 56 <==> k == (55 - n) % 64
  {
    var q := n / 64;
    var r := n - 64 * q;
    assert 0 <= r < 64;
    if r <= 55 {
      Remainder64(55 - n, -q);
      Remainder64(n + 1 + k, q);
    } else {
      Remainder64(55 - n, -q - 1);
      if r + 1 + k < 64 {
        Remainder64(n + 1 + k, q);
      } else {
        Remainder64(n + 1 + k, q + 1);
      }
    }
  }

  lemma OneMoreZero(message: Bytes, k: nat)
    ensures message + [0x80] + Zeros(0) == message + [0x80]
    ensures message + [0x80] + Zeros(k) + [0x00] == message + [0x80] + Zeros(k + 1)
  {
    assert Zeros(k) + [0x00] == Zeros(k + 1);
  }

  // ---------------------------------------------------------------------------
  // SHA-384
  // ---------------------------------------------------------------------------

  class Sha384 {
    const compress: Compress
    const iv: State
    var h: State
    const buf: array<u8>
    var bufLen: nat
    var totalBytes: nat
    /** Everything that went in. */
    ghost var fed: Bytes

    /** The buffer may be full here. */
    ghost predicate Loaded()
      reads this, buf
    {
      buf.Length == 128 && bufLen <= 128 && Holds(compress, 128, iv, fed, h, buf[..bufLen])
    }

    ghost predicate Valid()
      reads this, buf
    {
      Loaded() && bufLen < 128
    }

    constructor (compress: Compress, iv: State)
      ensures Valid() && fed == [] && totalBytes == 0 && fresh(buf)
      ensures this.compress == compress && this.iv == iv
    {
      this.compress, this.iv, h := compress, iv, iv;
      buf := new u8[128](_ => 0);
      bufLen, totalBytes, fed := 0, 0, [];
      new;
      HoldsNothing(compress, 128, iv);
      assert buf[..0] == [];
    }

    /** Copy into the buffer. */
    method Store(data: Bytes)
      requires Loaded() && bufLen + |data| <= 128
      modifies this`bufLen, this`fed, buf
      ensures Loaded() && bufLen == old(bufLen) + |data| && fed == old(fed) + data
    {
      hide Holds;
      HoldsMore(compress, 128, iv, fed, h, buf[..bufLen], data);
      ghost var before := buf[..bufLen];
      forall i | 0 <= i < |data| {
        buf[bufLen + i] := data[i];
      }
      bufLen := bufLen + |data|;
      fed := fed + data;
      Joined(buf[..bufLen], before, data);
    }

    /** Compress a full buffer. */
    method Flush()
      requires Loaded() && bufLen == 128
      modifies this`h, this`bufLen
      ensures Valid() && bufLen == 0
    {
      HoldsBlock(compress, 128, iv, fed, h, buf[..bufLen]);
      h := compress(h, buf[..128]);
      bufLen := 0;
      assert buf[..0] == [];
    }

    /** The first part of `update`: fill up a buffer that was started. */
    method TopUp(data: Bytes) returns (taken: nat)
      requires Valid()
      modifies this`h, this`bufLen, this`fed, buf
      ensures Valid() && taken <= |data| && fed == old(fed) + data[..taken]
      ensures taken < |data| ==> bufLen == 0
    {
      hide Holds;
      taken := 0;
      if bufLen > 0 {
        var need := 128 - bufLen;
        taken := if need < |data| then need else |data|;
        Store(data[..taken]);
        if bufLen == 128 {
          Flush();
        }
      }
    }

    /** Compress a block straight from the message. */
    method Direct(block: Bytes)
      requires Valid() && bufLen == 0 && |block| == 128
      modifies this`h, this`fed
      ensures Valid() && fed == old(fed) + block
    {
      assert buf[..0] == [];
      assert [] + block == block;
      HoldsMore(compress, 128, iv, fed, h, [], block);
      HoldsBlock(compress, 128, iv, fed + block, h, block);
      h := compress(h, block);
      fed := fed + block;
    }

    /** `update`. */
    method Update(data: Bytes)
      requires Valid()
      modifies this, buf
      ensures Valid() && fed == old(fed) + data && totalBytes == old(totalBytes) + |data|
    {
      hide Holds;
      totalBytes := totalBytes + |data|;
      var taken := TopUp(data);
      var rest := data[taken..];
      ghost var done := taken;
      while |rest| >= 128
        invariant Valid() && taken <= done <= |data| && rest == data[done..]
        invariant fed == old(fed) + data[..done] && (rest != [] ==> bufLen == 0)
        invariant totalBytes == old(totalBytes) + |data|
      {
        Direct(rest[..128]);
        assert data[..done] + rest[..128] == data[..done + 128];
        rest := rest[128..];
        done := done + 128;
      }
      assert data[..done] + rest == data;
      if rest != [] {
        StoreTail(rest);
      } else {
        assert fed == old(fed) + data;
      }
    }

    /** The last part of `update`. */
    method StoreTail(rest: Bytes)
      requires Valid() && bufLen == 0 && |rest| < 128
      modifies this`bufLen, this`fed, buf
      ensures Valid() && bufLen == |rest| && fed == old(fed) + rest
    {
      hide Holds;
      Store(rest);
    }

    lemma Buffered()
      requires Valid()
      ensures bufLen == |fed| % 128
    {
      HoldsLength(compress, 128, iv, fed, h, buf[..bufLen]);
    }

    /** The zeros of `finish`. */
    method PadZeros(ghost message: Bytes)
      requires Valid() && fed == message + [0x80]
      modifies this, buf
      ensures Valid() && fed == message + [0x80] + Zeros((111 - |message|) % 128)
      ensures bufLen == 112 && totalBytes == old(totalBytes)
    {
      hide Holds, Zeros;
      ghost var k := 0;
      OneMoreZero(message, 0);
      while bufLen != 112
        invariant Valid() && k <= (111 - |message|) % 128 && fed == message + [0x80] + Zeros(k)
        invariant totalBytes == old(totalBytes)
        decreases (111 - |message|) % 128 - k
      {
        Buffered();
        ZerosStop128(|message|, k);
        OneMoreZero(message, k);
        Update([0x00]);
        totalBytes := totalBytes - 1;
        k := k + 1;
      }
      Buffered();
      ZerosStop128(|message|, k);
    }

    /** With the padding in, nothing is buffered and the state is the fold of all of it. */
    lemma Complete(message: Bytes)
      requires Valid() && fed == Padded128(message)
      ensures bufLen == 0 && h == Fold(compress, 128, iv, fed)
    {
      PaddingFits(message);
      WholeByLength(128, fed);
      HoldsLength(compress, 128, iv, fed, h, buf[..bufLen]);
      assert buf[..0] == [];
      HoldsAll(compress, 128, iv, fed, h);
    }

    /** `finish`: pad, and write out six of the eight words. */
    method Finish() returns (out: Bytes)
      requires Valid() && totalBytes == |fed|
      modifies this, buf
      ensures out == Digest384(compress, iv, old(fed))
    {
      hide Holds;
      ghost var message := fed;
      var bitLen := totalBytes * 8;
      Update([0x80]);
      // Padding is not message length.
      totalBytes := totalBytes - 1;
      PadZeros(message);
      Update(BeBytes(bitLen, 16));
      assert fed == Padded128(message);
      Complete(message);
      out := WordBytes(h[..6], 8);
    }
  }

  /** The digest does not depend on how the message was cut. */
  method HashChunks384(compress: Compress, iv: State, chunks: seq<Bytes>) returns (out: Bytes)
    ensures out == Digest384(compress, iv, Concat(chunks))
  {
    var s := new Sha384(compress, iv);
    for i := 0 to |chunks|
      invariant s.Valid() && fresh(s) && fresh(s.buf) && s.totalBytes == |s.fed|
      invariant s.compress == compress && s.iv == iv && s.fed == Concat(chunks[..i])
    {
      assert chunks[..i + 1][..i] == chunks[..i];
      s.Update(chunks[i]);
    }
    assert chunks[..|chunks|] == chunks;
    out := s.Finish();
  }

  // ---------------------------------------------------------------------------
  // SHA-256
  // ---------------------------------------------------------------------------

  class Sha256 {
    const compress: Compress
    const iv: State
    var state: State
    const buffer: array<u8>
    var buffered: nat
    /** Message length in bits, modulo 2^64. */
    var bits: u64
    /** Everything that went in. */
    ghost var fed: Bytes

    /** The buffer may be full here. */
    ghost predicate Loaded()
      reads this, buffer
    {
      buffer.Length == 64 && buffered <= 64 && Holds(compress, 64, iv, fed, state, buffer[..buffered])
    }

    ghost predicate Valid()
      reads this, buffer
    {
      Loaded() && buffered < 64
    }

    constructor (compress: Compress, iv: State)
      ensures Valid() && fed == [] && bits == 0 && fresh(buffer)
      ensures this.compress == compress && this.iv == iv
    {
      this.compress, this.iv, state := compress, iv, iv;
      buffer := new u8[64](_ => 0);
      buffered, bits, fed := 0, 0, [];
      new;
      HoldsNothing(compress, 64, iv);
      assert buffer[..0] == [];
    }

    /** Copy into the buffer. */
    method Store(data: Bytes)
      requires Loaded() && buffered + |data| <= 64
      modifies this`buffered, this`fed, buffer
      ensures Loaded() && buffered == old(buffered) + |data| && fed == old(fed) + data
    {
      hide Holds;
      HoldsMore(compress, 64, iv, fed, state, buffer[..buffered], data);
      ghost var before := buffer[..buffered];
      forall i | 0 <= i < |data| {
        buffer[buffered + i] := data[i];
      }
      buffered := buffered + |data|;
      fed := fed + data;
      assert buffer[..buffered] == before + data;
    }

    /** Compress a full buffer. */
    method Flush()
      requires Loaded() && buffered == 64
      modifies this`state, this`buffered
      ensures Valid() && buffered == 0
    {
      HoldsBlock(compress, 64, iv, fed, state, buffer[..buffered]);
      state := compress(state, buffer[..64]);
      buffered := 0;
      assert buffer[..0] == [];
    }

    /** Compress a block straight from the message. */
    method Direct(block: Bytes)
      requires Valid() && buffered == 0 && |block| == 64
      modifies this`state, this`fed
      ensures Valid() && fed == old(fed) + block
    {
      assert buffer[..0] == [];
      assert [] + block == block;
      HoldsMore(compress, 64, iv, fed, state, [], block);
      HoldsBlock(compress, 64, iv, fed + block, state, block);
      state := compress(state, block);
      fed := fed + block;
    }

    /** `update` up to the return for a buffer that did not fill: losing what is buffered there is the defect its
        comment tells of. */
    method TopUp(data: Bytes) returns (taken: nat)
      requires Valid()
      modifies this`state, this`buffered, this`fed, buffer
      ensures Valid() && taken <= |data| && fed == old(fed) + data[..taken]
      ensures buffered > 0 ==> taken == |data|
    {
      hide Holds;
      taken := 0;
      if buffered > 0 {
        taken := if 64 - buffered < |data| then 64 - buffered else |data|;
        Store(data[..taken]);
        if buffered < 64 {
          return;
        }
        Flush();
      }
    }

    /** `update`. */
    method Update(data: Bytes)
      requires Valid()
      modifies this, buffer
      ensures Valid() && fed == old(fed) + data
      ensures bits == (old(bits) + 8 * |data|) % 0x1_0000_0000_0000_0000
    {
      hide Holds;
      bits := (bits + 8 * |data|) % 0x1_0000_0000_0000_0000;
      var taken := TopUp(data);
      var rest := data[taken..];
      if buffered > 0 {
        assert data[..taken] == data;
        return;
      }
      ghost var done := taken;
      while |rest| >= 64
        invariant Valid() && done <= |data| && rest == data[done..] && buffered == 0
        invariant fed == old(fed) + data[..done]
        invariant bits == (old(bits) + 8 * |data|) % 0x1_0000_0000_0000_0000
      {
        Direct(rest[..64]);
        assert data[..done] + rest[..64] == data[..done + 64];
        rest := rest[64..];
        done := done + 64;
      }
      assert data[..done] + rest == data;
      Store(rest);
    }

    /** `update_raw`: byte by byte, and without the counter. */
    method UpdateRaw(data: Bytes)
      requires Valid()
      modifies this`state, this`buffered, this`fed, buffer
      ensures Valid() && fed == old(fed) + data
    {
      hide Holds;
      for i := 0 to |data|
        invariant Valid() && fed == old(fed) + data[..i]
      {
        Store([data[i]]);
        if buffered == 64 {
          Flush();
        }
        assert data[..i] + [data[i]] == data[..i + 1];
      }
      assert data[..|data|] == data;
    }

    lemma Buffered()
      requires Valid()
      ensures buffered == |fed| % 64
    {
      HoldsLength(compress, 64, iv, fed, state, buffer[..buffered]);
    }

    /** The zeros of `finish`. */
    method PadZeros(ghost message: Bytes)
      requires Valid() && fed == message + [0x80]
      modifies this`state, this`buffered, this`fed, buffer
      ensures Valid() && fed == message + [0x80] + Zeros((55 - |message|) % 64)
      ensures buffered == 56
    {
      hide Holds, Zeros;
      ghost var k := 0;
      OneMoreZero(message, 0);
      while buffered != 56
        invariant Valid() && k <= (55 - |message|) % 64 && fed == message + [0x80] + Zeros(k)
        decreases (55 - |message|) % 64 - k
      {
        Buffered();
        ZerosStop64(|message|, k);
        OneMoreZero(message, k);
        UpdateRaw([0x00]);
        k := k + 1;
      }
      Buffered();
      ZerosStop64(|message|, k);
    }

    /** With the padding in, nothing is buffered and the state is the fold of all of it. */
    lemma Complete(message: Bytes)
      requires Valid() && fed == Padded64(message)
      ensures buffered == 0 && state == Fold(compress, 64, iv, fed)
    {
      PaddingFits(message);
      WholeByLength(64, fed);
      HoldsLength(compress, 64, iv, fed, state, buffer[..buffered]);
      assert buffer[..0] == [];
      HoldsAll(compress, 64, iv, fed, state);
    }

    /** `finish`. The length field holds the length in bits as far as eight bytes hold it. */
    method Finish() returns (out: Bytes)
      requires Valid() && bits == 8 * |fed| % 0x1_0000_0000_0000_0000
      modifies this, buffer
      ensures out == Digest256(compress, iv, old(fed))
    {
      hide Holds;
      ghost var message := fed;
      UpdateRaw([0x80]);
      PadZeros(message);
      LengthField(|message|);
      UpdateRaw(BeBytes(bits, 8));
      assert fed == Padded64(message);
      Complete(message);
      // The source's debug assertion: the padding landed on a block boundary.
      assert buffered == 0;
      out := WordBytes(state, 4);
    }
  }

  lemma LengthField(n: nat)
    ensures BeBytes(8 * n % 0x1_0000_0000_0000_0000, 8) == BeBytes(8 * n, 8)
  {
    BeBytesModulo(8 * n, 8);
    ByteWidths();
  }

  lemma AddModulo(x: nat, y: nat)
    ensures (x % 0x1_0000_0000_0000_0000 + y) % 0x1_0000_0000_0000_0000 == (x + y) % 0x1_0000_0000_0000_0000
  {
  }

  /** The digest does not depend on how the message was cut. */
  method HashChunks256(compress: Compress, iv: State, chunks: seq<Bytes>) returns (out: Bytes)
    ensures out == Digest256(compress, iv, Concat(chunks))
  {
    var s := new Sha256(compress, iv);
    for i := 0 to |chunks|
      invariant s.Valid() && fresh(s) && fresh(s.buffer) && s.bits == 8 * |s.fed| % 0x1_0000_0000_0000_0000
      invariant s.compress == compress && s.iv == iv && s.fed == Concat(chunks[..i])
    {
      hide Holds;
      assert chunks[..i + 1][..i] == chunks[..i];
      AddModulo(8 * |s.fed|, 8 * |chunks[i]|);
      s.Update(chunks[i]);
    }
    assert chunks[..|chunks|] == chunks;
    out := s.Finish();
  }

  // ---------------------------------------------------------------------------
  // HMAC-SHA-256
  // ---------------------------------------------------------------------------

  function Xor(a: u8, b: u8): u8 {
    ((a as bv8) ^ (b as bv8)) as int
  }

  /** Octets that differ in some bits and agree in others. */
  lemma KnownXor()
    ensures Xor(0x36, 0x5C) == 0x6A && Xor(0xFF, 0x36) == 0xC9 && Xor(0x0F, 0xAA) == 0xA5 && Xor(0xAA, 0x0F) == 0xA5
  {
  }

  function XorAll(a: Bytes, b: u8): (r: Bytes)
    ensures |r| == |a|
    ensures forall i :: 0 <= i < |r| ==> r[i] == Xor(a[i], b)
  {
    seq(|a|, i requires 0 <= i < |a| => Xor(a[i], b))
  }

  /** The key as a block: a longer one is replaced by its digest, a shorter one is filled with zeros. */
  function KeyBlock(f: Compress, iv: State, key: Bytes): (r: Bytes)
    ensures |r| == 64
  {
    if |key| > 64 then
      DigestLength(f, iv, key);
      Digest256(f, iv, key) + Zeros(32)
    else key + Zeros(64 - |key|)
  }

  /** Section 2 of RFC 2104. */
  function Hmac(f: Compress, iv: State, key: Bytes, message: Bytes): Bytes {
    var k := KeyBlock(f, iv, key);
    Digest256(f, iv, XorAll(k, 0x5C) + Digest256(f, iv, XorAll(k, 0x36) + message))
  }

  lemma {:induction false} WordsLength(words: seq<u64>)
    ensures |WordBytes(words, 4)| == 4 * |words| && |WordBytes(words, 8)| == 8 * |words|
  {
    if words != [] {
      WordsLength(words[..|words| - 1]);
    }
  }

  lemma DigestLength(f: Compress, iv: State, message: Bytes)
    ensures |Digest256(f, iv, message)| == 32 && |Digest384(f, iv, message)| == 48
  {
    WordsLength(Fold(f, 64, iv, Padded64(message)));
    WordsLength(Fold(f, 128, iv, Padded128(message))[..6]);
  }

  /** The two blocks of a tag, octet by octet: the key, or the digest of one that is longer than a block, and zeros,
      each masked with 0x36 on the inside and 0x5C on the outside. */
  lemma HmacBlocks(f: Compress, iv: State, key: Bytes, message: Bytes) returns (inner: Bytes, outer: Bytes)
    ensures Hmac(f, iv, key, message) == Digest256(f, iv, outer + Digest256(f, iv, inner + message))
    ensures |inner| == |outer| == 64
    ensures var k := if |key| > 64 then Digest256(f, iv, key) else key;
      && |k| <= 64
      && (forall i :: 0 <= i < |k| ==> inner[i] == Xor(k[i], 0x36) && outer[i] == Xor(k[i], 0x5C))
      && (forall i :: |k| <= i < 64 ==> inner[i] == 0x36 && outer[i] == 0x5C)
  {
    var block := KeyBlock(f, iv, key);
    inner, outer := XorAll(block, 0x36), XorAll(block, 0x5C);
    DigestLength(f, iv, key);
    hide Digest256;
    assert Xor(0, 0x36) == 0x36 && Xor(0, 0x5C) == 0x5C;
  }

  /** The key, padded. */
  method PadKey(f: Compress, iv: State, key: Bytes) returns (padded: array<u8>)
    ensures fresh(padded) && padded.Length == 64 && padded[..] == KeyBlock(f, iv, key)
  {
    padded := new u8[64](_ => 0);
    var short := key;
    if |key| > 64 {
      OneChunk(key);
      short := HashChunks256(f, iv, [key]);
      DigestLength(f, iv, key);
    }
    hide Digest256;
    forall i | 0 <= i < |short| {
      padded[i] := short[i];
    }
    assert padded[..] == short + Zeros(64 - |short|);
  }

  method XorInto(block: array<u8>, padded: array<u8>, b: u8)
    requires block != padded && block.Length == padded.Length
    modifies block
    ensures block[..] == XorAll(padded[..], b)
  {
    hide Xor;
    forall i | 0 <= i < block.Length {
      block[i] := Xor(padded[i], b);
    }
    assert block[..] == XorAll(padded[..], b);
  }

  /** `hmac_sha256`: two streaming hashes over one block array. */
  method HmacSha256(f: Compress, iv: State, key: Bytes, message: Bytes) returns (tag: Bytes)
    ensures tag == Hmac(f, iv, key, message)
  {
    hide KeyBlock, Digest256, XorAll;
    var padded := PadKey(f, iv, key);
    var block := new u8[64](_ => 0);
    XorInto(block, padded, 0x36);
    var inner := HashChunks256(f, iv, [block[..], message]);
    TwoChunks(block[..], message);
    XorInto(block, padded, 0x5C);
    tag := HashChunks256(f, iv, [block[..], inner]);
    TwoChunks(block[..], inner);
  }

  lemma OneChunk(a: Bytes)
    ensures Concat([a]) == a
  {
    assert [a][..0] == [];
    assert Concat([]) == [];
    assert [] + a == a;
  }

  lemma TwoChunks(a: Bytes, b: Bytes)
    ensures Concat([a, b]) == a + b
  {
    OneChunk(a);
    assert [a, b][..1] == [a];
    assert Concat([a, b]) == Concat([a, b][..1]) + b;
  }

  /** `verify`: every byte is looked at, and the answer is equality. Here bytes are bits. */
  method VerifyTag(a: seq<bv8>, b: seq<bv8>) returns (same: bool)
    ensures same <==> a == b
  {
    if |a| != |b| {
      return false;
    }
    var diff: bv8 := 0;
    for i := 0 to |a|
      invariant diff == 0 <==> a[..i] == b[..i]
    {
      DiffBits(diff, a[i], b[i]);
      assert a[..i + 1] == a[..i] + [a[i]] && b[..i + 1] == b[..i] + [b[i]];
      assert a[..i + 1][i] == a[i] && b[..i + 1][i] == b[i];
      diff := diff | (a[i] ^ b[i]);
    }
    assert a[..|a|] == a && b[..|b|] == b;
    return diff == 0;
  }

  lemma DiffBits(d: bv8, a: bv8, b: bv8)
    ensures (d | (a ^ b)) == 0 <==> d == 0 && a == b
  {
  }

  /** Writing a number in n bytes sees it modulo 256^n. */
  lemma {:induction false} BeBytesModulo(x: nat, n: nat)
    ensures BeBytes(x % BytePow(n), n) == BeBytes(x, n)
  {
    if n > 0 {
      var p := BytePow(n - 1);
      BeBytesModulo(x / 0x100, n - 1);
      ScaledModulo(x, p);
    }
  }

  lemma ScaledModulo(x: nat, p: nat)
    requires p > 0
    ensures x % (0x100 * p) % 0x100 == x % 0x100 && x % (0x100 * p) / 0x100 == x / 0x100 % p
  {
    var y, b := x / 0x100, x % 0x100;
    var q, r := y / p, y % p;
    DivIdentity(y, p);
    assert x == 0x100 * (q * p + r) + b;
    assert q * (0x100 * p) == 0x100 * (q * p);
    ModUnique(x, q, 0x100 * r + b, 0x100 * p);
  }
}
