/** The on-disk record of the shard journal, and the walk that recovers the longest valid prefix. */
module Record {
  import opened Words
  import opened Limbs
  import opened LimbBytes

  const MAGIC: u8 := 0xA7
  // A record is 13 bytes: magic, sequence number, checksum.

  // ---------------------------------------------------------------------------
  // CRC-32
  // ---------------------------------------------------------------------------

  /** One bit of CRC-32 (IEEE): the mask is all ones exactly when the low bit is set. */
  function BitStep(crc: bv32): bv32 {
    (crc >> 1) ^ (0xEDB8_8320 & (0 - (crc & 1)))
  }

  function BitSteps(crc: bv32, n: nat): bv32 {
    if n == 0 then crc else BitStep(BitSteps(crc, n - 1))
  }

  /** `b >> k`. */
  function Half(b: u8, k: nat): nat {
    if k == 0 then b else Half(b, k - 1) / 2
  }

  function BitAt(b: u8, k: nat): bv32 {
    if Half(b, k) % 2 == 1 then 1 else 0
  }

  function EightBits(x0: bv32, x1: bv32, x2: bv32, x3: bv32, x4: bv32, x5: bv32, x6: bv32, x7: bv32): bv32 {
    x0 | (x1 << 1) | (x2 << 2) | (x3 << 3) | (x4 << 4) | (x5 << 5) | (x6 << 6) | (x7 << 7)
  }

  /** `u32::from(b)`, bit by bit. */
  function Widen(b: u8): bv32 {
    EightBits(BitAt(b, 0), BitAt(b, 1), BitAt(b, 2), BitAt(b, 3), BitAt(b, 4), BitAt(b, 5), BitAt(b, 6), BitAt(b, 7))
  }

  function Mix(crc: bv32, x: bv32): bv32 {
    crc ^ x
  }

  function ByteStep(crc: bv32, b: u8): bv32 {
    BitSteps(Mix(crc, Widen(b)), 8)
  }

  function CrcState(data: Bytes): bv32 {
    if data == [] then 0xFFFF_FFFF else ByteStep(CrcState(data[..|data| - 1]), data[|data| - 1])
  }

  /** `!crc`. */
  function Complement(crc: bv32): u32 {
    (!crc) as int
  }

  function Crc(data: Bytes): u32 {
    Complement(CrcState(data))
  }

  lemma CrcStep(data: Bytes, i: nat)
    requires i < |data|
    ensures CrcState(data[..i + 1]) == BitSteps(Mix(CrcState(data[..i]), Widen(data[i])), 8)
  {
    hide BitSteps, Mix, Widen;
    assert data[..i + 1][..i] == data[..i];
  }

  /** The inner loop of `crc32`. */
  method ShiftByte(crc: bv32) returns (r: bv32)
    ensures r == BitSteps(crc, 8)
  {
    r := crc;
    for k := 0 to 8
      invariant r == BitSteps(crc, k)
    {
      r := (r >> 1) ^ (0xEDB8_8320 & (0 - (r & 1)));
    }
  }

  /** `crc32`. */
  method Crc32(data: Bytes) returns (r: u32)
    ensures r == Crc(data)
  {
    var crc: bv32 := 0xFFFF_FFFF;
    for i := 0 to |data|
      invariant crc == CrcState(data[..i])
    {
      hide *;
      CrcStep(data, i);
      crc := Mix(crc, Widen(data[i]));
      crc := ShiftByte(crc);
    }
    assert data[..|data|] == data;
    hide Complement;
    r := Complement(crc);
  }

  /** A step loses nothing: the polynomial's top bit records the bit that was shifted out. */
  lemma BitStepInjective(a: bv32, b: bv32)
    requires BitStep(a) == BitStep(b)
    ensures a == b
  {
  }

  lemma {:induction false} BitStepsInjective(a: bv32, b: bv32, n: nat)
    requires BitSteps(a, n) == BitSteps(b, n)
    ensures a == b
  {
    if n > 0 {
      BitStepInjective(BitSteps(a, n - 1), BitSteps(b, n - 1));
      BitStepsInjective(a, b, n - 1);
    }
  }

  lemma MixInjective(a: bv32, b: bv32, c: bv32)
    ensures Mix(a, c) == Mix(b, c) ==> a == b
    ensures Mix(c, a) == Mix(c, b) ==> a == b
  {
  }

  lemma EightBitsInjective(x0: bv32, x1: bv32, x2: bv32, x3: bv32, x4: bv32, x5: bv32, x6: bv32, x7: bv32,
                           y0: bv32, y1: bv32, y2: bv32, y3: bv32, y4: bv32, y5: bv32, y6: bv32, y7: bv32)
    requires x0 <= 1 && x1 <= 1 && x2 <= 1 && x3 <= 1 && x4 <= 1 && x5 <= 1 && x6 <= 1 && x7 <= 1
    requires y0 <= 1 && y1 <= 1 && y2 <= 1 && y3 <= 1 && y4 <= 1 && y5 <= 1 && y6 <= 1 && y7 <= 1
    requires EightBits(x0, x1, x2, x3, x4, x5, x6, x7) == EightBits(y0, y1, y2, y3, y4, y5, y6, y7)
    ensures x0 == y0 && x1 == y1 && x2 == y2 && x3 == y3 && x4 == y4 && x5 == y5 && x6 == y6 && x7 == y7
  {
  }

  lemma NothingBeyondByte(a: u8)
    ensures Half(a, 8) == 0
  {
    assert Half(a, 1) < 128;
    assert Half(a, 2) < 64;
    assert Half(a, 3) < 32;
    assert Half(a, 4) < 16;
    assert Half(a, 5) < 8;
    assert Half(a, 6) < 4;
    assert Half(a, 7) < 2;
  }

  lemma BitDecides(a: u8, b: u8, k: nat)
    requires BitAt(a, k) == BitAt(b, k) && Half(a, k + 1) == Half(b, k + 1)
    ensures Half(a, k) == Half(b, k)
  {
    assert Half(a, k + 1) == Half(a, k) / 2 && Half(b, k + 1) == Half(b, k) / 2;
  }

  lemma WidenInjective(a: u8, b: u8)
    requires Widen(a) == Widen(b)
    ensures a == b
  {
    hide EightBits;
    EightBitsInjective(
      BitAt(a, 0), BitAt(a, 1), BitAt(a, 2), BitAt(a, 3), BitAt(a, 4), BitAt(a, 5), BitAt(a, 6), BitAt(a, 7),
      BitAt(b, 0), BitAt(b, 1), BitAt(b, 2), BitAt(b, 3), BitAt(b, 4), BitAt(b, 5), BitAt(b, 6), BitAt(b, 7));
    assert Half(a, 0) == a && Half(b, 0) == b;
    hide *;
    NothingBeyondByte(a);
    NothingBeyondByte(b);
    BitDecides(a, b, 7);
    BitDecides(a, b, 6);
    BitDecides(a, b, 5);
    BitDecides(a, b, 4);
    BitDecides(a, b, 3);
    BitDecides(a, b, 2);
    BitDecides(a, b, 1);
    BitDecides(a, b, 0);
  }

  lemma BitsAsInt(c: bv32)
    ensures (c as int) as bv32 == c
  {
  }

  lemma ComplementInjective(a: bv32, b: bv32)
    requires Complement(a) == Complement(b)
    ensures a == b
  {
    BitsAsInt(!a);
    BitsAsInt(!b);
    assert !a == !b;
  }

  /** Strings that differ in exactly one byte never share a checksum. */
  lemma CrcSeesOneByte(a: Bytes, k: nat, b: u8)
    requires k < |a| && b != a[k]
    ensures Crc(a[k := b]) != Crc(a)
  {
    StateSeesOneByte(a, k, b);
    if Crc(a[k := b]) == Crc(a) {
      ComplementInjective(CrcState(a[k := b]), CrcState(a));
    }
  }

  lemma {:induction false} StateSeesOneByte(a: Bytes, k: nat, b: u8)
    requires k < |a| && b != a[k]
    ensures CrcState(a[k := b]) != CrcState(a)
  {
    hide BitSteps, Mix, Widen;
    var last := |a| - 1;
    var a' := a[k := b];
    var x', x := CrcState(a'[..last]), CrcState(a[..last]);
    if CrcState(a') == CrcState(a) {
      BitStepsInjective(Mix(x', Widen(a'[last])), Mix(x, Widen(a[last])), 8);
      if k == last {
        assert a'[..last] == a[..last];
        MixInjective(Widen(b), Widen(a[k]), x);
        WidenInjective(b, a[k]);
      } else {
        MixInjective(x', x, Widen(a[last]));
        assert a'[..last] == a[..last][k := b];
        StateSeesOneByte(a[..last], k, b);
      }
    }
  }

  // ---------------------------------------------------------------------------
  // The check value
  // ---------------------------------------------------------------------------

  lemma EightSteps(c: bv32)
    ensures BitSteps(c, 8) == BitStep(BitStep(BitStep(BitStep(BitStep(BitStep(BitStep(BitStep(c))))))))
  {
    assert BitSteps(c, 1) == BitStep(c);
    assert BitSteps(c, 3) == BitStep(BitStep(BitStep(c)));
    assert BitSteps(c, 5) == BitStep(BitStep(BitSteps(c, 3)));
    assert BitSteps(c, 7) == BitStep(BitStep(BitSteps(c, 5)));
  }

  lemma Halves(b: u8)
    ensures Half(b, 0) == b && Half(b, 1) == b / 2 && Half(b, 2) == b / 4 && Half(b, 3) == b / 8
    ensures Half(b, 4) == b / 16 && Half(b, 5) == b / 32 && Half(b, 6) == b / 64 && Half(b, 7) == b / 128
  {
  }

  lemma AfterOne()
    ensures ByteStep(0xFFFF_FFFF, 0x31) == 0x7C23_1048
  {
    Halves(0x31);
    assert Widen(0x31) == 0x31;
    hide Widen, Half;
    EightSteps(Mix(0xFFFF_FFFF, 0x31));
  }

  lemma AfterTwo()
    ensures ByteStep(0x7C23_1048, 0x32) == 0xB0AC_BB32
  {
    Halves(0x32);
    assert Widen(0x32) == 0x32;
    hide Widen, Half;
    EightSteps(Mix(0x7C23_1048, 0x32));
  }

  lemma AfterThree()
    ensures ByteStep(0xB0AC_BB32, 0x33) == 0x77B7_9C2D
  {
    Halves(0x33);
    assert Widen(0x33) == 0x33;
    hide Widen, Half;
    EightSteps(Mix(0xB0AC_BB32, 0x33));
  }

  lemma AfterFour()
    ensures ByteStep(0x77B7_9C2D, 0x34) == 0x641C_1F5C
  {
    Halves(0x34);
    assert Widen(0x34) == 0x34;
    hide Widen, Half;
    EightSteps(Mix(0x77B7_9C2D, 0x34));
  }

  lemma AfterFive()
    ensures ByteStep(0x641C_1F5C, 0x35) == 0x340A_C5E3
  {
    Halves(0x35);
    assert Widen(0x35) == 0x35;
    hide Widen, Half;
    EightSteps(Mix(0x641C_1F5C, 0x35));
  }

  lemma AfterSix()
    ensures ByteStep(0x340A_C5E3, 0x36) == 0xF68D_2C9E
  {
    Halves(0x36);
    assert Widen(0x36) == 0x36;
    hide Widen, Half;
    EightSteps(Mix(0x340A_C5E3, 0x36));
  }

  lemma AfterSeven()
    ensures ByteStep(0xF68D_2C9E, 0x37) == 0xAFFC_9660
  {
    Halves(0x37);
    assert Widen(0x37) == 0x37;
    hide Widen, Half;
    EightSteps(Mix(0xF68D_2C9E, 0x37));
  }

  lemma AfterEight()
    ensures ByteStep(0xAFFC_9660, 0x38) == 0x651F_2550
  {
    Halves(0x38);
    assert Widen(0x38) == 0x38;
    hide Widen, Half;
    EightSteps(Mix(0xAFFC_9660, 0x38));
  }

  lemma AfterNine()
    ensures ByteStep(0x651F_2550, 0x39) == 0x340B_C6D9
  {
    Halves(0x39);
    assert Widen(0x39) == 0x39;
    hide Widen, Half;
    EightSteps(Mix(0x651F_2550, 0x39));
  }

  /** The checksum is the CRC-32 whose check value, over the digits one to nine, is the published one. */
  lemma CheckValue()
    ensures Crc(Ascii("123456789")) == 0xCBF4_3926
  {
    var data := Ascii("123456789");
    DigitBytes(data);
    assert data[..9] == data;
    StateAfterDigits(data);
    hide CrcState, Ascii;
  }

  lemma DigitBytes(data: Bytes)
    requires data == Ascii("123456789")
    ensures |data| == 9 && forall i :: 0 <= i < 9 ==> data[i] == 0x31 + i
  {
  }

  lemma StateAfterDigits(data: Bytes)
    requires |data| == 9 && forall i :: 0 <= i < 9 ==> data[i] == 0x31 + i
    ensures CrcState(data[..9]) == 0x340B_C6D9
  {
    assert data[..0] == [] && CrcState([]) == 0xFFFF_FFFF;
    hide *;
    FirstDigits(data);
    MiddleDigits(data);
    LastDigits(data);
  }

  lemma FirstDigits(data: Bytes)
    requires |data| == 9 && data[0] == 0x31 && data[1] == 0x32 && data[2] == 0x33
    requires CrcState(data[..0]) == 0xFFFF_FFFF
    ensures CrcState(data[..3]) == 0x77B7_9C2D
  {
    hide *;
    AfterOne();
    NextState(data, 0);
    AfterTwo();
    NextState(data, 1);
    AfterThree();
    NextState(data, 2);
  }

  lemma MiddleDigits(data: Bytes)
    requires |data| == 9 && data[3] == 0x34 && data[4] == 0x35 && data[5] == 0x36
    requires CrcState(data[..3]) == 0x77B7_9C2D
    ensures CrcState(data[..6]) == 0xF68D_2C9E
  {
    hide *;
    AfterFour();
    NextState(data, 3);
    AfterFive();
    NextState(data, 4);
    AfterSix();
    NextState(data, 5);
  }

  lemma LastDigits(data: Bytes)
    requires |data| == 9 && data[6] == 0x37 && data[7] == 0x38 && data[8] == 0x39
    requires CrcState(data[..6]) == 0xF68D_2C9E
    ensures CrcState(data[..9]) == 0x340B_C6D9
  {
    hide *;
    AfterSeven();
    NextState(data, 6);
    AfterEight();
    NextState(data, 7);
    AfterNine();
    NextState(data, 8);
  }

  lemma NextState(data: Bytes, i: nat)
    requires i < |data|
    ensures CrcState(data[..i + 1]) == ByteStep(CrcState(data[..i]), data[i])
  {
    assert data[..i + 1][..i] == data[..i];
  }

  // ---------------------------------------------------------------------------
  // Records
  // ---------------------------------------------------------------------------

  function Head(seqno: nat): (s: Bytes)
    ensures |s| == 9
  {
    [MAGIC] + LeBytes(seqno, 8)
  }

  /** magic, sequence number, checksum of both. */
  function Encode(seqno: nat): (s: Bytes)
    ensures |s| == 13
  {
    Head(seqno) + LeBytes(Crc(Head(seqno)), 4)
  }

  /** `encode`, filling its buffer. */
  method EncodeRecord(seqno: u64) returns (r: Bytes)
    ensures r == Encode(seqno)
  {
    var buf := new u8[13](_ => 0);
    buf[0] := MAGIC;
    var le := LeBytes(seqno, 8);
    for i := 0 to 8
      invariant buf[0] == MAGIC
      invariant forall j :: 0 <= j < i ==> buf[1 + j] == le[j]
    {
      buf[1 + i] := le[i];
    }
    assert buf[..9] == Head(seqno);
    var crc := Crc32(buf[..9]);
    var sum := LeBytes(crc, 4);
    for i := 0 to 4
      invariant buf[..9] == Head(seqno)
      invariant forall j :: 0 <= j < i ==> buf[9 + j] == sum[j]
    {
      buf[9 + i] := sum[i];
    }
    r := buf[..];
    assert r == buf[..9] + sum;
  }

  /** What the walk checks of thirteen bytes, short of their place in the order. */
  predicate WellFormed(rec: Bytes)
    requires |rec| == 13
  {
    rec[0] == MAGIC && LittleEndian(rec[9..13]) == Crc(rec[0..9])
  }

  lemma {:induction false} LeBytesInjective(a: Bytes, b: Bytes)
    requires |a| == |b| && LittleEndian(a) == LittleEndian(b)
    ensures a == b
  {
    if a != [] {
      LeBytesInjective(a[1..], b[1..]);
      assert a == [a[0]] + a[1..] && b == [b[0]] + b[1..];
    }
  }

  lemma FourBytes()
    ensures BytePow(4) == 0x1_0000_0000
  {
    assert BytePow(2) == 0x1_0000;
  }

  lemma HeadOf(rec: Bytes)
    requires |rec| == 13
    ensures LittleEndian(rec[1..9]) < W
    ensures rec[0] == MAGIC <==> rec[0..9] == Head(LittleEndian(rec[1..9]))
  {
    var s := LittleEndian(rec[1..9]);
    LittleEndianBound(rec[1..9]);
    EightBytes(0);
    LeBytesValue(s, 8);
    LeBytesInjective(rec[1..9], LeBytes(s, 8));
    hide LittleEndian, LeBytes, BytePow;
    if rec[0] == MAGIC {
      assert rec[0..9] == [rec[0]] + rec[1..9];
    }
    assert rec[0] == rec[0..9][0];
  }

  lemma SumOf(sum: Bytes, crc: u32)
    requires |sum| == 4
    ensures LittleEndian(sum) == crc <==> sum == LeBytes(crc, 4)
  {
    FourBytes();
    LeBytesValue(crc, 4);
    if LittleEndian(sum) == crc {
      LeBytesInjective(sum, LeBytes(crc, 4));
    }
  }

  /** The checks accept encodings and nothing else. */
  lemma WellFormedExactly(rec: Bytes)
    requires |rec| == 13
    ensures WellFormed(rec) <==> rec == Encode(LittleEndian(rec[1..9]))
    ensures LittleEndian(rec[1..9]) < W
  {
    HeadOf(rec);
    hide LittleEndian, LeBytes, Crc, Head;
    SumOf(rec[9..13], Crc(rec[0..9]));
    var s := LittleEndian(rec[1..9]);
    assert rec == rec[0..9] + rec[9..13];
    var code := Encode(s);
    assert code[0..9] == Head(s) && code[9..13] == LeBytes(Crc(Head(s)), 4);
  }

  /** No record is one byte away from another: the altered bytes pass no check. */
  lemma OneByteBreaksRecord(seqno: nat, k: nat, b: u8)
    requires seqno < W && k < 13 && b != Encode(seqno)[k]
    ensures !WellFormed(Encode(seqno)[k := b])
  {
    var rec := Encode(seqno);
    var rec' := rec[k := b];
    var head := Head(seqno);
    FourBytes();
    LeBytesValue(Crc(head), 4);
    assert rec[0..9] == head && rec[9..13] == LeBytes(Crc(head), 4);
    if k < 9 {
      assert rec'[0..9] == head[k := b];
      assert rec'[9..13] == rec[9..13];
      CrcSeesOneByte(head, k, b);
    } else {
      assert rec'[0..9] == head;
      assert rec'[9..13] == rec[9..13][k - 9 := b];
      assert rec[9..13][k - 9] == rec[k];
      if WellFormed(rec') {
        LeBytesInjective(rec'[9..13], rec[9..13]);
      }
    }
  }

  // ---------------------------------------------------------------------------
  // Recovery
  // ---------------------------------------------------------------------------

  datatype Recovered = Recovered(count: nat, maxSeq: nat, discardedBytes: nat, outOfOrder: bool)

  predicate RecordAt(bytes: Bytes, n: nat) {
    13 * (n + 1) <= |bytes| && bytes[13 * n..13 * (n + 1)] == Encode(n + 1)
  }

  /** The records after the first n: the walk goes on while the next one is the next encoding. */
  function Walk(bytes: Bytes, n: nat): (r: Recovered)
    requires 13 * n <= |bytes|
    ensures r.count == r.maxSeq >= n
    ensures r.discardedBytes == |bytes| - 13 * r.count
    decreases |bytes| - 13 * n
  {
    if RecordAt(bytes, n) then Walk(bytes, n + 1)
    else Recovered(n, n, |bytes| - 13 * n,
                   13 * (n + 1) <= |bytes| && WellFormed(bytes[13 * n..13 * (n + 1)]))
  }

  /** The three checks of one pass of the loop are exactly `RecordAt`. */
  lemma ChecksAreExact(bytes: Bytes, n: nat)
    requires 13 * (n + 1) <= |bytes| && n + 1 < W
    ensures var rec := bytes[13 * n..13 * (n + 1)];
      RecordAt(bytes, n) <==> WellFormed(rec) && LittleEndian(rec[1..9]) == n + 1
  {
    hide WellFormed, Encode, LittleEndian;
    var rec := bytes[13 * n..13 * (n + 1)];
    WellFormedExactly(rec);
    if RecordAt(bytes, n) {
      EncodedIsWellFormed(n + 1);
    }
  }

  lemma EncodedIsWellFormed(s: nat)
    requires s < W
    ensures WellFormed(Encode(s)) && LittleEndian(Encode(s)[1..9]) == s
  {
    EightBytes(0);
    assert Encode(s)[1..9] == LeBytes(s, 8);
    LeBytesValue(s, 8);
    WellFormedExactly(Encode(s));
  }

  /** The sequence number of a record whose magic and checksum are right. */
  function Inspected(rec: Bytes): Option<nat>
    requires |rec| == 13
  {
    if WellFormed(rec) then Some(LittleEndian(rec[1..9])) else None
  }

  method Inspect(rec: Bytes) returns (s: Option<nat>)
    requires |rec| == 13
    ensures s == Inspected(rec)
  {
    if rec[0] != MAGIC {
      return None;
    }
    var want := Crc32(rec[0..9]);
    var got := LittleEndian(rec[9..13]);
    if want != got {
      return None;
    }
    return Some(LittleEndian(rec[1..9]));
  }

  function NextRecord(bytes: Bytes, n: nat): Bytes
    requires 13 * (n + 1) <= |bytes|
  {
    bytes[13 * n..13 * (n + 1)]
  }

  lemma WalkStep(bytes: Bytes, n: nat)
    requires 13 * (n + 1) <= |bytes| && n + 1 < W
    ensures |NextRecord(bytes, n)| == 13
    ensures var s := Inspected(NextRecord(bytes, n));
      if s == Some(n + 1) then Walk(bytes, n) == Walk(bytes, n + 1)
      else Walk(bytes, n) == Recovered(n, n, |bytes| - 13 * n, s.Some?)
  {
    ChecksAreExact(bytes, n);
  }

  lemma WalkEnds(bytes: Bytes, n: nat)
    requires 13 * n <= |bytes| < 13 * (n + 1)
    ensures Walk(bytes, n) == Recovered(n, n, |bytes| - 13 * n, false)
  {
  }

  /** `recover`: record after record from the front, up to the first that is not the next one. The number of records
      and the highest sequence number move together, so one variable holds both. */
  method Recover(bytes: Bytes) returns (out: Recovered)
    requires |bytes| < 13 * W
    ensures out == Walk(bytes, 0)
  {
    var count, off := 0, 0;
    hide *;
    while off + 13 <= |bytes|
      invariant 0 <= off <= |bytes| && off == 13 * count
      invariant Walk(bytes, 0) == Walk(bytes, count)
    {
      WalkStep(bytes, count);
      var s := Inspect(NextRecord(bytes, count));
      if s != Some(count + 1) {
        return Recovered(count, count, |bytes| - off, s.Some?);
      }
      count := count + 1;
      off := off + 13;
    }
    WalkEnds(bytes, count);
    return Recovered(count, count, |bytes| - off, false);
  }

  /** A journal of n records. */
  function Journal(n: nat): (s: Bytes)
    ensures |s| == 13 * n
  {
    if n == 0 then [] else Journal(n - 1) + Encode(n)
  }

  lemma {:induction false} JournalPrefix(m: nat, n: nat)
    requires m <= n
    ensures Journal(n)[..13 * m] == Journal(m)
  {
    if m < n {
      JournalPrefix(m, n - 1);
      assert Journal(n)[..13 * m] == Journal(n - 1)[..13 * m];
    } else {
      assert Journal(n)[..13 * n] == Journal(n);
    }
  }

  lemma JournalRecord(m: nat, n: nat)
    requires m < n
    ensures Journal(n)[13 * m..13 * (m + 1)] == Encode(m + 1)
  {
    JournalPrefix(m + 1, n);
    assert Journal(n)[13 * m..13 * (m + 1)] == Journal(m + 1)[13 * m..];
  }

  /** Bytes that agree with a journal up to record `stop` are walked that far. */
  lemma SliceOfPrefix(s: Bytes, m: nat, lo: nat, hi: nat)
    requires lo <= hi <= m <= |s|
    ensures s[..m][lo..hi] == s[lo..hi]
  {
  }

  lemma JournalRecordAt(bytes: Bytes, stop: nat, n: nat)
    requires n < stop && 13 * stop <= |bytes|
    requires bytes[..13 * stop] == Journal(stop)
    ensures RecordAt(bytes, n)
    ensures Walk(bytes, n) == Walk(bytes, n + 1)
  {
    hide Journal, Encode, WellFormed;
    JournalRecord(n, stop);
    SliceOfPrefix(bytes, 13 * stop, 13 * n, 13 * (n + 1));
  }

  lemma {:induction false} WalkReaches(bytes: Bytes, stop: nat, n: nat)
    requires n <= stop && 13 * stop <= |bytes|
    requires bytes[..13 * stop] == Journal(stop)
    ensures Walk(bytes, n) == Walk(bytes, stop)
    decreases stop - n
  {
    hide *;
    if n < stop {
      JournalRecordAt(bytes, stop, n);
      WalkReaches(bytes, stop, n + 1);
    }
  }

  /** Any prefix of a journal recovers exactly the records that landed whole, and is never out of order. */
  lemma PrefixRecovers(n: nat, p: nat)
    requires p <= 13 * n
    ensures Walk(Journal(n)[..p], 0) == Recovered(p / 13, p / 13, p % 13, false)
  {
    var bytes := Journal(n)[..p];
    var whole := p / 13;
    JournalPrefix(whole, n);
    assert bytes[..13 * whole] == Journal(n)[..13 * whole];
    WalkReaches(bytes, whole, 0);
  }

  /** Altering one byte of record j stops recovery right before it, and is never mistaken for a gap. */
  lemma CorruptionStops(n: nat, j: nat, k: nat, b: u8)
    requires 1 <= j <= n < W && k < 13
    requires b != Journal(n)[13 * (j - 1) + k]
    ensures Walk(Journal(n)[13 * (j - 1) + k := b], 0)
         == Recovered(j - 1, j - 1, 13 * (n - j + 1), false)
  {
    hide Encode, WellFormed, Journal;
    var at := 13 * (j - 1);
    var bytes := Journal(n)[at + k := b];
    JournalPrefix(j - 1, n);
    assert bytes[..at] == Journal(n)[..at];
    WalkReaches(bytes, j - 1, 0);
    JournalRecord(j - 1, n);
    var rec := Journal(n)[at..at + 13];
    assert rec[k] == Journal(n)[at + k];
    assert bytes[at..at + 13] == rec[k := b];
    OneByteBreaksRecord(j, k, b);
    EncodedIsWellFormed(j);
  }
}
