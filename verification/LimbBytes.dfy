/** Big-endian byte strings in and out of limb vectors. */
module LimbBytes {
  import opened Words
  import opened Limbs

  /** 16384 bits. */
  const MAX_LIMBS: nat := 256

  /** A byte string without its leading zero bytes. */
  function Trim(s: Bytes): (r: Bytes)
    ensures |r| <= |s|
    ensures r != [] ==> r[0] != 0
  {
    if s != [] && s[0] == 0 then Trim(s[1..]) else s
  }

  lemma {:induction false} TrimKeepsValue(s: Bytes)
    ensures BigEndian(Trim(s)) == BigEndian(s)
  {
    if s != [] && s[0] == 0 {
      TrimKeepsValue(s[1..]);
      assert s == s[..1] + s[1..];
      BigEndianAppend(s[..1], s[1..]);
      BigEndianZeros(s[..1]);
    }
  }

  /** A trimmed string is as wide as its value needs. */
  lemma TrimmedWidth(s: Bytes)
    requires s != [] && s[0] != 0
    ensures BigEndian(s) >= BytePow(|s| - 1)
  {
    assert s == s[..1] + s[1..];
    BigEndianAppend(s[..1], s[1..]);
    assert BigEndian(s[..1]) == s[0] by { assert s[..1][..0] == []; }
    MulMono(1, s[0], BytePow(|s| - 1));
  }

  lemma {:induction false} WPowIsBytePow(n: nat)
    ensures WPow(n) == BytePow(8 * n)
  {
    if n > 0 {
      WPowIsBytePow(n - 1);
      EightBytes(8 * (n - 1));
    }
  }

  lemma EightBytes(m: nat)
    ensures BytePow(m + 8) == W * BytePow(m)
  {
    var p := BytePow(m);
    assert BytePow(m + 1) == 0x100 * p;
    assert BytePow(m + 2) == 0x1_0000 * p;
    assert BytePow(m + 3) == 0x100_0000 * p;
    assert BytePow(m + 4) == 0x1_0000_0000 * p;
    assert BytePow(m + 5) == 0x100_0000_0000 * p;
    assert BytePow(m + 6) == 0x1_0000_0000_0000 * p;
    assert BytePow(m + 7) == 0x100_0000_0000_0000 * p;
  }

  lemma BytePowMono(m: nat, n: nat)
    requires m <= n
    ensures BytePow(m) <= BytePow(n)
  {
    BytePowAdd(n - m, m);
    MulMono(1, BytePow(n - m), BytePow(m));
  }

  /** At most eight bytes shifted into one word, as `from_be_bytes` and the DER reader do. */
  method LimbOf(chunk: Bytes) returns (value: u64)
    requires |chunk| <= 8
    ensures value == BigEndian(chunk)
  {
    value := 0;
    for i := 0 to |chunk|
      invariant value == BigEndian(chunk[..i])
    {
      assert chunk[..i + 1][..i] == chunk[..i];
      BigEndianBound(chunk[..i + 1]);
      BytePowMono(i + 1, 8);
      EightBytes(0);
      value := value * 0x100 + chunk[i];
    }
    assert chunk[..|chunk|] == chunk;
  }

  /** `from_be_bytes`: the limbs denote the number the bytes do, and the top limb is never zero. None is the
      refusal of an input wider than MAX_LIMBS. */
  method FromBeBytes(bytes: Bytes) returns (r: Option<seq<u64>>)
    ensures r.None? <==> |Trim(bytes)| > MAX_LIMBS * 8
    ensures r.Some? ==>
      && Val(r.value) == BigEndian(bytes)
      && |r.value| == (|Trim(bytes)| + 7) / 8
      && (r.value != [] ==> r.value[|r.value| - 1] != 0)
  {
    var trimmed := Trim(bytes);
    TrimKeepsValue(bytes);
    if |trimmed| > MAX_LIMBS * 8 {
      return None;
    }
    var limbs: seq<u64> := [];
    var end := |trimmed|;
    assert trimmed[..end] == trimmed;
    while end > 0
      invariant 0 <= end <= |trimmed|
      invariant |limbs| == (|trimmed| - end + 7) / 8
      invariant end > 0 ==> |trimmed| - end == 8 * |limbs|
      invariant BigEndian(trimmed) == BigEndian(trimmed[..end]) * WPow(|limbs|) + Val(limbs)
      invariant end == 0 && limbs != [] ==> limbs[|limbs| - 1] != 0
    {
      var start := if end < 8 then 0 else end - 8;
      var chunk := trimmed[start..end];
      var value := LimbOf(chunk);
      ChunkStep(trimmed, start, end, limbs, value);
      if start == 0 {
        TrimmedWidth(chunk);
      }
      limbs := limbs + [value];
      end := start;
    }
    return Some(limbs);
  }

  lemma ChunkStep(s: Bytes, start: nat, end: nat, limbs: seq<u64>, value: u64)
    requires start < end <= |s|
    requires start == 0 || end == start + 8
    requires value == BigEndian(s[start..end])
    requires BigEndian(s) == BigEndian(s[..end]) * WPow(|limbs|) + Val(limbs)
    ensures BigEndian(s) == BigEndian(s[..start]) * WPow(|limbs| + 1) + Val(limbs + [value])
  {
    assert s[..end] == s[..start] + s[start..end];
    BigEndianAppend(s[..start], s[start..end]);
    EightBytes(0);
    ValAppend(limbs, value);
    WPowNext(|limbs|);
    var high := BigEndian(s[..start]);
    var p := WPow(|limbs|);
    assert high * BytePow(end - start) == high * W;
    ChunkAlgebra(high, value, W, p, WPow(|limbs| + 1));
  }

  lemma ChunkAlgebra(high: int, v: int, w: int, p: int, q: int)
    requires q == w * p
    ensures (high * w + v) * p == high * q + v * p
  {
    assert (high * w) * p == high * (w * p);
  }

  /** The limbs' bytes, least significant first. */
  function FlatBytes(limbs: seq<u64>): (s: Bytes)
    ensures |s| == 8 * |limbs|
  {
    if limbs == [] then [] else FlatBytes(limbs[..|limbs| - 1]) + LeBytes(limbs[|limbs| - 1], 8)
  }

  lemma {:induction false} FlatBytesValue(limbs: seq<u64>)
    ensures LittleEndian(FlatBytes(limbs)) == Val(limbs)
  {
    if limbs != [] {
      var last := |limbs| - 1;
      assert FlatBytes(limbs) == FlatBytes(limbs[..last]) + LeBytes(limbs[last], 8);
      ValSnoc(limbs, last);
      assert limbs[..last + 1] == limbs;
      hide *;
      FlatBytesValue(limbs[..last]);
      LittleEndianAppend(FlatBytes(limbs[..last]), LeBytes(limbs[last], 8));
      FullLimb(limbs[last]);
      WPowIsBytePow(last);
      assert WPow(last) * limbs[last] == limbs[last] * WPow(last);
    }
  }

  lemma FullLimb(x: u64)
    ensures LittleEndian(LeBytes(x, 8)) == x
  {
    EightBytes(0);
    LeBytesValue(x, 8);
  }

  /** `to_be_bytes`: exactly `width` bytes, holding the value modulo 256^width. */
  method ToBeBytes(limbs: seq<u64>, width: nat) returns (r: Bytes)
    ensures |r| == width
    ensures BigEndian(r) == Val(limbs) % BytePow(width)
  {
    var out := new u8[width](_ => 0);
    var flat := FlatBytes(limbs);
    var taken := if |flat| < width then |flat| else width;
    for position := 0 to taken
      invariant forall i :: 0 <= i < position ==> out[width - 1 - i] == flat[i]
      invariant forall i :: 0 <= i < width - position ==> out[i] == 0
    {
      out[width - 1 - position] := flat[position];
    }
    r := out[..];
    PaddedValue(r, flat[..taken]);
    FlatBytesValue(limbs);
    LittleEndianPrefix(flat, taken);
    if |flat| < width {
      LittleEndianBound(flat);
      assert flat[..taken] == flat;
      BytePowMono(|flat|, width);
      ModUnique(Val(limbs), 0, Val(limbs), BytePow(width));
    }
  }

  /** A big-endian string that is zeros and then `low` backwards. */
  lemma PaddedValue(r: Bytes, low: Bytes)
    requires |low| <= |r|
    requires forall i :: 0 <= i < |low| ==> r[|r| - 1 - i] == low[i]
    requires forall i :: 0 <= i < |r| - |low| ==> r[i] == 0
    ensures BigEndian(r) == LittleEndian(low)
  {
    hide *;
    var pad := |r| - |low|;
    forall i | 0 <= i < |low| ensures r[pad..][i] == Reverse(low)[i] {
      ReverseAt(low, |low| - 1 - i);
    }
    assert r[pad..] == Reverse(low);
    assert r == r[..pad] + r[pad..];
    ZeroPrefix(r[..pad], r[pad..]);
    ReverseValue(low);
  }
}
