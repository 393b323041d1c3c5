/** Machine words as the program sees them, and the result types it returns.

    Words are bounded integers; every wrap-around, truncation and shift of the program is written out
    with `%` and `/`, so a value that would not fit its word is a proof obligation rather than a
    silent wrap. */
module Words {
  type u8 = x: int | 0 <= x < 0x100
  type u16 = x: int | 0 <= x < 0x1_0000
  type u32 = x: int | 0 <= x < 0x1_0000_0000
  type u64 = x: int | 0 <= x < 0x1_0000_0000_0000_0000
  type u128 = x: int | 0 <= x < 0x1_0000_0000_0000_0000_0000_0000_0000_0000
  type i64 = x: int | -0x8000_0000_0000_0000 <= x < 0x8000_0000_0000_0000

  type Bytes = seq<u8>

  datatype Option<+T> = None | Some(value: T)

  datatype Result<+T, +E> = Ok(value: T) | Err(error: E) {
    predicate IsFailure() {
      Err?
    }

    function PropagateFailure<U>(): Result<U, E>
      requires Err?
    {
      Err(error)
    }

    function Extract(): T
      requires Ok?
    {
      value
    }
  }

  /** The bytes of a label. */
  function Ascii(s: seq<char>): (r: Bytes)
    ensures |r| == |s|
  {
    seq(|s|, i requires 0 <= i < |s| => s[i] as int % 256)
  }

  /** Two equal strings cut at one place are equal on both sides. */
  lemma SplitEqual(a: Bytes, b: Bytes, x: Bytes, y: Bytes)
    requires |a| == |b| && a + x == b + y
    ensures a == b && x == y
  {
    assert a == (a + x)[..|a|] && b == (b + y)[..|a|];
    assert x == (a + x)[|a|..] && y == (b + y)[|a|..];
  }

  lemma Associate(a: Bytes, b: Bytes, c: Bytes)
    ensures a + (b + c) == a + b + c
  {
  }

  /** The big-endian value of a byte string: OS2IP of section 4.2 of RFC 8017. */
  function BigEndian(s: Bytes): nat {
    if s == [] then 0 else 0x100 * BigEndian(s[..|s| - 1]) + s[|s| - 1]
  }

  /** 256^n. */
  function BytePow(n: nat): nat
    ensures BytePow(n) >= 1
  {
    if n == 0 then 1 else 0x100 * BytePow(n - 1)
  }

  lemma {:induction false} BigEndianAppend(a: Bytes, b: Bytes)
    ensures BigEndian(a + b) == BigEndian(a) * BytePow(|b|) + BigEndian(b)
  {
    if b == [] {
      assert a + b == a;
    } else {
      var last := |b| - 1;
      assert (a + b)[..|a + b| - 1] == a + b[..last];
      assert BigEndian(a + b) == 0x100 * BigEndian(a + b[..last]) + b[last];
      assert BigEndian(b) == 0x100 * BigEndian(b[..last]) + b[last];
      assert BytePow(|b|) == 0x100 * BytePow(last);
      hide *;
      BigEndianAppend(a, b[..last]);
      ScaleProduct(BytePow(|b|), BytePow(last), BigEndian(a));
    }
  }

  lemma {:induction false} BigEndianBound(s: Bytes)
    ensures BigEndian(s) < BytePow(|s|)
  {
    if s != [] {
      BigEndianBound(s[..|s| - 1]);
    }
  }

  /** Byte strings of one length are told apart by their value. */
  lemma {:induction false} BigEndianInjective(a: Bytes, b: Bytes)
    requires |a| == |b|
    requires BigEndian(a) == BigEndian(b)
    ensures a == b
  {
    if a != [] {
      var last := |a| - 1;
      BigEndianInjective(a[..last], b[..last]);
      assert a == a[..last] + [a[last]] && b == b[..last] + [b[last]];
    }
  }

  /** How many numbers fit the widths the formats use. */
  lemma ByteWidths()
    ensures BytePow(2) == 0x1_0000 && BytePow(8) == 0x1_0000_0000_0000_0000
    ensures BytePow(16) == 0x1_0000_0000_0000_0000_0000_0000_0000_0000
  {
    assert BytePow(4) == 0x1_0000_0000;
    assert BytePow(6) == 0x1_0000_0000_0000;
    assert BytePow(8) == 0x1_0000_0000_0000_0000;
    BytePowAdd(8, 8);
  }

  lemma {:induction false} BytePowAdd(m: nat, n: nat)
    ensures BytePow(m + n) == BytePow(m) * BytePow(n)
  {
    if m > 0 {
      BytePowAdd(m - 1, n);
      assert BytePow(m) * BytePow(n) == 0x100 * (BytePow(m - 1) * BytePow(n));
    }
  }

  /** Zeros in front add nothing. */
  lemma {:induction false} BigEndianZeros(s: Bytes)
    requires forall i :: 0 <= i < |s| ==> s[i] == 0
    ensures BigEndian(s) == 0
  {
    if s != [] {
      BigEndianZeros(s[..|s| - 1]);
    }
  }

  lemma {:induction false} ZeroPrefix(a: Bytes, b: Bytes)
    requires forall i :: 0 <= i < |a| ==> a[i] == 0
    ensures BigEndian(a + b) == BigEndian(b)
  {
    if b == [] {
      assert a + b == a;
      BigEndianZeros(a);
    } else {
      var last := |b| - 1;
      assert (a + b)[..|a + b| - 1] == a + b[..last];
      ZeroPrefix(a, b[..last]);
    }
  }

  /** The little-endian value of a byte string. */
  function LittleEndian(s: Bytes): nat {
    if s == [] then 0 else s[0] + 0x100 * LittleEndian(s[1..])
  }

  /** The low n bytes of x, least significant first: `to_le_bytes`. */
  function LeBytes(x: nat, n: nat): (s: Bytes)
    ensures |s| == n
  {
    if n == 0 then [] else [x % 0x100] + LeBytes(x / 0x100, n - 1)
  }

  /** The low n bytes of x, most significant first: `to_be_bytes`. */
  function BeBytes(x: nat, n: nat): (s: Bytes)
    ensures |s| == n
  {
    if n == 0 then [] else BeBytes(x / 0x100, n - 1) + [x % 0x100]
  }

  /** Which end is which. */
  lemma BothEnds()
    ensures BigEndian([1, 2]) == 258 && BeBytes(258, 2) == [1, 2]
    ensures LittleEndian([1, 2]) == 513 && LeBytes(513, 2) == [1, 2]
    ensures Ascii("Az09/") == [0x41, 0x7A, 0x30, 0x39, 0x2F]
  {
    assert [1, 2][..1] == [1] && [1][..0] == [] && [1, 2][1..] == [2] && [2][1..] == [];
    assert BeBytes(258, 2) == BeBytes(1, 1) + [2] && BeBytes(1, 1) == [] + [1];
  }

  lemma {:induction false} LeBytesValue(x: nat, n: nat)
    requires x < BytePow(n)
    ensures LittleEndian(LeBytes(x, n)) == x
  {
    if n > 0 {
      LeBytesValue(x / 0x100, n - 1);
      assert LeBytes(x, n)[1..] == LeBytes(x / 0x100, n - 1);
    }
  }

  lemma {:induction false} BeBytesValue(x: nat, n: nat)
    requires x < BytePow(n)
    ensures BigEndian(BeBytes(x, n)) == x
  {
    if n > 0 {
      BeBytesValue(x / 0x100, n - 1);
      assert BeBytes(x, n)[..n - 1] == BeBytes(x / 0x100, n - 1);
    }
  }

  /** Fixed-width encodings of different numbers differ. */
  lemma BeBytesInjective(x: nat, y: nat, n: nat)
    requires x < BytePow(n) && y < BytePow(n)
    requires BeBytes(x, n) == BeBytes(y, n)
    ensures x == y
  {
    BeBytesValue(x, n);
    BeBytesValue(y, n);
  }

  function Reverse(s: Bytes): (r: Bytes)
    ensures |r| == |s|
  {
    if s == [] then [] else Reverse(s[1..]) + [s[0]]
  }

  lemma {:induction false} ReverseAt(s: Bytes, i: nat)
    requires i < |s|
    ensures Reverse(s)[|s| - 1 - i] == s[i]
  {
    if i > 0 {
      ReverseAt(s[1..], i - 1);
    }
  }

  lemma {:induction false} ReverseValue(s: Bytes)
    ensures BigEndian(Reverse(s)) == LittleEndian(s)
  {
    if s != [] {
      ReverseValue(s[1..]);
      assert Reverse(s)[..|s| - 1] == Reverse(s[1..]);
    }
  }

  lemma {:induction false} LittleEndianAppend(a: Bytes, b: Bytes)
    ensures LittleEndian(a + b) == LittleEndian(a) + BytePow(|a|) * LittleEndian(b)
  {
    if a == [] {
      assert a + b == b;
    } else {
      assert (a + b)[1..] == a[1..] + b;
      LittleEndianAppend(a[1..], b);
      ScaleProduct(BytePow(|a|), BytePow(|a| - 1), LittleEndian(b));
    }
  }

  lemma ScaleProduct(q: int, p: int, x: int)
    requires q == 0x100 * p
    ensures q * x == 0x100 * (p * x)
    ensures x * q == 0x100 * (x * p)
  {
  }

  lemma {:induction false} LittleEndianBound(s: Bytes)
    ensures LittleEndian(s) < BytePow(|s|)
  {
    if s != [] {
      LittleEndianBound(s[1..]);
    }
  }

  /** A truncated little-endian string keeps the value modulo its width. */
  lemma LittleEndianPrefix(s: Bytes, j: nat)
    requires j <= |s|
    ensures LittleEndian(s[..j]) == LittleEndian(s) % BytePow(j)
  {
    assert s == s[..j] + s[j..];
    LittleEndianAppend(s[..j], s[j..]);
    LittleEndianBound(s[..j]);
    ModUnique(LittleEndian(s), LittleEndian(s[j..]), LittleEndian(s[..j]), BytePow(j));
  }

  lemma MulMono(x: int, y: int, p: int)
    requires x <= y && 0 <= p
    ensures x * p <= y * p
  {
    assert 0 <= (y - x) * p;
  }

  lemma ModUnique(x: int, q: int, r: int, m: int)
    requires m > 0 && 0 <= r < m
    requires x == r + m * q
    ensures x % m == r && x / m == q
  {
    var d := x / m - q;
    DivIdentity(x, m);
    assert m * d == m * (x / m) - m * q;
    if d >= 1 {
      MulMono(1, d, m);
    } else if d <= -1 {
      MulMono(d, -1, m);
    }
  }

  lemma DivNonneg(x: int, m: int)
    requires 0 <= x && m > 0
    ensures 0 <= x / m
  {
    var q := x / m;
    DivIdentity(x, m);
    if q < 0 {
      MulMono(q, -1, m);
    }
  }

  lemma DivIdentity(x: int, m: int)
    requires m > 0
    ensures x == m * (x / m) + x % m && 0 <= x % m < m
  {
  }
}
