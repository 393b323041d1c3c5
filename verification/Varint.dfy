/** The variable-length numbers of a canonical record, as the verifier's cursor reads them: seven bits a byte, least
    first, and the top bit set on every byte but the last. */
module Varint {
  import opened Words

  datatype VarintError = Truncated | TooWide

  /** 128^n. */
  function Pow128(n: nat): (r: nat)
    ensures r >= 1
  {
    if n == 0 then 1 else 0x80 * Pow128(n - 1)
  }

  function Digit(b: u8, place: nat): nat {
    b % 0x80 * Pow128(place)
  }

  /** The number the first n bytes spell. */
  function Leb(buf: Bytes, n: nat): nat
    requires n <= |buf|
  {
    if n == 0 then 0 else Leb(buf, n - 1) + Digit(buf[n - 1], n - 1)
  }

  /** The first n bytes all say that another one follows. */
  predicate GoesOn(buf: Bytes, n: nat)
    requires n <= |buf|
  {
    forall i :: 0 <= i < n ==> buf[i] >= 0x80
  }

  /** How many bytes say so before one that does not, or before the end. */
  function Continued(buf: Bytes, n: nat := 0): (r: nat)
    requires n <= |buf| && GoesOn(buf, n)
    ensures n <= r <= |buf| && GoesOn(buf, r) && (r < |buf| ==> buf[r] < 0x80)
    decreases |buf| - n
  {
    if n < |buf| && buf[n] >= 0x80 then Continued(buf, n + 1) else n
  }

  lemma ContinuedIs(buf: Bytes, n: nat)
    requires n <= |buf| && GoesOn(buf, n)
    ensures Continued(buf) >= n
    ensures n == |buf| || buf[n] < 0x80 ==> Continued(buf) == n
  {
    var r := Continued(buf);
    assert !(r < n);
  }

  /** At most ten bytes are read; an eleventh is not asked for. */
  function Read(buf: Bytes): Result<(nat, Bytes), VarintError> {
    var n := Continued(buf);
    if n >= 10 then Err(TooWide)
    else if n == |buf| then Err(Truncated)
    else Ok((Leb(buf, n + 1), buf[n + 1..]))
  }

  /** `varint`. */
  method ReadVarint(buf: Bytes) returns (r: Result<(nat, Bytes), VarintError>)
    ensures r == Read(buf)
  {
    var value: nat, shift: nat, pos: nat := 0, 0, 0;
    while true
      invariant pos <= |buf| && pos <= 10 && shift == 7 * pos && GoesOn(buf, pos) && value == Leb(buf, pos)
      decreases |buf| - pos
    {
      hide Digit;
      ContinuedIs(buf, pos);
      if shift >= 64 {
        return Err(TooWide);
      }
      if pos >= |buf| {
        return Err(Truncated);
      }
      var b := buf[pos];
      value := value + Digit(b, pos);
      pos := pos + 1;
      if b < 0x80 {
        return Ok((value, buf[pos..]));
      }
      shift := shift + 7;
    }
  }

  /** A number is refused as too wide when ten bytes say that another one follows, and as truncated when fewer are
      there and all of them say so. */
  lemma RefusalsExactly(buf: Bytes)
    ensures Read(buf) == Err(TooWide) <==> |buf| >= 10 && forall i :: 0 <= i < 10 ==> buf[i] >= 0x80
    ensures Read(buf) == Err(Truncated) <==> |buf| < 10 && forall i :: 0 <= i < |buf| ==> buf[i] >= 0x80
  {
    if |buf| >= 10 && forall i :: 0 <= i < 10 ==> buf[i] >= 0x80 {
      ContinuedIs(buf, 10);
    }
    if |buf| < 10 && forall i :: 0 <= i < |buf| ==> buf[i] >= 0x80 {
      ContinuedIs(buf, |buf|);
    }
  }

  // ---------------------------------------------------------------------------
  // What is written is read
  // ---------------------------------------------------------------------------

  /** A number as a journal writes it: the low seven bits first, the top bit set while there are more. */
  function Written(v: nat): (r: Bytes)
    ensures r != []
  {
    if v < 0x80 then [v] else [0x80 + v % 0x80] + Written(v / 0x80)
  }

  lemma {:induction false} LebShift(buf: Bytes, n: nat)
    requires 1 <= n <= |buf|
    ensures Leb(buf, n) == buf[0] % 0x80 + 0x80 * Leb(buf[1..], n - 1)
  {
    if n > 1 {
      LebShift(buf, n - 1);
      ShiftDigit(buf[n - 1] % 0x80, Pow128(n - 2));
    } else {
      assert Pow128(0) == 1 && Leb(buf, 0) == 0;
    }
  }

  lemma ShiftDigit(d: nat, p: nat)
    ensures d * (0x80 * p) == 0x80 * (d * p)
  {
  }

  lemma SevenBits(v: nat)
    ensures v == v % 0x80 + 0x80 * (v / 0x80) && (0x80 + v % 0x80) % 0x80 == v % 0x80
  {
  }

  lemma {:induction false} WrittenSpells(v: nat, rest: Bytes)
    ensures var w := Written(v);
      Leb(w + rest, |w|) == v && GoesOn(w + rest, |w| - 1) && (w + rest)[|w| - 1] < 0x80
  {
    if v < 0x80 {
      OneByteSpells(v, rest);
    } else {
      var w, more := Written(v), Written(v / 0x80);
      assert w == [0x80 + v % 0x80] + more;
      WrittenSpells(v / 0x80, rest);
      hide *;
      var buf := w + rest;
      assert buf[0] == 0x80 + v % 0x80 && buf[1..] == more + rest && buf[|w| - 1] == (more + rest)[|more| - 1];
      LebShift(buf, |w|);
      SevenBits(v);
      GoesOnBehind(buf, |more| - 1);
    }
  }

  lemma OneByteSpells(v: nat, rest: Bytes)
    requires v < 0x80
    ensures Written(v) == [v] && Leb([v] + rest, 1) == v && GoesOn([v] + rest, 0)
  {
    LebShift([v] + rest, 1);
    assert Leb(([v] + rest)[1..], 0) == 0;
  }

  lemma GoesOnBehind(buf: Bytes, n: nat)
    requires n < |buf| && buf[0] >= 0x80 && GoesOn(buf[1..], n)
    ensures GoesOn(buf, n + 1)
  {
    forall i | 0 <= i < n + 1
      ensures buf[i] >= 0x80
    {
      if i > 0 {
        assert buf[1..][i - 1] >= 0x80;
      }
    }
  }

  lemma {:induction false} WrittenWidth(v: nat, n: nat)
    requires n >= 1 && v < Pow128(n)
    ensures |Written(v)| <= n
  {
    if v >= 0x80 {
      assert n > 1 && v / 0x80 < Pow128(n - 1) by {
        assert Pow128(0) == 1;
      }
      WrittenWidth(v / 0x80, n - 1);
    }
  }

  /** Any number of up to 70 bits that was written is read back, whatever follows it. */
  lemma WrittenReadsBack(v: nat, rest: Bytes)
    requires v < 0x40_0000_0000_0000_0000
    ensures Read(Written(v) + rest) == Ok((v, rest))
  {
    Widths();
    WrittenWidth(v, 10);
    WrittenSpells(v, rest);
    hide Leb, Written;
    var w := Written(v);
    ContinuedIs(w + rest, |w| - 1);
    assert (w + rest)[|w|..] == rest;
  }

  // ---------------------------------------------------------------------------
  // How wide a number can be
  // ---------------------------------------------------------------------------

  lemma {:induction false} LebBound(buf: Bytes, n: nat)
    requires n <= |buf|
    ensures Leb(buf, n) < Pow128(n)
  {
    if n > 0 {
      LebBound(buf, n - 1);
      LastDigit(buf[n - 1] % 0x80, Leb(buf, n - 1), Pow128(n - 1));
    }
  }

  lemma LastDigit(d: nat, low: nat, p: nat)
    requires d < 0x80 && low < p
    ensures low + d * p < 0x80 * p
    ensures d >= 2 ==> 2 * p <= low + d * p
    ensures d <= 1 ==> low + d * p < 2 * p
  {
    MulMono(d, 0x7F, p);
    if d >= 2 {
      MulMono(2, d, p);
    } else {
      MulMono(d, 1, p);
    }
  }

  lemma {:induction false} Pow128Mono(m: nat, n: nat)
    requires m <= n
    ensures Pow128(m) <= Pow128(n)
    decreases n - m
  {
    if m < n {
      Pow128Mono(m, n - 1);
    }
  }

  lemma Widths()
    ensures Pow128(9) == 0x8000_0000_0000_0000 && Pow128(10) == 0x40_0000_0000_0000_0000
  {
    assert Pow128(3) == 0x20_0000;
    assert Pow128(6) == 0x400_0000_0000;
    assert Pow128(9) == 0x8000_0000_0000_0000;
  }

  /** A number that is read has up to 70 bits. It has no more than 64 if and only if it took fewer than ten bytes or
      its tenth byte is zero or one. */
  lemma SixtyFourBitsExactly(buf: Bytes)
    requires Read(buf).Ok?
    ensures Read(buf).value.0 < 0x40_0000_0000_0000_0000
    ensures Read(buf).value.0 < 0x1_0000_0000_0000_0000 <==> Continued(buf) < 9 || buf[9] <= 1
  {
    var n := Continued(buf);
    Widths();
    LebBound(buf, n + 1);
    if n < 9 {
      Pow128Mono(n + 1, 9);
    } else {
      LebBound(buf, 9);
      LastDigit(buf[9] % 0x80, Leb(buf, 9), Pow128(9));
    }
  }

  /** Nine bytes of 0x80 and one of 0x02 are the number 2^64, and they are read. */
  lemma WideNumber() returns (buf: Bytes)
    ensures buf == [0x80, 0x80, 0x80, 0x80, 0x80, 0x80, 0x80, 0x80, 0x80, 0x02]
    ensures Read(buf) == Ok((0x1_0000_0000_0000_0000, []))
  {
    buf := [0x80, 0x80, 0x80, 0x80, 0x80, 0x80, 0x80, 0x80, 0x80, 0x02];
    ContinuedIs(buf, 9);
    ZeroDigits(buf, 9);
    Widths();
    assert Leb(buf, 10) == Leb(buf, 9) + Digit(2, 9) && buf[10..] == [];
  }

  lemma {:induction false} ZeroDigits(buf: Bytes, n: nat)
    requires n <= |buf| && forall i :: 0 <= i < n ==> buf[i] % 0x80 == 0
    ensures Leb(buf, n) == 0
  {
    if n > 0 {
      ZeroDigits(buf, n - 1);
    }
  }
}
