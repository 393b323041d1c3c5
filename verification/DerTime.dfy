/** The spellings of a time in a token: the reader takes several for one instant, and section 11.7 of X.690 allows one
    of them. */
module DerTime {
  import opened Words
  import opened Dates
  import opened Instants

  const POINT: u8 := 46
  const ZERO: u8 := 48
  const ZULU: u8 := 90

  /** A time from its fourteen digits and the digits of its fraction. */
  function Spell(stamp: Bytes, digits: Bytes): Bytes {
    stamp + ((if digits == [] then [] else [POINT] + digits) + [ZULU])
  }

  /** The digits behind the point. */
  function Fraction(body: Bytes): (digits: Bytes)
    requires TimeLegal(body)
    ensures Digits(digits)
  {
    if |body| == 15 then [] else body[14..|body| - 1][1..]
  }

  lemma Parts(body: Bytes)
    requires TimeLegal(body)
    ensures body == Spell(body[..14], Fraction(body))
  {
    var middle := body[14..|body| - 1];
    assert body == body[..14] + (middle + [ZULU]);
    assert middle != [] ==> middle == [POINT] + middle[1..];
  }

  lemma SpelledIsLegal(stamp: Bytes, digits: Bytes)
    requires |stamp| == 14 && StampLegal(stamp) && Digits(digits)
    ensures var body := Spell(stamp, digits);
      TimeLegal(body) && body[..14] == stamp && Fraction(body) == digits && TimeOf(body) == Some(StampSeconds(stamp))
  {
    var body := Spell(stamp, digits);
    var middle := if digits == [] then [] else [POINT] + digits;
    assert body[..14] == stamp && body[14..|body| - 1] == middle;
    assert digits != [] ==> middle[1..] == digits;
  }

  // ---------------------------------------------------------------------------
  // The same instant
  // ---------------------------------------------------------------------------

  /** Two fractions of a second are equal when they are, brought to one number of digits. */
  predicate SameFraction(x: Bytes, y: Bytes)
    requires Digits(x) && Digits(y)
  {
    Decimal(x) * Pow10(|y|) == Decimal(y) * Pow10(|x|)
  }

  predicate SameInstant(a: Bytes, b: Bytes)
    requires TimeLegal(a) && TimeLegal(b)
  {
    StampSeconds(a[..14]) == StampSeconds(b[..14]) && SameFraction(Fraction(a), Fraction(b))
  }

  predicate NoTrailingZero(digits: Bytes) {
    digits == [] || digits[|digits| - 1] != ZERO
  }

  function Stripped(digits: Bytes): Bytes {
    if NoTrailingZero(digits) then digits else Stripped(digits[..|digits| - 1])
  }

  /** The spelling of section 11.7: no zero ends the fraction, and no point stands without one. */
  function DerSpelling(body: Bytes): Bytes
    requires TimeLegal(body)
  {
    Spell(body[..14], Stripped(Fraction(body)))
  }

  // ---------------------------------------------------------------------------
  // Digits
  // ---------------------------------------------------------------------------

  lemma {:induction false} DecimalInjective(x: Bytes, y: Bytes)
    requires Digits(x) && Digits(y) && |x| == |y| && Decimal(x) == Decimal(y)
    ensures x == y
  {
    if x != [] {
      var last := |x| - 1;
      DecimalInjective(x[..last], y[..last]);
      assert x == x[..last] + [x[last]] && y == y[..last] + [y[last]];
    }
  }

  function Zeros(n: nat): (r: Bytes)
    ensures |r| == n && Digits(r)
  {
    if n == 0 then [] else Zeros(n - 1) + [ZERO]
  }

  /** Zeros behind it scale a number. */
  lemma {:induction false} DecimalZeros(x: Bytes, k: nat)
    requires Digits(x)
    ensures Digits(x + Zeros(k)) && Decimal(x + Zeros(k)) == Decimal(x) * Pow10(k)
  {
    if k == 0 {
      assert x + Zeros(0) == x;
    } else {
      DecimalZeros(x, k - 1);
      assert x + Zeros(k) == x + Zeros(k - 1) + [ZERO];
      DigitsSnoc(x + Zeros(k - 1), ZERO);
      ScaleTen(Decimal(x), Pow10(k - 1));
    }
  }

  lemma {:induction false} StrippedZeros(x: Bytes, k: nat)
    ensures Stripped(x + Zeros(k)) == Stripped(x)
  {
    if k == 0 {
      assert x + Zeros(0) == x;
    } else {
      StrippedZeros(x, k - 1);
      assert (x + Zeros(k))[..|x + Zeros(k)| - 1] == x + Zeros(k - 1);
    }
  }

  /** Stripping takes zeros away and nothing else. */
  lemma {:induction false} StrippedIsPrefix(x: Bytes) returns (k: nat)
    ensures x == Stripped(x) + Zeros(k) && NoTrailingZero(Stripped(x))
    decreases |x|
  {
    k := 0;
    if NoTrailingZero(x) {
      assert x + Zeros(0) == x;
    } else {
      var last := |x| - 1;
      var n := StrippedIsPrefix(x[..last]);
      k := n + 1;
      assert x == x[..last] + [ZERO];
      Associate(Stripped(x), Zeros(n), [ZERO]);
    }
  }

  lemma Cancel(a: nat, b: nat, p: nat, q: nat)
    requires p >= 1 && a * (p * q) == b * p
    ensures a * q == b
  {
    assert p * (a * q) == p * b;
    if a * q < b {
      MulMono(a * q + 1, b, p);
    } else if a * q > b {
      MulMono(b + 1, a * q, p);
    }
  }

  /** The longer of two equal fractions is the shorter one and zeros. */
  lemma LongerHasZeros(x: Bytes, y: Bytes)
    requires Digits(x) && Digits(y) && |x| <= |y| && SameFraction(x, y)
    ensures y == x + Zeros(|y| - |x|)
  {
    var k := |y| - |x|;
    Pow10Add(|x|, k);
    Cancel(Decimal(x), Decimal(y), Pow10(|x|), Pow10(k));
    DecimalZeros(x, k);
    DecimalInjective(y, x + Zeros(k));
  }

  lemma ScaledAlike(d: nat, i: nat, j: nat, n: nat)
    ensures (d * Pow10(i)) * Pow10(n + j) == (d * Pow10(j)) * Pow10(n + i)
  {
    Pow10Add(n, i);
    Pow10Add(n, j);
    Crossed(d, Pow10(i), Pow10(j), Pow10(n));
  }

  lemma Crossed(d: nat, p: nat, q: nat, r: nat)
    ensures (d * p) * (r * q) == (d * q) * (r * p)
  {
  }

  lemma SameFractionIsStripped(x: Bytes, y: Bytes)
    requires Digits(x) && Digits(y)
    ensures SameFraction(x, y) <==> Stripped(x) == Stripped(y)
  {
    hide *;
    if SameFraction(x, y) {
      SameStrips(x, y);
    }
    if Stripped(x) == Stripped(y) {
      StripsSame(x, y);
    }
  }

  lemma SameStrips(x: Bytes, y: Bytes)
    requires Digits(x) && Digits(y) && SameFraction(x, y)
    ensures Stripped(x) == Stripped(y)
  {
    if |x| <= |y| {
      LongerHasZeros(x, y);
      StrippedZeros(x, |y| - |x|);
    } else {
      LongerHasZeros(y, x);
      StrippedZeros(y, |x| - |y|);
    }
  }

  lemma StripsSame(x: Bytes, y: Bytes)
    requires Digits(x) && Digits(y) && Stripped(x) == Stripped(y)
    ensures SameFraction(x, y)
  {
    var i := StrippedIsPrefix(x);
    var j := StrippedIsPrefix(y);
    var s := Stripped(x);
    assert Digits(s) by { assert forall n :: 0 <= n < |s| ==> s[n] == x[n]; }
    hide Stripped, Decimal, Pow10, Zeros, Digits;
    DecimalZeros(s, i);
    DecimalZeros(s, j);
    ScaledAlike(Decimal(s), i, j, |s|);
  }

  // ---------------------------------------------------------------------------
  // The date and the time
  // ---------------------------------------------------------------------------

  lemma SecondsDecide(d: int, s: int, d': int, s': int)
    requires 0 <= s < 86_400 && 0 <= s' < 86_400 && d * 86_400 + s == d' * 86_400 + s'
    ensures d == d' && s == s'
  {
  }

  lemma ClockDecides(h: nat, m: nat, s: nat, h': nat, m': nat, s': nat)
    requires m <= 59 && s <= 59 && m' <= 59 && s' <= 59
    requires h * 3600 + m * 60 + s == h' * 3600 + m' * 60 + s'
    ensures h == h' && m == m' && s == s'
  {
  }

  /** One second has one stamp. */
  lemma StampDecides(f: Bytes, g: Bytes)
    requires |f| == |g| == 14 && StampLegal(f) && StampLegal(g) && StampSeconds(f) == StampSeconds(g)
    ensures f == g
  {
    var y, mo, d := Decimal(f[0..4]), Decimal(f[4..6]), Decimal(f[6..8]);
    var h, mi, s := Decimal(f[8..10]), Decimal(f[10..12]), Decimal(f[12..14]);
    var y', mo', d' := Decimal(g[0..4]), Decimal(g[4..6]), Decimal(g[6..8]);
    var h', mi', s' := Decimal(g[8..10]), Decimal(g[10..12]), Decimal(g[12..14]);
    FieldsDecide(y, mo, d, h, mi, s, y', mo', d', h', mi', s');
    hide Decimal, Exists, SecondsAt;
    DecimalInjective(f[0..4], g[0..4]);
    DecimalInjective(f[4..6], g[4..6]);
    DecimalInjective(f[6..8], g[6..8]);
    DecimalInjective(f[8..10], g[8..10]);
    DecimalInjective(f[10..12], g[10..12]);
    DecimalInjective(f[12..14], g[12..14]);
    hide *;
    SixFields(f, g);
  }

  lemma SixFields(f: Bytes, g: Bytes)
    requires |f| == |g| == 14
    requires f[0..4] == g[0..4] && f[4..6] == g[4..6] && f[6..8] == g[6..8] && f[8..10] == g[8..10]
    requires f[10..12] == g[10..12] && f[12..14] == g[12..14]
    ensures f == g
  {
    forall i | 0 <= i < 14
      ensures f[i] == g[i]
    {
      if i < 4 {
        assert f[0..4][i] == g[0..4][i];
      } else {
        var at := i / 2 * 2;
        assert f[at..at + 2][i - at] == g[at..at + 2][i - at];
      }
    }
  }

  lemma FieldsDecide(y: nat, mo: nat, d: nat, h: nat, mi: nat, s: nat,
                     y': nat, mo': nat, d': nat, h': nat, mi': nat, s': nat)
    requires Exists(y, mo, d, h, mi, s) && Exists(y', mo', d', h', mi', s')
    requires SecondsAt(y, mo, d, h, mi, s) == SecondsAt(y', mo', d', h', mi', s')
    ensures y == y' && mo == mo' && d == d' && h == h' && mi == mi' && s == s'
  {
    CivilUndoesDays(Date(y, mo, d));
    CivilUndoesDays(Date(y', mo', d'));
    hide DaysFromCivil, CivilFromDays, Valid;
    var clock, clock' := h * 3600 + mi * 60 + s, h' * 3600 + mi' * 60 + s';
    SecondsDecide(DaysFromCivil(y, mo, d), clock, DaysFromCivil(y', mo', d'), clock');
    ClockDecides(h, mi, s, h', mi', s');
  }

  // ---------------------------------------------------------------------------
  // One spelling of DER
  // ---------------------------------------------------------------------------

  /** Two bodies that are read are of one instant, fraction included, if and only if they have one DER spelling. */
  lemma OneDerSpelling(a: Bytes, b: Bytes)
    requires TimeLegal(a) && TimeLegal(b)
    ensures SameInstant(a, b) <==> DerSpelling(a) == DerSpelling(b)
  {
    var f, g, x, y := a[..14], b[..14], Stripped(Fraction(a)), Stripped(Fraction(b));
    SameFractionIsStripped(Fraction(a), Fraction(b));
    if SameInstant(a, b) {
      StampDecides(f, g);
    }
    if DerSpelling(a) == DerSpelling(b) {
      assert Spell(f, x)[..14] == f && Spell(g, y)[..14] == g;
      DerSpellingIsRead(a);
      DerSpellingIsRead(b);
    }
  }

  /** The DER spelling is read, as the same instant, and is no longer than the body. */
  lemma DerSpellingIsRead(a: Bytes)
    requires TimeLegal(a)
    ensures var der := DerSpelling(a);
      && TimeLegal(der) && TimeOf(der) == TimeOf(a) && Fraction(der) == Stripped(Fraction(a)) && der[..14] == a[..14]
      && |der| <= |a|
  {
    var k := StrippedIsPrefix(Fraction(a));
    var s := Stripped(Fraction(a));
    assert Digits(s) by { assert forall n :: 0 <= n < |s| ==> s[n] == Fraction(a)[n]; }
    hide StampLegal, StampSeconds, Digits;
    Parts(a);
    SpelledIsLegal(a[..14], s);
  }

  /** A body that is read is the DER spelling of its instant if and only if it has no fraction or one that does not
      end in zero. */
  lemma DerExactly(a: Bytes)
    requires TimeLegal(a)
    ensures a == DerSpelling(a) <==> NoTrailingZero(Fraction(a))
  {
    var k := StrippedIsPrefix(Fraction(a));
    DerSpellingIsRead(a);
    Parts(a);
  }

  /** Any second can be spelled without a fraction and with one of zero: both are read, and they are one instant. */
  lemma ZeroFraction(stamp: Bytes)
    requires |stamp| == 14 && StampLegal(stamp)
    ensures var a, b := Spell(stamp, []), Spell(stamp, [ZERO]);
      && TimeLegal(a) && TimeLegal(b) && TimeOf(a) == TimeOf(b) && SameInstant(a, b)
      && a == DerSpelling(b) && b != DerSpelling(b)
  {
    hide StampLegal, StampSeconds;
    SpelledIsLegal(stamp, []);
    SpelledIsLegal(stamp, [ZERO]);
    assert Stripped([ZERO]) == [] by { assert [ZERO][..0] == []; }
    SameFractionIsStripped([], [ZERO]);
  }

  /** New Year 2026, twice. */
  lemma TwoSpellings() returns (a: Bytes, b: Bytes)
    ensures a == Spell(Ascii("20260101000000"), []) && b == Spell(Ascii("20260101000000"), [ZERO])
    ensures a != b && TimeLegal(a) && TimeLegal(b) && TimeOf(a) == TimeOf(b) && SameInstant(a, b)
  {
    var stamp := Ascii("20260101000000");
    a, b := Spell(stamp, []), Spell(stamp, [ZERO]);
    StampOfNewYear(stamp);
    hide *;
    ZeroFraction(stamp);
  }

  lemma StampOfNewYear(stamp: Bytes)
    requires stamp == Ascii("20260101000000")
    ensures StampLegal(stamp)
  {
    assert stamp[0..4] == [50, 48, 50, 54] && stamp[4..6] == [48, 49] && stamp[6..8] == [48, 49];
    assert stamp[8..10] == [48, 48] && stamp[10..12] == [48, 48] && stamp[12..14] == [48, 48];
    FourDigits(50, 48, 50, 54);
    TwoDigits(48, 49);
    TwoDigits(48, 48);
    hide Decimal;
  }

  lemma TwoDigits(a: u8, b: u8)
    requires Digit(a) && Digit(b)
    ensures Digits([a, b]) && Decimal([a, b]) == 10 * (a - 48) + b - 48
  {
    assert [a, b][..1] == [a] && [a][..0] == [];
    assert Decimal([a]) == a - 48;
  }

  lemma FourDigits(a: u8, b: u8, c: u8, d: u8)
    requires Digit(a) && Digit(b) && Digit(c) && Digit(d)
    ensures Digits([a, b, c, d])
    ensures Decimal([a, b, c, d]) == 1000 * (a - 48) + 100 * (b - 48) + 10 * (c - 48) + d - 48
  {
    TwoDigits(a, b);
    DigitsSnoc([a, b], c);
    DigitsSnoc([a, b, c], d);
    assert [a, b] + [c] == [a, b, c] && [a, b, c] + [d] == [a, b, c, d];
  }
}
