/** Timestamps as text: section 5.6 of RFC 3339, and the GeneralizedTime of a timestamp token. */
module Instants {
  import opened Words
  import opened Dates

  predicate Digit(b: u8) {
    48 <= b <= 57
  }

  predicate Digits(s: Bytes) {
    forall i :: 0 <= i < |s| ==> Digit(s[i])
  }

  function Decimal(s: Bytes): nat
    requires Digits(s)
  {
    if s == [] then 0 else 10 * Decimal(s[..|s| - 1]) + s[|s| - 1] - 48
  }

  function Pow10(n: nat): (p: nat)
    ensures p >= 1
  {
    if n == 0 then 1 else 10 * Pow10(n - 1)
  }

  lemma {:induction false} DecimalBound(s: Bytes)
    requires Digits(s)
    ensures Decimal(s) < Pow10(|s|)
  {
    if s != [] {
      DecimalBound(s[..|s| - 1]);
    }
  }

  // ---------------------------------------------------------------------------
  // The grammar
  // ---------------------------------------------------------------------------

  /** A date and a time of day that exist. A leap second does not: there is no room for it in the count. */
  predicate Exists(year: nat, month: nat, day: nat, hour: nat, minute: nat, second: nat) {
    Valid(Date(year, month, day)) && hour <= 23 && minute <= 59 && second <= 59
  }

  function SecondsAt(year: nat, month: nat, day: nat, hour: nat, minute: nat, second: nat): int {
    DaysFromCivil(year, month, day) * 86_400 + (hour * 3600 + minute * 60 + second)
  }

  /** `YYYY-MM-DDTHH:MM:SS`. */
  predicate FrontLegal(f: Bytes)
    requires |f| == 19
  {
    && f[4] == '-' as int && f[7] == '-' as int && (f[10] == 'T' as int || f[10] == 't' as int)
    && f[13] == ':' as int && f[16] == ':' as int
    && Digits(f[0..4]) && Digits(f[5..7]) && Digits(f[8..10]) && Digits(f[11..13]) && Digits(f[14..16])
    && Digits(f[17..19])
    && Exists(Decimal(f[0..4]), Decimal(f[5..7]), Decimal(f[8..10]),
              Decimal(f[11..13]), Decimal(f[14..16]), Decimal(f[17..19]))
  }

  function FrontSeconds(f: Bytes): int
    requires |f| == 19 && FrontLegal(f)
  {
    SecondsAt(Decimal(f[0..4]), Decimal(f[5..7]), Decimal(f[8..10]),
              Decimal(f[11..13]), Decimal(f[14..16]), Decimal(f[17..19]))
  }

  predicate FractionLegal(f: Bytes) {
    f == [] || (|f| >= 2 && f[0] == '.' as int && Digits(f[1..]))
  }

  /** Nine digits count; what is past them is cut off, not rounded. */
  function Nanos(f: Bytes): nat
    requires FractionLegal(f)
  {
    if f == [] then 0
    else
      var taken := if |f| - 1 < 9 then |f| - 1 else 9;
      Decimal(f[1..1 + taken]) * Pow10(9 - taken)
  }

  predicate OffsetLegal(o: Bytes) {
    || o == ['Z' as int] || o == ['z' as int]
    || (&& |o| == 6 && (o[0] == '+' as int || o[0] == '-' as int) && o[3] == ':' as int
        && Digits(o[1..3]) && Digits(o[4..6]) && Decimal(o[1..3]) <= 23 && Decimal(o[4..6]) <= 59)
  }

  function OffsetSeconds(o: Bytes): int
    requires OffsetLegal(o)
  {
    if |o| == 1 then 0
    else
      var magnitude := Decimal(o[1..3]) * 3600 + Decimal(o[4..6]) * 60;
      if o[0] == '+' as int then magnitude else -magnitude
  }

  /** A spelling in its three parts. */
  datatype Spelling = Spelling(front: Bytes, fraction: Bytes, offset: Bytes) {
    predicate Legal() {
      |front| == 19 && FrontLegal(front) && FractionLegal(fraction) && OffsetLegal(offset)
    }

    function Text(): Bytes {
      front + fraction + offset
    }

    /** Nanoseconds since 1970-01-01T00:00:00Z. */
    function Instant(): int
      requires Legal()
    {
      (FrontSeconds(front) - OffsetSeconds(offset)) * 1_000_000_000 + Nanos(fraction)
    }
  }

  // ---------------------------------------------------------------------------
  // Cutting a text
  // ---------------------------------------------------------------------------

  /** The first place from `at` on that is not a digit. */
  function DigitsEnd(text: Bytes, at: nat): (r: nat)
    requires at <= |text|
    ensures at <= r <= |text| && Digits(text[at..r]) && (r < |text| ==> !Digit(text[r]))
    decreases |text| - at
  {
    if at < |text| && Digit(text[at]) then
      var r := DigitsEnd(text, at + 1);
      assert text[at..r] == [text[at]] + text[at + 1..r];
      r
    else at
  }

  /** Where the fraction ends. */
  function FractionEnd(text: Bytes): (r: nat)
    requires |text| >= 20
    ensures 19 <= r <= |text|
  {
    if text[19] == '.' as int then DigitsEnd(text, 20) else 19
  }

  function Cut(text: Bytes): Spelling
    requires |text| >= 20
  {
    var at := FractionEnd(text);
    Spelling(text[..19], text[19..at], text[at..])
  }

  lemma DigitsEndIs(text: Bytes, at: nat, end: nat)
    requires at <= end < |text| && Digits(text[at..end]) && !Digit(text[end])
    ensures DigitsEnd(text, at) == end
  {
    var r := DigitsEnd(text, at);
    assert forall i :: at <= i < end ==> text[at..end][i - at] == text[i];
    assert forall i :: at <= i < r ==> text[at..r][i - at] == text[i];
  }

  /** A text has at most one legal spelling, and it is where it is cut. */
  lemma CutDecides(s: Spelling)
    requires s.Legal()
    ensures |s.Text()| >= 20 && Cut(s.Text()) == s
  {
    var text := s.Text();
    var at := 19 + |s.fraction|;
    hide FrontLegal;
    assert text[..19] == s.front && text[19..at] == s.fraction && text[at..] == s.offset;
    assert !Digit(s.offset[0]) && s.offset[0] != '.' as int;
    assert text[at] == s.offset[0];
    if s.fraction != [] {
      assert text[20..at] == s.fraction[1..];
      assert text[19] == s.fraction[0];
      DigitsEndIs(text, 20, at);
    }
  }

  // ---------------------------------------------------------------------------
  // Reading RFC 3339
  // ---------------------------------------------------------------------------

  const I64_MAX: int := 0x7FFF_FFFF_FFFF_FFFF

  function Checked(x: int): Option<i64> {
    if -0x8000_0000_0000_0000 <= x < 0x8000_0000_0000_0000 then Some(x) else None
  }

  lemma DigitsSnoc(s: Bytes, b: u8)
    requires Digits(s) && Digit(b)
    ensures Digits(s + [b]) && Decimal(s + [b]) == 10 * Decimal(s) + b - 48
  {
    assert (s + [b])[..|s|] == s;
  }

  /** The digits from one place to another, read as a number. */
  method ReadDigits(text: Bytes, from: nat, to: nat) returns (r: Option<nat>)
    requires from <= to
    ensures r == if to <= |text| && Digits(text[from..to]) then Some(Decimal(text[from..to])) else None
  {
    if to > |text| {
      return None;
    }
    var value: nat := 0;
    assert text[from..from] == [];
    for i := from to to
      invariant Digits(text[from..i]) && value == Decimal(text[from..i])
    {
      assert text[from..to][i - from] == text[i];
      if !(48 <= text[i] <= 57) {
        return None;
      }
      assert text[from..i + 1] == text[from..i] + [text[i]];
      DigitsSnoc(text[from..i], text[i]);
      var digit: int := text[i];
      value := 10 * value + (digit - 48);
    }
    return Some(value);
  }

  /** Three numbers, or not. */
  method ReadThree(f: Bytes, a: nat, b: nat, c: nat, d: nat, e: nat, g: nat)
    returns (ok: bool, x: nat, y: nat, z: nat)
    requires a <= b <= |f| && c <= d <= |f| && e <= g <= |f|
    ensures ok <==> Digits(f[a..b]) && Digits(f[c..d]) && Digits(f[e..g])
    ensures ok ==> x == Decimal(f[a..b]) && y == Decimal(f[c..d]) && z == Decimal(f[e..g])
  {
    hide Decimal, Digits;
    x, y, z := 0, 0, 0;
    var p := ReadDigits(f, a, b);
    var q := ReadDigits(f, c, d);
    var r := ReadDigits(f, e, g);
    if p.None? || q.None? || r.None? {
      return false, x, y, z;
    }
    return true, p.value, q.value, r.value;
  }

  /** The range checks, and the seconds. */
  method PlaceInTime(year: nat, month: nat, day: nat, hour: nat, minute: nat, second: nat)
    returns (seconds: Option<int>)
    ensures seconds ==
      if Exists(year, month, day, hour, minute, second) then Some(SecondsAt(year, month, day, hour, minute, second))
      else None
  {
    hide DaysFromCivil, DaysInMonth;
    if !(1 <= month <= 12) || day < 1 || day > DaysInMonth(year, month) {
      return None;
    }
    if hour > 23 || minute > 59 || second > 59 {
      return None;
    }
    return Some(DaysFromCivil(year, month, day) * 86_400 + (hour * 3600 + minute * 60 + second));
  }

  /** Date and time of day. */
  method ReadFront(text: Bytes) returns (seconds: Option<int>)
    requires |text| >= 19
    ensures seconds == if FrontLegal(text[..19]) then Some(FrontSeconds(text[..19])) else None
  {
    var f := text[..19];
    hide Decimal, Digits, Exists, SecondsAt;
    if f[4] != '-' as int || f[7] != '-' as int || !(f[10] == 'T' as int || f[10] == 't' as int)
       || f[13] != ':' as int || f[16] != ':' as int {
      return None;
    }
    var dateOk, year, month, day := ReadThree(f, 0, 4, 5, 7, 8, 10);
    var timeOk, hour, minute, second := ReadThree(f, 11, 13, 14, 16, 17, 19);
    if !dateOk || !timeOk {
      return None;
    }
    seconds := PlaceInTime(year, month, day, hour, minute, second);
  }

  lemma FewerDigits(s: Bytes, n: nat)
    requires Digits(s) && n <= |s|
    ensures Digits(s[..n])
  {
  }

  /** The fraction, scaled to nanoseconds in a loop. */
  method ReadFraction(text: Bytes) returns (at: nat, nanos: Option<nat>)
    requires |text| >= 20
    ensures at == FractionEnd(text)
    ensures nanos == if FractionLegal(text[19..at]) then Some(Nanos(text[19..at])) else None
  {
    at := 19;
    if text[19] != '.' as int {
      assert text[19..19] == [];
      return at, Some(0);
    }
    at := 20;
    while at < |text| && 48 <= text[at] <= 57
      invariant 20 <= at <= |text| && DigitsEnd(text, 20) == DigitsEnd(text, at)
    {
      at := at + 1;
    }
    var f := text[19..at];
    Slices(text, 19, at, 1, at - 19);
    if at == 20 {
      return at, None;
    }
    var taken := if at - 20 < 9 then at - 20 else 9;
    Slices(text, 19, at, 1, 1 + taken);
    Slices(text, 20, at, 0, taken);
    FewerDigits(text[20..at], taken);
    var digits := ReadDigits(text, 20, 20 + taken);
    var value := digits.value;
    for n := taken to 9
      invariant value == Decimal(f[1..1 + taken]) * Pow10(n - taken)
    {
      ScaleTen(Decimal(f[1..1 + taken]), Pow10(n - taken));
      value := value * 10;
    }
    return at, Some(value);
  }

  lemma Slices(s: Bytes, a: nat, b: nat, lo: nat, hi: nat)
    requires a <= b <= |s| && lo <= hi <= b - a
    ensures s[a..b][lo..hi] == s[a + lo..a + hi]
    ensures s[a..b][lo..] == s[a + lo..b]
  {
    var t := s[a..b];
    var u, v := t[lo..hi], s[a + lo..a + hi];
    assert |u| == |v| && forall i :: 0 <= i < |u| ==> u[i] == t[lo + i] == s[a + lo + i] == v[i];
    var x, y := t[lo..], s[a + lo..b];
    assert |x| == |y| && forall i :: 0 <= i < |x| ==> x[i] == t[lo + i] == s[a + lo + i] == y[i];
  }

  lemma ScaleTen(a: nat, p: nat)
    ensures a * p * 10 == a * (10 * p)
  {
  }

  method ReadOffset(text: Bytes, at: nat) returns (seconds: Option<int>)
    requires at <= |text|
    ensures seconds == if OffsetLegal(text[at..]) then Some(OffsetSeconds(text[at..])) else None
  {
    var o := text[at..];
    hide Decimal, Digits;
    if at < |text| && (text[at] == 'Z' as int || text[at] == 'z' as int) && at + 1 == |text| {
      assert o == [text[at]];
      return Some(0);
    }
    if at < |text| && (text[at] == '+' as int || text[at] == '-' as int) && at + 6 == |text| {
      if text[at + 3] != ':' as int {
        return None;
      }
      var hours := ReadDigits(o, 1, 3);
      var minutes := ReadDigits(o, 4, 6);
      if hours.None? || minutes.None? || hours.value > 23 || minutes.value > 59 {
        return None;
      }
      var magnitude: int := hours.value * 3600 + minutes.value * 60;
      return Some(if text[at] == '+' as int then magnitude else -magnitude);
    }
    return None;
  }

  /** The checked arithmetic at the end: the exact instant, or a refusal when it is before the epoch or does not fit
      63 bits. Nothing wraps. */
  method Combine(front: int, offset: int, nanos: nat) returns (r: Option<nat>)
    requires nanos < 1_000_000_000
    requires -0x100_0000_0000 <= front <= 0x100_0000_0000 && -100_000 <= offset <= 100_000
    ensures var t := (front - offset) * 1_000_000_000 + nanos;
      r == if 0 <= t <= I64_MAX then Some(t) else None
  {
    var seconds := Checked(front - offset);
    var scaled := Checked(seconds.value * 1_000_000_000);
    if scaled.None? {
      return None;
    }
    var total := Checked(scaled.value + nanos);
    if total.None? || total.value < 0 {
      return None;
    }
    return Some(total.value);
  }

  lemma PowersOfTen()
    ensures Pow10(2) == 100 && Pow10(4) == 10_000 && Pow10(9) == 1_000_000_000
  {
    assert Pow10(1) == 10;
    assert Pow10(3) == 1000;
    assert Pow10(5) == 100_000;
    assert Pow10(7) == 10_000_000;
  }

  lemma {:induction false} Pow10Add(m: nat, n: nat)
    ensures Pow10(m + n) == Pow10(m) * Pow10(n)
  {
    if m > 0 {
      Pow10Add(m - 1, n);
      assert Pow10(m) * Pow10(n) == 10 * (Pow10(m - 1) * Pow10(n));
    }
  }

  lemma NanosBound(f: Bytes)
    requires FractionLegal(f)
    ensures Nanos(f) < 1_000_000_000
  {
    PowersOfTen();
    if f != [] {
      var taken := if |f| - 1 < 9 then |f| - 1 else 9;
      assert f[1..1 + taken] == f[1..][..taken];
      FewerDigits(f[1..], taken);
      DecimalBound(f[1..1 + taken]);
      Pow10Add(taken, 9 - taken);
      BoundedProduct(Decimal(f[1..1 + taken]), Pow10(taken), Pow10(9 - taken));
      assert Pow10(9 - taken) >= 1;
    }
  }

  lemma BoundedProduct(x: nat, y: nat, p: nat)
    requires x < y && p >= 1
    ensures x * p < y * p
  {
  }

  lemma FrontBound(f: Bytes)
    requires |f| == 19 && FrontLegal(f)
    ensures -0x100_0000_0000 <= FrontSeconds(f) <= 0x100_0000_0000
  {
    assert Digits(f[0..4]) && Digits(f[5..7]) && Digits(f[8..10]);
    assert Digits(f[11..13]) && Digits(f[14..16]) && Digits(f[17..19]);
    var y, m, d := Decimal(f[0..4]), Decimal(f[5..7]), Decimal(f[8..10]);
    DecimalBound(f[0..4]);
    PowersOfTen();
    DayBound(y, m, d);
    hide Decimal, DaysFromCivil, Pow10, Valid, Digits;
    SecondsBound(DaysFromCivil(y, m, d), Decimal(f[11..13]), Decimal(f[14..16]), Decimal(f[17..19]));
  }

  lemma SecondsBound(days: int, h: nat, m: nat, s: nat)
    requires -720_000 <= days <= 3_660_000 && h <= 23 && m <= 59 && s <= 59
    ensures -0x100_0000_0000 <= days * 86_400 + (h * 3600 + m * 60 + s) <= 0x100_0000_0000
  {
  }

  lemma DayBound(y: int, m: int, d: int)
    requires 0 <= y < 10_000 && Valid(Date(y, m, d))
    ensures -720_000 <= DaysFromCivil(y, m, d) <= 3_660_000
  {
    DaysFromCivilParts(y, m, d);
    YearStartBound(if m <= 2 then y - 1 else y);
    assert d <= 31;
    hide DaysFromCivil, YearStart, DaysInMonth;
  }

  lemma YearStartBound(y: int)
    requires -1 <= y < 10_000
    ensures -400 <= YearStart(y) <= 3_660_000
  {
  }

  /** `parse_rfc3339`: a text is accepted exactly when it is a legal spelling of an instant that fits, and then the
      answer is that instant. */
  method ParseRfc3339(text: Bytes) returns (r: Option<nat>)
    ensures |text| < 20 ==> r == None
    ensures |text| >= 20 ==> var s := Cut(text);
      r == if s.Legal() && 0 <= s.Instant() <= I64_MAX then Some(s.Instant()) else None
  {
    if |text| < 20 {
      return None;
    }
    hide FrontLegal, FrontSeconds, FractionLegal, Nanos, OffsetLegal, OffsetSeconds, FractionEnd;
    var front := ReadFront(text);
    if front.None? {
      return None;
    }
    var at, nanos := ReadFraction(text);
    if nanos.None? {
      return None;
    }
    var offset := ReadOffset(text, at);
    if offset.None? {
      return None;
    }
    NanosBound(text[19..at]);
    FrontBound(text[..19]);
    OffsetBound(text[at..]);
    r := Combine(front.value, offset.value, nanos.value);
  }

  lemma OffsetBound(o: Bytes)
    requires OffsetLegal(o)
    ensures -100_000 <= OffsetSeconds(o) <= 100_000
  {
  }

  /** What `ParseRfc3339` computes, as a function of the text. */
  function Parsed(text: Bytes): Option<nat> {
    if |text| < 20 then None
    else
      var s := Cut(text);
      if s.Legal() && 0 <= s.Instant() <= I64_MAX then Some(s.Instant()) else None
  }

  /** Every legal spelling is accepted with its instant, unless that is out of range; and every accepted text is one
      legal spelling. */
  lemma ParsedExactly(text: Bytes, t: nat)
    ensures Parsed(text) == Some(t)
       <==> t <= I64_MAX && exists s: Spelling :: s.Legal() && s.Text() == text && s.Instant() == t
  {
    hide FrontLegal, FrontSeconds, FractionLegal, Nanos, OffsetLegal, OffsetSeconds, FractionEnd;
    if Parsed(text) == Some(t) {
      var s := Cut(text);
      assert s.Text() == text;
    }
    if t <= I64_MAX && exists s: Spelling :: s.Legal() && s.Text() == text && s.Instant() == t {
      var s: Spelling :| s.Legal() && s.Text() == text && s.Instant() == t;
      CutDecides(s);
    }
  }

  // ---------------------------------------------------------------------------
  // GeneralizedTime
  // ---------------------------------------------------------------------------

  /** `YYYYMMDDHHMMSS`. */
  predicate StampLegal(f: Bytes)
    requires |f| == 14
  {
    && Digits(f[0..4]) && Digits(f[4..6]) && Digits(f[6..8]) && Digits(f[8..10]) && Digits(f[10..12])
    && Digits(f[12..14])
    && Exists(Decimal(f[0..4]), Decimal(f[4..6]), Decimal(f[6..8]),
              Decimal(f[8..10]), Decimal(f[10..12]), Decimal(f[12..14]))
  }

  function StampSeconds(f: Bytes): int
    requires |f| == 14 && StampLegal(f)
  {
    SecondsAt(Decimal(f[0..4]), Decimal(f[4..6]), Decimal(f[6..8]),
              Decimal(f[8..10]), Decimal(f[10..12]), Decimal(f[12..14]))
  }

  /** Only the form with `Z`; a fraction is legal and dropped. */
  predicate TimeLegal(body: Bytes) {
    && |body| >= 15 && body[|body| - 1] == 'Z' as int && FractionLegal(body[14..|body| - 1]) && StampLegal(body[..14])
  }

  /** Seconds since 1970-01-01T00:00:00Z, or nothing. */
  function TimeOf(body: Bytes): Option<int> {
    if TimeLegal(body) then Some(StampSeconds(body[..14])) else None
  }

  method AllDigits(s: Bytes) returns (yes: bool)
    ensures yes <==> Digits(s)
  {
    for i := 0 to |s|
      invariant Digits(s[..i])
    {
      if !(48 <= s[i] <= 57) {
        return false;
      }
      assert s[..i + 1] == s[..i] + [s[i]];
    }
    assert s[..|s|] == s;
    return true;
  }

  method CheckFraction(fraction: Bytes) returns (ok: bool)
    ensures ok <==> FractionLegal(fraction)
  {
    if fraction == [] {
      return true;
    }
    if |fraction| < 2 || fraction[0] != '.' as int {
      return false;
    }
    ok := AllDigits(fraction[1..]);
  }

  /** `parse_generalized_time`. */
  method ParseGeneralizedTime(body: Bytes) returns (r: Option<int>)
    ensures r == TimeOf(body)
  {
    if |body| < 15 || body[|body| - 1] != 'Z' as int {
      return None;
    }
    var ok := CheckFraction(body[14..|body| - 1]);
    if !ok {
      return None;
    }
    var f := body[..14];
    hide Decimal, Digits, FractionLegal, Exists, SecondsAt;
    var dateOk, year, month, day := ReadThree(f, 0, 4, 4, 6, 6, 8);
    var timeOk, hour, minute, second := ReadThree(f, 8, 10, 10, 12, 12, 14);
    if !dateOk || !timeOk {
      return None;
    }
    r := PlaceInTime(year, month, day, hour, minute, second);
  }
}
