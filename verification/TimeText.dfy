/** The texts that are accepted as times, written from a day number, a time of day and an offset, without a reader.
    The date of a day number is the one that counting from 1970-01-01 gives. */
module TimeText {
  import opened Words
  import opened Dates
  import opened Instants
  import opened DerTime

  /** A number in a fixed count of decimal digits. */
  function Padded(v: nat, width: nat): (r: Bytes)
    ensures |r| == width && Digits(r)
  {
    if width == 0 then [] else Padded(v / 10, width - 1) + [48 + v % 10]
  }

  lemma {:induction false} PaddedReads(v: nat, width: nat)
    requires v < Pow10(width)
    ensures Decimal(Padded(v, width)) == v
  {
    if width > 0 {
      var front := Padded(v / 10, width - 1);
      assert v / 10 < Pow10(width - 1);
      PaddedReads(v / 10, width - 1);
      assert Padded(v, width)[..width - 1] == front;
    }
  }

  /** Digits are the padded spelling of their number. */
  lemma PaddedOnly(s: Bytes)
    requires Digits(s)
    ensures s == Padded(Decimal(s), |s|) && Decimal(s) < Pow10(|s|)
  {
    DecimalBound(s);
    PaddedReads(Decimal(s), |s|);
    DecimalInjective(s, Padded(Decimal(s), |s|));
  }

  // ---------------------------------------------------------------------------
  // The parts of a time
  // ---------------------------------------------------------------------------

  /** A second, by the number of its day. */
  datatype Clock = Clock(days: int, hour: nat, minute: nat, second: nat) {
    function Date(): Date {
      Counted(days)
    }

    predicate Real() {
      0 <= Date().year < 10_000 && hour < 24 && minute < 60 && second < 60
    }

    function Seconds(): int {
      86_400 * days + 3600 * hour + 60 * minute + second
    }
  }

  datatype Offset = Utc(small: bool) | East(hours: nat, minutes: nat) | West(hours: nat, minutes: nat) {
    predicate Real() {
      Utc? || (hours < 24 && minutes < 60)
    }

    /** How many seconds the local time is ahead of UTC. */
    function Ahead(): int {
      match this
      case Utc(_) => 0
      case East(h, m) => 60 * (60 * h + m)
      case West(h, m) => -60 * (60 * h + m)
    }

    function Text(): Bytes {
      match this
      case Utc(small) => [if small then 'z' as int else 'Z' as int]
      case East(h, m) => ['+' as int] + Padded(h, 2) + [':' as int] + Padded(m, 2)
      case West(h, m) => ['-' as int] + Padded(h, 2) + [':' as int] + Padded(m, 2)
    }
  }

  /** A calendar date in digits. */
  function Year(c: Clock): Bytes
    requires c.Real()
  {
    Padded(c.Date().year, 4)
  }

  function Month(c: Clock): Bytes {
    Padded(c.Date().month, 2)
  }

  function Day(c: Clock): Bytes {
    Padded(c.Date().day, 2)
  }

  /** `YYYY-MM-DDTHH:MM:SS`. */
  function Front(c: Clock, small: bool): (f: Bytes)
    requires c.Real()
    ensures |f| == 19
  {
    Year(c) + ['-' as int] + Month(c) + ['-' as int] + Day(c) + [if small then 't' as int else 'T' as int]
    + Padded(c.hour, 2) + [':' as int] + Padded(c.minute, 2) + [':' as int] + Padded(c.second, 2)
  }

  /** `YYYYMMDDHHMMSS`. */
  function Stamp(c: Clock): (f: Bytes)
    requires c.Real()
    ensures |f| == 14
  {
    Year(c) + Month(c) + Day(c) + Padded(c.hour, 2) + Padded(c.minute, 2) + Padded(c.second, 2)
  }

  function Point(digits: Bytes): Bytes {
    if digits == [] then [] else ['.' as int] + digits
  }

  function Quotient(a: nat, b: nat): nat
    requires b > 0
  {
    a / b
  }

  /** The fraction of a second in whole nanoseconds, what is below one cut off. */
  function WholeNanos(digits: Bytes): nat
    requires Digits(digits)
  {
    Quotient(Decimal(digits) * 1_000_000_000, Pow10(|digits|))
  }

  // ---------------------------------------------------------------------------
  // Fraction and offset
  // ---------------------------------------------------------------------------

  lemma {:induction false} DecimalSplit(x: Bytes, y: Bytes)
    requires Digits(x) && Digits(y)
    ensures Digits(x + y) && Decimal(x + y) == Decimal(x) * Pow10(|y|) + Decimal(y)
    decreases |y|
  {
    if y == [] {
      assert x + y == x;
    } else {
      var last := |y| - 1;
      DecimalSplit(x, y[..last]);
      assert y == y[..last] + [y[last]] && x + y == x + y[..last] + [y[last]];
      DigitsSnoc(x + y[..last], y[last]);
      DigitsSnoc(y[..last], y[last]);
      ScaleTen(Decimal(x), Pow10(last));
    }
  }

  lemma ScaledDown(d: nat, n: nat)
    requires n <= 9
    ensures d * Pow10(9 - n) == d * 1_000_000_000 / Pow10(n)
  {
    PowersOfTen();
    Pow10Add(9 - n, n);
    var p, q := Pow10(9 - n), Pow10(n);
    hide Pow10;
    assert d * 1_000_000_000 == q * (d * p);
    ModUnique(d * 1_000_000_000, d * p, 0, q);
  }

  lemma CutDown(d: nat, rest: nat, m: nat)
    requires rest < Pow10(m)
    ensures d == (d * Pow10(m) + rest) * 1_000_000_000 / Pow10(9 + m)
  {
    PowersOfTen();
    Pow10Add(9, m);
    var p := Pow10(m);
    var x := (d * p + rest) * 1_000_000_000;
    hide Pow10;
    assert x == rest * 1_000_000_000 + 1_000_000_000 * p * d;
    ModUnique(x, d, rest * 1_000_000_000, 1_000_000_000 * p);
  }

  /** What is read of a fraction is its whole nanoseconds. */
  lemma NanosAreWhole(digits: Bytes)
    requires Digits(digits)
    ensures FractionLegal(Point(digits)) && Nanos(Point(digits)) == WholeNanos(digits)
  {
    var f, n := Point(digits), |digits|;
    if digits == [] {
      ScaledDown(0, 0);
    } else if n <= 9 {
      assert f[1..] == digits && f[1..1 + n] == digits;
      ScaledDown(Decimal(digits), n);
    } else {
      assert f[1..] == digits && f[1..1 + 9] == digits[..9] && digits == digits[..9] + digits[9..];
      assert Pow10(0) == 1;
      FewerDigits(digits, 9);
      DecimalSplit(digits[..9], digits[9..]);
      DecimalBound(digits[9..]);
      CutDown(Decimal(digits[..9]), Decimal(digits[9..]), n - 9);
    }
  }

  lemma FractionIsPoint(f: Bytes) returns (digits: Bytes)
    requires FractionLegal(f)
    ensures Digits(digits) && f == Point(digits)
  {
    digits := if f == [] then [] else f[1..];
  }

  lemma OffsetReads(o: Offset)
    requires o.Real()
    ensures OffsetLegal(o.Text()) && OffsetSeconds(o.Text()) == o.Ahead()
  {
    if !o.Utc? {
      PowersOfTen();
      PaddedReads(o.hours, 2);
      PaddedReads(o.minutes, 2);
      var text := o.Text();
      hide Padded, Decimal, Pow10;
      assert text[1..3] == Padded(o.hours, 2) && text[4..6] == Padded(o.minutes, 2);
    }
  }

  lemma OffsetIsText(text: Bytes) returns (o: Offset)
    requires OffsetLegal(text)
    ensures o.Real() && o.Text() == text
  {
    if |text| == 1 {
      o := Utc(text == ['z' as int]);
    } else {
      PaddedOnly(text[1..3]);
      PaddedOnly(text[4..6]);
      var h, m := Decimal(text[1..3]), Decimal(text[4..6]);
      o := if text[0] == '+' as int then East(h, m) else West(h, m);
      hide Padded, Decimal, Pow10;
      assert text == [text[0]] + text[1..3] + [text[3]] + text[4..6];
    }
  }

  // ---------------------------------------------------------------------------
  // Date and time of day
  // ---------------------------------------------------------------------------

  /** The parts of a real second are what the readers look for, and stand for it. */
  lemma PartsRead(c: Clock)
    requires c.Real()
    ensures Decimal(Year(c)) == c.Date().year && Decimal(Month(c)) == c.Date().month
    ensures Decimal(Day(c)) == c.Date().day
    ensures Decimal(Padded(c.hour, 2)) == c.hour && Decimal(Padded(c.minute, 2)) == c.minute
    ensures Decimal(Padded(c.second, 2)) == c.second
    ensures Exists(c.Date().year, c.Date().month, c.Date().day, c.hour, c.minute, c.second)
    ensures SecondsAt(c.Date().year, c.Date().month, c.Date().day, c.hour, c.minute, c.second) == c.Seconds()
  {
    DateExists(c);
    hide Clock.Date, Padded, Decimal, Pow10, DaysFromCivil, Counted, Valid;
    PowersOfTen();
    PaddedReads(c.Date().year, 4);
    PaddedReads(c.Date().month, 2);
    PaddedReads(c.Date().day, 2);
    PaddedReads(c.hour, 2);
    PaddedReads(c.minute, 2);
    PaddedReads(c.second, 2);
  }

  lemma DateExists(c: Clock)
    ensures Valid(c.Date()) && 1 <= c.Date().month <= 12 && 1 <= c.Date().day <= 31
    ensures DaysFromCivil(c.Date().year, c.Date().month, c.Date().day) == c.days
  {
    DaysFromCivilCounts(c.days);
    hide DaysFromCivil, IsLeap;
  }

  /** A date and a time of day that exist are those of a real second. */
  lemma ClockOf(year: nat, month: nat, day: nat, hour: nat, minute: nat, second: nat) returns (c: Clock)
    requires Exists(year, month, day, hour, minute, second) && year < 10_000
    ensures c.Real() && c.Date() == Date(year, month, day) && c.hour == hour && c.minute == minute
    ensures c.second == second && SecondsAt(year, month, day, hour, minute, second) == c.Seconds()
  {
    ClosedFormsAreInverse(0, Date(year, month, day));
    hide DaysFromCivil, Counted, CivilFromDays, DaysInMonth;
    c := Clock(DaysFromCivil(year, month, day), hour, minute, second);
  }

  lemma FrontSlices(c: Clock, small: bool)
    requires c.Real()
    ensures var f := Front(c, small);
      && f[0..4] == Year(c) && f[5..7] == Month(c) && f[8..10] == Day(c)
      && f[11..13] == Padded(c.hour, 2) && f[14..16] == Padded(c.minute, 2) && f[17..19] == Padded(c.second, 2)
      && f[4] == f[7] == '-' as int && f[13] == f[16] == ':' as int
      && f[10] == if small then 't' as int else 'T' as int
  {
    hide Padded;
  }

  lemma FrontReads(c: Clock, small: bool)
    requires c.Real()
    ensures FrontLegal(Front(c, small)) && FrontSeconds(Front(c, small)) == c.Seconds()
  {
    PartsRead(c);
    FrontSlices(c, small);
    hide Padded, Decimal, Digits, Exists, SecondsAt, Front, Year, Month, Day, Clock.Real;
  }

  lemma FrontIsText(f: Bytes) returns (c: Clock, small: bool)
    requires |f| == 19 && FrontLegal(f)
    ensures c.Real() && f == Front(c, small)
  {
    PowersOfTen();
    PaddedOnly(f[0..4]);
    PaddedOnly(f[5..7]);
    PaddedOnly(f[8..10]);
    PaddedOnly(f[11..13]);
    PaddedOnly(f[14..16]);
    PaddedOnly(f[17..19]);
    small := f[10] == 't' as int;
    hide Padded, Decimal, Digits, Exists, SecondsAt, Pow10;
    c := ClockOf(Decimal(f[0..4]), Decimal(f[5..7]), Decimal(f[8..10]),
                 Decimal(f[11..13]), Decimal(f[14..16]), Decimal(f[17..19]));
    hide *;
    NineteenBytes(f);
    FrontParts(c, small, f);
  }

  lemma NineteenBytes(f: Bytes)
    requires |f| == 19
    ensures f == f[0..4] + [f[4]] + f[5..7] + [f[7]] + f[8..10] + [f[10]] + f[11..13] + [f[13]] + f[14..16] + [f[16]]
              + f[17..19]
  {
  }

  lemma FrontParts(c: Clock, small: bool, f: Bytes)
    requires c.Real() && |f| == 19
    requires f[0..4] == Year(c) && f[5..7] == Month(c) && f[8..10] == Day(c)
    requires f[11..13] == Padded(c.hour, 2) && f[14..16] == Padded(c.minute, 2) && f[17..19] == Padded(c.second, 2)
    requires f[4] == f[7] == '-' as int && f[13] == f[16] == ':' as int
    requires f[10] == if small then 't' as int else 'T' as int
    ensures f == Front(c, small)
  {
    hide Year, Month, Day, Padded, Clock.Real;
    NineteenBytes(f);
  }

  // ---------------------------------------------------------------------------
  // The texts of RFC 3339
  // ---------------------------------------------------------------------------

  function Written(c: Clock, small: bool, digits: Bytes, o: Offset): Bytes
    requires c.Real() && Digits(digits)
  {
    Front(c, small) + Point(digits) + o.Text()
  }

  /** Nanoseconds since 1970-01-01T00:00:00Z. */
  function Meaning(c: Clock, digits: Bytes, o: Offset): int
    requires Digits(digits)
  {
    (c.Seconds() - o.Ahead()) * 1_000_000_000 + WholeNanos(digits)
  }

  predicate Writable(c: Clock, digits: Bytes, o: Offset) {
    c.Real() && Digits(digits) && o.Real()
  }

  /** Whatever is written is read as what it means, or refused when that is out of range. */
  lemma WrittenIsRead(c: Clock, small: bool, digits: Bytes, o: Offset)
    requires Writable(c, digits, o)
    ensures var t := Meaning(c, digits, o);
      Parsed(Written(c, small, digits, o)) == if 0 <= t <= I64_MAX then Some(t) else None
  {
    FrontReads(c, small);
    NanosAreWhole(digits);
    OffsetReads(o);
    var s := Spelling(Front(c, small), Point(digits), o.Text());
    assert s.Legal() && s.Instant() == Meaning(c, digits, o);
    hide Front, Point, FrontLegal, FrontSeconds, FractionLegal, Nanos, OffsetLegal, OffsetSeconds, Offset.Text,
         Clock.Seconds, WholeNanos, Cut;
    CutDecides(s);
  }

  /** The accepted texts are exactly those that are written, and the answer is what they mean. */
  lemma AcceptedExactly(text: Bytes, t: nat)
    ensures Parsed(text) == Some(t)
       <==> t <= I64_MAX && exists c, small, digits, o ::
              Writable(c, digits, o) && text == Written(c, small, digits, o) && Meaning(c, digits, o) == t
  {
    if Parsed(text) == Some(t) {
      var c, small, digits, o := TextIsWritten(text, t);
    }
    if t <= I64_MAX && exists c, small, digits, o ::
         Writable(c, digits, o) && text == Written(c, small, digits, o) && Meaning(c, digits, o) == t {
      var c, small, digits, o :|
        Writable(c, digits, o) && text == Written(c, small, digits, o) && Meaning(c, digits, o) == t;
      hide *;
      WrittenIsRead(c, small, digits, o);
    }
  }

  lemma TextIsWritten(text: Bytes, t: nat) returns (c: Clock, small: bool, digits: Bytes, o: Offset)
    requires Parsed(text) == Some(t)
    ensures Writable(c, digits, o) && text == Written(c, small, digits, o) && Meaning(c, digits, o) == t <= I64_MAX
  {
    hide FrontLegal, FrontSeconds, FractionLegal, Nanos, OffsetLegal, OffsetSeconds, FractionEnd;
    var s := Cut(text);
    assert s.Text() == text;
    c, small := FrontIsText(s.front);
    digits := FractionIsPoint(s.fraction);
    o := OffsetIsText(s.offset);
    FrontReads(c, small);
    NanosAreWhole(digits);
    OffsetReads(o);
    hide Front, Point, Offset.Text, Clock.Seconds, WholeNanos, Offset.Ahead;
  }

  /** The text of an offset of so many hours and minutes. */
  function SignedOffset(sign: char, hours: nat, minutes: nat): Bytes {
    [sign as int % 256] + Padded(hours, 2) + [':' as int] + Padded(minutes, 2)
  }

  /** What an offset does, for every date, time, fraction and offset: an hour and a minute east of UTC are taken off
      and one west are added, and a text that is in range with `Z` is refused with an offset exactly when that takes
      it out of the range. */
  lemma OffsetMoves(front: Bytes, fraction: Bytes, hours: nat, minutes: nat)
    requires |front| == 19 && FrontLegal(front) && FractionLegal(fraction) && hours <= 23 && minutes <= 59
    requires Parsed(front + fraction + ['Z' as int]).Some?
    ensures var t := Parsed(front + fraction + ['Z' as int]).value;
      var shift := (60 * hours + minutes) * 60_000_000_000;
      && Parsed(front + fraction + SignedOffset('+', hours, minutes)) == (if shift <= t then Some(t - shift) else None)
      && Parsed(front + fraction + SignedOffset('-', hours, minutes))
         == (if t + shift <= I64_MAX then Some(t + shift) else None)
  {
    hide FrontLegal, FractionLegal, Parsed, Front, Point, Meaning, SignedOffset, Offset.Text, Digits;
    var c, small := FrontIsText(front);
    var digits := FractionIsPoint(fraction);
    OffsetTexts(hours, minutes);
    Meanings(c, digits, hours, minutes);
    WrittenIs(c, small, digits, Utc(false), front, fraction);
    WrittenIs(c, small, digits, East(hours, minutes), front, fraction);
    WrittenIs(c, small, digits, West(hours, minutes), front, fraction);
  }

  lemma WrittenIs(c: Clock, small: bool, digits: Bytes, o: Offset, front: Bytes, fraction: Bytes)
    requires Writable(c, digits, o) && front == Front(c, small) && fraction == Point(digits)
    ensures var t := Meaning(c, digits, o);
      Parsed(front + fraction + o.Text()) == if 0 <= t <= I64_MAX then Some(t) else None
  {
    WrittenIsRead(c, small, digits, o);
  }

  lemma Meanings(c: Clock, digits: Bytes, hours: nat, minutes: nat)
    requires Digits(digits)
    ensures var t, shift := Meaning(c, digits, Utc(false)), (60 * hours + minutes) * 60_000_000_000;
      && Meaning(c, digits, East(hours, minutes)) == t - shift
      && Meaning(c, digits, West(hours, minutes)) == t + shift
  {
    hide WholeNanos, Clock.Seconds;
  }

  lemma OffsetTexts(hours: nat, minutes: nat)
    ensures East(hours, minutes).Text() == SignedOffset('+', hours, minutes)
    ensures West(hours, minutes).Text() == SignedOffset('-', hours, minutes)
    ensures Utc(false).Text() == ['Z' as int]
  {
  }

  // ---------------------------------------------------------------------------
  // The texts of a GeneralizedTime
  // ---------------------------------------------------------------------------

  lemma StampSlices(c: Clock)
    requires c.Real()
    ensures var f := Stamp(c);
      && f[0..4] == Year(c) && f[4..6] == Month(c) && f[6..8] == Day(c)
      && f[8..10] == Padded(c.hour, 2) && f[10..12] == Padded(c.minute, 2) && f[12..14] == Padded(c.second, 2)
  {
    hide Padded;
  }

  lemma StampReads(c: Clock)
    requires c.Real()
    ensures StampLegal(Stamp(c)) && StampSeconds(Stamp(c)) == c.Seconds()
  {
    PartsRead(c);
    StampSlices(c);
    hide Padded, Decimal, Digits, Exists, SecondsAt, Stamp, Year, Month, Day, Clock.Real;
  }

  lemma StampIsText(f: Bytes) returns (c: Clock)
    requires |f| == 14 && StampLegal(f)
    ensures c.Real() && f == Stamp(c)
  {
    PowersOfTen();
    PaddedOnly(f[0..4]);
    PaddedOnly(f[4..6]);
    PaddedOnly(f[6..8]);
    PaddedOnly(f[8..10]);
    PaddedOnly(f[10..12]);
    PaddedOnly(f[12..14]);
    hide Padded, Decimal, Digits, Exists, SecondsAt, Pow10;
    c := ClockOf(Decimal(f[0..4]), Decimal(f[4..6]), Decimal(f[6..8]),
                 Decimal(f[8..10]), Decimal(f[10..12]), Decimal(f[12..14]));
    hide *;
    StampParts(c, f);
  }

  lemma StampParts(c: Clock, f: Bytes)
    requires c.Real() && |f| == 14 && f[0..4] == Year(c) && f[4..6] == Month(c) && f[6..8] == Day(c)
    requires f[8..10] == Padded(c.hour, 2) && f[10..12] == Padded(c.minute, 2) && f[12..14] == Padded(c.second, 2)
    ensures f == Stamp(c)
  {
    StampSlices(c);
    hide Stamp, Year, Month, Day, Clock.Real, Padded;
    SixFields(f, Stamp(c));
  }

  function Timed(c: Clock, digits: Bytes): Bytes
    requires c.Real()
  {
    Stamp(c) + Point(digits) + ['Z' as int]
  }

  /** The accepted times of a token are exactly the fourteen digits of a second, a fraction that may be there, and the
      letter that says UTC; and the answer is that second. */
  lemma TimesExactly(body: Bytes, s: int)
    ensures TimeOf(body) == Some(s)
       <==> exists c: Clock, digits ::
              c.Real() && Digits(digits) && body == Timed(c, digits) && c.Seconds() == s
  {
    if TimeOf(body) == Some(s) {
      var c, digits := TimeIsText(body);
      hide *;
      TimedIsRead(c, digits);
    }
    if exists c: Clock, digits :: c.Real() && Digits(digits) && body == Timed(c, digits) && c.Seconds() == s {
      var c: Clock, digits :| c.Real() && Digits(digits) && body == Timed(c, digits) && c.Seconds() == s;
      hide *;
      TimedIsRead(c, digits);
    }
  }

  lemma TimedIsRead(c: Clock, digits: Bytes)
    requires c.Real() && Digits(digits)
    ensures TimeOf(Timed(c, digits)) == Some(c.Seconds())
  {
    StampReads(c);
    hide Stamp, StampLegal, StampSeconds, Clock.Real, Clock.Seconds, Digits, TimeOf, TimeLegal;
    assert Timed(c, digits) == Spell(Stamp(c), digits);
    SpelledIsLegal(Stamp(c), digits);
  }

  lemma TimeIsText(body: Bytes) returns (c: Clock, digits: Bytes)
    requires TimeOf(body).Some?
    ensures c.Real() && Digits(digits) && body == Timed(c, digits)
  {
    c := StampIsText(body[..14]);
    Parts(body);
    digits := Fraction(body);
    hide Stamp, Clock.Real, StampLegal, StampSeconds, Digits, TimeOf, TimeLegal, Fraction;
    assert body == Spell(Stamp(c), digits);
  }

  // ---------------------------------------------------------------------------
  // Known times
  // ---------------------------------------------------------------------------

  /** 2026-07-09 is the 20643rd day. */
  lemma KnownDay()
    ensures Counted(20_643) == Date(2026, 7, 9)
  {
    var d := Date(2026, 7, 9);
    assert DaysFromCivil(2026, 7, 9) == 20_643;
    hide DaysFromCivil;
    assert Valid(d);
    ClosedFormsAreInverse(0, d);
  }

  /** A text without a fraction. */
  lemma PlainText(c: Clock, o: Offset)
    requires c.Real() && o.Real()
    ensures var t := (c.Seconds() - o.Ahead()) * 1_000_000_000;
      Parsed(Front(c, false) + o.Text()) == if 0 <= t <= I64_MAX then Some(t) else None
  {
    NoFraction();
    hide Offset.Text, Offset.Ahead, Front, Clock.Real, Clock.Seconds, WholeNanos, Point, Digits, Parsed, Offset.Real;
    assert Front(c, false) + [] == Front(c, false);
    WrittenIsRead(c, false, [], o);
  }

  lemma NoFraction()
    ensures Digits([]) && WholeNanos([]) == 0 && Point([]) == []
  {
  }

  lemma KnownFront(c: Clock)
    requires c.Date() == Date(2026, 7, 9) && c.hour < 24 && c.minute == 12 && c.second == 44
    ensures Front(c, false)
         == [50, 48, 50, 54, 45, 48, 55, 45, 48, 57, 84] + Padded(c.hour, 2) + [58, 49, 50, 58, 52, 52]
  {
    KnownDigits();
    hide Padded, Clock.Date;
  }

  lemma KnownDigits()
    ensures Padded(2026, 4) == [50, 48, 50, 54] && Padded(7, 2) == [48, 55] && Padded(9, 2) == [48, 57]
    ensures Padded(12, 2) == [49, 50] && Padded(44, 2) == [52, 52] && Padded(0, 2) == [48, 48]
    ensures Padded(1, 2) == [48, 49] && Padded(2, 2) == [48, 50] && Padded(3, 2) == [48, 51] && Padded(5, 2) == [48, 53]
  {
    assert Padded(20, 2) == [50, 48] && Padded(202, 3) == [50, 48, 50];
  }

  /** The same second in three spellings, with offsets of two hours on both sides. */
  lemma KnownInstants()
    ensures Parsed(Ascii("2026-07-09T03:12:44Z")) == Some(1_783_566_764_000_000_000)
    ensures Parsed(Ascii("2026-07-09T05:12:44+02:00")) == Some(1_783_566_764_000_000_000)
    ensures Parsed(Ascii("2026-07-09T01:12:44-02:00")) == Some(1_783_566_764_000_000_000)
  {
    hide *;
    var utc, east, west := Clock(20_643, 3, 12, 44), Clock(20_643, 5, 12, 44), Clock(20_643, 1, 12, 44);
    KnownClock(utc, Utc(false));
    KnownClock(east, East(2, 0));
    KnownClock(west, West(2, 0));
    UtcLetters();
    EastLetters();
    WestLetters();
  }

  /** 12 minutes and 44 seconds past an hour of that day. */
  lemma KnownClock(c: Clock, o: Offset)
    requires c.days == 20_643 && c.hour < 12 && c.minute == 12 && c.second == 44
    requires o == Utc(false) || o == East(2, 0) || o == West(2, 0)
    ensures c.Real()
    ensures var s := 1_783_555_964 + 3600 * (c.hour + if o.Utc? then 0 else if o.East? then -2 else 2);
      Parsed(Front(c, false) + o.Text()) == Some(s * 1_000_000_000)
  {
    KnownDay();
    hide Counted, Parsed, Front, Offset.Text;
    PlainText(c, o);
  }

  lemma KnownOffsets()
    ensures Utc(false).Text() == [90]
    ensures East(2, 0).Text() == [43, 48, 50, 58, 48, 48] && West(2, 0).Text() == [45, 48, 50, 58, 48, 48]
  {
    KnownDigits();
    hide Padded;
  }

  lemma UtcLetters()
    ensures var c := Clock(20_643, 3, 12, 44);
      c.Real() && Front(c, false) + Utc(false).Text() == Ascii("2026-07-09T03:12:44Z")
  {
    var c := Clock(20_643, 3, 12, 44);
    KnownDay();
    KnownFront(c);
    KnownDigits();
    KnownOffsets();
    hide Counted, Padded, Front, Ascii, Offset.Text;
    UtcAscii();
  }

  lemma UtcAscii()
    ensures Ascii("2026-07-09T03:12:44Z")
         == [50, 48, 50, 54, 45, 48, 55, 45, 48, 57, 84]
            + [48, 51] + [58, 49, 50, 58, 52, 52] + [90]
  {
  }

  lemma EastLetters()
    ensures var c := Clock(20_643, 5, 12, 44);
      c.Real() && Front(c, false) + East(2, 0).Text() == Ascii("2026-07-09T05:12:44+02:00")
  {
    var c := Clock(20_643, 5, 12, 44);
    KnownDay();
    KnownFront(c);
    KnownDigits();
    KnownOffsets();
    hide Counted, Padded, Front, Ascii, Offset.Text;
    EastAscii();
  }

  lemma EastAscii()
    ensures Ascii("2026-07-09T05:12:44+02:00")
         == [50, 48, 50, 54, 45, 48, 55, 45, 48, 57, 84]
            + [48, 53] + [58, 49, 50, 58, 52, 52] + [43, 48, 50, 58, 48, 48]
  {
  }

  lemma WestLetters()
    ensures var c := Clock(20_643, 1, 12, 44);
      c.Real() && Front(c, false) + West(2, 0).Text() == Ascii("2026-07-09T01:12:44-02:00")
  {
    var c := Clock(20_643, 1, 12, 44);
    KnownDay();
    KnownFront(c);
    KnownDigits();
    KnownOffsets();
    hide Counted, Padded, Front, Ascii, Offset.Text;
    WestAscii();
  }

  lemma WestAscii()
    ensures Ascii("2026-07-09T01:12:44-02:00")
         == [50, 48, 50, 54, 45, 48, 55, 45, 48, 57, 84]
            + [48, 49] + [58, 49, 50, 58, 52, 52] + [45, 48, 50, 58, 48, 48]
  {
  }
}
