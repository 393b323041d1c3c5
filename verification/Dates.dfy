/** Civil dates: the closed forms against a calendar that counts days one at a time. */
module Dates {
  import opened Words

  /** Division as Rust has it: towards zero. */
  function Div(a: int, b: int): int
    requires b > 0
  {
    if a >= 0 then a / b else -(-a / b)
  }

  /** The remainder that goes with it. */
  function Rem(a: int, b: int): int
    requires b > 0
  {
    a - b * Div(a, b)
  }

  // ---------------------------------------------------------------------------
  // The calendar
  // ---------------------------------------------------------------------------

  datatype Date = Date(year: int, month: int, day: int)

  predicate IsLeap(year: int) {
    (Rem(year, 4) == 0 && Rem(year, 100) != 0) || Rem(year, 400) == 0
  }

  function DaysInMonth(year: int, month: int): int {
    if month in {1, 3, 5, 7, 8, 10, 12} then 31
    else if month in {4, 6, 9, 11} then 30
    else if month == 2 then if IsLeap(year) then 29 else 28
    else 0
  }

  predicate Valid(d: Date) {
    1 <= d.month <= 12 && 1 <= d.day <= DaysInMonth(d.year, d.month)
  }

  function Next(d: Date): (r: Date)
    requires Valid(d)
    ensures Valid(r)
  {
    if d.day < DaysInMonth(d.year, d.month) then Date(d.year, d.month, d.day + 1)
    else if d.month < 12 then Date(d.year, d.month + 1, 1)
    else Date(d.year + 1, 1, 1)
  }

  function Previous(d: Date): (r: Date)
    requires Valid(d)
    ensures Valid(r)
  {
    if d.day > 1 then Date(d.year, d.month, d.day - 1)
    else if d.month > 1 then Date(d.year, d.month - 1, DaysInMonth(d.year, d.month - 1))
    else Date(d.year - 1, 12, 31)
  }

  lemma PreviousUndoesNext(d: Date)
    requires Valid(d)
    ensures Next(Previous(d)) == d && Previous(Next(d)) == d
  {
  }

  const EPOCH: Date := Date(1970, 1, 1)

  /** The n-th day after 1970-01-01, found by counting. */
  function Counted(n: int): (r: Date)
    ensures Valid(r)
    decreases if n < 0 then -n else n
  {
    if n == 0 then EPOCH else if n > 0 then Next(Counted(n - 1)) else Previous(Counted(n + 1))
  }

  /** Counting is one calendar: the next number is the next day, before the first day as after it. */
  lemma CountedNext(n: int)
    ensures Counted(n + 1) == Next(Counted(n))
  {
    if n < 0 {
      PreviousUndoesNext(Counted(n + 1));
    }
  }

  // ---------------------------------------------------------------------------
  // The closed forms
  // ---------------------------------------------------------------------------

  /** `days_from_civil`. */
  function DaysFromCivil(year: int, month: int, day: int): int {
    var y := if month <= 2 then year - 1 else year;
    var era := Div(if y >= 0 then y else y - 399, 400);
    var yoe := y - era * 400;
    var mp := Rem(month + 9, 12);
    var doy := Div(153 * mp + 2, 5) + day - 1;
    var doe := yoe * 365 + Div(yoe, 4) - Div(yoe, 100) + doy;
    era * 146_097 + doe - 719_468
  }

  /** `civil_from_days`. */
  function CivilFromDays(days: int): Date {
    var z := days + 719_468;
    var era := Div(if z >= 0 then z else z - 146_096, 146_097);
    var dayOfEra := z - era * 146_097;
    var yearOfEra := YearOfEra(dayOfEra);
    var year := yearOfEra + era * 400;
    var dayOfYear := dayOfEra - (365 * yearOfEra + Div(yearOfEra, 4) - Div(yearOfEra, 100));
    var mp := Div(5 * dayOfYear + 2, 153);
    var day := dayOfYear - Div(153 * mp + 2, 5) + 1;
    var month := if mp < 10 then mp + 3 else mp - 9;
    Date(if month <= 2 then year + 1 else year, month, day)
  }

  function YearOfEra(doe: int): int {
    Div(doe - Div(doe, 1460) + Div(doe, 36_524) - Div(doe, 146_096), 365)
  }

  // ---------------------------------------------------------------------------
  // Years from March
  // ---------------------------------------------------------------------------

  /** Days before the year that starts in March of year y. */
  function YearStart(y: int): int {
    365 * y + y / 4 - y / 100 + y / 400
  }

  predicate Gregorian(y: int) {
    y % 4 == 0 && (y % 100 != 0 || y % 400 == 0)
  }

  lemma FloorStep(y: int, m: int)
    requires m == 4 || m == 100 || m == 400
    ensures y / m - (y - 1) / m == if y % m == 0 then 1 else 0
  {
  }

  /** A year from March is a day longer when the February in it has 29. */
  lemma YearLength(y: int)
    ensures YearStart(y) - YearStart(y - 1) == if Gregorian(y) then 366 else 365
  {
    FloorStep(y, 4);
    FloorStep(y, 100);
    FloorStep(y, 400);
    MultipleOf(y);
  }

  lemma MultipleOf(y: int)
    ensures y % 100 == 0 ==> y % 4 == 0
    ensures y % 400 == 0 ==> y % 100 == 0
  {
  }

  lemma RemZero4(y: int)
    ensures Rem(y, 4) == 0 <==> y % 4 == 0
  {
    if y < 0 {
      assert -y == 4 * (-y / 4) + -y % 4 && y == 4 * (y / 4) + y % 4;
    }
  }

  lemma RemZero100(y: int)
    ensures Rem(y, 100) == 0 <==> y % 100 == 0
  {
    if y < 0 {
      assert -y == 100 * (-y / 100) + -y % 100 && y == 100 * (y / 100) + y % 100;
    }
  }

  lemma RemZero400(y: int)
    ensures Rem(y, 400) == 0 <==> y % 400 == 0
  {
    if y < 0 {
      assert -y == 400 * (-y / 400) + -y % 400 && y == 400 * (y / 400) + y % 400;
    }
  }

  lemma LeapIsGregorian(y: int)
    ensures IsLeap(y) <==> Gregorian(y)
  {
    RemZero4(y);
    RemZero100(y);
    RemZero400(y);
    MultipleOf(y);
    hide Rem;
  }

  /** `(if y >= 0 { y } else { y - 399 }) / 400` is the floor. */
  lemma EraIsFloor(y: int, m: int)
    requires m == 400 || m == 146_097
    ensures Div(if y >= 0 then y else y - (m - 1), m) == y / m
  {
  }

  /** Days before a month, counted from March. */
  function MonthStart(mp: int): int {
    (153 * mp + 2) / 5
  }

  function Shifted(month: int): int {
    if month <= 2 then month + 9 else month - 3
  }

  lemma FloorsOfEra(y: int)
    ensures var era, yoe := y / 400, y - y / 400 * 400;
      && 0 <= yoe < 400 && y / 4 == 100 * era + yoe / 4 && y / 100 == 4 * era + yoe / 100
  {
  }

  /** The closed form is the year, the month and the day, each from its start. */
  lemma DaysFromCivilParts(year: int, month: int, day: int)
    requires 1 <= month <= 12
    ensures DaysFromCivil(year, month, day)
         == YearStart(if month <= 2 then year - 1 else year) + MonthStart(Shifted(month)) + day - 1 - 719_468
  {
    var y := if month <= 2 then year - 1 else year;
    EraIsFloor(y, 400);
    FloorsOfEra(y);
    assert Rem(month + 9, 12) == Shifted(month);
  }

  lemma MonthLength(year: int, month: int)
    requires 1 <= month <= 12 && month != 2
    ensures MonthStart(Shifted(month) + 1) - MonthStart(Shifted(month)) == DaysInMonth(year, month)
  {
  }

  /** One day later is one more. */
  lemma DaysFromCivilNext(d: Date)
    requires Valid(d)
    ensures var n := Next(d);
      DaysFromCivil(n.year, n.month, n.day) == DaysFromCivil(d.year, d.month, d.day) + 1
  {
    hide DaysFromCivil, YearStart, IsLeap, Gregorian, MonthStart;
    var n := Next(d);
    DaysFromCivilParts(d.year, d.month, d.day);
    DaysFromCivilParts(n.year, n.month, n.day);
    LeapIsGregorian(d.year);
    YearLength(d.year);
    if d.day == DaysInMonth(d.year, d.month) {
      if d.month != 2 {
        MonthLength(d.year, d.month);
      } else {
        LastOfFebruary(d.year);
      }
    }
  }

  lemma LastOfFebruary(year: int)
    ensures MonthStart(Shifted(2)) + DaysInMonth(year, 2) == (if IsLeap(year) then 366 else 365)
    ensures MonthStart(Shifted(3)) == 0
  {
  }

  lemma EpochIsZero()
    ensures DaysFromCivil(1970, 1, 1) == 0
  {
  }

  /** `days_from_civil` counts the days from 1970-01-01, forwards and backwards. */
  lemma {:induction false} DaysFromCivilCounts(n: int)
    ensures var d := Counted(n); DaysFromCivil(d.year, d.month, d.day) == n
    decreases if n < 0 then -n else n
  {
    hide Next, Previous, Valid;
    if n == 0 {
      EpochIsZero();
    }
    hide DaysFromCivil;
    if n > 0 {
      DaysFromCivilCounts(n - 1);
      DaysFromCivilNext(Counted(n - 1));
    } else if n < 0 {
      DaysFromCivilCounts(n + 1);
      PreviousUndoesNext(Counted(n + 1));
      DaysFromCivilNext(Counted(n));
    }
  }

  // ---------------------------------------------------------------------------
  // Back again
  // ---------------------------------------------------------------------------

  /** How long a year from March is inside its era. */
  predicate DayOfYear(yoe: int, doy: int) {
    0 <= yoe < 400 && 0 <= doy <= 365 &&
    (doy == 365 ==> (yoe + 1) % 4 == 0 && ((yoe + 1) % 100 != 0 || yoe == 399))
  }

  /** The day of the era, from the year and the day in it. */
  function DayOfEra(yoe: int, doy: int): int {
    365 * yoe + yoe / 4 - yoe / 100 + doy
  }

  lemma CenturyOfEra(yoe: int, doy: int)
    requires DayOfYear(yoe, doy)
    ensures var doe := DayOfEra(yoe, doy);
      0 <= doe < 146_097 && doe / 36_524 - doe / 146_096 == yoe / 100
  {
    var b := yoe / 100;
    var doe := DayOfEra(yoe, doy);
    var r := yoe - 100 * b;
    assert yoe / 4 == 25 * b + r / 4;
    assert doe == 36_524 * b + 365 * r + r / 4 + doy;
    assert 0 <= r < 100 && 0 <= b <= 3;
    if r == 99 && doy == 365 {
      assert b == 3;
    }
  }

  lemma QuarterOfEra(a: int, r: int, b: int, doy: int)
    requires 0 <= a <= 99 && 0 <= r <= 3 && 0 <= b <= 3 && a >= 25 * b && 0 <= doy <= 365 && (doy == 365 ==> r == 3)
    ensures var doe := 1461 * a + 365 * r - b + doy;
      365 * (4 * a + r) <= doe - doe / 1460 + b < 365 * (4 * a + r) + 365
  {
    var doe := 1461 * a + 365 * r - b + doy;
    var over := a + 365 * r - b + doy;
    assert doe == 1460 * a + over && 0 <= over < 2920;
    if over < 1460 {
      assert doe / 1460 == a;
    } else {
      assert doe / 1460 == a + 1;
      assert r == 3;
    }
  }

  /** The year is found again from the day of the era, and the day in the year from both. */
  lemma YearOfEraExact(yoe: int, doy: int)
    requires DayOfYear(yoe, doy)
    ensures var doe := DayOfEra(yoe, doy);
      YearOfEra(doe) == yoe && doe - (365 * yoe + Div(yoe, 4) - Div(yoe, 100)) == doy
  {
    CenturyOfEra(yoe, doy);
    QuarterOfEra(yoe / 4, yoe % 4, yoe / 100, doy);
  }

  /** The month is found again from the day of the year. */
  lemma MonthExact(mp: int, day: int, year: int)
    requires 0 <= mp <= 11 && 1 <= day <= DaysInMonth(year, if mp < 10 then mp + 3 else mp - 9)
    ensures Div(5 * (MonthStart(mp) + day - 1) + 2, 153) == mp && Div(153 * mp + 2, 5) == MonthStart(mp)
  {
    hide IsLeap;
    if mp == 0 {} else if mp == 1 {} else if mp == 2 {} else if mp == 3 {} else if mp == 4 {} else if mp == 5 {}
    else if mp == 6 {} else if mp == 7 {} else if mp == 8 {} else if mp == 9 {} else if mp == 10 {} else {}
  }

  /** The era is found again. */
  lemma EraExact(era: int, doe: int)
    requires 0 <= doe < 146_097
    ensures var z := era * 146_097 + doe; Div(if z >= 0 then z else z - 146_096, 146_097) == era
  {
    var z := era * 146_097 + doe;
    EraIsFloor(z, 146_097);
    assert z / 146_097 == era;
  }

  /** `civil_from_days` takes a day number apart again. */
  lemma CivilOfParts(era: int, yoe: int, mp: int, day: int, year: int)
    requires 0 <= mp <= 11 && 1 <= day <= DaysInMonth(year, if mp < 10 then mp + 3 else mp - 9)
    requires DayOfYear(yoe, MonthStart(mp) + day - 1)
    ensures CivilFromDays(era * 146_097 + DayOfEra(yoe, MonthStart(mp) + day - 1) - 719_468)
         == Date(yoe + era * 400 + (if mp < 10 then 0 else 1), if mp < 10 then mp + 3 else mp - 9, day)
  {
    hide Div, DayOfEra, YearOfEra, DaysInMonth, DayOfYear, MonthStart;
    var doy := MonthStart(mp) + day - 1;
    CenturyOfEra(yoe, doy);
    YearOfEraExact(yoe, doy);
    MonthExact(mp, day, year);
    EraExact(era, DayOfEra(yoe, doy));
  }

  /** `civil_from_days` undoes `days_from_civil` on every date. */
  lemma CivilUndoesDays(d: Date)
    requires Valid(d)
    ensures CivilFromDays(DaysFromCivil(d.year, d.month, d.day)) == d
  {
    hide DaysFromCivil, YearStart, DaysInMonth, MonthStart, DayOfYear, CivilFromDays, DayOfEra;
    var y := if d.month <= 2 then d.year - 1 else d.year;
    var mp := Shifted(d.month);
    var era, yoe := Era(y);
    var doy := MonthStart(mp) + d.day - 1;
    DaysFromCivilParts(d.year, d.month, d.day);
    LastDay(d, era, yoe, doy);
    YearStartOfEra(y, era, yoe, doy);
    CivilOfParts(era, yoe, mp, d.day, d.year);
  }

  lemma Era(y: int) returns (era: int, yoe: int)
    ensures y == 400 * era + yoe && 0 <= yoe < 400
  {
    era := y / 400;
    yoe := y - 400 * era;
  }

  lemma YearStartOfEra(y: int, era: int, yoe: int, doy: int)
    requires y == 400 * era + yoe && 0 <= yoe < 400
    ensures YearStart(y) + doy == era * 146_097 + DayOfEra(yoe, doy)
  {
    assert y / 400 == era && y / 4 == 100 * era + yoe / 4 && y / 100 == 4 * era + yoe / 100;
  }

  lemma EraRemainders(era: int, x: int)
    ensures (400 * era + x) % 4 == x % 4 && (400 * era + x) % 100 == x % 100 && (400 * era + x) % 400 == x % 400
  {
    ModUnique(400 * era + x, 100 * era + x / 4, x % 4, 4);
    ModUnique(400 * era + x, 4 * era + x / 100, x % 100, 100);
    ModUnique(400 * era + x, era + x / 400, x % 400, 400);
  }

  lemma LastDay(d: Date, era: int, yoe: int, doy: int)
    requires Valid(d) && 0 <= yoe < 400
    requires (if d.month <= 2 then d.year - 1 else d.year) == 400 * era + yoe
    requires doy == MonthStart(Shifted(d.month)) + d.day - 1
    ensures DayOfYear(yoe, doy)
  {
    LeapIsGregorian(d.year);
    EraRemainders(era, yoe + 1);
    hide IsLeap;
    if doy >= 365 {
      assert d.month == 2 && d.day == 29;
      assert d.year == 400 * era + (yoe + 1);
      hide DaysInMonth, MonthStart;
    }
  }

  /** `civil_from_days` is the counted day, so the two closed forms are inverse to each other on all dates and all
      day numbers. */
  lemma CivilFromDaysCounts(n: int)
    ensures CivilFromDays(n) == Counted(n)
  {
    DaysFromCivilCounts(n);
    CivilUndoesDays(Counted(n));
  }

  /** One more day is the next date, which is what a calendar does. */
  lemma CivilFromDaysNext(n: int)
    ensures Valid(CivilFromDays(n))
    ensures CivilFromDays(n + 1) == Next(CivilFromDays(n))
  {
    CivilFromDaysCounts(n);
    CivilFromDaysCounts(n + 1);
    CountedNext(n);
    hide CivilFromDays, Counted, Next;
  }

  lemma ClosedFormsAreInverse(n: int, d: Date)
    requires Valid(d)
    ensures var c := CivilFromDays(n); Valid(c) && DaysFromCivil(c.year, c.month, c.day) == n
    ensures CivilFromDays(DaysFromCivil(d.year, d.month, d.day)) == d
    ensures Counted(DaysFromCivil(d.year, d.month, d.day)) == d
  {
    CivilFromDaysCounts(n);
    DaysFromCivilCounts(n);
    CivilUndoesDays(d);
    CivilFromDaysCounts(DaysFromCivil(d.year, d.month, d.day));
  }
}
