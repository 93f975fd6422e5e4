/**
 * Instants as milliseconds since 1970-01-01T00:00:00.000Z and their UTC calendar fields, as the
 * language's Date computes them (section 21.4.1 of ECMA-262): the proleptic Gregorian calendar.
 */
module Calendar {
  datatype Civil = Civil(year: int, month: int, day: int, hour: int, minute: int, second: int, milli: int)

  const MS_PER_DAY := 86_400_000
  const EPOCH_DAY := 719_528

  predicate IsLeap(y: int) {
    y % 4 == 0 && (y % 100 != 0 || y % 400 == 0)
  }

  function YearLength(y: int): int {
    if IsLeap(y) then 366 else 365
  }

  function MonthLength(y: int, m: int): int {
    if m == 2 then (if IsLeap(y) then 29 else 28)
    else if m == 4 || m == 6 || m == 9 || m == 11 then 30
    else 31
  }

  /** The day a year starts on, counted from 0000-01-01. */
  function YearStart(y: int): int {
    365 * y + (y + 3) / 4 - (y + 99) / 100 + (y + 399) / 400
  }

  /** The days of a year before a month. */
  function MonthStart(y: int, m: int): int
    requires 1 <= m <= 13
    decreases m
  {
    if m == 1 then 0 else MonthStart(y, m - 1) + MonthLength(y, m - 1)
  }

  predicate Valid(c: Civil) {
    && 1 <= c.month <= 12 && 1 <= c.day <= MonthLength(c.year, c.month)
    && 0 <= c.hour < 24 && 0 <= c.minute < 60 && 0 <= c.second < 60 && 0 <= c.milli < 1000
  }

  function DayNumber(c: Civil): int
    requires Valid(c)
  {
    YearStart(c.year) + MonthStart(c.year, c.month) + c.day - 1
  }

  function TimeOfDay(c: Civil): int {
    ((c.hour * 60 + c.minute) * 60 + c.second) * 1000 + c.milli
  }

  /** The instant of a calendar reading. */
  function Instant(c: Civil): int
    requires Valid(c)
  {
    (DayNumber(c) - EPOCH_DAY) * MS_PER_DAY + TimeOfDay(c)
  }

  // ---- The calendar is ordered -----------------------------------------------------------------------

  lemma YearStep(y: int)
    ensures YearStart(y + 1) == YearStart(y) + YearLength(y)
  {
    EveryFourth(y);
    EveryHundredth(y);
    EveryFourHundredth(y);
  }

  lemma EveryFourth(y: int)
    ensures (y + 4) / 4 == (y + 3) / 4 + if y % 4 == 0 then 1 else 0
  {
    var q, r := y / 4, y % 4;
    assert y == 4 * q + r;
  }

  lemma EveryHundredth(y: int)
    ensures (y + 100) / 100 == (y + 99) / 100 + if y % 100 == 0 then 1 else 0
    ensures y % 100 == 0 ==> y % 4 == 0
  {
    var q, r := y / 100, y % 100;
    assert y == 100 * q + r;
  }

  lemma EveryFourHundredth(y: int)
    ensures (y + 400) / 400 == (y + 399) / 400 + if y % 400 == 0 then 1 else 0
    ensures y % 400 == 0 ==> y % 100 == 0
  {
    var q, r := y / 400, y % 400;
    assert y == 400 * q + r;
  }

  lemma {:induction false} YearsAscend(a: int, b: int)
    requires a < b
    ensures YearStart(a + 1) <= YearStart(b)
    decreases b - a
  {
    if a + 1 < b {
      YearsAscend(a, b - 1);
      YearStep(b - 1);
    }
  }

  lemma {:induction false} MonthsAscend(y: int, a: int, b: int)
    requires 1 <= a < b <= 13
    ensures MonthStart(y, a + 1) <= MonthStart(y, b)
    decreases b - a
  {
    if a + 1 < b {
      MonthsAscend(y, a, b - 1);
    }
  }

  lemma YearIsItsMonths(y: int)
    ensures MonthStart(y, 13) == YearLength(y)
  {
    assert MonthStart(y, 3) == 31 + MonthLength(y, 2);
    assert MonthStart(y, 6) == MonthStart(y, 3) + 92;
    assert MonthStart(y, 9) == MonthStart(y, 6) + 92;
    assert MonthStart(y, 12) == MonthStart(y, 9) + 91;
  }

  /** A day lies inside its year and month. */
  lemma DayInYear(c: Civil)
    requires Valid(c)
    ensures YearStart(c.year) <= DayNumber(c) < YearStart(c.year + 1)
    ensures MonthStart(c.year, c.month) <= DayNumber(c) - YearStart(c.year) < MonthStart(c.year, c.month + 1)
  {
    YearStep(c.year);
    YearIsItsMonths(c.year);
    if c.month < 12 {
      MonthsAscend(c.year, c.month, 13);
    }
    assert MonthStart(c.year, c.month) >= 0 by {
      if c.month > 1 {
        MonthsAscend(c.year, 1, c.month);
      }
    }
  }

  predicate DateBefore(a: Civil, b: Civil) {
    || a.year < b.year
    || (a.year == b.year && (a.month < b.month || (a.month == b.month && a.day < b.day)))
  }

  predicate SameDate(a: Civil, b: Civil) {
    a.year == b.year && a.month == b.month && a.day == b.day
  }

  predicate TimeBefore(a: Civil, b: Civil) {
    || a.hour < b.hour
    || (a.hour == b.hour && (a.minute < b.minute
                             || (a.minute == b.minute && (a.second < b.second
                                                          || (a.second == b.second && a.milli < b.milli)))))
  }

  /** Field by field, most significant first. */
  predicate Before(a: Civil, b: Civil) {
    DateBefore(a, b) || (SameDate(a, b) && TimeBefore(a, b))
  }

  lemma DatesAscend(a: Civil, b: Civil)
    requires Valid(a) && Valid(b) && DateBefore(a, b)
    ensures DayNumber(a) < DayNumber(b)
  {
    if a.year < b.year {
      YearsApart(a, b);
    } else if a.month < b.month {
      MonthsApart(a, b);
    }
  }

  lemma YearsApart(a: Civil, b: Civil)
    requires Valid(a) && Valid(b) && a.year < b.year
    ensures DayNumber(a) < DayNumber(b)
  {
    WithinYear(a);
    WithinYear(b);
    YearsAscend(a.year, b.year);
  }

  lemma WithinYear(c: Civil)
    requires Valid(c)
    ensures YearStart(c.year) <= DayNumber(c) < YearStart(c.year + 1)
  {
    DayInYear(c);
  }

  lemma MonthsApart(a: Civil, b: Civil)
    requires Valid(a) && Valid(b) && a.year == b.year && a.month < b.month
    ensures DayNumber(a) < DayNumber(b)
  {
    DayInYear(a);
    DayInYear(b);
    MonthsAscend(a.year, a.month, b.month);
  }

  lemma TimesAscend(a: Civil, b: Civil)
    requires Valid(a) && Valid(b)
    ensures TimeBefore(a, b) <==> TimeOfDay(a) < TimeOfDay(b)
    ensures 0 <= TimeOfDay(a) < MS_PER_DAY
  {
  }

  /** Calendar readings are ordered field by field exactly as their instants are. */
  lemma InstantsFollowFields(a: Civil, b: Civil)
    requires Valid(a) && Valid(b)
    ensures Before(a, b) <==> Instant(a) < Instant(b)
    ensures a == b <==> Instant(a) == Instant(b)
  {
    TimesAscend(a, b);
    TimesAscend(b, a);
    if DateBefore(a, b) {
      DatesAscend(a, b);
    } else if DateBefore(b, a) {
      DatesAscend(b, a);
    }
  }

  // ---- From an instant back to the calendar ----------------------------------------------------------

  /** YearFromTime: the year a day falls in. */
  function YearOf(day: int, guess: int): (y: int)
    ensures YearStart(y) <= day < YearStart(y + 1)
    decreases if day < YearStart(guess) then YearStart(guess) - day + 366 else day - YearStart(guess)
  {
    YearStep(guess);
    YearStep(guess - 1);
    if day < YearStart(guess) then YearOf(day, guess - 1)
    else if day >= YearStart(guess + 1) then YearOf(day, guess + 1)
    else guess
  }

  function MonthOf(y: int, dayOfYear: int, m: int): (r: int)
    requires 1 <= m <= 12 && MonthStart(y, m) <= dayOfYear < YearLength(y)
    ensures 1 <= r <= 12 && MonthStart(y, r) <= dayOfYear < MonthStart(y, r + 1)
    decreases 12 - m
  {
    YearIsItsMonths(y);
    if dayOfYear < MonthStart(y, m + 1) then m else MonthOf(y, dayOfYear, m + 1)
  }

  /** The UTC fields of an instant. */
  function CivilOf(t: int): (c: Civil)
    ensures Valid(c)
  {
    var day := t / MS_PER_DAY + EPOCH_DAY;
    var ms := t % MS_PER_DAY;
    var year := YearOf(day, 1970);
    YearStep(year);
    var month := MonthOf(year, day - YearStart(year), 1);
    Civil(year, month, day - YearStart(year) - MonthStart(year, month) + 1,
          ms / 3_600_000, ms / 60_000 % 60, ms / 1000 % 60, ms % 1000)
  }

  /** Reading the calendar and taking the instant are inverse to each other, both ways. */
  lemma CalendarRoundTrip(t: int, c: Civil)
    requires Valid(c)
    ensures Instant(CivilOf(t)) == t
    ensures CivilOf(Instant(c)) == c
  {
    ReadingKeepsTheInstant(t);
    ReadingKeepsTheInstant(Instant(c));
    InstantsFollowFields(CivilOf(Instant(c)), c);
  }

  lemma ReadingKeepsTheInstant(t: int)
    ensures Instant(CivilOf(t)) == t
  {
    TimeOfDayIsWhole(t % MS_PER_DAY);
    assert t == t / MS_PER_DAY * MS_PER_DAY + t % MS_PER_DAY;
  }

  lemma TimeOfDayIsWhole(ms: int)
    requires 0 <= ms < MS_PER_DAY
    ensures ((ms / 3_600_000 * 60 + ms / 60_000 % 60) * 60 + ms / 1000 % 60) * 1000 + ms % 1000 == ms
  {
    assert ms / 60_000 == ms / 3_600_000 * 60 + ms / 60_000 % 60;
    assert ms / 1000 == ms / 60_000 * 60 + ms / 1000 % 60;
  }

  lemma WithoutMillis(c: Civil)
    requires Valid(c)
    ensures Valid(c.(milli := 0)) && Instant(c.(milli := 0)) == Instant(c) - c.milli
  {
    var whole := c.(milli := 0);
    assert DayNumber(whole) == DayNumber(c) && TimeOfDay(whole) == TimeOfDay(c) - c.milli;
  }

  /** The lengths of the months, with the leap day of every fourth year but for three centuries in four. */
  lemma MonthsAre(y: int, m: int)
    ensures m in {1, 3, 5, 7, 8, 10, 12} ==> MonthLength(y, m) == 31
    ensures m in {4, 6, 9, 11} ==> MonthLength(y, m) == 30
    ensures m == 2 ==> MonthLength(y, m) == if IsLeap(y) then 29 else 28
  {
  }

  /** Years that are known to be leap years, and years that are known not to be. */
  lemma LeapYears()
    ensures IsLeap(2024) && IsLeap(2000) && IsLeap(1600) && IsLeap(0) && IsLeap(-4)
    ensures !IsLeap(2023) && !IsLeap(2025) && !IsLeap(2026) && !IsLeap(1900) && !IsLeap(2100) && !IsLeap(2200)
  {
  }

  /** The calendar repeats after 400 years, which have 146097 days. */
  lemma FourHundredYears(y: int)
    ensures YearStart(y + 400) == YearStart(y) + 146_097
  {
    assert (y + 403) / 4 == (y + 3) / 4 + 100;
    assert (y + 499) / 100 == (y + 99) / 100 + 4;
  }

  /** Instants count milliseconds from the epoch. */
  lemma EpochIsZero(c: Civil)
    requires c == Civil(1970, 1, 1, 0, 0, 0, 0)
    ensures Valid(c) && Instant(c) == 0
  {
    assert YearStart(1970) == 719_528;
    assert MonthStart(c.year, 1) == 0;
  }

  lemma DayIsAdded(c: Civil, next: Civil)
    requires Valid(c) && Valid(next) && next == c.(day := c.day + 1)
    ensures Instant(next) == Instant(c) + 86_400_000
  {
  }
}
