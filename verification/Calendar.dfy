/**
 The fields of a point in time, in UTC: what Second(), Minute(), Hour(), Day(), Month() and Weekday() return.

 Times are nanoseconds since the Unix epoch and not before it.
 */
module Calendar {
  import opened Arithmetic

  const NANOS_PER_SECOND := 1_000_000_000
  const SECONDS_PER_DAY := 86400

  /** The number of whole seconds since the epoch. */
  function UnixSecond(t: nat): nat {
    t / NANOS_PER_SECOND
  }

  function UnixDay(t: nat): nat {
    UnixSecond(t) / SECONDS_PER_DAY
  }

  function Second(t: nat): nat {
    UnixSecond(t) % 60
  }

  function Minute(t: nat): nat {
    UnixSecond(t) / 60 % 60
  }

  function Hour(t: nat): nat {
    UnixSecond(t) / 3600 % 24
  }

  /** Days from Sunday; the epoch was a Thursday. */
  function WeekdayOf(day: nat): nat {
    (day + 4) % 7
  }

  // ---------- The Gregorian calendar ----------

  predicate IsLeap(year: nat) {
    year % 4 == 0 && (year % 100 != 0 || year % 400 == 0)
  }

  function MonthLength(leap: bool, month: nat): nat {
    if month == 2 then (if leap then 29 else 28)
    else if month in {4, 6, 9, 11} then 30
    else 31
  }

  /** The number of days of the year before the given month. */
  function DaysBefore(leap: bool, month: nat): nat
    requires 1 <= month <= 13
  {
    if month == 1 then 0 else DaysBefore(leap, month - 1) + MonthLength(leap, month - 1)
  }

  function YearLength(year: nat): nat {
    if IsLeap(year) then 366 else 365
  }

  datatype Date = Date(year: nat, month: nat, mday: nat)

  /** The date of the day that comes yearDay days after the first of the given month. */
  function DateFrom(year: nat, month: nat, yearDay: nat): Date
    requires 1 <= month <= 12
    decreases 12 - month
  {
    var length := MonthLength(IsLeap(year), month);
    if yearDay < length || month == 12 then Date(year, month, yearDay + 1)
    else DateFrom(year, month + 1, yearDay - length)
  }

  /** The date of the day that comes days days after the start of the given year. */
  function DateOfDay(year: nat, days: nat): Date
    decreases days
  {
    if days < YearLength(year) then DateFrom(year, 1, days) else DateOfDay(year + 1, days - YearLength(year))
  }

  function DateOf(day: nat): Date {
    DateOfDay(1970, day)
  }

  lemma {:induction false} YearIsTwelveMonths(year: nat)
    ensures DaysBefore(IsLeap(year), 13) == YearLength(year)
  {
    var leap := IsLeap(year);
    assert DaysBefore(leap, 1) == 0 && DaysBefore(leap, 2) == 31;
    var feb := MonthLength(leap, 2);
    assert DaysBefore(leap, 3) == 31 + feb;
    assert DaysBefore(leap, 4) == 62 + feb;
    assert DaysBefore(leap, 5) == 92 + feb;
    assert DaysBefore(leap, 6) == 123 + feb;
    assert DaysBefore(leap, 7) == 153 + feb;
    assert DaysBefore(leap, 8) == 184 + feb;
    assert DaysBefore(leap, 9) == 215 + feb;
    assert DaysBefore(leap, 10) == 245 + feb;
    assert DaysBefore(leap, 11) == 276 + feb;
    assert DaysBefore(leap, 12) == 306 + feb;
    assert DaysBefore(leap, 13) == 337 + feb;
  }

  lemma {:induction false} DaysBeforeGrows(leap: bool, a: nat, b: nat)
    requires 1 <= a <= b <= 13
    ensures DaysBefore(leap, a) <= DaysBefore(leap, b)
    ensures a < b ==> DaysBefore(leap, a) + MonthLength(leap, a) <= DaysBefore(leap, b)
    decreases b - a
  {
    if a < b {
      DaysBeforeGrows(leap, a + 1, b);
    }
  }

  /** Counting days of a year forward from month start and naming one by month and day are inverse. */
  lemma {:induction false} DateFromNamed(year: nat, start: nat, month: nat, mday: nat)
    requires 1 <= start <= month <= 12
    requires 1 <= mday <= MonthLength(IsLeap(year), month)
    ensures var leap := IsLeap(year);
            && DaysBefore(leap, start) <= DaysBefore(leap, month)
            && DateFrom(year, start, DaysBefore(leap, month) - DaysBefore(leap, start) + mday - 1) ==
               Date(year, month, mday)
    decreases 12 - start
  {
    hide MonthLength, IsLeap;
    var leap := IsLeap(year);
    DaysBeforeGrows(leap, start, month);
    assert DaysBefore(leap, start + 1) == DaysBefore(leap, start) + MonthLength(leap, start);
    if start < month {
      DateFromNamed(year, start + 1, month, mday);
    }
  }

  /** Every date is a real one. */
  lemma {:induction false} DateFromInRange(year: nat, month: nat, yearDay: nat)
    requires 1 <= month <= 12 && DaysBefore(IsLeap(year), month) + yearDay < YearLength(year)
    ensures var date := DateFrom(year, month, yearDay);
            date.year == year && month <= date.month <= 12 && 1 <= date.mday <= MonthLength(IsLeap(year), date.month)
    decreases 12 - month
  {
    YearIsTwelveMonths(year);
    if yearDay >= MonthLength(IsLeap(year), month) && month < 12 {
      DateFromInRange(year, month + 1, yearDay - MonthLength(IsLeap(year), month));
    }
  }

  lemma {:induction false} DateInRange(year: nat, days: nat)
    ensures var date := DateOfDay(year, days);
            1 <= date.month <= 12 && 1 <= date.mday <= MonthLength(IsLeap(date.year), date.month)
    decreases days
  {
    if days < YearLength(year) {
      DateFromInRange(year, 1, days);
    } else {
      DateInRange(year + 1, days - YearLength(year));
    }
  }

  /** The position, in its year, of a month's day. */
  function YearDay(year: nat, month: nat, mday: nat): int
    requires 1 <= month <= 12
  {
    DaysBefore(IsLeap(year), month) + mday - 1
  }

  lemma YearDayNamed(year: nat, month: nat, mday: nat)
    requires 1 <= month <= 12 && 1 <= mday <= MonthLength(false, month)
    ensures 0 <= YearDay(year, month, mday) < YearLength(year)
    ensures DateFrom(year, 1, YearDay(year, month, mday)) == Date(year, month, mday)
    ensures mday <= MonthLength(IsLeap(year), month)
    ensures YearDay(year + 1, month, mday) <= YearDay(year, month, mday) + 1
  {
    var leap := IsLeap(year);
    YearIsTwelveMonths(year);
    DaysBeforeGrows(leap, month, 13);
    assert mday <= MonthLength(leap, month);
    DateFromNamed(year, 1, month, mday);
    LeapShift(month);
  }

  lemma {:induction false} LeapShift(month: nat)
    requires 1 <= month <= 13
    ensures DaysBefore(false, month) <= DaysBefore(true, month) <= DaysBefore(false, month) + 1
    ensures month <= 2 ==> DaysBefore(true, month) == DaysBefore(false, month)
    ensures month > 2 ==> DaysBefore(true, month) == DaysBefore(false, month) + 1
  {
    if month > 1 {
      LeapShift(month - 1);
    }
  }

  /** A day that every year has comes round within 366 days. */
  lemma {:induction false} NextOccurrence(year: nat, days: nat, month: nat, mday: nat) returns (wait: nat)
    requires 1 <= month <= 12 && 1 <= mday <= MonthLength(false, month)
    ensures wait <= 366
    ensures var date := DateOfDay(year, days + wait); date.month == month && date.mday == mday
    decreases days
  {
    var length := YearLength(year);
    if days >= length {
      wait := NextOccurrence(year + 1, days - length, month, mday);
    } else {
      YearDayNamed(year, month, mday);
      YearDayNamed(year + 1, month, mday);
      var here, there := YearDay(year, month, mday), YearDay(year + 1, month, mday);
      if days <= here {
        wait := here - days;
      } else {
        wait := length - days + there;
        assert days + wait >= length;
        assert DateOfDay(year + 1, there) == DateFrom(year + 1, 1, there);
      }
    }
  }

  // ---------- Against the civil calendar's closed form ----------

  /** How many leap years there are before the given year, by the rule of fours, hundreds and four hundreds. */
  function LeapYearsBefore(year: nat): int
    requires year >= 1
  {
    (year - 1) / 4 - (year - 1) / 100 + (year - 1) / 400
  }

  /** The days from the epoch to the first of January of a year. */
  function NewYear(year: nat): int
    requires year >= 1970
  {
    365 * (year - 1970) + LeapYearsBefore(year) - LeapYearsBefore(1970)
  }

  /** The days of a year before a month: from March on, months of 31 and 30 days alternate in fives. */
  function MonthStart(leap: bool, month: nat): int {
    if month <= 2 then 31 * (month - 1) else 59 + (153 * (month - 3) + 2) / 5 + if leap then 1 else 0
  }

  lemma LeapYearCounted(year: nat)
    requires year >= 1
    ensures LeapYearsBefore(year + 1) == LeapYearsBefore(year) + if IsLeap(year) then 1 else 0
  {
    QuotientGrows(year, 4);
    QuotientGrows(year, 100);
    QuotientGrows(year, 400);
    MultipleOfFour(year);
  }

  lemma QuotientGrows(n: nat, c: nat)
    requires n >= 1 && c >= 1
    ensures n / c == (n - 1) / c + if n % c == 0 then 1 else 0
  {
    var q, r := (n - 1) / c, (n - 1) % c;
    assert n == q * c + (r + 1);
    if r + 1 < c {
      QuotientUnique(n / c, n % c, q, r + 1, c);
    } else {
      assert n == (q + 1) * c + 0 by { assert (q + 1) * c == q * c + c; }
      QuotientUnique(n / c, n % c, q + 1, 0, c);
    }
  }

  lemma MultipleOfFour(n: nat)
    ensures n % 100 == 0 ==> n % 4 == 0
    ensures n % 400 == 0 ==> n % 100 == 0
  {
    if n % 100 == 0 {
      assert n == (25 * (n / 100)) * 4 + 0;
      QuotientUnique(n / 4, n % 4, 25 * (n / 100), 0, 4);
    }
    if n % 400 == 0 {
      assert n == (4 * (n / 400)) * 100 + 0;
      QuotientUnique(n / 100, n % 100, 4 * (n / 400), 0, 100);
    }
  }

  lemma {:induction false} MonthStartIs(leap: bool, month: nat)
    requires 1 <= month <= 12
    ensures DaysBefore(leap, month) == MonthStart(leap, month)
  {
    if month > 1 {
      MonthStartIs(leap, month - 1);
    }
  }

  lemma NewYearNext(year: nat)
    requires year >= 1970
    ensures NewYear(year + 1) == NewYear(year) + YearLength(year)
  {
    LeapYearCounted(year);
    hide LeapYearsBefore, IsLeap;
  }

  lemma OneYearOn(year: nat, days: nat)
    ensures DateOfDay(year, YearLength(year) + days) == DateOfDay(year + 1, days)
  {
  }

  lemma {:induction false} YearsLater(from: nat, year: nat, days: nat)
    requires 1970 <= from <= year
    ensures NewYear(year) >= NewYear(from)
    ensures DateOfDay(from, NewYear(year) - NewYear(from) + days) == DateOfDay(year, days)
    decreases year - from
  {
    hide NewYear, YearLength, DateOfDay;
    if from < year {
      NewYearNext(from);
      YearsLater(from + 1, year, days);
      OneYearOn(from, NewYear(year) - NewYear(from + 1) + days);
    }
  }

  lemma MonthFollows(leap: bool, month: nat)
    requires 1 <= month <= 12
    ensures DaysBefore(leap, 1) == 0
    ensures DaysBefore(leap, month + 1) == DaysBefore(leap, month) + MonthLength(leap, month)
  {
  }

  lemma InFirstYear(year: nat, days: nat)
    requires days < YearLength(year)
    ensures DateOfDay(year, days) == DateFrom(year, 1, days)
  {
  }

  lemma DayInYear(year: nat, month: nat, mday: nat)
    requires 1 <= month <= 12 && 1 <= mday <= MonthLength(IsLeap(year), month)
    ensures var days := DaysBefore(IsLeap(year), month) + mday - 1;
            0 <= days < YearLength(year) && DateOfDay(year, days) == Date(year, month, mday)
  {
    hide *;
    var leap := IsLeap(year);
    YearIsTwelveMonths(year);
    DateFromNamed(year, 1, month, mday);
    MonthFollows(leap, month);
    DaysBeforeGrows(leap, month + 1, 13);
    InFirstYear(year, DaysBefore(leap, month) + mday - 1);
  }

  lemma FromTheEpoch()
    ensures NewYear(1970) == 0
  {
  }

  /**
   Main result on dates: counting days from the epoch, year by year and month by month, agrees with the closed form of
   the Gregorian calendar for every date from 1970 on.
   */
  lemma DateOfCivilDay(year: nat, month: nat, mday: nat)
    requires year >= 1970 && 1 <= month <= 12 && 1 <= mday <= MonthLength(IsLeap(year), month)
    ensures NewYear(year) + MonthStart(IsLeap(year), month) + mday - 1 >= 0
    ensures DateOf(NewYear(year) + MonthStart(IsLeap(year), month) + mday - 1) == Date(year, month, mday)
  {
    var leap := IsLeap(year);
    MonthStartIs(leap, month);
    DayInYear(year, month, mday);
    YearsLater(1970, year, DaysBefore(leap, month) + mday - 1);
    FromTheEpoch();
    hide NewYear, IsLeap, MonthLength, MonthStart, DaysBefore, DateOfDay;
  }

  /** The first of January 2000 was a Saturday, and each weekday follows the one before. */
  lemma WeekdaysGoRound(day: nat)
    ensures NewYear(2000) == 10957 && WeekdayOf(NewYear(2000)) == 6
    ensures WeekdayOf(day) < 7 && WeekdayOf(day + 1) == if WeekdayOf(day) == 6 then 0 else WeekdayOf(day) + 1
  {
  }

  /** A known time: a second before half past twelve on Thursday, 15 January 1970. */
  lemma KnownTime()
    ensures var t := 1254599_000000000;
            && Hour(t) == 12 && Minute(t) == 29 && Second(t) == 59
            && DateOf(UnixDay(t)) == Date(1970, 1, 15) && WeekdayOf(UnixDay(t)) == 4
  {
    var t := 1254599_000000000;
    assert UnixSecond(t) == 1254599 && UnixDay(t) == 14;
    DateOfCivilDay(1970, 1, 15);
    FromTheEpoch();
  }

  /** 2000 had a leap day, and 2100 will not have one. */
  lemma LeapDayExamples()
    ensures DateOf(11016) == Date(2000, 2, 29)
    ensures DateOf(47540) == Date(2100, 2, 28) && DateOf(47541) == Date(2100, 3, 1)
  {
    DateOfCivilDay(2000, 2, 29);
    DateOfCivilDay(2100, 2, 28);
    DateOfCivilDay(2100, 3, 1);
  }
}
