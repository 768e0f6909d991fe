/**
 When a job runs next: nextRunTime of jobberrunner/queue.go, which tries every second of two years.
 */
module NextRuns {
  import opened Wrappers
  import opened Calendar
  import opened TimeSpecs
  import opened Arithmetic
  import Decimal
  import Parsers = TimeSpecParsers

  /** The number of seconds tried: two years of 365 days. */
  const HORIZON: nat := 2 * 365 * SECONDS_PER_DAY

  function TimeAt(now: nat, k: nat): nat {
    now + k * NANOS_PER_SECOND
  }

  /** The first satisfying time among now + k s, now + (k + 1) s and so on, before the horizon. */
  function FirstSatisfying(spec: FullTimeSpec, now: nat, k: nat): Option<nat>
    requires spec.Ready() && k <= HORIZON
    decreases HORIZON - k
  {
    if k == HORIZON then None
    else if spec.Satisfied(TimeAt(now, k)) then Some(TimeAt(now, k))
    else FirstSatisfying(spec, now, k + 1)
  }

  function NextRunTime(spec: FullTimeSpec, now: nat): Option<nat>
    requires spec.Ready()
  {
    FirstSatisfying(spec, now, 0)
  }

  method FindNextRunTime(spec: FullTimeSpec, now: nat) returns (r: Option<nat>)
    requires spec.Ready()
    ensures r == NextRunTime(spec, now)
  {
    var max := now + 2 * 365 * SECONDS_PER_DAY * NANOS_PER_SECOND;
    var next := now;
    ghost var k := 0;
    while next < max
      invariant k <= HORIZON && next == TimeAt(now, k)
      invariant FirstSatisfying(spec, now, k) == NextRunTime(spec, now)
      decreases max - next
    {
      if spec.Satisfied(next) {
        return Some(next);
      }
      next := next + NANOS_PER_SECOND;
      k := k + 1;
    }
    r := None;
  }

  // ---------- The least satisfying second ----------

  lemma {:induction false} FirstSatisfyingIsLeast(spec: FullTimeSpec, now: nat, k: nat) returns (n: nat)
    requires spec.Ready() && k <= HORIZON
    ensures k <= n <= HORIZON
    ensures forall j | k <= j < n :: !spec.Satisfied(TimeAt(now, j))
    ensures n < HORIZON ==> spec.Satisfied(TimeAt(now, n)) && FirstSatisfying(spec, now, k) == Some(TimeAt(now, n))
    ensures n == HORIZON ==> FirstSatisfying(spec, now, k).None?
    decreases HORIZON - k
  {
    if k == HORIZON || spec.Satisfied(TimeAt(now, k)) {
      n := k;
    } else {
      n := FirstSatisfyingIsLeast(spec, now, k + 1);
    }
  }

  lemma SecondAt(now: nat, k: nat)
    ensures UnixSecond(TimeAt(now, k)) == UnixSecond(now) + k
  {
  }

  /**
   The next run time is in the least satisfying second from now on, if there is one before the horizon; no other
   satisfying second comes before it.
   */
  lemma NextRunTimeIsLeast(spec: FullTimeSpec, now: nat)
    requires spec.Ready()
    ensures var r := NextRunTime(spec, now);
            && (r.Some? ==>
                  spec.Satisfied(r.value) && UnixSecond(now) <= UnixSecond(r.value) < UnixSecond(now) + HORIZON)
            && (r.Some? ==> r.value % NANOS_PER_SECOND == now % NANOS_PER_SECOND && now <= r.value)
            && forall t: nat | UnixSecond(now) <= UnixSecond(t) <
                 (if r.Some? then UnixSecond(r.value) else UnixSecond(now) + HORIZON) :: !spec.Satisfied(t)
  {
    var r := NextRunTime(spec, now);
    var n := FirstSatisfyingIsLeast(spec, now, 0);
    SecondAt(now, n);
    forall t: nat | UnixSecond(now) <= UnixSecond(t) < UnixSecond(now) + n
      ensures !spec.Satisfied(t)
    {
      var j := UnixSecond(t) - UnixSecond(now);
      SecondAt(now, j);
      SatisfiedBySecond(spec, t, TimeAt(now, j));
    }
  }

  /**
   Rescheduling after a run: asked from one second after the time of the run, the answer lies in a later second, and
   no satisfying second lies between the two.
   */
  lemma NoneSkipped(spec: FullTimeSpec, at: nat)
    requires spec.Ready()
    ensures var r := NextRunTime(spec, at + NANOS_PER_SECOND);
            && (r.Some? ==> UnixSecond(at) < UnixSecond(r.value) && r.value >= at + NANOS_PER_SECOND)
            && forall t: nat | UnixSecond(at) < UnixSecond(t) <
                 (if r.Some? then UnixSecond(r.value) else UnixSecond(at) + 1 + HORIZON) :: !spec.Satisfied(t)
  {
    NextRunTimeIsLeast(spec, at + NANOS_PER_SECOND);
    assert at + NANOS_PER_SECOND == TimeAt(at, 1);
    SecondAt(at, 1);
  }

  /** A satisfying second within the horizon is enough for there to be a next run time, no later than it. */
  lemma FoundBy(spec: FullTimeSpec, now: nat, t: nat)
    requires spec.Ready() && spec.Satisfied(t)
    requires UnixSecond(now) <= UnixSecond(t) < UnixSecond(now) + HORIZON
    ensures NextRunTime(spec, now).Some?
    ensures UnixSecond(NextRunTime(spec, now).value) <= UnixSecond(t)
  {
    NextRunTimeIsLeast(spec, now);
  }

  /** The earlier of two next run times, if there is any. */
  function Earlier(a: Option<nat>, b: Option<nat>): Option<nat> {
    if a.None? then b
    else if b.None? then a
    else if a.value <= b.value then a
    else b
  }

  /** With demands on both the weekday and the day of the month, the next run is the earlier of those for each alone. */
  lemma EarlierDay(spec: FullTimeSpec, now: nat)
    requires spec.Ready() && !spec.wday.IsWildcard() && !spec.monthDay.IsWildcard()
    ensures NextRunTime(spec, now) == Earlier(NextRunTime(OnMonthDays(spec), now), NextRunTime(OnWeekdays(spec), now))
  {
    EarlierFrom(spec, now, 0);
  }

  lemma {:induction false} EarlierFrom(spec: FullTimeSpec, now: nat, k: nat)
    requires spec.Ready() && !spec.wday.IsWildcard() && !spec.monthDay.IsWildcard() && k <= HORIZON
    ensures FirstSatisfying(spec, now, k) ==
            Earlier(FirstSatisfying(OnMonthDays(spec), now, k), FirstSatisfying(OnWeekdays(spec), now, k))
    decreases HORIZON - k
  {
    if k < HORIZON {
      EitherDay(spec, TimeAt(now, k));
      EarlierFrom(spec, now, k + 1);
      var a := FirstSatisfyingIsLeast(OnMonthDays(spec), now, k);
      var b := FirstSatisfyingIsLeast(OnWeekdays(spec), now, k);
      hide FullTimeSpec.Satisfied;
      TimesAscend(now, k, a);
      TimesAscend(now, k, b);
    }
  }

  lemma TimesAscend(now: nat, k: nat, n: nat)
    requires k <= n
    ensures TimeAt(now, k) <= TimeAt(now, n)
  {
  }

  // ---------- Finding one ----------

  /** The demands of a spec on the day. */
  predicate DayFits(spec: FullTimeSpec, day: nat)
    requires spec.Ready()
  {
    spec.mon.Satisfied(DateOf(day).month) && spec.DaySatisfied(WeekdayOf(day), DateOf(day).mday)
  }

  predicate ClockFits(spec: FullTimeSpec, hour: nat, minute: nat, second: nat)
    requires spec.Ready()
  {
    spec.hour.Satisfied(hour) && spec.min.Satisfied(minute) && spec.sec.Satisfied(second)
  }

  function TimeOn(day: nat, hour: nat, minute: nat, second: nat): nat {
    (day * SECONDS_PER_DAY + hour * 3600 + minute * 60 + second) * NANOS_PER_SECOND
  }

  lemma ClockOf(day: nat, hour: nat, minute: nat, second: nat)
    requires hour < 24 && minute < 60 && second < 60
    ensures var t := TimeOn(day, hour, minute, second);
            && UnixSecond(t) == day * SECONDS_PER_DAY + hour * 3600 + minute * 60 + second
            && UnixDay(t) == day && Hour(t) == hour && Minute(t) == minute && Second(t) == second
  {
    var t := TimeOn(day, hour, minute, second);
    var s := day * SECONDS_PER_DAY + hour * 3600 + minute * 60 + second;
    assert UnixSecond(t) == s;
    hide UnixSecond, TimeOn;
    DaysAndHours(day, hour, minute * 60 + second);
    MinutesAndSeconds(day * 24 + hour, minute, second);
  }

  lemma DaysAndHours(day: nat, hour: nat, rest: nat)
    requires hour < 24 && rest < 3600
    ensures var s := day * SECONDS_PER_DAY + hour * 3600 + rest;
            s / SECONDS_PER_DAY == day && s / 3600 == day * 24 + hour && s / 3600 % 24 == hour
  {
  }

  lemma MinutesAndSeconds(hours: nat, minute: nat, second: nat)
    requires minute < 60 && second < 60
    ensures var s := hours * 3600 + minute * 60 + second;
            s / 60 == hours * 60 + minute && s / 60 % 60 == minute && s % 60 == second
  {
  }

  /** Some second of the day at which the clock fields of the spec are satisfied. */
  lemma ClockChoice(spec: FullTimeSpec) returns (hour: nat, minute: nat, second: nat)
    requires spec.Ready() && spec.Within()
    ensures hour < 24 && minute < 60 && second < 60 && ClockFits(spec, hour, minute, second)
  {
    var h := Satisfiable(spec.hour, 0, 23);
    var m := Satisfiable(spec.min, 0, 59);
    var s := Satisfiable(spec.sec, 0, 59);
    hour, minute, second := h, m, s;
  }

  /** A fitting day that is not over by the chosen second, and near enough, gives a next run time no later than it. */
  lemma FoundOnDay(spec: FullTimeSpec, now: nat, day: nat, hour: nat, minute: nat, second: nat)
    requires spec.Ready() && DayFits(spec, day)
    requires hour < 24 && minute < 60 && second < 60 && ClockFits(spec, hour, minute, second)
    requires UnixSecond(now) <= UnixSecond(TimeOn(day, hour, minute, second)) < UnixSecond(now) + HORIZON
    ensures NextRunTime(spec, now).Some?
    ensures UnixSecond(NextRunTime(spec, now).value) <= UnixSecond(TimeOn(day, hour, minute, second))
  {
    ClockOf(day, hour, minute, second);
    FoundBy(spec, now, TimeOn(day, hour, minute, second));
  }

  lemma DaySplit(now: nat)
    ensures UnixSecond(now) == UnixDay(now) * SECONDS_PER_DAY + UnixSecond(now) % SECONDS_PER_DAY
  {
  }

  /** With no demands on the day, the next run is less than a day away. */
  lemma DailyWithinADay(spec: FullTimeSpec, now: nat)
    requires spec.Ready() && spec.Within()
    requires spec.monthDay.IsWildcard() && spec.mon.IsWildcard() && spec.wday.IsWildcard()
    ensures NextRunTime(spec, now).Some?
    ensures UnixSecond(NextRunTime(spec, now).value) < UnixSecond(now) + SECONDS_PER_DAY
  {
    var hour, minute, second := ClockChoice(spec);
    DaySplit(now);
    var today := UnixDay(now);
    ClockOf(today, hour, minute, second);
    ClockOf(today + 1, hour, minute, second);
    if UnixSecond(now) <= UnixSecond(TimeOn(today, hour, minute, second)) {
      FoundOnDay(spec, now, today, hour, minute, second);
    } else {
      FoundOnDay(spec, now, today + 1, hour, minute, second);
    }
  }

  /** The number of days from one weekday to the next occurrence of another. */
  function DaysUntil(from: nat, to: nat): nat
    requires from < 7 && to < 7
  {
    (to + 7 - from) % 7
  }

  lemma WeekdayReached(day: nat, weekday: nat)
    requires weekday < 7
    ensures WeekdayOf(day + DaysUntil(WeekdayOf(day), weekday)) == weekday
    ensures WeekdayOf(day + 7) == WeekdayOf(day)
  {
    var w, weeks := WeekdayOf(day), (day + 4) / 7;
    var ahead := if weekday >= w then weekday - w else weekday + 7 - w;
    assert DaysUntil(w, weekday) == ahead;
    assert day + 4 == 7 * weeks + w;
    assert day + ahead + 4 == 7 * (weeks + if weekday >= w then 0 else 1) + weekday;
  }

  /** With demands on the weekday but not on the month, the next run is less than seven days away. */
  lemma WeeklyWithinAWeek(spec: FullTimeSpec, now: nat)
    requires spec.Ready() && spec.Within()
    requires spec.mon.IsWildcard() && !spec.wday.IsWildcard()
    ensures NextRunTime(spec, now).Some?
    ensures UnixSecond(NextRunTime(spec, now).value) < UnixSecond(now) + 7 * SECONDS_PER_DAY
  {
    var weekday := Satisfiable(spec.wday, 0, 6);
    var hour, minute, second := ClockChoice(spec);
    DaySplit(now);
    var today := UnixDay(now);
    var ahead := DaysUntil(WeekdayOf(today), weekday);
    WeekdayReached(today, weekday);
    ClockOf(today + ahead, hour, minute, second);
    ClockOf(today + 7, hour, minute, second);
    if UnixSecond(now) <= UnixSecond(TimeOn(today + ahead, hour, minute, second)) {
      FoundOnDay(spec, now, today + ahead, hour, minute, second);
    } else {
      assert ahead == 0;
      FoundOnDay(spec, now, today + 7, hour, minute, second);
    }
  }

  /** A fitting day among the next 374 gives a next run time less than 375 days away. */
  lemma FoundWithinAYear(spec: FullTimeSpec, now: nat, ahead: nat)
    requires spec.Ready() && spec.Within() && 1 <= ahead <= 374
    requires DayFits(spec, UnixDay(now) + ahead)
    ensures NextRunTime(spec, now).Some?
    ensures UnixSecond(NextRunTime(spec, now).value) < UnixSecond(now) + 375 * SECONDS_PER_DAY
  {
    var hour, minute, second := ClockChoice(spec);
    DaySplit(now);
    ClockOf(UnixDay(now) + ahead, hour, minute, second);
    FoundOnDay(spec, now, UnixDay(now) + ahead, hour, minute, second);
  }

  /** A day of the month that the spec asks for and that every year has. */
  ghost predicate CommonDay(spec: FullTimeSpec, month: nat, mday: nat)
    requires spec.Ready()
  {
    && 1 <= month <= 12 && 1 <= mday <= MonthLength(false, month)
    && spec.mon.Satisfied(month) && spec.monthDay.Satisfied(mday)
  }

  /** The first week of a month, day by day. */
  lemma {:induction false} WeekOfMonth(year: nat, days: nat, j: nat)
    requires DateOfDay(year, days).mday == 1 && j < 7
    ensures DateOfDay(year, days + j).month == DateOfDay(year, days).month
    decreases days
  {
    if days < YearLength(year) {
      YearIsTwelveMonths(year);
      WeekInMonth(year, 1, days, j);
    } else {
      WeekOfMonth(year + 1, days - YearLength(year), j);
    }
  }

  lemma FourWeeks(leap: bool, month: nat)
    ensures MonthLength(leap, month) >= 28
  {
  }

  lemma {:induction false} WeekInMonth(year: nat, month: nat, yearDay: nat, j: nat)
    requires 1 <= month <= 12 && j < 7
    requires DaysBefore(IsLeap(year), month) + yearDay < YearLength(year)
    requires DateFrom(year, month, yearDay).mday == 1
    ensures DaysBefore(IsLeap(year), month) + yearDay + j < YearLength(year)
    ensures DateFrom(year, month, yearDay + j).month == DateFrom(year, month, yearDay).month
    decreases 12 - month
  {
    var leap := IsLeap(year);
    YearIsTwelveMonths(year);
    DaysBeforeGrows(leap, month, 13);
    FourWeeks(leap, month);
    hide IsLeap, MonthLength, YearLength;
    assert month < 12 ==> DaysBefore(leap, month + 1) == DaysBefore(leap, month) + MonthLength(leap, month);
    if yearDay >= MonthLength(leap, month) && month < 12 {
      WeekInMonth(year, month + 1, yearDay - MonthLength(leap, month), j);
    }
  }

  /**
   Main result on reach: every accepted, derandomized spec has a next run time, less than 375 days away, if it asks for
   certain weekdays or for some day that every year has.
   */
  lemma FoundUnlessRare(spec: FullTimeSpec, now: nat)
    requires spec.Ready() && spec.Within()
    requires !spec.wday.IsWildcard() || exists month: nat, mday: nat :: CommonDay(spec, month, mday)
    ensures NextRunTime(spec, now).Some?
    ensures UnixSecond(NextRunTime(spec, now).value) < UnixSecond(now) + 375 * SECONDS_PER_DAY
  {
    var tomorrow := UnixDay(now) + 1;
    if !spec.wday.IsWildcard() {
      var month := Satisfiable(spec.mon, 1, 12);
      var weekday := Satisfiable(spec.wday, 0, 6);
      var wait := NextOccurrence(1970, tomorrow, month, 1);
      var first := tomorrow + wait;
      var ahead := DaysUntil(WeekdayOf(first), weekday);
      WeekdayReached(first, weekday);
      WeekOfMonth(1970, first, ahead);
      assert first + ahead == UnixDay(now) + (1 + wait + ahead);
      FoundWithinAYear(spec, now, 1 + wait + ahead);
    } else {
      var month: nat, mday: nat :| CommonDay(spec, month, mday);
      var wait := NextOccurrence(1970, tomorrow, month, mday);
      assert tomorrow + wait == UnixDay(now) + (1 + wait);
      FoundWithinAYear(spec, now, 1 + wait);
    }
  }

  /** The other specs can be satisfied on the 29th of February only. */
  lemma RareMeansLeapDay(spec: FullTimeSpec, t: nat)
    requires spec.Ready() && spec.wday.IsWildcard() && spec.Satisfied(t)
    requires forall month: nat, mday: nat :: !CommonDay(spec, month, mday)
    ensures DateOf(UnixDay(t)).month == 2 && DateOf(UnixDay(t)).mday == 29
  {
    DateInRange(1970, UnixDay(t));
    var date := DateOf(UnixDay(t));
    assert !CommonDay(spec, date.month, date.mday);
  }

  predicate IsLeapDay(day: nat) {
    DateOf(day).month == 2 && DateOf(day).mday == 29
  }

  /** A spec such as "0 0 0 29 2" is given up when there is no leap day among today and the next 730 days. */
  lemma LeapDayIsGivenUp(spec: FullTimeSpec, now: nat)
    requires spec.Ready() && spec.wday.IsWildcard()
    requires forall month: nat, mday: nat :: !CommonDay(spec, month, mday)
    requires forall day: nat | UnixDay(now) <= day <= UnixDay(now) + 730 :: !IsLeapDay(day)
    ensures NextRunTime(spec, now).None?
  {
    NextRunTimeIsLeast(spec, now);
    var r := NextRunTime(spec, now);
    if r.Some? {
      RareMeansLeapDay(spec, r.value);
      assert IsLeapDay(UnixDay(r.value));
    }
  }

  /** So a job for the 29th of February that is scheduled at the start of 1970 never runs, not even in 1972. */
  lemma LeapDayLostAtEpoch(spec: FullTimeSpec)
    requires spec.Ready() && spec.wday.IsWildcard()
    requires forall month: nat, mday: nat :: !CommonDay(spec, month, mday)
    ensures NextRunTime(spec, 0).None? && IsLeapDay(789)
  {
    assert YearLength(1970) == 365 && YearLength(1971) == 365 && YearLength(1972) == 366;
    DateFromNamed(1972, 1, 2, 29);
    assert DateOf(789) == DateOfDay(1972, 59) == DateFrom(1972, 1, 59);
    NextRunTimeIsLeast(spec, 0);
    var r := NextRunTime(spec, 0);
    if r.Some? {
      RareMeansLeapDay(spec, r.value);
      assert UnixDay(r.value) < 730;
      FirstYearsAreCommon(UnixDay(r.value));
    }
  }

  lemma FirstYearsAreCommon(day: nat)
    requires day < 730
    ensures DateOf(day).month == 2 ==> DateOf(day).mday <= 28
  {
    assert YearLength(1970) == 365 && YearLength(1971) == 365;
    DateInRange(1970, day);
    assert DateOf(day) == if day < 365 then DateFrom(1970, 1, day) else DateFrom(1971, 1, day - 365);
    YearIsTwelveMonths(1970);
    YearIsTwelveMonths(1971);
    if day < 365 {
      DateFromInRange(1970, 1, day);
    } else {
      DateFromInRange(1971, 1, day - 365);
    }
  }

  /** A leap day at most 729 days ahead is found. */
  lemma LeapDayIsFound(spec: FullTimeSpec, now: nat, ahead: nat)
    requires spec.Ready() && spec.Within() && 1 <= ahead <= 729
    requires spec.wday.IsWildcard() && spec.mon.Satisfied(2) && spec.monthDay.Satisfied(29)
    requires IsLeapDay(UnixDay(now) + ahead)
    ensures NextRunTime(spec, now).Some?
  {
    var hour, minute, second := ClockChoice(spec);
    DaySplit(now);
    ClockOf(UnixDay(now) + ahead, hour, minute, second);
    FoundOnDay(spec, now, UnixDay(now) + ahead, hour, minute, second);
  }

  /** Second and time of day put together again. */
  lemma TimeOnAgain(t: nat)
    ensures Hour(t) < 24 && Minute(t) < 60 && Second(t) < 60
    ensures UnixSecond(TimeOn(UnixDay(t), Hour(t), Minute(t), Second(t))) == UnixSecond(t)
  {
    var s := UnixSecond(t);
    hide UnixSecond;
    var h, m := s / 3600, s / 60;
    assert m / 60 == h by { NestedQuotient(s); }
    assert s / SECONDS_PER_DAY == h / 24 by { DayQuotient(s); }
    ClockOf(UnixDay(t), Hour(t), Minute(t), Second(t));
  }

  lemma NestedQuotient(s: nat)
    ensures s / 60 / 60 == s / 3600
  {
  }

  lemma DayQuotient(s: nat)
    ensures s / SECONDS_PER_DAY == s / 3600 / 24
  {
  }

  /** A second of a leap day, among those that are tried from now on, at which the clock fields are satisfied. */
  ghost predicate LeapSecondTried(spec: FullTimeSpec, now: nat, day: nat, hour: nat, minute: nat, second: nat)
    requires spec.Ready()
  {
    && IsLeapDay(day)
    && hour < 24 && minute < 60 && second < 60 && ClockFits(spec, hour, minute, second)
    && UnixSecond(now) <= UnixSecond(TimeOn(day, hour, minute, second)) < UnixSecond(now) + HORIZON
  }

  /**
   Main result on leap days: a spec that asks for no weekday and for no day every year has gets a next run time if and
   only if it asks for the 29th of February and such a day has a fitting second among those that are tried.
   */
  lemma LeapDayFoundIff(spec: FullTimeSpec, now: nat)
    requires spec.Ready() && spec.wday.IsWildcard()
    requires forall month: nat, mday: nat :: !CommonDay(spec, month, mday)
    ensures NextRunTime(spec, now).Some? <==>
            && spec.mon.Satisfied(2) && spec.monthDay.Satisfied(29)
            && exists day: nat, hour: nat, minute: nat, second: nat ::
                 LeapSecondTried(spec, now, day, hour, minute, second)
  {
    var r := NextRunTime(spec, now);
    if r.Some? {
      NextRunTimeIsLeast(spec, now);
      RareMeansLeapDay(spec, r.value);
      TimeOnAgain(r.value);
      LeapSecondOf(spec, now, r.value);
    }
    if spec.mon.Satisfied(2) && spec.monthDay.Satisfied(29) {
      if day: nat, hour: nat, minute: nat, second: nat :| LeapSecondTried(spec, now, day, hour, minute, second) {
        FoundOnDay(spec, now, day, hour, minute, second);
      }
    }
  }

  lemma LeapSecondOf(spec: FullTimeSpec, now: nat, t: nat)
    requires spec.Ready() && spec.wday.IsWildcard() && spec.Satisfied(t) && IsLeapDay(UnixDay(t))
    requires UnixSecond(now) <= UnixSecond(t) < UnixSecond(now) + HORIZON
    requires Hour(t) < 24 && Minute(t) < 60 && Second(t) < 60
    requires UnixSecond(TimeOn(UnixDay(t), Hour(t), Minute(t), Second(t))) == UnixSecond(t)
    ensures LeapSecondTried(spec, now, UnixDay(t), Hour(t), Minute(t), Second(t))
    ensures spec.mon.Satisfied(2) && spec.monthDay.Satisfied(29)
  {
    hide UnixSecond, Hour, Minute, Second, TimeOn, DateOf, WeekdayOf;
  }

  const LEAP_DAY_SPEC := FullTimeSpec(OneValTimeSpec(0), OneValTimeSpec(0), OneValTimeSpec(0), OneValTimeSpec(29),
                                      OneValTimeSpec(2), WildcardTimeSpec)

  /** The text "0 0 0 29 2" is such a spec, and a job with it that is scheduled at the start of 1970 is never run. */
  lemma LeapDayExample()
    ensures Parsers.ParseFull("0 0 0 29 2") == Parsers.Accepted(LEAP_DAY_SPEC)
    ensures forall month: nat, mday: nat :: !CommonDay(LEAP_DAY_SPEC, month, mday)
    ensures NextRunTime(LEAP_DAY_SPEC, 0).None?
  {
    LeapDayFields();
    LeapDayParses();
    hide Parsers.Fields, Parsers.ParseParts;
    LeapDayLostAtEpoch(LEAP_DAY_SPEC);
  }

  lemma LeapDayFields()
    ensures Parsers.Fields("0 0 0 29 2") == ["0", "0", "0", "29", "2"]
  {
    hide Parsers.Fields;
    Parsers.FieldsOne("2");
    Parsers.FieldsCons("29", "2");
    Parsers.FieldsCons("0", "29 2");
    Parsers.FieldsCons("0", "0 29 2");
    Parsers.FieldsCons("0", "0 0 29 2");
    assert "29" + " " + "2" == "29 2" && "0" + " " + "29 2" == "0 29 2" && "0" + " " + "0 29 2" == "0 0 29 2";
    assert "0" + " " + "0 0 29 2" == "0 0 0 29 2";
  }

  lemma LeapDayParses()
    ensures Parsers.ParseParts(["0", "0", "0", "29", "2"]) == Parsers.Accepted(LEAP_DAY_SPEC)
  {
    NumberField(0, 0, 59);
    NumberField(0, 0, 23);
    NumberField(29, 1, 31);
    NumberField(2, 1, 12);
    TextsOfNumbers();
    hide Parsers.ParseTimeSpec, Decimal.NatText;
    var parts := ["0", "0", "0", "29", "2"];
    var r := Parsers.FieldResults(parts);
    assert r[0].Accepted? && r[1].Accepted? && r[2].Accepted? && r[3].Accepted? && r[4].Accepted? && r[5].Accepted?;
  }

  lemma TextsOfNumbers()
    ensures Decimal.NatText(0) == "0" && Decimal.NatText(2) == "2" && Decimal.NatText(29) == "29"
  {
    assert Decimal.NatText(29) == Decimal.NatText(2) + "9";
  }

  lemma NumberField(n: nat, min: int, max: int)
    requires min <= n <= max <= 59
    ensures Parsers.ParseTimeSpec(Decimal.NatText(n), min, max) == Parsers.Accepted(OneValTimeSpec(n))
  {
    Parsers.NumberParses(n);
    hide Decimal.NatText;
  }
}
