/**
 The next-birthday helpers of the date utilities. A JavaScript `Date` is its
 time value in milliseconds; the clock `Date.now()` is passed in as a `Clock`
 holding its local calendar date and the milliseconds past local midnight.
 */
module DateUtils {
  import opened Calendar

  /** The reading of `new Date(Date.now())` through its local getters. */
  datatype Clock = Clock(year: int, month: int, day: int, millis: int)
  {
    predicate Valid()
    {
      ValidDate(year, month, day) && 0 <= millis < MsPerDay
    }

    /** Day number of the current local date. */
    function Today(): int
    {
      MakeDay(year, month, day)
    }
  }

  /** `new Date(y, m, d).getTime()`: local midnight of the day, rolled over if out of range. */
  function TimeOf(y: int, m: int, d: int): int
  {
    MakeDay(y, m, d) * MsPerDay
  }

  /** The "this year" test: `(month, day)` is at or after today's `(month, day)`. */
  predicate IsThisYear(day: int, month: int, now: Clock)
  {
    month > now.month || (month == now.month && day >= now.day)
  }

  /** `getNextBirthday(day, month)`. */
  function NextBirthday(day: int, month: int, now: Clock): int
  {
    TimeOf(now.year + (if IsThisYear(day, month, now) then 0 else 1), month, day)
  }

  /** `getNextBirthdayByDate(date)`: the stored year plays no part. */
  function NextBirthdayByDate(date: CivilDate, now: Clock): int
  {
    NextBirthday(date.day, date.month, now)
  }

  /** `daysUntil(date)`: whole days from midnight-truncated now, rounded down. */
  function DaysUntil(date: int, now: Clock): int
  {
    (date - TimeOf(now.year, now.month, now.day)) / MsPerDay
  }

  // ---------------------------------------------------------------------------
  // lemmas

  /** Midnights are ordered as their day numbers. */
  lemma MidnightOrder(a: int, b: int)
    ensures a == b <==> a * MsPerDay == b * MsPerDay
    ensures a < b <==> a * MsPerDay < b * MsPerDay
  {
  }

  /** Any day 1..31 of a year comes before any day of a later year. */
  lemma EarlierYear(y1: int, m1: int, d1: int, y2: int, m2: int, d2: int)
    requires 0 <= m1 < 12 && 1 <= d1 <= 31
    requires 0 <= m2 < 12 && 1 <= d2
    requires y1 < y2
    ensures MakeDay(y1, m1, d1) < MakeDay(y2, m2, d2)
  {
    MakeDayInYear(y1, m1, d1);
    MakeDayInYear(y2, m2, d2);
    DayOfYearBound(y1, m1, d1);
    DayOfYearBound(y2, m2, 1);
    YearOrder(y1, y2);
    var offset1 := DaysBeforeMonth(y1, m1) + d1 - 1;
    var offset2 := DaysBeforeMonth(y2, m2) + d2 - 1;
    assert offset1 < DaysInYear(y1) && 0 <= offset2;
    assert MakeDay(y1, m1, d1) == DayFromYear(y1) + offset1;
    assert MakeDay(y2, m2, d2) == DayFromYear(y2) + offset2;
  }

  /**
   The result is midnight of `(month, day)` in the current year exactly when
   the this-year rule holds, and in the following year exactly when it fails.
   */
  lemma NextBirthdayYear(day: int, month: int, now: Clock)
    requires 0 <= month < 12 && 1 <= day <= 31
    ensures var r := NextBirthday(day, month, now);
      && (r == TimeOf(now.year, month, day) <==> IsThisYear(day, month, now))
      && (r == TimeOf(now.year + 1, month, day) <==> !IsThisYear(day, month, now))
  {
    var a, b := MakeDay(now.year, month, day), MakeDay(now.year + 1, month, day);
    EarlierYear(now.year, month, day, now.year + 1, month, day);
    MidnightOrder(a, b);
    assert TimeOf(now.year, month, day) == a * MsPerDay;
    assert TimeOf(now.year + 1, month, day) == b * MsPerDay;
  }

  /**
   When `(month, day)` is a real day of the current year, the result is the
   first of its two candidate occurrences that is not before today: this
   year's when that has not passed, otherwise next year's.
   */
  lemma NextBirthdayIsNextOccurrence(day: int, month: int, now: Clock)
    requires now.Valid()
    requires ValidDate(now.year, month, day)
    ensures MakeDay(now.year, month, day) >= now.Today() ==>
              NextBirthday(day, month, now) == TimeOf(now.year, month, day)
    ensures MakeDay(now.year, month, day) < now.Today() ==>
              NextBirthday(day, month, now) == TimeOf(now.year + 1, month, day)
  {
    var y := now.year;
    if IsThisYear(day, month, now) {
      if month != now.month || day != now.day {
        MakeDayOrder(y, now.month, now.day, y, month, day);
      }
    } else {
      MakeDayOrder(y, month, day, y, now.month, now.day);
    }
  }

  /**
   The result is never before today: counted in whole days it is at least 0,
   and it is today exactly when `(month, day)` is today's month and day.
   Days 1..31 of any month are allowed, so a roll-over (29 February in a
   common year) is covered.
   */
  lemma NextBirthdayNotBeforeToday(day: int, month: int, now: Clock)
    requires now.Valid()
    requires 0 <= month < 12 && 1 <= day <= 31
    ensures NextBirthday(day, month, now) >= TimeOf(now.year, now.month, now.day)
    ensures (NextBirthday(day, month, now) == TimeOf(now.year, now.month, now.day))
              <==> (month == now.month && day == now.day)
  {
    var y := now.year;
    var k := if IsThisYear(day, month, now) then 0 else 1;
    if k == 0 {
      if month != now.month || day != now.day {
        MakeDayOrder(y, now.month, now.day, y, month, day);
      }
    } else {
      EarlierYear(y, now.month, now.day, y + 1, month, day);
    }
    MidnightOrder(now.Today(), MakeDay(y + k, month, day));
  }

  /**
   When `day` is a real day of `month` in the result's year, the result's
   `getMonth()` and `getDate()` are `month` and `day`: no other real date has
   that time value.
   */
  lemma NextBirthdayKeepsMonthAndDay(day: int, month: int, now: Clock, y: int, m: int, d: int)
    requires ValidDate(now.year + (if IsThisYear(day, month, now) then 0 else 1), month, day)
    requires ValidDate(y, m, d) && TimeOf(y, m, d) == NextBirthday(day, month, now)
    ensures m == month && d == day
    ensures y == now.year || y == now.year + 1
  {
    var ry := now.year + (if IsThisYear(day, month, now) then 0 else 1);
    SameMidnightSameDate(y, m, d, ry, month, day);
  }

  /** Two real dates with the same local midnight are the same date. */
  lemma SameMidnightSameDate(y1: int, m1: int, d1: int, y2: int, m2: int, d2: int)
    requires ValidDate(y1, m1, d1) && ValidDate(y2, m2, d2)
    requires TimeOf(y1, m1, d1) == TimeOf(y2, m2, d2)
    ensures y1 == y2 && m1 == m2 && d1 == d2
  {
    MidnightOrder(MakeDay(y1, m1, d1), MakeDay(y2, m2, d2));
    MakeDayInjective(y1, m1, d1, y2, m2, d2);
  }

  /** `getNextBirthdayByDate` reads only the month and day of its argument. */
  lemma NextBirthdayByDateIgnoresYear(a: CivilDate, b: CivilDate, now: Clock)
    requires a.month == b.month && a.day == b.day
    ensures NextBirthdayByDate(a, now) == NextBirthdayByDate(b, now)
  {
  }

  /**
   `daysUntil` of any instant on day number `n` is `n` minus today's day
   number, whatever the time of day of either instant.
   */
  lemma DaysUntilCountsDays(n: int, ms: int, now: Clock)
    requires 0 <= ms < MsPerDay
    ensures DaysUntil(n * MsPerDay + ms, now) == n - now.Today()
  {
    var t := now.Today();
    assert n * MsPerDay + ms - t * MsPerDay == (n - t) * MsPerDay + ms;
  }

  /** Today's midnight is 0 days away and tomorrow's is 1. */
  lemma DaysUntilTodayAndTomorrow(now: Clock)
    requires now.Valid()
    ensures DaysUntil(TimeOf(now.year, now.month, now.day), now) == 0
    ensures DaysUntil(TimeOf(now.year, now.month, now.day + 1), now) == 1
  {
    DaysUntilCountsDays(now.Today(), 0, now);
    NextDay(now.year, now.month, now.day);
    DaysUntilCountsDays(now.Today() + 1, 0, now);
  }

  /**
   For a real stored date, the days until its next birthday are never
   negative, and are 0 exactly when its month and day are today's.
   */
  lemma DaysUntilNextBirthday(date: CivilDate, now: Clock)
    requires now.Valid() && date.Valid()
    ensures DaysUntil(NextBirthdayByDate(date, now), now) >= 0
    ensures (DaysUntil(NextBirthdayByDate(date, now), now) == 0)
              <==> (date.month == now.month && date.day == now.day)
  {
    NextBirthdayNotBeforeToday(date.day, date.month, now);
    var k := if IsThisYear(date.day, date.month, now) then 0 else 1;
    var n := MakeDay(now.year + k, date.month, date.day);
    var r := NextBirthdayByDate(date, now);
    assert r == n * MsPerDay;
    assert TimeOf(now.year, now.month, now.day) == now.Today() * MsPerDay;
    MidnightOrder(now.Today(), n);
    DaysUntilCountsDays(n, 0, now);
    assert DaysUntil(r, now) == n - now.Today();
  }

  /** 15 June (month 5) seen on 1 January 2024 falls in 2024. */
  lemma NextBirthdayBeforeItsDate()
    ensures NextBirthday(15, 5, Clock(2024, 0, 1, 0)) == TimeOf(2024, 5, 15)
  {
  }

  /** 15 June seen on 1 July 2024 falls in 2025. */
  lemma NextBirthdayAfterItsDate()
    ensures NextBirthday(15, 5, Clock(2024, 6, 1, 0)) == TimeOf(2025, 5, 15)
  {
  }
}
