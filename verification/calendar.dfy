/**
 Calendar arithmetic behind `new Date(year, month, day)` and `Date.prototype.getTime`,
 written with whole day numbers counted from 1 January 1970 (the proleptic
 Gregorian calendar of the ECMAScript `Date` object, local time, no daylight
 saving shifts). Months are 0-based, as `getMonth` returns them.

 `MakeDay` rolls an out-of-range day or month over as the `Date` constructor
 does: day 29 of February in a common year is 1 March, month 12 is January of
 the next year. The constructor's mapping of years 0..99 to 1900..1999 and its
 Invalid Date outside the time-value range are not part of this model.
 */
module Calendar {

  /** `1000 * 3600 * 24`, milliseconds in a day. */
  const MsPerDay: int := 1000 * 3600 * 24

  predicate IsLeapYear(y: int)
  {
    y % 4 == 0 && (y % 100 != 0 || y % 400 == 0)
  }

  function DaysInYear(y: int): int
  {
    if IsLeapYear(y) then 366 else 365
  }

  /** Days in 0-based month `m` of year `y`. */
  function DaysInMonth(y: int, m: int): int
    requires 0 <= m < 12
  {
    if m == 1 then (if IsLeapYear(y) then 29 else 28)
    else if m == 3 || m == 5 || m == 8 || m == 10 then 30
    else 31
  }

  /** Day number of 1 January of year `y`. */
  function DayFromYear(y: int): int
  {
    365 * (y - 1970) + (y - 1969) / 4 - (y - 1901) / 100 + (y - 1601) / 400
  }

  /** Days of year `y` that come before the first day of 0-based month `m`. */
  function DaysBeforeMonth(y: int, m: int): int
    requires 0 <= m < 12
  {
    [0, 31, 59, 90, 120, 151, 181, 212, 243, 273, 304, 334][m]
      + (if m >= 2 && IsLeapYear(y) then 1 else 0)
  }

  /** Day number of `new Date(y, m, d)`; any integer month and day roll over. */
  function MakeDay(y: int, m: int, d: int): int
  {
    var ym := y + m / 12;
    var mn := m % 12;
    DayFromYear(ym) + DaysBeforeMonth(ym, mn) + d - 1
  }

  /** `(y, m, d)` names a real calendar day, as `Date` getters always return. */
  predicate ValidDate(y: int, m: int, d: int)
  {
    0 <= m < 12 && 1 <= d <= DaysInMonth(y, m)
  }

  /** A stored date, through its getters `getFullYear`, `getMonth` and `getDate`. */
  datatype CivilDate = CivilDate(year: int, month: int, day: int)
  {
    predicate Valid() { ValidDate(year, month, day) }
  }

  // ---------------------------------------------------------------------------
  // lemmas

  lemma DivStep4(a: int)
    ensures (a + 1) / 4 - a / 4 == if (a + 1) % 4 == 0 then 1 else 0
  {
  }

  lemma DivStep100(a: int)
    ensures (a + 1) / 100 - a / 100 == if (a + 1) % 100 == 0 then 1 else 0
  {
  }

  lemma DivStep400(a: int)
    ensures (a + 1) / 400 - a / 400 == if (a + 1) % 400 == 0 then 1 else 0
  {
  }

  lemma CenturyIsQuadrennial(y: int)
    requires y % 100 == 0
    ensures y % 4 == 0
  {
    var q := y / 100;
    assert y == 4 * (25 * q);
  }

  lemma QuadricentennialIsCentury(y: int)
    requires y % 400 == 0
    ensures y % 100 == 0
  {
    var q := y / 400;
    assert y == 100 * (4 * q);
  }

  lemma ShiftedResidues(y: int)
    ensures (y - 1968) % 4 == y % 4
    ensures (y - 1900) % 100 == y % 100
    ensures (y - 1600) % 400 == y % 400
  {
    assert y - 1968 == 4 * (y / 4 - 492) + y % 4;
    assert y - 1900 == 100 * (y / 100 - 19) + y % 100;
    assert y - 1600 == 400 * (y / 400 - 4) + y % 400;
  }

  /** Consecutive years start `DaysInYear` days apart. */
  lemma YearLength(y: int)
    ensures DayFromYear(y + 1) == DayFromYear(y) + DaysInYear(y)
  {
    var a := (y - 1968) / 4 - (y - 1969) / 4;
    var b := (y - 1900) / 100 - (y - 1901) / 100;
    var c := (y - 1600) / 400 - (y - 1601) / 400;
    assert DayFromYear(y + 1) - DayFromYear(y) == 365 + a - b + c;
    DivStep4(y - 1969);
    DivStep100(y - 1901);
    DivStep400(y - 1601);
    ShiftedResidues(y);
    assert a == if y % 4 == 0 then 1 else 0;
    assert b == if y % 100 == 0 then 1 else 0;
    assert c == if y % 400 == 0 then 1 else 0;
    if y % 100 == 0 {
      CenturyIsQuadrennial(y);
    }
    if y % 400 == 0 {
      QuadricentennialIsCentury(y);
    }
  }

  /** A later year starts after every day of an earlier one. */
  lemma {:induction false} YearOrder(y1: int, y2: int)
    requires y1 < y2
    ensures DayFromYear(y1) + DaysInYear(y1) <= DayFromYear(y2)
    decreases y2 - y1
  {
    YearLength(y1);
    if y1 + 1 < y2 {
      YearOrder(y1 + 1, y2);
    }
  }

  /** Months start where the previous month ends. */
  lemma MonthLength(y: int, m: int)
    requires 0 <= m < 11
    ensures DaysBeforeMonth(y, m + 1) == DaysBeforeMonth(y, m) + DaysInMonth(y, m)
  {
  }

  /** A later month of the same year starts after every day of an earlier one. */
  lemma MonthOrder(y: int, m1: int, m2: int)
    requires 0 <= m1 < m2 < 12
    ensures DaysBeforeMonth(y, m1) + DaysInMonth(y, m1) <= DaysBeforeMonth(y, m2)
  {
  }

  /** Any day 1..31 of any month stays inside the year it is written in. */
  lemma DayOfYearBound(y: int, m: int, d: int)
    requires 0 <= m < 12 && 1 <= d <= 31
    ensures 0 <= DaysBeforeMonth(y, m) + d - 1 < DaysInYear(y)
  {
  }

  /**
   Day numbers follow the lexicographic order of (year, month, day): a valid
   date comes strictly before any later triple whose day is at least 1 and at
   most 31, even one that rolls over.
   */
  lemma MakeDayOrder(y1: int, m1: int, d1: int, y2: int, m2: int, d2: int)
    requires ValidDate(y1, m1, d1)
    requires 0 <= m2 < 12 && 1 <= d2 <= 31
    requires y1 < y2 || (y1 == y2 && (m1 < m2 || (m1 == m2 && d1 < d2)))
    ensures MakeDay(y1, m1, d1) < MakeDay(y2, m2, d2)
  {
    MakeDayInYear(y1, m1, d1);
    MakeDayInYear(y2, m2, d2);
    DayOfYearBound(y1, m1, d1);
    if y1 < y2 {
      YearOrder(y1, y2);
    } else if m1 < m2 {
      MonthOrder(y1, m1, m2);
    }
  }

  /** A valid date is determined by its day number. */
  lemma MakeDayInjective(y1: int, m1: int, d1: int, y2: int, m2: int, d2: int)
    requires ValidDate(y1, m1, d1) && ValidDate(y2, m2, d2)
    requires MakeDay(y1, m1, d1) == MakeDay(y2, m2, d2)
    ensures y1 == y2 && m1 == m2 && d1 == d2
  {
    if y1 < y2 || (y1 == y2 && (m1 < m2 || (m1 == m2 && d1 < d2))) {
      MakeDayOrder(y1, m1, d1, y2, m2, d2);
    } else if y2 < y1 || (y1 == y2 && (m2 < m1 || (m1 == m2 && d2 < d1))) {
      MakeDayOrder(y2, m2, d2, y1, m1, d1);
    }
  }

  /** Within months 0..11 no month roll-over happens. */
  lemma MakeDayInYear(y: int, m: int, d: int)
    requires 0 <= m < 12
    ensures MakeDay(y, m, d) == DayFromYear(y) + DaysBeforeMonth(y, m) + d - 1
  {
    assert m / 12 == 0 && m % 12 == m;
  }

  /**
   The day after a valid date is the next day number, and it is the next
   calendar date: the following day of the month, else the 1st of the next
   month, else 1 January of the next year.
   */
  lemma NextDay(y: int, m: int, d: int)
    requires ValidDate(y, m, d)
    ensures MakeDay(y, m, d + 1) == MakeDay(y, m, d) + 1
    ensures d < DaysInMonth(y, m) ==> ValidDate(y, m, d + 1)
    ensures d == DaysInMonth(y, m) && m < 11 ==> MakeDay(y, m, d + 1) == MakeDay(y, m + 1, 1)
    ensures d == DaysInMonth(y, m) && m == 11 ==> MakeDay(y, m, d + 1) == MakeDay(y + 1, 0, 1)
  {
    MakeDayInYear(y, m, d + 1);
    if d == DaysInMonth(y, m) {
      if m < 11 {
        MakeDayInYear(y, m + 1, 1);
        MonthLength(y, m);
      } else {
        MakeDayInYear(y + 1, 0, 1);
        YearLength(y);
      }
    }
  }

  /** 29 February of a common year is 1 March of that year. */
  lemma FebruaryRollOver(y: int)
    requires !IsLeapYear(y)
    ensures MakeDay(y, 1, 29) == MakeDay(y, 2, 1)
    ensures !ValidDate(y, 1, 29)
  {
  }
}
