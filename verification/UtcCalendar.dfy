/** The proleptic Gregorian calendar of section 21.4.1 of ECMA-262, in the terms the UTC methods of a
    JavaScript `Date` use: milliseconds, day numbers, and months counted from the start of year 0
    (month `m` of year `y` has index `12 * y + m`). */
module UtcCalendar {

  const MS_PER_DAY := 86_400_000

  function DayOf(t: int): int { t / MS_PER_DAY }

  function TimeInDay(t: int): int { t % MS_PER_DAY }

  predicate Divides(k: int, year: int)
    requires k > 0
  {
    year % k == 0
  }

  lemma FourHundredsAreHundreds(year: int)
    ensures Divides(400, year) ==> Divides(100, year)
  {
    if year % 400 == 0 {
      var q := year / 400;
      assert year == 100 * (4 * q);
    }
  }

  lemma HundredsAreFours(year: int)
    ensures Divides(100, year) ==> Divides(4, year)
  {
    if year % 100 == 0 {
      var q := year / 100;
      assert year == 4 * (25 * q);
    }
  }

  predicate IsLeapYear(year: int) {
    Divides(4, year) && (!Divides(100, year) || Divides(400, year))
  }

  /** The years that `k` divides, from `first` to the one before `year`. */
  function YearsDividing(year: int, first: int, k: int): int
    requires k > 0
  {
    (year - first) / k
  }

  lemma YearsDividingNext(year: int, first: int, k: int)
    requires (k == 4 && first == 1969) || (k == 100 && first == 1901) || (k == 400 && first == 1601)
    ensures YearsDividing(year + 1, first, k) - YearsDividing(year, first, k) == if Divides(k, year) then 1 else 0
  {
    if k == 4 {
      assert (year + 1 - 1969) / 4 - (year - 1969) / 4 == if year % 4 == 0 then 1 else 0;
    } else if k == 100 {
      assert (year + 1 - 1901) / 100 - (year - 1901) / 100 == if year % 100 == 0 then 1 else 0;
    } else {
      assert (year + 1 - 1601) / 400 - (year - 1601) / 400 == if year % 400 == 0 then 1 else 0;
    }
  }

  /** Day number of 1 January; day 0 is 1 January 1970. */
  function DayFromYear(year: int): int {
    365 * (year - 1970) + YearsDividing(year, 1969, 4) - YearsDividing(year, 1901, 100) + YearsDividing(year, 1601, 400)
  }

  /** Days of a year before month 0..11 begins. */
  function DaysBefore(month: int, leap: bool): int
    requires 0 <= month < 12
  {
    if month == 0 then 0
    else if month == 1 then 31
    else (if leap then 60 else 59) +
         (match month
          case 2 => 0 case 3 => 31 case 4 => 61 case 5 => 92 case 6 => 122
          case 7 => 153 case 8 => 184 case 9 => 214 case 10 => 245 case _ => 275)
  }

  function YearOf(m: int): int { m / 12 }

  function MonthOf(m: int): int { m % 12 }

  /** Day number of the first of month index `m`. */
  function MonthStart(m: int): int {
    DayFromYear(YearOf(m)) + DaysBefore(MonthOf(m), IsLeapYear(YearOf(m)))
  }

  function DaysInMonth(m: int): int {
    MonthStart(m + 1) - MonthStart(m)
  }

  lemma YearLength(year: int)
    ensures DayFromYear(year + 1) - DayFromYear(year) == if IsLeapYear(year) then 366 else 365
  {
    hide YearsDividing, Divides;
    FourHundredsAreHundreds(year);
    HundredsAreFours(year);
    YearsDividingNext(year, 1969, 4);
    YearsDividingNext(year, 1901, 100);
    YearsDividingNext(year, 1601, 400);
  }

  /** Only February depends on the year, and only on whether it is a leap year. */
  lemma MonthLength(m: int)
    ensures DaysInMonth(m) ==
            if MonthOf(m) == 1 then (if IsLeapYear(YearOf(m)) then 29 else 28)
            else if MonthOf(m) in {3, 5, 8, 10} then 30 else 31
  {
    if MonthOf(m) == 11 {
      assert YearOf(m + 1) == YearOf(m) + 1 && MonthOf(m + 1) == 0;
      YearLength(YearOf(m));
    } else {
      assert YearOf(m + 1) == YearOf(m) && MonthOf(m + 1) == MonthOf(m) + 1;
    }
  }

  lemma DaysInMonthBounds(m: int)
    ensures 28 <= DaysInMonth(m) <= 31
  {
    hide MonthStart, YearOf, MonthOf;
    MonthLength(m);
  }

  lemma {:induction false} MonthStartNext(m: int)
    ensures MonthStart(m) + 28 <= MonthStart(m + 1) <= MonthStart(m) + 31
  {
    hide MonthStart;
    DaysInMonthBounds(m);
  }

  /** Each period begins before the next one. */
  ghost predicate Climbs(start: int -> int) {
    forall j, k | k == j + 1 :: start(j) < start(k)
  }

  lemma {:induction false} ClimbsFar(start: int -> int, m: int, n: int)
    requires m <= n && Climbs(start)
    ensures start(m) + (n - m) <= start(n)
    decreases n - m
  {
    if m < n {
      assert start(m) < start(m + 1);
      ClimbsFar(start, m + 1, n);
    }
  }

  lemma {:induction false} MonthsClimb()
    ensures Climbs(MonthStart)
  {
    hide MonthStart;
    forall j, k | k == j + 1 ensures MonthStart(j) < MonthStart(k) {
      MonthStartNext(j);
    }
  }

  lemma {:induction false} MonthStartIncreases(m: int, n: int)
    requires m <= n
    ensures MonthStart(m) + (n - m) <= MonthStart(n)
  {
    MonthsClimb();
    ClimbsFar(MonthStart, m, n);
  }

  /** How far a day is from the period `[start, next)`. */
  function Distance(day: int, start: int, next: int): nat {
    if day < start then start - day else if day >= next then day - next + 1 else 0
  }

  /** The period holding `day`, looking from period `near` towards it. */
  function FindPeriod(start: int -> int, day: int, near: int): (k: int)
    requires Climbs(start)
    ensures start(k) <= day < start(k + 1)
    decreases Distance(day, start(near), start(near + 1))
  {
    if day < start(near) then
      FindPeriod(start, day, near - 1)
    else if day >= start(near + 1) then
      FindPeriod(start, day, near + 1)
    else near
  }

  /** The month index of an instant: `12 * getUTCFullYear() + getUTCMonth()`. */
  function MonthAt(t: int): (m: int)
    ensures MonthStart(m) <= DayOf(t) < MonthStart(m + 1)
  {
    hide MonthStart;
    MonthsClimb();
    FindPeriod(MonthStart, DayOf(t), 12 * 1970)
  }

  /** `getUTCDate()`: the day of the month, from 1. */
  function DateOf(t: int): (d: int)
    ensures 1 <= d <= DaysInMonth(MonthAt(t))
  {
    hide MonthStart, DayOf;
    DayOf(t) - MonthStart(MonthAt(t)) + 1
  }

  /** A day lies in one period only. */
  lemma PeriodIsUnique(start: int -> int, day: int, m: int, n: int)
    requires Climbs(start)
    requires start(m) <= day < start(m + 1)
    requires start(n) <= day < start(n + 1)
    ensures m == n
  {
    if m < n {
      ClimbsFar(start, m + 1, n);
    } else if n < m {
      ClimbsFar(start, n + 1, m);
    }
  }

  lemma MonthIsUnique(t: int, m: int)
    requires MonthStart(m) <= DayOf(t) < MonthStart(m + 1)
    ensures m == MonthAt(t)
  {
    hide MonthStart, DayOf;
    MonthsClimb();
    PeriodIsUnique(MonthStart, DayOf(t), m, MonthAt(t));
  }

  /** The instant on day `date` of month `m`, at `time` milliseconds into the day. */
  function Instant(m: int, date: int, time: int): int {
    (MonthStart(m) + date - 1) * MS_PER_DAY + time
  }

  /** The fields of an instant built from fields that exist are those fields. */
  lemma InstantFields(m: int, date: int, time: int)
    requires 1 <= date <= DaysInMonth(m)
    requires 0 <= time < MS_PER_DAY
    ensures MonthAt(Instant(m, date, time)) == m
    ensures DateOf(Instant(m, date, time)) == date
    ensures TimeInDay(Instant(m, date, time)) == time
  {
    hide MonthStart;
    var t := Instant(m, date, time);
    assert DayOf(t) == MonthStart(m) + date - 1;
    MonthIsUnique(t, m);
  }

  /** Every instant is built from its own fields. */
  lemma FieldsOfInstant(t: int)
    ensures Instant(MonthAt(t), DateOf(t), TimeInDay(t)) == t
  {
  }

  /** The count of milliseconds starts with 1 January 1970, and a day has 86,400,000. */
  lemma EpochIsNewYear1970()
    ensures Instant(12 * 1970, 1, 0) == 0 && Instant(12 * 1970, 2, 0) == 86400000
  {
  }

  /** Every day of a month comes before every later day of a later month, at the same time of day. */
  lemma {:induction false} InstantsOrdered(m: int, date: int, n: int, date': int, time: int)
    requires m < n
    requires 1 <= date <= DaysInMonth(m) && 1 <= date'
    ensures Instant(m, date, time) < Instant(n, date', time)
  {
    hide MonthStart, YearOf, MonthOf;
    assert DaysInMonth(m) == MonthStart(m + 1) - MonthStart(m);
    var next := MonthStart(m + 1);
    assert MonthStart(m) + date <= next;
    MonthStartIncreases(m + 1, n);
    Scaled(MonthStart(m) + date - 1, MonthStart(n) + date' - 1, time);
  }

  lemma Scaled(day: int, day': int, time: int)
    requires day < day'
    ensures day * MS_PER_DAY + time < day' * MS_PER_DAY + time
  {
  }
}
