/** The pure rules of the monthly included credit (src/lib/included-credit.ts): which period an
    instant belongs to, what an upgrade adds, and how a charge is split. Amounts are whole cents. */
module IncludedCredit {
  import opened Wrappers
  import opened Text
  import opened UtcCalendar

  // ---------------------------------------------------------------- calendar months

  /** A JavaScript `Date`, which its setters change in place. */
  class JsDate {
    var time: int

    constructor (time: int)
      ensures this.time == time
    {
      this.time := time;
    }

    method SetUTCDate(date: int)
      modifies this
      ensures time == Instant(MonthAt(old(time)), date, TimeInDay(old(time)))
    {
      time := Instant(MonthAt(time), date, TimeInDay(time));
    }

    method SetUTCMonth(month: int)
      modifies this
      ensures time == Instant(12 * YearOf(MonthAt(old(time))) + month, DateOf(old(time)), TimeInDay(old(time)))
    {
      time := Instant(12 * YearOf(MonthAt(time)) + month, DateOf(time), TimeInDay(time));
    }
  }

  /** `Date.UTC(year, month, date)`, which reads the years 0 to 99 as 1900 to 1999. */
  function DateUTC(year: int, month: int, date: int): int {
    Instant(12 * (if 0 <= year <= 99 then 1900 + year else year) + month, date, 0)
  }

  /** The last day of month `m` as the source works it out: day 0 of the month after. */
  function LastDay(m: int): int {
    DateOf(DateUTC(YearOf(m), MonthOf(m) + 1, 0))
  }

  /** Only 29 February of the year 0 is lost: 1900, the year `Date.UTC` looks at, had none. */
  predicate LosesLeapDay(m: int) { m == 1 }

  lemma LastDayIsMonthEnd(m: int)
    ensures LastDay(m) == if LosesLeapDay(m) then 28 else DaysInMonth(m)
  {
    hide MonthStart, MonthAt, DateOf;
    var y := YearOf(m);
    var shown := 12 * (if 0 <= y <= 99 then 1900 + y else y) + MonthOf(m);
    MonthStartNext(shown);
    assert DateUTC(y, MonthOf(m) + 1, 0) == Instant(shown, DaysInMonth(shown), 0);
    InstantFields(shown, DaysInMonth(shown), 0);
    MonthLength(m);
    MonthLength(shown);
    assert YearOf(shown) == (if 0 <= y <= 99 then 1900 + y else y) && MonthOf(shown) == MonthOf(m);
  }

  /** `t` moved by `months` calendar months: same time of day, day clamped to the month's last. */
  function AddMonths(t: int, months: int): int {
    var m := MonthAt(t) + months;
    Instant(m, Min(DateOf(t), LastDay(m)), TimeInDay(t))
  }

  method AddMonthsInPlace(date: JsDate, months: int) returns (d: JsDate)
    ensures fresh(d)
    ensures d.time == AddMonths(date.time, months)
  {
    hide MonthStart, MonthAt, DateOf, DayOf;
    d := new JsDate(date.time);
    var day := DateOf(d.time);
    DaysInMonthBounds(MonthAt(d.time));
    d.SetUTCDate(1);
    InstantFields(MonthAt(date.time), 1, TimeInDay(date.time));
    d.SetUTCMonth(MonthOf(MonthAt(d.time)) + months);
    var m := MonthAt(date.time) + months;
    DaysInMonthBounds(m);
    InstantFields(m, 1, TimeInDay(date.time));
    var last := DateOf(DateUTC(YearOf(MonthAt(d.time)), MonthOf(MonthAt(d.time)) + 1, 0));
    d.SetUTCDate(Min(day, last));
  }

  /** The result is in the month asked for, at the same time of day, on the same day or the last. */
  lemma AddMonthsFields(t: int, months: int)
    ensures MonthAt(AddMonths(t, months)) == MonthAt(t) + months
    ensures TimeInDay(AddMonths(t, months)) == TimeInDay(t)
    ensures DateOf(AddMonths(t, months)) ==
            Min(DateOf(t), if LosesLeapDay(MonthAt(t) + months) then 28 else DaysInMonth(MonthAt(t) + months))
  {
    hide MonthStart, YearOf, MonthOf, DayOf, Instant, LastDay;
    var m := MonthAt(t) + months;
    LastDayIsMonthEnd(m);
    DaysInMonthBounds(m);
    InstantFields(m, Min(DateOf(t), LastDay(m)), TimeInDay(t));
  }

  lemma AddMonthsIncreases(t: int, months: int, more: int)
    requires months < more
    ensures AddMonths(t, months) < AddMonths(t, more)
  {
    hide MonthStart, YearOf, MonthOf, DayOf, Instant, LastDay, DateOf, MonthAt, TimeInDay, DaysInMonth;
    var m, n := MonthAt(t) + months, MonthAt(t) + more;
    LastDayIsMonthEnd(m);
    LastDayIsMonthEnd(n);
    DaysInMonthBounds(m);
    DaysInMonthBounds(n);
    InstantsOrdered(m, Min(DateOf(t), LastDay(m)), n, Min(DateOf(t), LastDay(n)), TimeInDay(t));
  }

  /** Adding no months gives the date back, except 29 February of the year 0. */
  lemma AddNoMonths(t: int)
    ensures AddMonths(t, 0) == t <==> !(LosesLeapDay(MonthAt(t)) && DateOf(t) == 29)
    ensures AddMonths(t, 0) <= t
  {
    assert DaysInMonth(1) == 29 by { MonthLength(1); }
    hide MonthStart, YearOf, MonthOf, DayOf, LastDay;
    LastDayIsMonthEnd(MonthAt(t));
    DaysInMonthBounds(MonthAt(t));
    FieldsOfInstant(t);
    var m := MonthAt(t);
    if LosesLeapDay(m) && DateOf(t) == 29 {
      assert AddMonths(t, 0) == Instant(m, 28, TimeInDay(t));
    } else {
      assert Min(DateOf(t), LastDay(m)) == DateOf(t);
    }
  }

  // ---------------------------------------------------------------- credit periods

  datatype BillingInterval = Month | Year

  datatype CreditPeriod = CreditPeriod(key: string, start: int, end: int)

  function Pad(digits: nat, n: nat): (s: string)
    ensures |s| == digits
  {
    if digits == 0 then "" else Pad(digits - 1, n / 10) + [DigitChar(n % 10)]
  }

  /** Years outside 0..9999 are printed with a sign and six digits. */
  function IsoYear(year: int): string {
    if 0 <= year <= 9999 then Pad(4, year)
    else if year < 0 then "-" + Pad(6, -year)
    else "+" + Pad(6, year)
  }

  /** `toISOString().slice(0, 10)`: the date, or only its month when the year takes seven characters. */
  function IsoKey(t: int): string {
    var date := IsoYear(YearOf(MonthAt(t))) + "-" + Pad(2, MonthOf(MonthAt(t)) + 1) + "-" + Pad(2, DateOf(t));
    date[..10]
  }

  /** How far the loop of `creditPeriod` counts. */
  function SliceFrom(periodStart: int, now: int, k: nat): nat
    decreases 12 - k
  {
    if k < 12 && AddMonths(periodStart, k + 1) <= now then SliceFrom(periodStart, now, k + 1) else k
  }

  function CreditPeriodAt(interval: BillingInterval, periodStart: int, periodEnd: int, now: int): CreditPeriod {
    match interval
    case Month => CreditPeriod(IsoKey(periodStart), periodStart, periodEnd)
    case Year =>
      var k := SliceFrom(periodStart, now, 0);
      var start, next := AddMonths(periodStart, k), AddMonths(periodStart, k + 1);
      CreditPeriod(IsoKey(start), start, if next < periodEnd then next else periodEnd)
  }

  method CreditPeriodOf(interval: BillingInterval, periodStart: JsDate, periodEnd: JsDate, now: JsDate)
    returns (period: CreditPeriod)
    ensures period == CreditPeriodAt(interval, periodStart.time, periodEnd.time, now.time)
  {
    hide AddMonths, IsoKey;
    if interval == Month {
      return CreditPeriod(IsoKey(periodStart.time), periodStart.time, periodEnd.time);
    }
    var k := 0;
    var next := AddMonthsInPlace(periodStart, k + 1);
    while k < 12 && next.time <= now.time
      invariant 0 <= k <= 12
      invariant next.time == AddMonths(periodStart.time, k + 1)
      invariant SliceFrom(periodStart.time, now.time, 0) == SliceFrom(periodStart.time, now.time, k)
    {
      k := k + 1;
      next := AddMonthsInPlace(periodStart, k + 1);
    }
    var start := AddMonthsInPlace(periodStart, k);
    next := AddMonthsInPlace(periodStart, k + 1);
    var end := if next.time < periodEnd.time then next.time else periodEnd.time;
    return CreditPeriod(IsoKey(start.time), start.time, end);
  }

  predicate Within(t: int, start: int, end: int) { start <= t < end }

  /** The count stops at the slice that holds `now`. */
  lemma {:induction false} SliceFound(periodStart: int, now: int, k: nat, target: nat)
    requires k <= target <= 12
    requires AddMonths(periodStart, target) <= now
    requires target < 12 ==> now < AddMonths(periodStart, target + 1)
    ensures SliceFrom(periodStart, now, k) == target
    decreases target - k
  {
    hide AddMonths, IsoKey;
    if k < target {
      if k + 1 < target { AddMonthsIncreases(periodStart, k + 1, target); }
      SliceFound(periodStart, now, k + 1, target);
    }
  }

  lemma {:induction false} SliceBounds(periodStart: int, now: int, k: nat)
    requires k <= 12 && AddMonths(periodStart, k) <= now
    ensures var s := SliceFrom(periodStart, now, k);
            k <= s <= 12 && AddMonths(periodStart, s) <= now &&
            (s < 12 ==> now < AddMonths(periodStart, s + 1))
    decreases 12 - k
  {
    hide AddMonths, IsoKey;
    if k < 12 && AddMonths(periodStart, k + 1) <= now {
      SliceBounds(periodStart, now, k + 1);
    }
  }

  /** A yearly subscription is cut into twelve slices: each is not empty, and an instant of the year
      gets exactly the slice it lies in. */
  lemma YearIsTiled(periodStart: int, now: int, k: nat)
    requires k < 12
    ensures AddMonths(periodStart, k) < AddMonths(periodStart, k + 1)
    ensures Within(now, AddMonths(periodStart, k), AddMonths(periodStart, k + 1)) <==>
            Within(now, AddMonths(periodStart, 0), AddMonths(periodStart, 12)) &&
            CreditPeriodAt(Year, periodStart, AddMonths(periodStart, 12), now) ==
            CreditPeriod(IsoKey(AddMonths(periodStart, k)), AddMonths(periodStart, k), AddMonths(periodStart, k + 1))
  {
    hide AddMonths, IsoKey;
    AddMonthsIncreases(periodStart, k, k + 1);
    if k > 0 { AddMonthsIncreases(periodStart, 0, k); }
    if k < 11 { AddMonthsIncreases(periodStart, k + 1, 12); }
    if Within(now, AddMonths(periodStart, k), AddMonths(periodStart, k + 1)) {
      SliceFound(periodStart, now, 0, k);
    } else if Within(now, AddMonths(periodStart, 0), AddMonths(periodStart, 12)) {
      SliceBounds(periodStart, now, 0);
      var s := SliceFrom(periodStart, now, 0);
      if s < k { AddMonthsIncreases(periodStart, s, k); }
      if k < s { AddMonthsIncreases(periodStart, k, s); }
    }
  }

  /** Every instant of the year is in one of the twelve. */
  lemma YearIsCovered(periodStart: int, now: int) returns (k: nat)
    requires Within(now, AddMonths(periodStart, 0), AddMonths(periodStart, 12))
    ensures k < 12 && Within(now, AddMonths(periodStart, k), AddMonths(periodStart, k + 1))
    ensures forall j: nat | j < 12 && Within(now, AddMonths(periodStart, j), AddMonths(periodStart, j + 1)) :: j == k
  {
    hide AddMonths, IsoKey;
    SliceBounds(periodStart, now, 0);
    k := SliceFrom(periodStart, now, 0);
    forall j: nat | j < 12 && Within(now, AddMonths(periodStart, j), AddMonths(periodStart, j + 1))
      ensures j == k
    {
      SliceFound(periodStart, now, 0, j);
    }
  }

  lemma PadIsInjective(a: nat, b: nat)
    requires a < 100 && b < 100 && Pad(2, a) == Pad(2, b)
    ensures a == b
  {
    hide Pad;
    LastDigit(2, a, b);
    LastDigit(1, a / 10, b / 10);
  }

  lemma LastDigit(digits: nat, a: nat, b: nat)
    requires digits >= 1 && Pad(digits, a) == Pad(digits, b)
    ensures a % 10 == b % 10 && Pad(digits - 1, a / 10) == Pad(digits - 1, b / 10)
  {
    var s, r := Pad(digits, a), Pad(digits, b);
    assert s[digits - 1] == DigitChar(a % 10) && r[digits - 1] == DigitChar(b % 10);
    assert s[..digits - 1] == Pad(digits - 1, a / 10) && r[..digits - 1] == Pad(digits - 1, b / 10);
  }

  /** Where the two digits of the month are in a key. */
  function MonthDigits(t: int): string {
    if 0 <= YearOf(MonthAt(t)) <= 9999 then IsoKey(t)[5..7] else IsoKey(t)[8..10]
  }

  lemma KeyShowsMonth(t: int)
    ensures |IsoKey(t)| == 10
    ensures MonthDigits(t) == Pad(2, MonthOf(MonthAt(t)) + 1)
    ensures IsDigit(IsoKey(t)[0]) <==> 0 <= YearOf(MonthAt(t)) <= 9999
  {
    hide MonthAt, DateOf, YearOf, Pad;
    var y, month := IsoYear(YearOf(MonthAt(t))), Pad(2, MonthOf(MonthAt(t)) + 1);
    var date := y + "-" + month + "-" + Pad(2, DateOf(t));
    assert date[|y| + 1..|y| + 3] == month;
    if 0 <= YearOf(MonthAt(t)) <= 9999 {
      assert IsDigit(Pad(4, YearOf(MonthAt(t)))[0]) by {
        PadsWithDigits(4, YearOf(MonthAt(t)));
      }
      assert date[..10] == date;
    } else {
      assert date[..10][8..10] == date[8..10];
    }
  }

  lemma SameKeySameMonthDigits(t: int, u: int)
    requires IsoKey(t) == IsoKey(u)
    ensures MonthDigits(t) == MonthDigits(u)
  {
    hide IsoKey, MonthAt, YearOf, IsDigit;
    KeyShowsMonth(t);
    KeyShowsMonth(u);
  }

  lemma PadsWithDigits(digits: nat, n: nat)
    ensures forall i | 0 <= i < digits :: IsDigit(Pad(digits, n)[i])
  {
  }

  lemma MonthsApart(m: int, n: int)
    requires m < n < m + 12
    ensures MonthOf(m) != MonthOf(n)
    ensures 0 <= MonthOf(m) < 12 && 0 <= MonthOf(n) < 12
  {
  }

  /** The twelve slices begin in twelve different months, so their keys differ. */
  lemma KeysDiffer(periodStart: int, j: nat, k: nat)
    requires j < k < 12
    ensures IsoKey(AddMonths(periodStart, j)) != IsoKey(AddMonths(periodStart, k))
  {
    hide *;
    var s, r := AddMonths(periodStart, j), AddMonths(periodStart, k);
    AddMonthsFields(periodStart, j);
    AddMonthsFields(periodStart, k);
    MonthsApart(MonthAt(s), MonthAt(r));
    if IsoKey(s) == IsoKey(r) {
      KeyShowsMonth(s);
      KeyShowsMonth(r);
      SameKeySameMonthDigits(s, r);
      PadIsInjective(MonthOf(MonthAt(s)) + 1, MonthOf(MonthAt(r)) + 1);
    }
  }

  /** Two instants of one year get the same key exactly when they are in the same slice, so a grant
      stored under the key is made once a slice, twelve times a year. */
  lemma KeyNamesTheSlice(periodStart: int, a: int, b: int)
    requires Within(a, AddMonths(periodStart, 0), AddMonths(periodStart, 12))
    requires Within(b, AddMonths(periodStart, 0), AddMonths(periodStart, 12))
    ensures var p := CreditPeriodAt(Year, periodStart, AddMonths(periodStart, 12), a);
            var q := CreditPeriodAt(Year, periodStart, AddMonths(periodStart, 12), b);
            (p.key == q.key <==> p == q) && (p == q <==> Within(b, p.start, p.end))
  {
    hide AddMonths, IsoKey;
    var j := YearIsCovered(periodStart, a);
    var k := YearIsCovered(periodStart, b);
    YearIsTiled(periodStart, a, j);
    YearIsTiled(periodStart, b, k);
    YearIsTiled(periodStart, b, j);
    if j < k {
      KeysDiffer(periodStart, j, k);
    } else if k < j {
      KeysDiffer(periodStart, k, j);
    }
  }

  /** For a period end of any kind, the slice given holds `now` throughout the period if and only if the
      period is not longer than thirteen months. */
  lemma SliceHoldsNow(periodStart: int, periodEnd: int)
    ensures (forall now | Within(now, AddMonths(periodStart, 0), periodEnd) ::
               var p := CreditPeriodAt(Year, periodStart, periodEnd, now); Within(now, p.start, p.end)) <==>
            periodEnd <= AddMonths(periodStart, 13)
  {
    hide AddMonths, IsoKey;
    var limit := AddMonths(periodStart, 13);
    AddMonthsIncreases(periodStart, 12, 13);
    AddMonthsIncreases(periodStart, 0, 13);
    if periodEnd <= limit {
      forall now | Within(now, AddMonths(periodStart, 0), periodEnd)
        ensures var p := CreditPeriodAt(Year, periodStart, periodEnd, now); Within(now, p.start, p.end)
      {
        SliceBounds(periodStart, now, 0);
      }
    } else {
      SliceFound(periodStart, limit, 0, 12);
      var p := CreditPeriodAt(Year, periodStart, periodEnd, limit);
      assert !Within(limit, p.start, p.end);
      assert Within(limit, AddMonths(periodStart, 0), periodEnd);
    }
  }

  /** A slice of a year runs from one monthly step to the next, cut off where the subscription's period ends. */
  lemma SliceRunsToTheNextStep(periodStart: int, periodEnd: int, now: int) returns (k: nat)
    requires AddMonths(periodStart, 0) <= now
    ensures k <= 12 && AddMonths(periodStart, k) <= now && (k < 12 ==> now < AddMonths(periodStart, k + 1))
    ensures var p := CreditPeriodAt(Year, periodStart, periodEnd, now);
            && p.start == AddMonths(periodStart, k) && p.key == IsoKey(p.start)
            && p.end <= periodEnd && p.end <= AddMonths(periodStart, k + 1)
            && (p.end == periodEnd || p.end == AddMonths(periodStart, k + 1))
  {
    hide AddMonths, IsoKey;
    SliceBounds(periodStart, now, 0);
    k := SliceFrom(periodStart, now, 0);
  }

  /** A monthly subscription's credit period is its own billing period, named by the day it starts. */
  lemma MonthIsItsOwnPeriod(periodStart: int, periodEnd: int, now: int)
    ensures var p := CreditPeriodAt(Month, periodStart, periodEnd, now);
            p.start == periodStart && p.end == periodEnd && p.key == IsoKey(periodStart)
  {
  }

  /** In the years 0 to 9999 a key is the date written out, so two instants have one key exactly when they are on
      one day. */
  lemma KeyNamesTheDay(t: int, u: int)
    requires 0 <= YearOf(MonthAt(t)) <= 9999 && 0 <= YearOf(MonthAt(u)) <= 9999
    ensures IsoKey(t) == IsoKey(u) <==> DayOf(t) == DayOf(u)
  {
    hide MonthStart;
    if DayOf(t) == DayOf(u) { MonthIsUnique(u, MonthAt(t)); }
    KeyIsDate(t);
    KeyIsDate(u);
    if IsoKey(t) == IsoKey(u) {
      hide MonthAt, DateOf, DayOf, IsoKey, Pad, YearOf, MonthOf;
      SameFieldsSameDay(t, u);
    }
  }

  lemma SameFieldsSameDay(t: int, u: int)
    requires 0 <= YearOf(MonthAt(t)) <= 9999 && 0 <= YearOf(MonthAt(u)) <= 9999
    requires Pad(4, YearOf(MonthAt(t))) == Pad(4, YearOf(MonthAt(u)))
    requires Pad(2, MonthOf(MonthAt(t)) + 1) == Pad(2, MonthOf(MonthAt(u)) + 1) && Pad(2, DateOf(t)) == Pad(2, DateOf(u))
    ensures DayOf(t) == DayOf(u)
  {
    hide MonthAt, DateOf, DayOf, Pad, YearOf, MonthOf, MonthStart;
    YearsAreInjective(YearOf(MonthAt(t)), YearOf(MonthAt(u)));
    MonthIndex(MonthAt(t));
    MonthIndex(MonthAt(u));
    DateIsSmall(t);
    DateIsSmall(u);
    PadIsInjective(MonthOf(MonthAt(t)) + 1, MonthOf(MonthAt(u)) + 1);
    PadIsInjective(DateOf(t), DateOf(u));
    DayOfFields(t);
    DayOfFields(u);
  }

  lemma KeyIsDate(t: int)
    requires 0 <= YearOf(MonthAt(t)) <= 9999
    ensures |IsoKey(t)| == 10
    ensures IsoKey(t)[..4] == Pad(4, YearOf(MonthAt(t))) && IsoKey(t)[4] == '-'
    ensures IsoKey(t)[5..7] == Pad(2, MonthOf(MonthAt(t)) + 1) && IsoKey(t)[7] == '-'
    ensures IsoKey(t)[8..] == Pad(2, DateOf(t))
  {
    hide MonthAt, DateOf, YearOf, Pad;
    var y, month, day := Pad(4, YearOf(MonthAt(t))), Pad(2, MonthOf(MonthAt(t)) + 1), Pad(2, DateOf(t));
    var date := y + "-" + month + "-" + day;
    assert IsoKey(t) == date[..10] == date;
    assert date[..4] == y && date[5..7] == month && date[8..] == day;
  }

  lemma MonthIndex(m: int)
    ensures m == 12 * YearOf(m) + MonthOf(m) && 0 <= MonthOf(m) < 12
  {
  }

  lemma DateIsSmall(t: int)
    ensures 1 <= DateOf(t) <= 31
  {
    DaysInMonthBounds(MonthAt(t));
  }

  lemma DayOfFields(t: int)
    ensures DayOf(t) == MonthStart(MonthAt(t)) + DateOf(t) - 1
  {
  }

  function TenTo(digits: nat): nat {
    if digits == 0 then 1 else 10 * TenTo(digits - 1)
  }

  /** A number that fits is printed with its own digits. */
  lemma {:induction false} PadShowsTheNumber(digits: nat, n: nat)
    requires n < TenTo(digits)
    ensures (forall i | 0 <= i < digits :: IsDigit(Pad(digits, n)[i])) && DecimalValue(Pad(digits, n)) == n
  {
    PadsWithDigits(digits, n);
    if digits > 0 {
      PadShowsTheNumber(digits - 1, n / 10);
      assert Pad(digits, n)[..digits - 1] == Pad(digits - 1, n / 10);
    }
  }

  lemma YearsAreInjective(a: nat, b: nat)
    requires a <= 9999 && b <= 9999 && Pad(4, a) == Pad(4, b)
    ensures a == b
  {
    hide Pad;
    LastDigit(4, a, b);
    LastDigit(3, a / 10, b / 10);
    LastDigit(2, a / 10 / 10, b / 10 / 10);
    LastDigit(1, a / 10 / 10 / 10, b / 10 / 10 / 10);
  }

  // ---------------------------------------------------------------- upgrades

  function MinReal(a: real, b: real): real { if a <= b then a else b }

  function MaxReal(a: real, b: real): real { if a >= b then a else b }

  function RemainingFraction(period: CreditPeriod, now: int): real {
    var total := period.end - period.start;
    if total <= 0 then 0.0
    else MinReal(1.0, MaxReal(0.0, (period.end - now) as real / total as real))
  }

  function UpgradeGrantCents(fromAmount: int, toAmount: int, alreadyGranted: int, fraction: real): int {
    var diff := toAmount - fromAmount;
    if diff <= 0 then 0
    else
      var prorated := (diff as real * fraction).Floor;
      var headroom := toAmount - alreadyGranted;
      Max(0, Min(prorated, headroom))
  }

  /** An upgrade grants the most whole cents that neither exceed the prorated difference nor lift what the
      period has granted above the new plan's amount; a downgrade or a lateral move grants nothing. */
  lemma UpgradeGrantsTheMost(fromAmount: int, toAmount: int, alreadyGranted: int, fraction: real, other: nat)
    ensures var g := UpgradeGrantCents(fromAmount, toAmount, alreadyGranted, fraction);
            var prorated := (toAmount - fromAmount) as real * fraction;
            && g >= 0
            && (toAmount <= fromAmount ==> g == 0)
            && (g > 0 ==> g as real <= prorated && alreadyGranted + g <= toAmount)
            && (toAmount > fromAmount && other > g ==> other as real > prorated || alreadyGranted + other > toAmount)
  {
    var prorated := (toAmount - fromAmount) as real * fraction;
    assert prorated.Floor as real <= prorated < (prorated.Floor + 1) as real;
  }

  datatype PlanChange = PlanChange(toAmount: int, fraction: real)

  /** What a period has granted in all after a run of plan changes. */
  function GrantedAfter(plan: int, granted: int, changes: seq<PlanChange>): int
    decreases |changes|
  {
    if changes == [] then granted
    else
      var c := changes[0];
      GrantedAfter(c.toAmount, granted + UpgradeGrantCents(plan, c.toAmount, granted, c.fraction), changes[1..])
  }

  /** Whatever the order and the timing of the changes, a period never grants more than the largest plan
      held in it, and no change takes anything back. */
  lemma {:induction false} GrantsStayWithinLargestPlan(plan: int, granted: int, changes: seq<PlanChange>, largest: int)
    requires granted <= largest
    requires forall i | 0 <= i < |changes| :: changes[i].toAmount <= largest
    ensures granted <= GrantedAfter(plan, granted, changes) <= largest
    decreases |changes|
  {
    if changes != [] {
      var c := changes[0];
      GrantsStayWithinLargestPlan(
        c.toAmount, granted + UpgradeGrantCents(plan, c.toAmount, granted, c.fraction), changes[1..], largest);
    }
  }

  /** An upgrade with the whole period ahead makes up the difference in full. */
  lemma FullUpgradeReachesThePlan(fromAmount: int, toAmount: int)
    requires fromAmount <= toAmount
    ensures GrantedAfter(fromAmount, fromAmount, [PlanChange(toAmount, 1.0)]) == toAmount
  {
    var changes := [PlanChange(toAmount, 1.0)];
    assert changes[1..] == [];
    assert (toAmount - fromAmount) as real * 1.0 == (toAmount - fromAmount) as real;
  }

  predicate Climbing(plan: int, steps: seq<int>) {
    && (forall i | 0 <= i < |steps| :: plan <= steps[i])
    && (forall i, j | 0 <= i < j < |steps| :: steps[i] <= steps[j])
  }

  /** The steps of an upgrade, all taken with the same part of the period left. */
  function AtOnce(steps: seq<int>, fraction: real): (changes: seq<PlanChange>)
    ensures |changes| == |steps|
  {
    seq(|steps|, i requires 0 <= i < |steps| => PlanChange(steps[i], fraction))
  }

  function Prorated(diff: int, fraction: real): int { (diff as real * fraction).Floor }

  lemma FloorsAddUp(a: int, b: int, fraction: real)
    ensures Prorated(a, fraction) + Prorated(b, fraction) <= Prorated(a + b, fraction)
  {
    assert (a + b) as real * fraction == a as real * fraction + b as real * fraction;
  }

  lemma ProratedSign(diff: nat, fraction: real)
    ensures if fraction < 0.0 then Prorated(diff, fraction) <= 0 else Prorated(diff, fraction) >= 0
  {
    if fraction < 0.0 {
      assert diff as real * fraction <= 0.0;
    } else {
      assert diff as real * fraction >= 0.0;
    }
  }

  /** A grant from the prorated difference and the headroom. */
  function Capped(diff: int, prorated: int, headroom: int): int {
    if diff <= 0 then 0 else Max(0, Min(prorated, headroom))
  }

  lemma GrantIsCapped(fromAmount: int, toAmount: int, alreadyGranted: int, fraction: real)
    ensures UpgradeGrantCents(fromAmount, toAmount, alreadyGranted, fraction) ==
            Capped(toAmount - fromAmount, Prorated(toAmount - fromAmount, fraction), toAmount - alreadyGranted)
  {
  }

  lemma CapsAddUp(plan: int, middle: int, top: int, granted: int, first: int, second: int, direct: int)
    requires plan <= middle <= top && first + second <= direct
    requires (first <= 0 && second <= 0) || (first >= 0 && second >= 0)
    ensures var g := Capped(middle - plan, first, middle - granted);
            g + Capped(top - middle, second, top - (granted + g)) <= Capped(top - plan, direct, top - granted)
  {
  }

  /** Two steps up never grant more than one. */
  lemma TwoStepsNeverBeatOne(plan: int, middle: int, top: int, granted: int, fraction: real)
    requires plan <= middle <= top
    ensures var g := UpgradeGrantCents(plan, middle, granted, fraction);
            g + UpgradeGrantCents(middle, top, granted + g, fraction) <= UpgradeGrantCents(plan, top, granted, fraction)
  {
    hide UpgradeGrantCents, Prorated, Capped;
    FloorsAddUp(middle - plan, top - middle, fraction);
    ProratedSign(middle - plan, fraction);
    ProratedSign(top - middle, fraction);
    var g := UpgradeGrantCents(plan, middle, granted, fraction);
    GrantIsCapped(plan, middle, granted, fraction);
    GrantIsCapped(middle, top, granted + g, fraction);
    GrantIsCapped(plan, top, granted, fraction);
    CapsAddUp(plan, middle, top, granted, Prorated(middle - plan, fraction), Prorated(top - middle, fraction),
              Prorated(top - plan, fraction));
  }

  /** An upgrade split into any number of steps at one instant never grants more than the direct one. */
  lemma {:induction false} SplittingNeverGrantsMore(plan: int, steps: seq<int>, granted: int, fraction: real)
    requires steps != [] && Climbing(plan, steps)
    ensures GrantedAfter(plan, granted, AtOnce(steps, fraction)) <=
            granted + UpgradeGrantCents(plan, steps[|steps| - 1], granted, fraction)
    decreases |steps|
  {
    var g := UpgradeGrantCents(plan, steps[0], granted, fraction);
    assert AtOnce(steps, fraction)[1..] == AtOnce(steps[1..], fraction);
    if |steps| > 1 {
      SplittingNeverGrantsMore(steps[0], steps[1..], granted + g, fraction);
      TwoStepsNeverBeatOne(plan, steps[0], steps[|steps| - 1], granted, fraction);
    }
  }

  /** The fraction left is between 0 and 1, exact inside the period, and shrinks with time. */
  lemma FractionOfPeriod(period: CreditPeriod, now: int, later: int)
    requires now <= later
    ensures 0.0 <= RemainingFraction(period, later) <= RemainingFraction(period, now) <= 1.0
    ensures period.start <= now <= period.end && period.start < period.end ==>
              RemainingFraction(period, now) * (period.end - period.start) as real == (period.end - now) as real
    ensures now < period.start < period.end ==> RemainingFraction(period, now) == 1.0
    ensures period.end <= now || period.end <= period.start ==> RemainingFraction(period, now) == 0.0
  {
    var total := period.end - period.start;
    if total > 0 {
      QuotientsOrdered((period.end - later) as real, (period.end - now) as real, total as real);
      QuotientsOrdered(0.0, (period.end - now) as real, total as real);
      QuotientsOrdered((period.end - now) as real, total as real, total as real);
    }
  }

  lemma QuotientsOrdered(x: real, y: real, d: real)
    requires d > 0.0
    ensures x <= y ==> x / d <= y / d
    ensures y <= d ==> y / d <= 1.0
    ensures 0.0 <= y ==> 0.0 <= y / d
    ensures (y / d) * d == y
  {
    var a, b := x / d, y / d;
    assert a * d == x && b * d == y;
    assert (b - a) * d == y - x;
    assert (1.0 - b) * d == d - y;
  }

  // ---------------------------------------------------------------- paying a charge

  datatype Split = Split(fromIncluded: int, fromWallet: int)

  function SplitCharge(charge: int, included: int, wallet: int): Option<Split> {
    var fromIncluded := Min(Max(0, included), charge);
    var fromWallet := charge - fromIncluded;
    if fromWallet > wallet then None else Some(Split(fromIncluded, fromWallet))
  }

  datatype Balances = Balances(included: int, wallet: int)

  function Pay(b: Balances, charge: int): Balances {
    match SplitCharge(charge, b.included, b.wallet)
    case None => b
    case Some(s) => Balances(b.included - s.fromIncluded, b.wallet - s.fromWallet)
  }

  function PayAll(b: Balances, charges: seq<int>): Balances
    decreases |charges|
  {
    if charges == [] then b else PayAll(Pay(b, charges[0]), charges[1..])
  }

  /** The sum of the charges that were accepted along a run. */
  function Accepted(b: Balances, charges: seq<int>): int
    decreases |charges|
  {
    if charges == [] then 0
    else
      (if SplitCharge(charges[0], b.included, b.wallet).Some? then charges[0] else 0) +
      Accepted(Pay(b, charges[0]), charges[1..])
  }

  /** A charge is refused exactly when both balances together cannot cover it, and the wallet is
      touched only once the included credit is gone. */
  lemma ChargeIsPaidInOrder(b: Balances, charge: int)
    requires b.included >= 0 && charge >= 0
    ensures SplitCharge(charge, b.included, b.wallet).None? <==> (charge > b.included + b.wallet || b.wallet < 0)
    ensures Pay(b, charge).wallet < b.wallet ==> Pay(b, charge).included == 0
    ensures Pay(b, charge).included == (if SplitCharge(charge, b.included, b.wallet).None? then b.included else Max(0, b.included - charge))
  {
  }

  /** Along any run of charges no balance goes below zero, and what leaves the two balances is exactly
      the sum of the accepted charges, the included credit going first. */
  lemma {:induction false} ChargesAreConserved(b: Balances, charges: seq<int>)
    requires b.included >= 0 && b.wallet >= 0
    requires forall i | 0 <= i < |charges| :: charges[i] >= 0
    ensures var after := PayAll(b, charges);
            0 <= after.included <= b.included && 0 <= after.wallet <= b.wallet &&
            b.included + b.wallet == after.included + after.wallet + Accepted(b, charges) &&
            (after.wallet < b.wallet ==> after.included == 0) &&
            after.included == Max(0, b.included - Accepted(b, charges))
    decreases |charges|
  {
    if charges != [] {
      ChargesAreConserved(Pay(b, charges[0]), charges[1..]);
    }
  }
}
