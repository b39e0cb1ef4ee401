/**
 Civil dates as `Date.UTC` and the UTC getters of a JavaScript `Date` see them:
 the day-number arithmetic of section 21.4.1 of ECMA-262 (Day, DayFromYear,
 YearFromTime, MonthFromTime, MakeDay), and the proof that a day number and a
 civil date determine each other, in the same order.
 */
module Calendar {

  const DAY_MS := 86_400_000
  const HOUR_MS := 3_600_000
  const MINUTE_MS := 60_000

  datatype Ymd = Ymd(year: int, month: int, day: int)

  predicate IsLeap(y: int) {
    y % 4 == 0 && (y % 100 != 0 || y % 400 == 0)
  }

  function DaysInYear(y: int): int {
    if IsLeap(y) then 366 else 365
  }

  /** How long month `m` (1..12) of year `y` is. */
  function MonthLength(y: int, m: int): int {
    if m == 2 then (if IsLeap(y) then 29 else 28)
    else if m == 4 || m == 6 || m == 9 || m == 11 then 30
    else 31
  }

  /** Days of year `y` before the first of month `m`; `m == 13` gives the whole year. */
  function DaysBefore(y: int, m: int): int
    requires 1 <= m <= 13
  {
    if m == 1 then 0 else DaysBefore(y, m - 1) + MonthLength(y, m - 1)
  }

  /** The number of the first day of year `y`, 1970-01-01 being day 0. */
  function DayFromYear(y: int): int {
    365 * (y - 1970) + (y - 1969) / 4 - (y - 1901) / 100 + (y - 1601) / 400
  }

  /** A date that exists in the calendar. */
  predicate Real(d: Ymd) {
    1 <= d.month <= 12 && 1 <= d.day <= MonthLength(d.year, d.month)
  }

  /** The largest year from `y` on that starts no later than day `n`. */
  function YearFrom(y: int, n: int): (r: int)
    requires DayFromYear(y) <= n
    ensures DayFromYear(r) <= n < DayFromYear(r + 1)
    decreases n - DayFromYear(y)
  {
    YearStep(y);
    if DayFromYear(y + 1) <= n then YearFrom(y + 1, n) else y
  }

  /** YearFromTime: the year day `n` falls in. */
  function YearOf(n: int): (y: int)
    ensures DayFromYear(y) <= n < DayFromYear(y + 1)
  {
    YearFrom(if n < 0 then 1970 + n else 1970, n)
  }

  /** MonthFromTime, from month `m` on, for the `k`-th day of year `y`. */
  function MonthFrom(y: int, m: int, k: int): (r: int)
    requires 1 <= m <= 12 && DaysBefore(y, m) <= k < DaysBefore(y, 13)
    ensures 1 <= r <= 12 && DaysBefore(y, r) <= k < DaysBefore(y, r + 1)
    decreases 12 - m
  {
    if k < DaysBefore(y, m + 1) then m else MonthFrom(y, m + 1, k)
  }

  /** The civil date of a day number: what the UTC getters report. */
  function CivilOf(n: int): (d: Ymd)
    ensures Real(d) && DayNumber(d) == n
  {
    var y := YearOf(n);
    YearStep(y);
    YearTotal(y);
    var k := n - DayFromYear(y);
    var m := MonthFrom(y, 1, k);
    Ymd(y, m, k - DaysBefore(y, m) + 1)
  }

  /** The day number of a civil date; the day may lie outside its month. */
  function DayNumber(d: Ymd): int
    requires 1 <= d.month <= 12
  {
    DayFromYear(d.year) + DaysBefore(d.year, d.month) + d.day - 1
  }

  /** Weekday of a day number, 0 = Sunday .. 6 = Saturday. */
  function WeekdayOfDay(n: int): (w: int)
    ensures 0 <= w <= 6
  {
    (n + 4) % 7
  }

  /**
   MakeDay as `Date.UTC` applies it: a year 0..99 means 1900..1999, the month
   (0-based here, as in JavaScript) carries into the year and the day runs over.
   */
  function MakeDay(year: int, month0: int, day: int): int {
    var y := if 0 <= year <= 99 then 1900 + year else year;
    DayNumber(Ymd(y + month0 / 12, month0 % 12 + 1, day))
  }

  /** `Date.UTC(year, month - 1, day, hour, minute, 0)`. */
  function DateUtc(d: Ymd, hour: int, minute: int): int {
    MakeDay(d.year, d.month - 1, d.day) * DAY_MS + hour * HOUR_MS + minute * MINUTE_MS
  }

  lemma FourthStep(y: int)
    ensures (y - 1968) / 4 - (y - 1969) / 4 == if y % 4 == 0 then 1 else 0
  {
  }

  lemma HundredthStep(y: int)
    ensures (y - 1900) / 100 - (y - 1901) / 100 == if y % 100 == 0 then 1 else 0
    ensures y % 100 == 0 ==> y % 4 == 0
  {
  }

  lemma FourHundredthStep(y: int)
    ensures (y - 1600) / 400 - (y - 1601) / 400 == if y % 400 == 0 then 1 else 0
    ensures y % 400 == 0 ==> y % 100 == 0
  {
  }

  lemma YearStep(y: int)
    ensures DayFromYear(y + 1) == DayFromYear(y) + DaysInYear(y)
  {
    FourthStep(y);
    HundredthStep(y);
    FourHundredthStep(y);
    var a, b, c := (y - 1969) / 4, (y - 1901) / 100, (y - 1601) / 400;
    assert DayFromYear(y) == 365 * (y - 1970) + a - b + c;
    var a', b', c' := (y - 1968) / 4, (y - 1900) / 100, (y - 1600) / 400;
    assert DayFromYear(y + 1) == 365 * (y - 1969) + a' - b' + c';
  }

  lemma YearTotal(y: int)
    ensures DaysBefore(y, 13) == DaysInYear(y)
  {
    assert DaysBefore(y, 3) == DaysBefore(y, 1) + DaysInYear(y) - 306;
    assert DaysBefore(y, 5) == DaysBefore(y, 3) + 61;
    assert DaysBefore(y, 7) == DaysBefore(y, 5) + 61;
    assert DaysBefore(y, 9) == DaysBefore(y, 7) + 62;
    assert DaysBefore(y, 11) == DaysBefore(y, 9) + 61;
  }

  lemma {:induction false} YearsGrow(a: int, b: int)
    requires a < b
    ensures DayFromYear(a + 1) <= DayFromYear(b)
    decreases b - a
  {
    if a + 1 < b {
      YearStep(b - 1);
      YearsGrow(a, b - 1);
    }
  }

  lemma {:induction false} MonthsGrow(y: int, a: int, b: int)
    requires 1 <= a < b <= 13
    ensures DaysBefore(y, a) + MonthLength(y, a) <= DaysBefore(y, b)
    decreases b - a
  {
    if a + 1 < b {
      MonthsGrow(y, a, b - 1);
    }
  }

  /** Year, then month, then day: the order of dates. */
  predicate Before(a: Ymd, b: Ymd) {
    || a.year < b.year
    || (a.year == b.year && a.month < b.month)
    || (a.year == b.year && a.month == b.month && a.day < b.day)
  }

  /** A real date lies inside its year. */
  lemma InsideYear(d: Ymd)
    requires Real(d)
    ensures DayFromYear(d.year) <= DayNumber(d) < DayFromYear(d.year + 1)
  {
    hide DayFromYear, IsLeap;
    MonthsGrow(d.year, d.month, 13);
    YearTotal(d.year);
    YearStep(d.year);
    if d.month > 1 {
      MonthsGrow(d.year, 1, d.month);
    }
  }

  /** Day numbers order real dates exactly as the calendar does. */
  lemma DayNumberOrder(a: Ymd, b: Ymd)
    requires Real(a) && Real(b)
    ensures DayNumber(a) < DayNumber(b) <==> Before(a, b)
    ensures DayNumber(a) == DayNumber(b) <==> a == b
  {
    hide DayFromYear, DaysBefore;
    InsideYear(a);
    InsideYear(b);
    if a.year < b.year {
      YearsGrow(a.year, b.year);
    } else if b.year < a.year {
      YearsGrow(b.year, a.year);
    } else if a.month < b.month {
      MonthsGrow(a.year, a.month, b.month);
    } else if b.month < a.month {
      MonthsGrow(a.year, b.month, a.month);
    }
  }

  /** Real dates and day numbers are in bijection: CivilOf inverts DayNumber. */
  lemma CivilBijection(d: Ymd)
    requires Real(d)
    ensures CivilOf(DayNumber(d)) == d
  {
    hide CivilOf;
    DayNumberOrder(CivilOf(DayNumber(d)), d);
  }

  // ---- known days -------------------------------------------------------------

  /** The months of a year, by length and by the days before them. */
  lemma MonthTable(y: int)
    ensures
      var leap := if y % 4 == 0 && (y % 100 != 0 || y % 400 == 0) then 1 else 0;
      && DaysBefore(y, 1) == 0 && DaysBefore(y, 2) == 31
      && DaysBefore(y, 3) == 59 + leap && DaysBefore(y, 4) == 90 + leap && DaysBefore(y, 5) == 120 + leap
      && DaysBefore(y, 6) == 151 + leap && DaysBefore(y, 7) == 181 + leap && DaysBefore(y, 8) == 212 + leap
      && DaysBefore(y, 9) == 243 + leap && DaysBefore(y, 10) == 273 + leap && DaysBefore(y, 11) == 304 + leap
      && DaysBefore(y, 12) == 334 + leap && DaysBefore(y, 13) == 365 + leap
  {
    assert DaysBefore(y, 2) == 31;
    assert DaysBefore(y, 3) == 31 + MonthLength(y, 2);
    assert DaysBefore(y, 4) == DaysBefore(y, 3) + 31;
    assert DaysBefore(y, 5) == DaysBefore(y, 4) + 30;
    assert DaysBefore(y, 6) == DaysBefore(y, 5) + 31;
    assert DaysBefore(y, 7) == DaysBefore(y, 6) + 30;
    assert DaysBefore(y, 8) == DaysBefore(y, 7) + 31;
    assert DaysBefore(y, 9) == DaysBefore(y, 8) + 31;
    assert DaysBefore(y, 10) == DaysBefore(y, 9) + 30;
    assert DaysBefore(y, 11) == DaysBefore(y, 10) + 31;
    assert DaysBefore(y, 12) == DaysBefore(y, 11) + 30;
  }

  /** Day 0 is Thursday the first of January 1970; 2000 came 10957 days later, on a Saturday. */
  lemma EpochDays()
    ensures DayNumber(Ymd(1970, 1, 1)) == 0 && WeekdayOfDay(0) == 4
    ensures DayNumber(Ymd(2000, 1, 1)) == 10_957 && WeekdayOfDay(10_957) == 6
    ensures DateUtc(Ymd(1970, 1, 2), 3, 4) == 86_400_000 + 3 * 3_600_000 + 4 * 60_000
  {
    assert DaysBefore(1970, 1) == 0 && DaysBefore(2000, 1) == 0;
  }
}
