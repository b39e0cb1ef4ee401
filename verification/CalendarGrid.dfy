/**
 The date picker's own calendar arithmetic (`core/components/ui/Calendar.tsx`),
 on `Date` objects that `setUTCDate` shifts in place, proved to agree with the
 period keys. Its `shiftMonth` is `Period.ShiftMonth`.
 */
module CalendarGrid {
  import opened Wrappers
  import opened Text
  import opened Calendar
  import opened Schedule
  import opened NextRun
  import opened Period
  import opened PeriodIndex
  import opened PeriodKeys
  import opened PeriodTheorems

  /** A JavaScript `Date`, read and shifted in UTC. */
  class UtcDate {
    var ms: int

    constructor (ms: int)
      ensures this.ms == ms
    {
      this.ms := ms;
    }

    function Date(): Ymd
      reads this
    {
      CivilOf(ms / DAY_MS)
    }

    /** The Monday-first weekday: 0 = Monday .. 6 = Sunday. */
    function IsoWeekday(): int
      reads this
    {
      (WeekdayOfDay(ms / DAY_MS) + 6) % 7
    }

    /** `setUTCDate`: the day of the month, which may lie outside it; the time of day stays. */
    method SetUTCDate(day: int)
      modifies this
      ensures ms == old(ms) + (day - old(Date()).day) * DAY_MS
    {
      hide CivilOf, DayFromYear, DaysBefore;
      var d := Date();
      ms := DayNumber(Ymd(d.year, d.month, day)) * DAY_MS + ms % DAY_MS;
    }
  }

  datatype DayCell = DayCell(date: string, dayOfMonth: int, outside: bool)

  /** The first day of the grid of month `k`: the Monday on or before the first. */
  function GridStart(k: int): int {
    7 * ((MonthStart(k) + 3) / 7) - 3
  }

  /** The cell of day `n` in the grid of month `k`. */
  ghost predicate CellOf(c: DayCell, n: int, k: int) {
    var d := CivilOf(n);
    && Plain(d)
    && c == DayCell(DateKey(d), d.day, !(MonthStart(k) <= n < MonthStart(k + 1)))
  }

  lemma GridDay(k: int, i: int)
    requires Keyed(Month, k) && 0 <= i < 42
    ensures Plain(CivilOf(GridStart(k) + i))
  {
    hide CivilOf, DayFromYear, MonthStart;
    FirstOfMonth(k);
    ModernDay(MonthStart(k));
    SixDaysEarlier(GridStart(k) + i);
  }

  lemma OutsideMeansOtherMonth(n: int, k: int)
    ensures (CivilOf(n).month != k % 12 + 1 || CivilOf(n).year != k / 12)
            <==> !(MonthStart(k) <= n < MonthStart(k + 1))
  {
    hide CivilOf, MonthStart;
    MonthOfDay(n, k);
    var d := CivilOf(n);
    assert d.year * 12 + d.month - 1 == k <==> d.month == k % 12 + 1 && d.year == k / 12;
  }

  lemma FirstInstant(k: int)
    requires Keyed(Month, k)
    ensures DateUtc(Ymd(k / 12, k % 12 + 1, 1), 0, 0) == MonthStart(k) * DAY_MS
  {
    hide DayFromYear;
  }

  lemma GridCell(c: DayCell, n: int, k: int)
    requires Plain(CivilOf(n))
    requires
      var d := CivilOf(n);
      c == DayCell(DateKey(d), d.day, d.month != k % 12 + 1 || d.year != k / 12)
    ensures CellOf(c, n, k)
  {
    hide CivilOf, MonthStart, DateKey;
    OutsideMeansOtherMonth(n, k);
  }

  lemma BackToMonday(k: int)
    ensures MonthStart(k) - (WeekdayOfDay(MonthStart(k)) + 6) % 7 == GridStart(k)
    ensures WeekdayOfDay(GridStart(k)) == 1
    ensures GridStart(k) <= MonthStart(k) && MonthStart(k + 1) <= GridStart(k) + 42
  {
    hide MonthStart;
    MonthStep(k);
  }

  /** The callback of `Array.from`: cell `i`, on a copy of the first date. */
  method DayCellAt(start: UtcDate, i: nat, ym: Ymd, ghost k: int) returns (cell: DayCell)
    requires Keyed(Month, k) && start.ms == GridStart(k) * DAY_MS && i < 42
    requires ym.year == k / 12 && ym.month == k % 12 + 1
    ensures CellOf(cell, GridStart(k) + i, k)
  {
    hide CivilOf, DayFromYear, MonthStart, DateKey, GridStart, CellOf, Plain, Keyed;
    var d := new UtcDate(start.ms);
    d.SetUTCDate(start.Date().day + i);
    var date := d.Date();
    GridDay(k, i);
    cell := DayCell(DateKey(date), date.day, date.month != ym.month || date.year != ym.year);
    GridCell(cell, GridStart(k) + i, k);
  }

  /**
   `monthGrid`: six weeks from a Monday, day after day, holding the whole month,
   with exactly the days of other months marked as outside.
   */
  method MonthGrid(viewMonth: string, ghost k: int) returns (cells: seq<DayCell>)
    requires Keyed(Month, k) && viewMonth == KeyAt(Month, k)
    ensures |cells| == 42
    ensures forall i :: 0 <= i < 42 ==> CellOf(cells[i], GridStart(k) + i, k)
    ensures WeekdayOfDay(GridStart(k)) == 1
    ensures GridStart(k) <= MonthStart(k) && MonthStart(k + 1) <= GridStart(k) + 42
  {
    hide CivilOf, DayFromYear, MonthStart, ReadYm, DateKey, Decimal, Pad2, DateUtc, CellOf, Plain;
    ReadMonthKey(k / 12, k % 12 + 1);
    var ym := ReadYm(viewMonth).value;
    FirstInstant(k);
    var first := new UtcDate(DateUtc(Ymd(ym.year, ym.month, 1), 0, 0));
    var start := new UtcDate(first.ms);
    start.SetUTCDate(start.Date().day - first.IsoWeekday());
    BackToMonday(k);
    hide GridStart, WeekdayOfDay;
    assert start.ms == GridStart(k) * DAY_MS;
    cells := [];
    for i := 0 to 42
      invariant |cells| == i
      invariant start.ms == GridStart(k) * DAY_MS
      invariant forall j :: 0 <= j < i ==> CellOf(cells[j], GridStart(k) + j, k)
    {
      var cell := DayCellAt(start, i, ym, k);
      cells := cells + [cell];
    }
  }

  /** The Monday of the week day `n` is in. */
  function MondayDay(n: int): int {
    7 * ((n + 3) / 7) - 3
  }

  lemma MondayPlain(n: int)
    requires KeyedDay(n)
    ensures Plain(CivilOf(MondayDay(n)))
  {
    hide CivilOf, DayFromYear;
    ModernDay(n);
    SixDaysEarlier(MondayDay(n));
  }

  lemma WeekKeyAgrees(date: string, n: int, key: string)
    requires Keyed(Day, n) && date == KeyAt(Day, n)
    requires Plain(CivilOf(MondayDay(n))) && key == DateKey(CivilOf(MondayDay(n)))
    ensures WeekBucketOf(date) == Some(key)
    ensures Keyed(Week, IndexAt(Week, n * DAY_MS)) ==> key == KeyAt(Week, IndexAt(Week, n * DAY_MS))
  {
    hide CivilOf, DayFromYear, ReadYmd, DateKey, MondayOf;
    KeyedYear(n);
    ReadDateKey(CivilOf(n));
    ModernDay(n);
    MondayOfDay(n);
  }

  lemma KeyReads(date: string, n: int)
    requires Keyed(Day, n) && date == KeyAt(Day, n)
    ensures ReadYmd(date) == Some(CivilOf(n)) && KeyedDay(n)
  {
    hide CivilOf, DayFromYear, ReadYmd, DateKey;
    KeyedYear(n);
    ReadDateKey(CivilOf(n));
    ModernDay(n);
  }

  /** `weekKeyOf` agrees with `weekBucketOf`: both name the week of the date. */
  method WeekKeyOf(date: string, ghost n: int) returns (key: string)
    requires Keyed(Day, n) && date == KeyAt(Day, n)
    ensures WeekBucketOf(date) == Some(key)
    ensures Keyed(Week, IndexAt(Week, n * DAY_MS)) ==> key == KeyAt(Week, IndexAt(Week, n * DAY_MS))
  {
    hide CivilOf, DayFromYear, ReadYmd, DateKey, DateUtc, WeekBucketOf, Keyed, KeyedDay, KeyAt;
    KeyReads(date, n);
    DateUtcOfDay(n);
    MondayPlain(n);
    var ymd := ReadYmd(date).value;
    var dt := new UtcDate(DateUtc(ymd, 0, 0));
    dt.SetUTCDate(dt.Date().day - dt.IsoWeekday());
    assert dt.ms == MondayDay(n) * DAY_MS;
    key := DateKey(dt.Date());
    WeekKeyAgrees(date, n, key);
  }

  lemma DateUtcOfDay(n: int)
    requires KeyedDay(n)
    ensures DateUtc(CivilOf(n), 0, 0) == n * DAY_MS
  {
    hide CivilOf, DayFromYear, MakeDay;
    ModernDay(n);
    MakeDayOfCivil(n);
  }

  // ---- the visible range ----------------------------------------------------

  const YEAR_SPAN := 12

  /** The first and the last period the picker shows, month `k` in view for days and weeks, `year` for the others. */
  function FirstShown(u: Granularity, k: int, year: int): int {
    match u
    case Week => (GridStart(k) + 3) / 7
    case Month => year * 12
    case Year => year - 11
    case _ => GridStart(k)
  }

  function LastShown(u: Granularity, k: int, year: int): int {
    match u
    case Week => (GridStart(k) + 41 + 3) / 7
    case Month => year * 12 + 11
    case Year => year
    case _ => GridStart(k) + 41
  }

  /** `from <= key && key <= to`, on strings. */
  predicate Within(key: string, from: string, to: string) {
    !StrLt(key, from) && !StrLt(to, key)
  }

  lemma KeysWithin(u: Granularity, a: int, b: int)
    requires u != All && Keyed(u, a) && Keyed(u, b)
    ensures forall j :: Keyed(u, j) ==> (Within(KeyAt(u, j), KeyAt(u, a), KeyAt(u, b)) <==> a <= j <= b)
  {
    hide KeyAt, StrLt, Keyed;
    forall j | Keyed(u, j) ensures Within(KeyAt(u, j), KeyAt(u, a), KeyAt(u, b)) <==> a <= j <= b {
      KeyOrder(u, j, a);
      KeyOrder(u, b, j);
    }
  }

  lemma ShownKeyed(u: Granularity, k: int, year: int)
    requires u == Day || u == Week || u == Month || u == Year
    requires KeyedDay(GridStart(k)) && KeyedDay(GridStart(k) + 41) && 1000 + YEAR_SPAN <= year <= 9999
    ensures Keyed(u, FirstShown(u, k, year)) && Keyed(u, LastShown(u, k, year))
  {
    hide MonthStart, DayFromYear;
  }

  lemma CellKey(c: DayCell, n: int, k: int)
    requires CellOf(c, n, k) && KeyedDay(n)
    ensures Keyed(Day, n) && c.date == KeyAt(Day, n)
  {
    hide CivilOf, DateKey, MonthStart;
  }

  lemma PaddedMonths()
    ensures Pad2(1) == "01" && Pad2(12) == "12"
  {
    assert Decimal(1) == "1";
    assert Decimal(12) == Decimal(1) + [DigitChar(2)];
  }

  lemma MonthKeyIs(year: nat, month: nat)
    requires 1000 <= year <= 9999 && 1 <= month <= 12
    ensures Keyed(Month, year * 12 + month - 1)
    ensures KeyAt(Month, year * 12 + month - 1) == Decimal(year) + "-" + Pad2(month)
  {
    hide Decimal, Pad2, CivilOf, DateKey, DayFromYear;
    var k := year * 12 + month - 1;
    assert k / 12 == year && k % 12 + 1 == month;
  }

  lemma MonthEnds(year: nat)
    requires 1000 <= year <= 9999
    ensures Keyed(Month, year * 12) && KeyAt(Month, year * 12) == Decimal(year) + "-01"
    ensures Keyed(Month, year * 12 + 11) && KeyAt(Month, year * 12 + 11) == Decimal(year) + "-12"
  {
    hide Decimal, Pad2, KeyAt, Keyed;
    PaddedMonths();
    MonthKeyIs(year, 1);
    MonthKeyIs(year, 12);
    var y := Decimal(year);
    assert y + "-" + "01" == y + "-01" && y + "-" + "12" == y + "-12";
  }

  lemma YearKeyIs(y: nat)
    requires 1000 <= y <= 9999
    ensures Keyed(Year, y) && KeyAt(Year, y) == Decimal(y)
  {
  }

  /** The ends of the grid, as day or as week keys. */
  method GridEnds(u: Granularity, viewMonth: string, ghost k: int) returns (from: string, to: string)
    requires u == Day || u == Week
    requires Keyed(Month, k) && viewMonth == KeyAt(Month, k)
    requires KeyedDay(GridStart(k)) && KeyedDay(GridStart(k) + 41)
    ensures Keyed(u, FirstShown(u, k, 0)) && Keyed(u, LastShown(u, k, 0))
    ensures from == KeyAt(u, FirstShown(u, k, 0)) && to == KeyAt(u, LastShown(u, k, 0))
  {
    hide CivilOf, KeyAt, CellOf, Decimal, MonthStart, WeekBucketOf, DayFromYear;
    var cells := MonthGrid(viewMonth, k);
    var first, last := cells[0].date, cells[|cells| - 1].date;
    CellKey(cells[0], GridStart(k), k);
    CellKey(cells[41], GridStart(k) + 41, k);
    if u == Week {
      from := WeekKeyOf(first, GridStart(k));
      to := WeekKeyOf(last, GridStart(k) + 41);
    } else {
      from, to := first, last;
    }
  }

  /** `viewRange`: the keys between its ends, as strings, are those of the periods the picker shows. */
  method ViewRange(u: Granularity, viewMonth: string, year: nat, ghost k: int) returns (from: string, to: string)
    requires u == Day || u == Week || u == Month || u == Year
    requires Keyed(Month, k) && viewMonth == KeyAt(Month, k)
    requires KeyedDay(GridStart(k)) && KeyedDay(GridStart(k) + 41) && 1000 + YEAR_SPAN <= year <= 9999
    ensures forall j :: Keyed(u, j) ==>
              (Within(KeyAt(u, j), from, to) <==> FirstShown(u, k, year) <= j <= LastShown(u, k, year))
  {
    hide KeyAt, Keyed, Decimal, GridStart, Within, KeyedDay;
    ShownKeyed(u, k, year);
    if u == Day || u == Week {
      from, to := GridEnds(u, viewMonth, k);
    } else if u == Month {
      MonthEnds(year);
      from, to := Decimal(year) + "-01", Decimal(year) + "-12";
    } else {
      YearKeyIs(year);
      YearKeyIs(year - YEAR_SPAN + 1);
      from, to := Decimal(year - YEAR_SPAN + 1), Decimal(year);
    }
    KeysWithin(u, FirstShown(u, k, year), LastShown(u, k, year));
  }
}
