/**
 The laws of dashboard periods. Every unit numbers its periods by an integer
 index; keys, ranges, steps and axes are all read off that numbering, which
 proves that periods tile time, that keys name them and that string order is
 chronological.
 */
module PeriodIndex {
  import opened Calendar
  import opened Schedule
  import opened Period

  function MonthStart(k: int): int {
    DayFromYear(k / 12) + DaysBefore(k / 12, k % 12 + 1)
  }

  /** The wall-clock millisecond period `k` of a unit starts at. */
  function StartMs(u: Granularity, k: int): int
    requires u != All
  {
    match u
    case Hour => k * HOUR_MS
    case Day => k * DAY_MS
    case Week => (7 * k - 3) * DAY_MS
    case Month => MonthStart(k) * DAY_MS
    case Year => DayFromYear(k) * DAY_MS
  }

  /** The index of the period wall-clock millisecond `l` falls in. */
  function IndexAt(u: Granularity, l: int): int
    requires u != All
  {
    match u
    case Hour => l / HOUR_MS
    case Day => l / DAY_MS
    case Week => (l / DAY_MS + 3) / 7
    case Month => CivilOf(l / DAY_MS).year * 12 + CivilOf(l / DAY_MS).month - 1
    case Year => CivilOf(l / DAY_MS).year
  }

  lemma MonthStep(k: int)
    ensures MonthStart(k) < MonthStart(k + 1) == MonthStart(k) + MonthLength(k / 12, k % 12 + 1)
  {
    hide DayFromYear;
    if k % 12 == 11 {
      assert (k + 1) / 12 == k / 12 + 1 && (k + 1) % 12 == 0;
      YearTotal(k / 12);
      YearStep(k / 12);
    } else {
      assert (k + 1) / 12 == k / 12 && (k + 1) % 12 == k % 12 + 1;
    }
  }

  lemma {:induction false} MonthsIncrease(j: int, k: int)
    requires j < k
    ensures MonthStart(j) < MonthStart(k)
    decreases k - j
  {
    hide MonthStart;
    MonthStep(j);
    if j + 1 < k {
      MonthsIncrease(j + 1, k);
    }
  }

  /** Day `n` is in month `k` exactly when it lies between two month starts. */
  lemma MonthOfDay(n: int, k: int)
    ensures (var d := CivilOf(n); d.year * 12 + d.month - 1 == k)
            <==> MonthStart(k) <= n < MonthStart(k + 1)
  {
    hide CivilOf, DayFromYear, DaysBefore;
    var d := CivilOf(n);
    var j := d.year * 12 + d.month - 1;
    assert j / 12 == d.year && j % 12 == d.month - 1;
    MonthStep(j);
    assert MonthStart(j) <= n < MonthStart(j + 1);
    hide MonthStart;
    if k < j {
      if k + 1 < j {
        MonthsIncrease(k + 1, j);
      }
    } else if j < k {
      if j + 1 < k {
        MonthsIncrease(j + 1, k);
      }
    }
  }

  lemma YearOfDay(n: int, k: int)
    ensures CivilOf(n).year == k <==> DayFromYear(k) <= n < DayFromYear(k + 1)
  {
    hide CivilOf, DayFromYear;
    var y := CivilOf(n).year;
    InsideYear(CivilOf(n));
    if k < y {
      YearsGrow(k, y);
    } else if y < k {
      YearsGrow(y, k);
    }
  }

  lemma DayMs(a: int, l: int)
    ensures a * DAY_MS <= l <==> a <= l / DAY_MS
  {
  }

  lemma WeekOfDay(n: int, k: int)
    ensures (n + 3) / 7 == k <==> 7 * k - 3 <= n < 7 * (k + 1) - 3
  {
  }

  /**
   The periods of every unit tile wall-clock time: `l` lies between two starts
   exactly when it has that index.
   */
  lemma Tiling(u: Granularity, l: int, k: int)
    requires u != All
    ensures IndexAt(u, l) == k <==> StartMs(u, k) <= l < StartMs(u, k + 1)
  {
    hide CivilOf, DayFromYear, MonthStart;
    var n := l / DAY_MS;
    match u
    case Hour =>
    case Day =>
    case Week =>
      WeekOfDay(n, k);
      DayMs(7 * k - 3, l);
      DayMs(7 * (k + 1) - 3, l);
    case Month =>
      MonthOfDay(n, k);
      DayMs(MonthStart(k), l);
      DayMs(MonthStart(k + 1), l);
    case Year =>
      YearOfDay(n, k);
      DayMs(DayFromYear(k), l);
      DayMs(DayFromYear(k + 1), l);
  }

  lemma StartIncreases(u: Granularity, j: int, k: int)
    requires u != All
    ensures j < k <==> StartMs(u, j) < StartMs(u, k)
  {
    hide DayFromYear, MonthStart;
    if j < k {
      StartLess(u, j, k);
    } else if k < j {
      StartLess(u, k, j);
    }
  }

  lemma StartLess(u: Granularity, j: int, k: int)
    requires u != All && j < k
    ensures StartMs(u, j) < StartMs(u, k)
  {
    hide DayFromYear, MonthStart;
    match u
    case Month => MonthsIncrease(j, k);
    case Year =>
      YearStep(j);
      YearsGrow(j, k);
    case _ =>
  }
}

module PeriodKeys {
  import opened Wrappers
  import opened Text
  import opened Calendar
  import opened Schedule
  import opened NextRun
  import opened Period
  import opened PeriodIndex

  const END_DAY := DayFromYear(10_000)

  /** A day whose date prints with a four-digit year. */
  predicate KeyedDay(n: int) {
    FIRST_DAY <= n < END_DAY
  }

  /** The periods whose keys have a four-digit year. */
  predicate Keyed(u: Granularity, k: int) {
    match u
    case Hour => KeyedDay(k / 24)
    case Day => KeyedDay(k)
    case Week => KeyedDay(7 * k - 3)
    case Month => 1000 <= k / 12 <= 9999
    case Year => 1000 <= k <= 9999
    case All => false
  }

  lemma KeyedYear(n: int)
    requires KeyedDay(n)
    ensures 1000 <= CivilOf(n).year <= 9999 && Plain(CivilOf(n))
  {
    hide CivilOf, DayFromYear;
    YearOfDay(n, CivilOf(n).year);
    ModernYear(n);
    if 9999 < CivilOf(n).year {
      if 10_000 < CivilOf(n).year {
        YearsGrow(10_000, CivilOf(n).year);
        YearStep(10_000);
      }
    }
  }

  /** The key of period `k`: the well-formed anchors are exactly these strings. */
  function KeyAt(u: Granularity, k: int): string
    requires Keyed(u, k)
  {
    match u
    case Hour => KeyedYear(k / 24); DateKey(CivilOf(k / 24)) + " " + Pad2(k % 24)
    case Day => KeyedYear(k); DateKey(CivilOf(k))
    case Week => KeyedYear(7 * k - 3); DateKey(CivilOf(7 * k - 3))
    case Month => Decimal(k / 12) + "-" + Pad2(k % 12 + 1)
    case Year => Decimal(k)
  }

  // ---- keys read back -------------------------------------------------------

  lemma ReadDateKey(d: Ymd)
    requires Plain(d)
    ensures ReadYmd(DateKey(d)) == Some(d)
  {
    hide Decimal, Pad2, NumberOf, Split;
    var y, m, day := Decimal(d.year), Pad2(d.month), Pad2(d.day);
    NumberOfDecimal(d.year);
    NumberOfPad2(d.month);
    NumberOfPad2(d.day);
    assert DateKey(d) == y + ['-'] + (m + ['-'] + day);
    SplitHead(y, '-', m + ['-'] + day);
    SplitHead(m, '-', day);
    SplitWhole(day, '-');
  }

  lemma ReadMonthKey(y: nat, m: nat)
    ensures ReadYm(Decimal(y) + "-" + Pad2(m)) == Some(Ymd(y, m, 1))
  {
    hide Decimal, Pad2, NumberOf, Split;
    NumberOfDecimal(y);
    NumberOfPad2(m);
    assert Decimal(y) + "-" + Pad2(m) == Decimal(y) + ['-'] + Pad2(m);
    SplitHead(Decimal(y), '-', Pad2(m));
    SplitWhole(Pad2(m), '-');
  }

  // ---- string order is chronological order ----------------------------------

  lemma YearOrder(a: int, x: string, b: int, y: string)
    requires 1000 <= a <= 9999 && 1000 <= b <= 9999
    ensures StrLt(Decimal(a) + x, Decimal(b) + y) <==> a < b || (a == b && StrLt(x, y))
  {
    hide Decimal, StrLt;
    FourDigits(a);
    FourDigits(b);
    DigitOrder(Decimal(a), Decimal(b));
    NumberOfDecimal(a);
    NumberOfDecimal(b);
    StrLtAppend(Decimal(a), x, Decimal(b), y);
  }

  lemma PairOrder(a: nat, x: string, b: nat, y: string)
    requires a < 100 && b < 100
    ensures StrLt(Pad2(a) + x, Pad2(b) + y) <==> a < b || (a == b && StrLt(x, y))
  {
    hide Pad2, StrLt;
    NumberOfPad2(a);
    NumberOfPad2(b);
    DigitOrder(Pad2(a), Pad2(b));
    StrLtAppend(Pad2(a), x, Pad2(b), y);
  }

  lemma DashOrder(x: string, y: string)
    ensures StrLt("-" + x, "-" + y) <==> StrLt(x, y)
  {
    hide StrLt;
    StrLtAppend("-", x, "-", y);
  }

  lemma DateKeyOrder(a: Ymd, x: string, b: Ymd, y: string)
    requires Real(a) && Real(b) && 1000 <= a.year <= 9999 && 1000 <= b.year <= 9999
    ensures StrLt(DateKey(a) + x, DateKey(b) + y) <==> Before(a, b) || (a == b && StrLt(x, y))
  {
    hide Decimal, Pad2, StrLt;
    assert DateKey(a) + x == Decimal(a.year) + ("-" + (Pad2(a.month) + ("-" + (Pad2(a.day) + x))));
    assert DateKey(b) + y == Decimal(b.year) + ("-" + (Pad2(b.month) + ("-" + (Pad2(b.day) + y))));
    YearOrder(a.year, "-" + (Pad2(a.month) + ("-" + (Pad2(a.day) + x))),
              b.year, "-" + (Pad2(b.month) + ("-" + (Pad2(b.day) + y))));
    DashOrder(Pad2(a.month) + ("-" + (Pad2(a.day) + x)), Pad2(b.month) + ("-" + (Pad2(b.day) + y)));
    PairOrder(a.month, "-" + (Pad2(a.day) + x), b.month, "-" + (Pad2(b.day) + y));
    DashOrder(Pad2(a.day) + x, Pad2(b.day) + y);
    assert a.day <= 31 && b.day <= 31;
    PairOrder(a.day, x, b.day, y);
  }

  lemma DayKeyOrder(m: int, x: string, n: int, y: string)
    requires KeyedDay(m) && KeyedDay(n)
    ensures Plain(CivilOf(m)) && Plain(CivilOf(n))
    ensures StrLt(DateKey(CivilOf(m)) + x, DateKey(CivilOf(n)) + y) <==> m < n || (m == n && StrLt(x, y))
  {
    hide CivilOf, DateKey, StrLt, DayNumber, DayFromYear;
    KeyedYear(m);
    KeyedYear(n);
    DateKeyOrder(CivilOf(m), x, CivilOf(n), y);
    DayNumberOrder(CivilOf(m), CivilOf(n));
  }

  lemma HourKeyOrder(j: int, k: int)
    requires Keyed(Hour, j) && Keyed(Hour, k)
    ensures StrLt(KeyAt(Hour, j), KeyAt(Hour, k)) <==> j < k
  {
    hide CivilOf, DateKey, StrLt, Pad2, KeyedDay;
    var x, y := Pad2(j % 24), Pad2(k % 24);
    PairOrder(j % 24, "", k % 24, "");
    assert x + "" == x && y + "" == y;
    StrLtTotal("", "");
    StrLtAppend(" ", x, " ", y);
    DayKeyOrder(j / 24, " " + x, k / 24, " " + y);
    assert KeyAt(Hour, j) == DateKey(CivilOf(j / 24)) + (" " + x);
    assert KeyAt(Hour, k) == DateKey(CivilOf(k / 24)) + (" " + y);
  }

  lemma MonthKeyOrder(j: int, k: int)
    requires Keyed(Month, j) && Keyed(Month, k)
    ensures StrLt(KeyAt(Month, j), KeyAt(Month, k)) <==> j < k
  {
    hide StrLt, Decimal, Pad2;
    var x, y := Pad2(j % 12 + 1), Pad2(k % 12 + 1);
    YearOrder(j / 12, "-" + x, k / 12, "-" + y);
    DashOrder(x, y);
    PairOrder(j % 12 + 1, "", k % 12 + 1, "");
    assert x + "" == x && y + "" == y;
    StrLtTotal("", "");
    var a, b := Decimal(j / 12), Decimal(k / 12);
    assert a + "-" + x == a + ("-" + x);
    assert b + "-" + y == b + ("-" + y);
  }

  /** Keys of one unit compare as strings exactly as their periods follow in time. */
  lemma KeyOrder(u: Granularity, j: int, k: int)
    requires Keyed(u, j) && Keyed(u, k)
    ensures StrLt(KeyAt(u, j), KeyAt(u, k)) <==> j < k
  {
    hide CivilOf, DateKey, StrLt, Decimal, Pad2, KeyedDay;
    StrLtTotal("", "");
    assert KeyAt(u, j) + "" == KeyAt(u, j) && KeyAt(u, k) + "" == KeyAt(u, k);
    match u
    case Hour => HourKeyOrder(j, k);
    case Day => DayKeyOrder(j, "", k, "");
    case Week => DayKeyOrder(7 * j - 3, "", 7 * k - 3, "");
    case Month => MonthKeyOrder(j, k);
    case Year => YearOrder(j, "", k, "");
  }

  /** Different periods of a unit have different keys. */
  lemma KeyInjective(u: Granularity, j: int, k: int)
    requires Keyed(u, j) && Keyed(u, k)
    ensures KeyAt(u, j) == KeyAt(u, k) <==> j == k
  {
    hide KeyAt, StrLt, Keyed;
    KeyOrder(u, j, k);
    KeyOrder(u, k, j);
    StrLtTotal(KeyAt(u, j), KeyAt(u, k));
  }
}

module PeriodTheorems {
  import opened Wrappers
  import opened Text
  import opened Calendar
  import opened Schedule
  import opened Boundaries
  import opened NextRun
  import opened Period
  import opened PeriodIndex
  import opened PeriodKeys
  import opened SummaryDays

  // ---- the key of an instant ------------------------------------------------

  lemma MondayOfDay(n: int)
    requires FIRST_DAY <= n
    ensures MondayOf(CivilOf(n)) == CivilOf(7 * ((n + 3) / 7) - 3)
    ensures Plain(CivilOf(n)) && Plain(MondayOf(CivilOf(n)))
  {
    hide CivilOf, DayFromYear, AddCalendarDays, WeekdayOf;
    ModernYear(n);
    var back := (WeekdayOfDay(n) + 6) % 7;
    assert n - back == 7 * ((n + 3) / 7) - 3;
    AddDays(n, -back);
    SixDaysEarlier(n - back);
  }

  lemma SixDaysEarlier(n: int)
    requires FIRST_DAY - 6 <= n
    ensures 0 <= CivilOf(n).year
  {
    hide CivilOf;
    assert DayFromYear(100) <= FIRST_DAY - 6;
    LateDay(n, 100);
  }

  /** `bucketKeyOfInstant` */
  function BucketKeyOfInstant(t: int, g: Granularity, z: Zone): string
    requires KeyedDay(LocalDay(t, z))
  {
    MondayOfDay(LocalDay(t, z));
    BucketKey(PartsOf(t, z), g)
  }

  /** The period of a unit in which the wall clock is at an instant. */
  function PeriodAt(u: Granularity, t: int, z: Zone): int
    requires u != All
  {
    IndexAt(u, Local(t, z))
  }

  /** The wall clock is in a period that has a key. */
  predicate KeyedAt(u: Granularity, t: int, z: Zone)
    requires u != All
  {
    KeyedDay(LocalDay(t, z)) && Keyed(u, PeriodAt(u, t, z))
  }

  /** In any zone an instant's key names the period the wall clock is in. */
  lemma KeyOfInstant(u: Granularity, t: int, z: Zone)
    requires u != All && KeyedAt(u, t, z)
    ensures BucketKeyOfInstant(t, u, z) == KeyAt(u, PeriodAt(u, t, z))
  {
    hide CivilOf, DayFromYear, DateKey, Decimal, Pad2, MondayOf, KeyedDay;
    var l := Local(t, z);
    var n := l / DAY_MS;
    KeyedYear(n);
    ModernDay(n);
    MondayOfDay(n);
    match u
    case Hour =>
      assert l / HOUR_MS / 24 == n && l / HOUR_MS % 24 == l % DAY_MS / HOUR_MS;
    case Month =>
      var d := CivilOf(n);
      assert (d.year * 12 + d.month - 1) / 12 == d.year && (d.year * 12 + d.month - 1) % 12 == d.month - 1;
    case _ =>
  }

  // ---- the range of a key ---------------------------------------------------

  lemma MidnightOfDay(n: int, z: Zone)
    requires ZoneOk(z) && FIRST_DAY <= n
    ensures MidnightOf(CivilOf(n), z) == Landed(n * DAY_MS, z)
  {
    hide CivilOf, DayFromYear, ZonedWallClockToUtc, Landed;
    DayWallClock(n, Time(0, 0), z);
    assert WallAt(n, Time(0, 0)) == n * DAY_MS;
  }

  lemma MidnightOfFirst(y: int, m: int, z: Zone)
    requires ZoneOk(z) && 1000 <= y && 1 <= m <= 12
    ensures MidnightOf(Ymd(y, m, 1), z) == Landed(MonthStart(12 * y + m - 1) * DAY_MS, z)
  {
    hide CivilOf, DayFromYear, ZonedWallClockToUtc, Landed;
    var d := Ymd(y, m, 1);
    assert (12 * y + m - 1) / 12 == y && (12 * y + m - 1) % 12 == m - 1;
    CalendarDay(d);
    assert DateUtc(d, 0, 0) == DayNumber(d) * DAY_MS;
    WallClockSteps(d, 0, 0, z);
  }

  /** The instants the code computes for the start of period `k` and of the one after it. */
  function RangeAt(u: Granularity, k: int, z: Zone): PeriodRange
    requires u != All
  {
    PeriodRange(Landed(StartMs(u, k), z), Landed(StartMs(u, k + 1), z))
  }

  lemma RangeOfDayKey(k: int, z: Zone)
    requires ZoneOk(z) && Keyed(Day, k)
    ensures RangeOf(Day, KeyAt(Day, k), z) == Some(RangeAt(Day, k, z))
  {
    hide CivilOf, DayFromYear, DateKey, Decimal, Pad2, MidnightOf, AddCalendarDays, ReadYmd, ReadYm, Landed;
    KeyedYear(k);
    ReadDateKey(CivilOf(k));
    ModernYear(k);
    AddDays(k, 1);
    MidnightOfDay(k, z);
    MidnightOfDay(k + 1, z);
  }

  lemma RangeOfWeekKey(k: int, z: Zone)
    requires ZoneOk(z) && Keyed(Week, k)
    ensures RangeOf(Week, KeyAt(Week, k), z) == Some(RangeAt(Week, k, z))
  {
    hide CivilOf, DayFromYear, DateKey, Decimal, Pad2, MidnightOf, AddCalendarDays, ReadYmd, ReadYm, Landed;
    var n := 7 * k - 3;
    KeyedYear(n);
    ReadDateKey(CivilOf(n));
    ModernYear(n);
    AddDays(n, 7);
    MidnightOfDay(n, z);
    MidnightOfDay(n + 7, z);
  }

  lemma RangeOfMonthKey(k: int, z: Zone)
    requires ZoneOk(z) && Keyed(Month, k)
    ensures RangeOf(Month, KeyAt(Month, k), z) == Some(RangeAt(Month, k, z))
  {
    hide CivilOf, DayFromYear, DateKey, Decimal, Pad2, MidnightOf, AddCalendarDays, ReadYmd, ReadYm, Landed;
    ReadMonthKey(k / 12, k % 12 + 1);
    MidnightOfFirst(k / 12, k % 12 + 1, z);
    MidnightOfFirst((k + 1) / 12, (k + 1) % 12 + 1, z);
  }

  lemma RangeOfYearKey(k: int, z: Zone)
    requires ZoneOk(z) && Keyed(Year, k)
    ensures RangeOf(Year, KeyAt(Year, k), z) == Some(RangeAt(Year, k, z))
  {
    hide CivilOf, DayFromYear, DateKey, Decimal, Pad2, MidnightOf, AddCalendarDays, ReadYmd, ReadYm, Landed;
    NumberOfDecimal(k);
    MidnightOfFirst(k, 1, z);
    MidnightOfFirst(k + 1, 1, z);
    JanuaryFirst(k);
    JanuaryFirst(k + 1);
  }

  /**
   In any zone the range of a key runs from where its own start lands to where the
   start of the next period does.
   */
  lemma RangeOfKey(u: Granularity, k: int, z: Zone)
    requires u != All && u != Hour && ZoneOk(z) && Keyed(u, k)
    ensures RangeOf(u, KeyAt(u, k), z) == Some(RangeAt(u, k, z))
  {
    hide RangeOf, KeyAt, StartMs, Keyed, ZoneOk;
    match u
    case Day => RangeOfDayKey(k, z);
    case Week => RangeOfWeekKey(k, z);
    case Month => RangeOfMonthKey(k, z);
    case Year => RangeOfYearKey(k, z);
  }

  /**
   There is one period of everything: it has one key for every instant, no step leaves
   it, it has no axis, and it holds all from the epoch to the last day of year 9999.
   */
  lemma AllIsOne(t: int, z: Zone, anchor: string, delta: int, current: string)
    requires KeyedDay(LocalDay(t, z))
    ensures BucketKeyOfInstant(t, All, z) == "all"
    ensures StepAnchor(All, anchor, delta) == Some("all") && SubBucketKeys(All, anchor) == []
    ensures IsAtOrAfterAnchor(All, anchor, current)
    ensures RangeOf(All, anchor, z).Some?
    ensures RangeOf(All, anchor, z).value.Contains(t) <==> 0 <= t < 253_402_214_400_000
  {
    hide MakeDay, CivilOf, KeyedDay, MondayOf;
    LastDayOf9999();
  }

  lemma LastDayOf9999()
    ensures MakeDay(9999, 11, 31) == 2_932_896
  {
    assert DaysBefore(9999, 12) == 334;
  }

  lemma JanuaryFirst(y: int)
    ensures MonthStart(12 * y) == DayFromYear(y)
  {
    hide DayFromYear;
  }

  /** Both ends of period `k` land where the zone's clock reaches them. */
  ghost predicate EndsSplit(u: Granularity, k: int, z: Zone)
    requires u != All
  {
    Splits(StartMs(u, k), z) && Splits(StartMs(u, k + 1), z)
  }

  lemma FromStart(u: Granularity, k: int, l: int)
    requires u != All
    ensures StartMs(u, k) <= l <==> k <= IndexAt(u, l)
  {
    hide IndexAt, StartMs;
    var j := IndexAt(u, l);
    Tiling(u, l, j);
    StartIncreases(u, j, k);
    StartIncreases(u, k, j + 1);
  }

  /**
   In any zone the start of a range parts time as the periods do — every instant
   before it in an earlier period, every other in this one or a later one — exactly
   when the conversion places that midnight where the clock reaches it.
   */
  lemma RangeStartsExactly(u: Granularity, k: int, z: Zone)
    requires u != All && u != Hour && ZoneOk(z) && Keyed(u, k)
    ensures RangeOf(u, KeyAt(u, k), z).Some?
    ensures (forall t: int :: k <= PeriodAt(u, t, z) <==> RangeOf(u, KeyAt(u, k), z).value.startUtc <= t)
            <==> Splits(StartMs(u, k), z)
  {
    hide RangeOf, KeyAt, StartMs, IndexAt, Keyed, Landed, ZoneOk;
    RangeOfKey(u, k, z);
    forall t: int ensures k <= PeriodAt(u, t, z) <==> StartMs(u, k) <= Local(t, z) {
      FromStart(u, k, Local(t, z));
    }
  }

  /**
   A period's range holds exactly the instants that have its key, for every unit
   and every well-formed anchor, in any zone whose clock passes its two ends cleanly.
   */
  lemma PeriodMembership(u: Granularity, k: int, t: int, z: Zone)
    requires u != All && u != Hour && ZoneOk(z) && Keyed(u, k) && EndsSplit(u, k, z)
    requires KeyedAt(u, t, z)
    ensures RangeOf(u, KeyAt(u, k), z).Some?
    ensures BucketKeyOfInstant(t, u, z) == KeyAt(u, k) <==> RangeOf(u, KeyAt(u, k), z).value.Contains(t)
  {
    hide RangeOf, KeyAt, StartMs, IndexAt, BucketKeyOfInstant, Keyed, KeyedDay, Landed, ZoneOk;
    RangeOfKey(u, k, z);
    KeyOfInstant(u, t, z);
    KeyInjective(u, PeriodAt(u, t, z), k);
    FromStart(u, k, Local(t, z));
    FromStart(u, k + 1, Local(t, z));
  }

  /**
   West of Greenwich, where the clock skips from midnight on, the range of the period
   that should start there starts early, by as much as the clock skips: it holds
   instants whose wall clock is still in the period before.
   */
  lemma SkippedMidnight(u: Granularity, k: int, z: Zone, a: int, b: int, at: int)
    requires u != All && u != Hour && ZoneOk(z) && Keyed(u, k)
    requires SwitchesOnce(z, StartMs(u, k), a, b, at) && a < b && a < 0 && StartMs(u, k) == at + a
    ensures RangeOf(u, KeyAt(u, k), z).Some?
    ensures RangeOf(u, KeyAt(u, k), z).value.startUtc == at - (b - a)
    ensures forall t: int :: at - (b - a) <= t < at && StartMs(u, k) - DAY_MS <= t ==> PeriodAt(u, t, z) < k
    ensures PeriodAt(u, at, z) >= k
  {
    hide RangeOf, KeyAt, StartMs, IndexAt, Keyed, Landed, ZoneOk;
    RangeOfKey(u, k, z);
    LandedNear(StartMs(u, k), z, a, b, at);
    forall t: int | at - (b - a) <= t < at && StartMs(u, k) - DAY_MS <= t ensures PeriodAt(u, t, z) < k {
      FromStart(u, k, Local(t, z));
    }
    FromStart(u, k, Local(at, z));
  }

  /** Stepping an anchor moves its index: the integers act on well-formed anchors. */
  lemma StepMovesIndex(u: Granularity, k: int, delta: int)
    requires u != All && u != Hour && Keyed(u, k) && Keyed(u, k + delta)
    ensures StepAnchor(u, KeyAt(u, k), delta) == Some(KeyAt(u, k + delta))
  {
    hide CivilOf, DayFromYear, DateKey, Decimal, Pad2, AddCalendarDays, ReadYmd, ReadYm;
    match u
    case Day =>
      KeyedYear(k);
      KeyedYear(k + delta);
      ReadDateKey(CivilOf(k));
      ModernYear(k);
      AddDays(k, delta);
    case Week =>
      var n := 7 * k - 3;
      KeyedYear(n);
      KeyedYear(n + delta * 7);
      ReadDateKey(CivilOf(n));
      ModernYear(n);
      AddDays(n, delta * 7);
    case Month =>
      ReadMonthKey(k / 12, k % 12 + 1);
      assert k / 12 * 12 + k % 12 == k;
    case Year =>
      NumberOfDecimal(k);
  }

  /** Months and years are stepped by the calendar down to the first of year 0, whose key has no sign yet. */
  lemma StepsEarly(y: nat, m: nat, delta: int)
    requires 1 <= m <= 12
    ensures
      var k := 12 * y + m - 1 + delta;
      StepAnchor(Month, Decimal(y) + "-" + Pad2(m), delta)
      == if k >= 0 then Some(Decimal(k / 12) + "-" + Pad2(k % 12 + 1)) else None
    ensures StepAnchor(Year, Decimal(y), delta) == if y + delta >= 0 then Some(Decimal(y + delta)) else None
  {
    hide Decimal, Pad2, ReadYm;
    ReadMonthKey(y, m);
    NumberOfDecimal(y);
  }

  /** Steps compose, and the zero step stays put. */
  lemma StepAction(u: Granularity, k: int, i: int, j: int)
    requires u != All && u != Hour
    requires Keyed(u, k) && Keyed(u, k + i) && Keyed(u, k + i + j)
    ensures
      var a := KeyAt(u, k);
      && StepAnchor(u, a, 0) == Some(a)
      && StepAnchor(u, a, i).Some?
      && StepAnchor(u, StepAnchor(u, a, i).value, j) == StepAnchor(u, a, i + j)
  {
    hide StepAnchor, KeyAt, Keyed;
    StepMovesIndex(u, k, 0);
    StepMovesIndex(u, k, i);
    StepMovesIndex(u, k + i, j);
    StepMovesIndex(u, k, i + j);
  }

  /**
   In every zone, with whatever transitions, a period ends at the instant the
   next one starts: periods tile time with no gap and no overlap.
   */
  lemma PeriodsTile(u: Granularity, k: int, z: Zone)
    requires u != All && u != Hour && Keyed(u, k) && Keyed(u, k + 1)
    ensures
      var a := KeyAt(u, k);
      var next := StepAnchor(u, a, 1);
      && next.Some?
      && RangeOf(u, a, z).Some? && RangeOf(u, next.value, z).Some?
      && RangeOf(u, a, z).value.endUtc == RangeOf(u, next.value, z).value.startUtc
  {
    hide CivilOf, DayFromYear, DateKey, Decimal, Pad2;
    hide MidnightOf, AddCalendarDays, ReadYmd, ReadYm, StepAnchor, KeyedDay;
    StepMovesIndex(u, k, 1);
    match u
    case Day =>
      KeyedYear(k);
      KeyedYear(k + 1);
      ReadDateKey(CivilOf(k));
      ReadDateKey(CivilOf(k + 1));
      ModernDay(k);
      AddDays(k, 1);
    case Week =>
      var n := 7 * k - 3;
      KeyedYear(n);
      KeyedYear(n + 7);
      ReadDateKey(CivilOf(n));
      ReadDateKey(CivilOf(n + 7));
      ModernDay(n);
      AddDays(n, 7);
    case Month =>
      ReadMonthKey(k / 12, k % 12 + 1);
      ReadMonthKey((k + 1) / 12, (k + 1) % 12 + 1);
    case Year =>
      NumberOfDecimal(k);
      NumberOfDecimal(k + 1);
  }

  // ---- the chart axis -------------------------------------------------------

  /** The first sub-period of period `k`, by index. */
  function SubStart(u: Granularity, k: int): int
    requires u != All && u != Hour
  {
    match u
    case Day => 24 * k
    case Week => 7 * k - 3
    case Month => MonthStart(k)
    case Year => 12 * k
  }

  lemma SubStartIsStart(u: Granularity, k: int)
    requires u != All && u != Hour
    ensures StartMs(SubUnitOf(u), SubStart(u, k)) == StartMs(u, k)
  {
    hide DayFromYear;
    if u == Year {
      JanuaryFirst(k);
    }
  }

  /** A period all of whose sub-periods have four-digit years. */
  predicate KeyedWhole(u: Granularity, k: int) {
    u != All && u != Hour && Keyed(u, k) && (u == Week ==> KeyedDay(7 * k + 3))
  }

  lemma SubKeyed(u: Granularity, k: int, j: int)
    requires KeyedWhole(u, k) && SubStart(u, k) <= j < SubStart(u, k + 1)
    ensures Keyed(SubUnitOf(u), j)
  {
    hide DayFromYear, MonthStart;
    if u == Month {
      JanuaryFirst(1000);
      JanuaryFirst(10_000);
      StartIncreases(Month, k, 12_000);
      StartIncreases(Month, 120_000, k + 1);
    }
  }

  lemma MonthLengthRead(y: int, m: int)
    requires 1000 <= y && 1 <= m <= 12
    ensures DaysInMonth(y, m) == MonthLength(y, m)
  {
    hide CivilOf, DayFromYear, DaysBefore;
    var d := Ymd(y, m, MonthLength(y, m));
    CivilBijection(d);
    MonthStep(12 * y + m - 1);
    assert (12 * y + m - 1) / 12 == y && (12 * y + m - 1) % 12 == m - 1;
    assert (12 * y + m) / 12 == y + m / 12 && (12 * y + m) % 12 == m % 12;
    assert MakeDay(y, m, 0) == MonthStart(12 * y + m) - 1 == DayNumber(d);
  }

  lemma DayOfMonth(k: int, i: int)
    requires 0 <= i < MonthStart(k + 1) - MonthStart(k)
    ensures CivilOf(MonthStart(k) + i) == Ymd(k / 12, k % 12 + 1, i + 1)
  {
    hide CivilOf, DayFromYear, DaysBefore;
    MonthStep(k);
    CivilBijection(Ymd(k / 12, k % 12 + 1, i + 1));
  }

  lemma SubKey(u: Granularity, k: int, i: int)
    requires KeyedWhole(u, k) && 0 <= i < SubStart(u, k + 1) - SubStart(u, k)
    ensures Keyed(SubUnitOf(u), SubStart(u, k) + i)
    ensures i < |SubBucketKeys(u, KeyAt(u, k))|
    ensures SubBucketKeys(u, KeyAt(u, k))[i] == KeyAt(SubUnitOf(u), SubStart(u, k) + i)
  {
    hide CivilOf, DayFromYear, Decimal, Pad2, AddCalendarDays;
    hide ReadYmd, ReadYm, MonthStart, DaysInMonth, DateKey, KeyedDay;
    SubKeyed(u, k, SubStart(u, k) + i);
    match u
    case Day => assert (24 * k + i) / 24 == k && (24 * k + i) % 24 == i;
    case Week =>
      var n := 7 * k - 3;
      KeyedYear(n);
      KeyedYear(n + i);
      ReadDateKey(CivilOf(n));
      ModernDay(n);
      AddDays(n, i);
    case Month => SubKeyOfMonth(k, i);
    case Year => assert (12 * k + i) / 12 == k && (12 * k + i) % 12 == i;
  }

  lemma SubKeyOfMonth(k: int, i: int)
    requires Keyed(Month, k) && 0 <= i < MonthStart(k + 1) - MonthStart(k)
    requires KeyedDay(MonthStart(k) + i)
    ensures i < |SubBucketKeys(Month, KeyAt(Month, k))|
    ensures SubBucketKeys(Month, KeyAt(Month, k))[i] == KeyAt(Day, MonthStart(k) + i)
  {
    hide CivilOf, Decimal, Pad2, ReadYm, MonthStart, DaysInMonth, KeyedDay;
    ReadMonthKey(k / 12, k % 12 + 1);
    MonthLengthRead(k / 12, k % 12 + 1);
    MonthStep(k);
    DayOfMonth(k, i);
    KeyedYear(MonthStart(k) + i);
  }

  lemma AxisLength(u: Granularity, k: int)
    requires KeyedWhole(u, k)
    ensures |SubBucketKeys(u, KeyAt(u, k))| == SubStart(u, k + 1) - SubStart(u, k)
  {
    hide Decimal, Pad2, ReadYm, MonthStart, DaysInMonth, DateKey, KeyedDay;
    if u == Month {
      ReadMonthKey(k / 12, k % 12 + 1);
      MonthLengthRead(k / 12, k % 12 + 1);
      MonthStep(k);
    }
  }

  lemma KeyedLocalDay(v: Granularity, l: int)
    requires v == Hour || v == Day || v == Month
    requires Keyed(v, IndexAt(v, l))
    ensures KeyedDay(l / DAY_MS)
  {
    hide CivilOf, DayFromYear;
    if v == Month {
      var d := CivilOf(l / DAY_MS);
      assert (d.year * 12 + d.month - 1) / 12 == d.year;
      CalendarDay(d);
      InsideYear(d);
      if d.year < 9999 {
        YearsGrow(d.year, 9999);
        YearStep(9999);
      }
    }
  }

  /** The axis is strictly increasing, as strings and so in time. */
  lemma AxisIncreases(u: Granularity, k: int, i: int, j: int)
    requires KeyedWhole(u, k) && 0 <= i < j < |SubBucketKeys(u, KeyAt(u, k))|
    ensures StrLt(SubBucketKeys(u, KeyAt(u, k))[i], SubBucketKeys(u, KeyAt(u, k))[j])
  {
    hide SubBucketKeys, KeyAt, SubStart, KeyedDay, StrLt;
    AxisLength(u, k);
    SubKey(u, k, i);
    SubKey(u, k, j);
    KeyOrder(SubUnitOf(u), SubStart(u, k) + i, SubStart(u, k) + j);
  }

  /** Some instant of a range has this key. */
  ghost predicate KeyOccurs(r: PeriodRange, v: Granularity, z: Zone, key: string) {
    exists t: int :: r.Contains(t) && HasKey(t, v, z, key)
  }

  /** Some instant at all has this key. */
  ghost predicate KeyExists(v: Granularity, z: Zone, key: string) {
    exists t: int :: HasKey(t, v, z, key)
  }

  predicate HasKey(t: int, v: Granularity, z: Zone, key: string) {
    KeyedDay(LocalDay(t, z)) && BucketKeyOfInstant(t, v, z) == key
  }

  lemma DayKeyed(u: Granularity, t: int, z: Zone)
    requires u != All && u != Hour && KeyedDay(LocalDay(t, z))
    ensures KeyedAt(SubUnitOf(u), t, z)
  {
    hide CivilOf, DayFromYear;
    var n := LocalDay(t, z);
    KeyedYear(n);
    var d := CivilOf(n);
    assert (d.year * 12 + d.month - 1) / 12 == d.year;
    assert Local(t, z) / HOUR_MS / 24 == n;
  }

  lemma PeriodBySub(u: Granularity, k: int, l: int)
    requires u != All && u != Hour
    ensures StartMs(u, k) <= l < StartMs(u, k + 1)
            <==> SubStart(u, k) <= IndexAt(SubUnitOf(u), l) < SubStart(u, k + 1)
  {
    hide IndexAt, StartMs, SubStart;
    SubStartIsStart(u, k);
    SubStartIsStart(u, k + 1);
    FromStart(SubUnitOf(u), SubStart(u, k), l);
    FromStart(SubUnitOf(u), SubStart(u, k + 1), l);
  }

  /** An instant is in a period exactly when its finer key is on the period's axis. */
  lemma OnAxis(u: Granularity, k: int, t: int, z: Zone)
    requires KeyedWhole(u, k) && KeyedDay(LocalDay(t, z))
    ensures BucketKeyOfInstant(t, SubUnitOf(u), z) in SubBucketKeys(u, KeyAt(u, k))
            <==> StartMs(u, k) <= Local(t, z) < StartMs(u, k + 1)
  {
    hide KeyAt, SubBucketKeys, BucketKeyOfInstant, IndexAt, StartMs, SubStart, KeyedDay, Keyed;
    var v := SubUnitOf(u);
    var axis := SubBucketKeys(u, KeyAt(u, k));
    var j := PeriodAt(v, t, z);
    DayKeyed(u, t, z);
    KeyOfInstant(v, t, z);
    AxisLength(u, k);
    PeriodBySub(u, k, Local(t, z));
    if SubStart(u, k) <= j < SubStart(u, k + 1) {
      SubKey(u, k, j - SubStart(u, k));
    }
    if KeyAt(v, j) in axis {
      var i :| 0 <= i < |axis| && axis[i] == KeyAt(v, j);
      SubKey(u, k, i);
      KeyInjective(v, SubStart(u, k) + i, j);
    }
  }

  /**
   The axis of a period has every finer key its instants have, and of the keys on
   it only those are missing among its instants that no instant has.
   */
  lemma AxisComplete(u: Granularity, k: int, z: Zone, key: string)
    requires KeyedWhole(u, k) && ZoneOk(z) && EndsSplit(u, k, z)
    ensures RangeOf(u, KeyAt(u, k), z).Some?
    ensures KeyOccurs(RangeOf(u, KeyAt(u, k), z).value, SubUnitOf(u), z, key)
            <==> key in SubBucketKeys(u, KeyAt(u, k)) && KeyExists(SubUnitOf(u), z, key)
  {
    hide RangeOf, KeyAt, SubBucketKeys, BucketKeyOfInstant, StartMs, KeyedDay, Keyed, Landed, ZoneOk;
    RangeOfKey(u, k, z);
    var v := SubUnitOf(u);
    var r := RangeAt(u, k, z);
    if KeyOccurs(r, v, z, key) {
      var t: int :| r.Contains(t) && HasKey(t, v, z, key);
      OnAxis(u, k, t, z);
    }
    if key in SubBucketKeys(u, KeyAt(u, k)) && KeyExists(v, z, key) {
      var t: int :| HasKey(t, v, z, key);
      OnAxis(u, k, t, z);
      assert r.Contains(t);
    }
  }

  /** An instant has a key of the axis exactly when its wall clock is in the finer period the key names. */
  lemma AxisKeyMeans(u: Granularity, k: int, i: nat, t: int, z: Zone)
    requires KeyedWhole(u, k) && i < |SubBucketKeys(u, KeyAt(u, k))|
    ensures HasKey(t, SubUnitOf(u), z, SubBucketKeys(u, KeyAt(u, k))[i])
            <==> PeriodAt(SubUnitOf(u), t, z) == SubStart(u, k) + i
  {
    hide KeyAt, SubBucketKeys, BucketKeyOfInstant, IndexAt, SubStart, KeyedDay, Keyed;
    var v, j := SubUnitOf(u), SubStart(u, k) + i;
    AxisLength(u, k);
    SubKey(u, k, i);
    if PeriodAt(v, t, z) == j {
      KeyedLocalDay(v, Local(t, z));
      KeyOfInstant(v, t, z);
    }
    if HasKey(t, v, z, SubBucketKeys(u, KeyAt(u, k))[i]) {
      DayKeyed(u, t, z);
      KeyOfInstant(v, t, z);
      KeyInjective(v, PeriodAt(v, t, z), j);
    }
  }

  /** A key of the axis is had by some instant exactly when the clock ever shows a time of its period. */
  lemma AxisKeyShown(u: Granularity, k: int, i: nat, z: Zone)
    requires KeyedWhole(u, k) && i < |SubBucketKeys(u, KeyAt(u, k))|
    ensures
      var v, j := SubUnitOf(u), SubStart(u, k) + i;
      KeyExists(v, z, SubBucketKeys(u, KeyAt(u, k))[i]) <==> Shown(z, StartMs(v, j), StartMs(v, j + 1))
  {
    hide KeyAt, SubBucketKeys, BucketKeyOfInstant, IndexAt, StartMs, SubStart, KeyedDay, HasKey;
    var v, j := SubUnitOf(u), SubStart(u, k) + i;
    var key := SubBucketKeys(u, KeyAt(u, k))[i];
    if t: int :| HasKey(t, v, z, key) {
      AxisKeyMeans(u, k, i, t, z);
      Tiling(v, Local(t, z), j);
    }
    if t: int :| StartMs(v, j) <= Local(t, z) < StartMs(v, j + 1) {
      Tiling(v, Local(t, z), j);
      AxisKeyMeans(u, k, i, t, z);
    }
  }

  /**
   Of the keys on the axis of a period exactly those are had by none of its instants
   whose whole stretch the clock skips: an hour it is put past, a day a zone leaves out.
   */
  lemma AxisExactly(u: Granularity, k: int, i: nat, z: Zone, a: int, b: int, at: int)
    requires KeyedWhole(u, k) && ZoneOk(z) && EndsSplit(u, k, z) && i < |SubBucketKeys(u, KeyAt(u, k))|
    requires
      var v, j := SubUnitOf(u), SubStart(u, k) + i;
      SwitchesWithin(z, StartMs(v, j), StartMs(v, j + 1), a, b, at)
    ensures RangeOf(u, KeyAt(u, k), z).Some?
    ensures
      var v, j := SubUnitOf(u), SubStart(u, k) + i;
      KeyOccurs(RangeOf(u, KeyAt(u, k), z).value, v, z, SubBucketKeys(u, KeyAt(u, k))[i])
      <==> !(at + a <= StartMs(v, j) && StartMs(v, j + 1) <= at + b)
  {
    hide RangeOf, KeyAt, SubBucketKeys, StartMs, SubStart, KeyedDay, KeyOccurs, KeyExists, Shown, Splits, ZoneOk;
    hide SwitchesWithin;
    var v, j := SubUnitOf(u), SubStart(u, k) + i;
    AxisComplete(u, k, z, SubBucketKeys(u, KeyAt(u, k))[i]);
    AxisKeyShown(u, k, i, z);
    StartIncreases(v, j, j + 1);
    ShownExactly(z, StartMs(v, j), StartMs(v, j + 1), a, b, at);
  }

  // ---- constant offsets -----------------------------------------------------

  lemma ConstantEnds(u: Granularity, k: int, o: int)
    requires u != All && OffsetOk(o)
    ensures ZoneOk(Fixed(o)) && EndsSplit(u, k, Fixed(o))
  {
    hide StartMs;
    ConstantPasses(StartMs(u, k), o);
    ConstantPasses(StartMs(u, k + 1), o);
  }

  /** With a constant offset every range holds exactly the instants that have its key. */
  lemma ConstantMembership(u: Granularity, k: int, t: int, o: int)
    requires u != All && u != Hour && OffsetOk(o) && Keyed(u, k) && KeyedAt(u, t, Fixed(o))
    ensures RangeOf(u, KeyAt(u, k), Fixed(o)).Some?
    ensures BucketKeyOfInstant(t, u, Fixed(o)) == KeyAt(u, k)
            <==> RangeOf(u, KeyAt(u, k), Fixed(o)).value.Contains(t)
  {
    hide RangeOf, KeyAt, BucketKeyOfInstant, Keyed, KeyedAt, EndsSplit, ZoneOk;
    ConstantEnds(u, k, o);
    PeriodMembership(u, k, t, Fixed(o));
  }

  /** And the axis of a period is exactly the set of finer keys its instants have. */
  lemma ConstantAxis(u: Granularity, k: int, o: int, key: string)
    requires KeyedWhole(u, k) && OffsetOk(o)
    ensures RangeOf(u, KeyAt(u, k), Fixed(o)).Some?
    ensures KeyOccurs(RangeOf(u, KeyAt(u, k), Fixed(o)).value, SubUnitOf(u), Fixed(o), key)
            <==> key in SubBucketKeys(u, KeyAt(u, k))
  {
    hide RangeOf, KeyAt, SubBucketKeys, StartMs, SubStart, KeyedDay, Keyed, KeyOccurs, KeyExists, EndsSplit, ZoneOk;
    ConstantEnds(u, k, o);
    AxisComplete(u, k, Fixed(o), key);
    if key in SubBucketKeys(u, KeyAt(u, k)) {
      var i: nat :| i < |SubBucketKeys(u, KeyAt(u, k))| && SubBucketKeys(u, KeyAt(u, k))[i] == key;
      var v, j := SubUnitOf(u), SubStart(u, k) + i;
      AxisKeyShown(u, k, i, Fixed(o));
      StartIncreases(v, j, j + 1);
      assert Local(StartMs(v, j) - o, Fixed(o)) == StartMs(v, j);
    }
  }

  // ---- navigation and summary days ------------------------------------------

  lemma CurrentPeriod(u: Granularity, k: int, now: int, z: Zone)
    requires u != All && u != Hour && ZoneOk(z) && Keyed(u, k) && KeyedAt(u, now, z)
    ensures RangeOf(u, KeyAt(u, k), z) == Some(RangeAt(u, k, z))
    ensures IsAtOrAfterAnchor(u, KeyAt(u, k), BucketKeyOfInstant(now, u, z)) <==> Local(now, z) < StartMs(u, k + 1)
  {
    hide RangeOf, KeyAt, StartMs, IndexAt, BucketKeyOfInstant, Keyed, KeyedDay, StrLt, RangeAt, ZoneOk;
    RangeOfKey(u, k, z);
    KeyOfInstant(u, now, z);
    KeyOrder(u, k, PeriodAt(u, now, z));
    FromStart(u, k + 1, Local(now, z));
  }

  /** `Splits`, as far as instants whose period has a key can tell. */
  ghost predicate SplitsKeyed(u: Granularity, w: int, z: Zone)
    requires u != All
  {
    forall t: int :: KeyedAt(u, t, z) ==> (w <= Local(t, z) <==> Landed(w, z) <= t)
  }

  /** "Next" is disabled at `now` exactly while the shown period has not ended. */
  ghost predicate NextFitsEnd(u: Granularity, k: int, now: int, z: Zone)
    requires u != All && u != Hour && Keyed(u, k) && KeyedAt(u, now, z) && RangeOf(u, KeyAt(u, k), z).Some?
  {
    IsAtOrAfterAnchor(u, KeyAt(u, k), BucketKeyOfInstant(now, u, z))
    <==> now < RangeOf(u, KeyAt(u, k), z).value.endUtc
  }

  /**
   In any zone "Next" is disabled, at every time, exactly while the shown period has
   not ended, if and only if the end of the period lands where the clock reaches it.
   */
  lemma AtOrAfterExactly(u: Granularity, k: int, z: Zone)
    requires u != All && u != Hour && ZoneOk(z) && Keyed(u, k)
    ensures RangeOf(u, KeyAt(u, k), z).Some?
    ensures (forall now: int :: KeyedAt(u, now, z) ==> NextFitsEnd(u, k, now, z))
            <==> SplitsKeyed(u, StartMs(u, k + 1), z)
  {
    hide RangeOf, KeyAt, StartMs, BucketKeyOfInstant, Keyed, KeyedAt, IsAtOrAfterAnchor, Landed, ZoneOk;
    RangeOfKey(u, k, z);
    forall now: int | KeyedAt(u, now, z)
      ensures NextFitsEnd(u, k, now, z) <==> (StartMs(u, k + 1) <= Local(now, z) <==> Landed(StartMs(u, k + 1), z) <= now)
    {
      CurrentPeriod(u, k, now, z);
    }
  }

  lemma KeyedBetween(u: Granularity, i: int, j: int, t: int, z: Zone)
    requires u != All && u != Hour && Keyed(u, i) && Keyed(u, j)
    requires StartMs(u, i) <= Local(t, z) < StartMs(u, j)
    ensures KeyedAt(u, t, z)
  {
    hide CivilOf, DayFromYear, MonthStart, IndexAt;
    FromStart(u, i, Local(t, z));
    FromStart(u, j, Local(t, z));
    StartDate(u, i, "");
    StartDate(u, j, "");
  }

  lemma {:induction false} PeriodsLong(u: Granularity, k: int, n: nat)
    requires u != All && u != Hour
    ensures StartMs(u, k) + n * DAY_MS <= StartMs(u, k + n)
    decreases n
  {
    hide StartMs;
    if n > 0 {
      PeriodsLong(u, k, n - 1);
      PeriodLong(u, k + n - 1);
    }
  }

  lemma PeriodLong(u: Granularity, k: int)
    requires u != All && u != Hour
    ensures StartMs(u, k) + DAY_MS <= StartMs(u, k + 1)
  {
    hide DayFromYear, MonthStart;
    match u
    case Month => MonthStep(k);
    case Year => YearStep(k);
    case _ =>
  }

  /** Away from the first and the last years it is `Splits` itself. */
  lemma SplitsKeyedMeans(u: Granularity, k: int, z: Zone)
    requires u != All && u != Hour && ZoneOk(z) && Keyed(u, k - 2) && Keyed(u, k + 3)
    ensures SplitsKeyed(u, StartMs(u, k), z) <==> Splits(StartMs(u, k), z)
  {
    hide StartMs, Keyed, KeyedAt, ZoneOk, Landed;
    var w := StartMs(u, k);
    PeriodsLong(u, k - 2, 2);
    PeriodsLong(u, k, 3);
    forall t: int | !KeyedAt(u, t, z) ensures w <= Local(t, z) <==> Landed(w, z) <= t {
      if w - DAY_MS <= t <= w + DAY_MS {
        NearLocal(w, t, z);
        KeyedBetween(u, k - 2, k + 3, t, z);
      } else {
        FarAway(w, z, t);
      }
    }
  }

  lemma NearLocal(w: int, t: int, z: Zone)
    requires ZoneOk(z) && w - DAY_MS <= t <= w + DAY_MS
    ensures w - 2 * DAY_MS <= Local(t, z) <= w + 2 * DAY_MS
  {
    OffsetBounds(t, z);
  }

  /** The bounds of a summary day are the range of that day, and the day test compares days. */
  lemma SummaryRange(k: int, z: Zone)
    requires ZoneOk(z) && KeyedDay(k)
    ensures Plain(CivilOf(k)) && SummaryDayBounds(DateKey(CivilOf(k)), z) == Some(RangeAt(Day, k, z))
  {
    hide CivilOf, DateKey, ReadYmd, AddCalendarDays, ZonedWallClockToUtc, DayFromYear, KeyedDay, Landed, ZoneOk;
    KeyedYear(k);
    ReadDateKey(CivilOf(k));
    ModernDay(k);
    AddDays(k, 1);
    DayWallClock(k, Time(0, 0), z);
    DayWallClock(k + 1, Time(0, 0), z);
  }

  /** The two dates are one exactly when their printed forms are. */
  lemma SameDate(j: int, k: int)
    requires KeyedDay(j) && KeyedDay(k)
    ensures Plain(CivilOf(j)) && Plain(CivilOf(k))
    ensures DateKey(CivilOf(j)) == DateKey(CivilOf(k)) <==> j == k
  {
    hide CivilOf, DateKey, KeyedDay;
    KeyedYear(j);
    KeyedYear(k);
    KeyInjective(Day, j, k);
  }

  /**
   The bounds of a date hold exactly the instants at which it is that date by the
   wall clock, in every zone whose clock reaches both midnights cleanly.
   */
  lemma SummaryHolds(k: int, t: int, z: Zone)
    requires ZoneOk(z) && KeyedDay(k) && KeyedDay(LocalDay(t, z))
    ensures Plain(CivilOf(k)) && Plain(ZonedDate(t, z)) && SummaryDayBounds(DateKey(CivilOf(k)), z).Some?
    ensures Splits(k * DAY_MS, z) && Splits((k + 1) * DAY_MS, z) ==>
              (SummaryDayBounds(DateKey(CivilOf(k)), z).value.Contains(t)
               <==> CurrentSummaryDate(t, z) == DateKey(CivilOf(k)))
    ensures Splits(k * DAY_MS, z) && Splits((k + 1) * DAY_MS, z) ==>
              (SummaryDayBounds(DateKey(CivilOf(k)), z).value.Contains(t) <==> ZonedDate(t, z) == CivilOf(k))
  {
    hide CivilOf, DateKey, KeyedDay, Landed, ZoneOk, SummaryDayBounds, LocalDay;
    SummaryRange(k, z);
    SameDate(LocalDay(t, z), k);
    DayMs(k, Local(t, z));
    DayMs(k + 1, Local(t, z));
    OnDay(t, k, z);
  }

  lemma OnDay(t: int, k: int, z: Zone)
    ensures LocalDay(t, z) == k <==> k * DAY_MS <= Local(t, z) < (k + 1) * DAY_MS
    ensures ZonedDate(t, z) == CivilOf(LocalDay(t, z))
    ensures CivilOf(LocalDay(t, z)) == CivilOf(k) <==> LocalDay(t, z) == k
  {
    hide CivilOf;
    assert DayNumber(CivilOf(k)) == k && DayNumber(CivilOf(LocalDay(t, z))) == LocalDay(t, z);
  }

  /** Summary days tile time in every zone. */
  lemma SummaryDaysTile(k: int, z: Zone)
    requires ZoneOk(z) && KeyedDay(k) && KeyedDay(k + 1)
    ensures Plain(CivilOf(k)) && Plain(CivilOf(k + 1))
    ensures SummaryDayBounds(DateKey(CivilOf(k)), z).Some? && SummaryDayBounds(DateKey(CivilOf(k + 1)), z).Some?
    ensures SummaryDayBounds(DateKey(CivilOf(k)), z).value.endUtc
            == SummaryDayBounds(DateKey(CivilOf(k + 1)), z).value.startUtc
  {
    hide CivilOf, DateKey, KeyedDay, Landed, ZoneOk, SummaryDayBounds;
    SummaryRange(k, z);
    SummaryRange(k + 1, z);
  }

  /** With a constant offset nothing is asked of the zone. */
  lemma ConstantSummary(k: int, t: int, o: int)
    requires OffsetOk(o) && KeyedDay(k) && KeyedDay(LocalDay(t, Fixed(o)))
    ensures Plain(CivilOf(k)) && SummaryDayBounds(DateKey(CivilOf(k)), Fixed(o)).Some?
    ensures SummaryDayBounds(DateKey(CivilOf(k)), Fixed(o)).value.Contains(t) <==> ZonedDate(t, Fixed(o)) == CivilOf(k)
  {
    hide CivilOf, DateKey, KeyedDay, ZoneOk, SummaryDayBounds, Splits, LocalDay;
    ConstantPasses(k * DAY_MS, o);
    ConstantPasses((k + 1) * DAY_MS, o);
    SummaryHolds(k, t, Fixed(o));
  }

  lemma SummaryEnd(k: int, now: int, z: Zone)
    requires ZoneOk(z) && KeyedDay(k) && KeyedDay(LocalDay(now, z))
    ensures Plain(CivilOf(k)) && Plain(ZonedDate(now, z))
    ensures SummaryDayBounds(DateKey(CivilOf(k)), z).Some?
    ensures SummaryDayBounds(DateKey(CivilOf(k)), z).value.endUtc == Landed((k + 1) * DAY_MS, z)
    ensures IsSummarizableDay(DateKey(CivilOf(k)), now, z) <==> (k + 1) * DAY_MS <= Local(now, z)
  {
    hide CivilOf, DateKey, SummaryDayBounds, DayFromYear, StrLt, KeyedDay, Landed, ZoneOk;
    var n := LocalDay(now, z);
    SummaryRange(k, z);
    KeyedYear(n);
    KeyOrder(Day, k, n);
    DayMs(k + 1, Local(now, z));
  }

  /** At `now` day `k` may be summarized exactly when its range has ended. */
  ghost predicate SummaryFitsEnd(k: int, now: int, z: Zone)
  {
    && Plain(CivilOf(k)) && Plain(ZonedDate(now, z))
    && SummaryDayBounds(DateKey(CivilOf(k)), z).Some?
    && (IsSummarizableDay(DateKey(CivilOf(k)), now, z)
        <==> SummaryDayBounds(DateKey(CivilOf(k)), z).value.endUtc <= now)
  }

  /**
   In any zone a day may be summarized, at every time, exactly when its range has
   ended, if and only if the midnight after it lands where the clock reaches it.
   */
  lemma SummarizableExactly(k: int, z: Zone)
    requires ZoneOk(z) && KeyedDay(k)
    ensures (forall now: int :: KeyedDay(LocalDay(now, z)) ==> SummaryFitsEnd(k, now, z))
            <==> SplitsKeyed(Day, (k + 1) * DAY_MS, z)
  {
    hide CivilOf, DateKey, KeyedDay, Landed, ZoneOk, SummaryDayBounds, IsSummarizableDay, LocalDay;
    var w := (k + 1) * DAY_MS;
    forall now: int | KeyedDay(LocalDay(now, z))
      ensures SummaryFitsEnd(k, now, z) <==> (w <= Local(now, z) <==> Landed(w, z) <= now)
    {
      SummaryEnd(k, now, z);
    }
    DaysKeyed(z);
  }

  lemma DaysKeyed(z: Zone)
    ensures forall t: int :: KeyedAt(Day, t, z) <==> KeyedDay(LocalDay(t, z))
  {
    hide KeyedDay;
  }

  lemma ModernDay(n: int)
    requires KeyedDay(n)
    ensures FIRST_DAY <= n && DayFromYear(100) <= n
  {
    hide DayFromYear;
    ModernYear(n);
  }

  /** Changing the unit stays where the reader was: the period of the old start. */
  lemma ReanchorKeepsPosition(u: Granularity, k: int, v: Granularity, today: string)
    requires u != All && u != Hour && v != All && v != Hour && Keyed(u, k)
    requires Keyed(v, IndexAt(v, StartMs(u, k)))
    ensures Reanchor(u, KeyAt(u, k), v, today) == KeyAt(v, IndexAt(v, StartMs(u, k)))
  {
    hide CivilOf, DayFromYear, DateKey, KeyedDay;
    var n := StartMs(u, k) / DAY_MS;
    StartDate(u, k, today);
    DateAnchor(v, n);
  }

  /** From the period of everything it is today's period, and to it there is one way. */
  lemma ReanchorAll(v: Granularity, n: int, u: Granularity, anchor: string, today: string)
    requires u != Hour && v != All && v != Hour && KeyedDay(n) && Keyed(v, IndexAt(v, n * DAY_MS))
    ensures Plain(CivilOf(n)) && Reanchor(All, anchor, v, DateKey(CivilOf(n))) == KeyAt(v, IndexAt(v, n * DAY_MS))
    ensures Reanchor(u, anchor, All, today) == "all"
  {
    hide CivilOf, DayFromYear, DateKey, KeyedDay, AnchorStartDate;
    KeyedYear(n);
    DateAnchor(v, n);
    assert AnchorStartDate(All, anchor, DateKey(CivilOf(n))) == DateKey(CivilOf(n)) by {
      FromToday(anchor, DateKey(CivilOf(n)));
    }
  }

  lemma FromToday(anchor: string, today: string)
    ensures AnchorStartDate(All, anchor, today) == today
  {
  }

  lemma StartDate(u: Granularity, k: int, today: string)
    requires u != All && u != Hour && Keyed(u, k)
    ensures
      var n := StartMs(u, k) / DAY_MS;
      KeyedDay(n) && Plain(CivilOf(n)) && AnchorStartDate(u, KeyAt(u, k), today) == DateKey(CivilOf(n))
  {
    hide CivilOf, DayFromYear, Decimal, MonthStart;
    match u
    case Day => KeyedYear(k);
    case Week => KeyedYear(7 * k - 3);
    case Month =>
      FirstOfMonth(k);
    case Year =>
      JanuaryFirst(k);
      FirstOfMonth(12 * k);
      PadOne();
      assert Decimal(k) + "-01-01" == Decimal(k) + "-" + "01" + "-" + "01";
  }

  lemma FirstOfMonth(k: int)
    requires Keyed(Month, k)
    ensures KeyedDay(MonthStart(k)) && Plain(CivilOf(MonthStart(k)))
    ensures KeyAt(Month, k) + "-01" == DateKey(CivilOf(MonthStart(k)))
    ensures CivilOf(MonthStart(k)) == Ymd(k / 12, k % 12 + 1, 1)
  {
    hide CivilOf, DayFromYear, Decimal, MonthStart, KeyedDay;
    MonthStep(k);
    SubKeyed(Month, k, MonthStart(k));
    DayOfMonth(k, 0);
    PadOne();
  }

  lemma PadOne()
    ensures Pad2(1) == "01"
  {
  }

  lemma DateAnchor(v: Granularity, n: int)
    requires v != All && v != Hour && KeyedDay(n) && Keyed(v, IndexAt(v, n * DAY_MS))
    ensures Plain(CivilOf(n))
    ensures AnchorOfDate(v, DateKey(CivilOf(n))) == KeyAt(v, IndexAt(v, n * DAY_MS))
  {
    hide CivilOf, DayFromYear, Decimal, Pad2, ReadYmd, MondayOf, KeyedDay;
    KeyedYear(n);
    var d := CivilOf(n);
    FourDigits(d.year);
    NumberOfPad2(d.month);
    assert n * DAY_MS / DAY_MS == n;
    assert (d.year * 12 + d.month - 1) / 12 == d.year && (d.year * 12 + d.month - 1) % 12 == d.month - 1;
    match v
    case Week =>
      ReadDateKey(d);
      ModernDay(n);
      MondayOfDay(n);
      KeyedYear(7 * ((n + 3) / 7) - 3);
    case _ =>
      DateKeyPrefixes(d);
  }

  lemma DateKeyPrefixes(d: Ymd)
    requires Plain(d) && 1000 <= d.year <= 9999 && d.month <= 12
    ensures Prefix(DateKey(d), 7) == Decimal(d.year) + "-" + Pad2(d.month)
    ensures Prefix(DateKey(d), 4) == Decimal(d.year)
  {
    hide Decimal, Pad2;
    FourDigits(d.year);
    NumberOfPad2(d.month);
    var y, m, r := Decimal(d.year), Pad2(d.month), "-" + Pad2(d.day);
    assert DateKey(d) == (y + "-" + m) + r;
    assert DateKey(d) == y + ("-" + m + r);
  }
}
