/**
 What `computeNextScheduleRun` promises (`core/features/tasks/schedule.ts`): the
 least firing instant after `from`, in every zone whose clock shows the run times
 in question once, and when there is one at all in any zone.
 */
module NextRun {
  import opened Wrappers
  import opened Text
  import opened Calendar
  import opened Schedule
  import opened Boundaries

  function TimeMs(time: Time): (r: int)
    requires ValidTime(time)
    ensures 0 <= r < DAY_MS
  {
    time.hour * HOUR_MS + time.minute * MINUTE_MS
  }

  /** The wall clock at the time of day of local day `n`. */
  function WallAt(n: int, time: Time): int
    requires ValidTime(time)
  {
    n * DAY_MS + TimeMs(time)
  }

  /** The instant the code computes for it. */
  function RunAt(n: int, time: Time, z: Zone): int
    requires ValidTime(time)
  {
    Landed(WallAt(n, time), z)
  }

  // ---- the specification ----------------------------------------------------

  /** Whether the schedule allows local day `n`. */
  ghost predicate DayAllowed(s: TaskSchedule, n: int) {
    match s.kind
    case Daily => true
    case Weekly => s.weekdays.Some? && WeekdayOfDay(n) as real in s.weekdays.value
    case Once => s.runDate.Some? && ParseRunDate(s.runDate.value) == Some(CivilOf(n))
  }

  /** The wall clock at `t` reads the scheduled time on an allowed day. */
  ghost predicate Fires(s: TaskSchedule, z: Zone, t: int) {
    var time := ParseTimeOfDay(s.timeOfDay);
    time.Some? && Local(t, z) == WallAt(LocalDay(t, z), time.value) && DayAllowed(s, LocalDay(t, z))
  }

  /** `r` is the least firing instant after `from`, or None when there is none. */
  ghost predicate IsNextFiring(s: TaskSchedule, z: Zone, from: int, r: Option<int>) {
    match r
    case None => forall t: int :: from < t ==> !Fires(s, z, t)
    case Some(x) => from < x && Fires(s, z, x) && forall t: int :: from < t < x ==> !Fires(s, z, t)
  }

  /** A run date that is on the calendar, in a four-digit year. */
  predicate OnCalendar(d: Ymd) {
    Real(d) && FIRST_YEAR <= d.year
  }

  // ---- the run of one day ---------------------------------------------------

  /** The wall-clock conversion on the civil date of a local day, in any zone. */
  lemma DayWallClock(n: int, time: Time, z: Zone)
    requires ZoneOk(z) && FIRST_DAY <= n && ValidTime(time)
    ensures ZonedWallClockToUtc(CivilOf(n), time.hour, time.minute, z) == RunAt(n, time, z)
  {
    hide CivilOf, DayFromYear, MakeDay, ZonedWallClockToUtc, Landed, ZoneOk;
    ModernYear(n);
    MakeDayOfCivil(n);
    WallClockSteps(CivilOf(n), time.hour, time.minute, z);
  }

  lemma ModernYear(n: int)
    requires FIRST_DAY <= n
    ensures DayFromYear(100) <= n && CivilOf(n).year >= FIRST_YEAR
  {
    hide CivilOf;
    LateDay(n, FIRST_YEAR);
  }

  /** Adding calendar days to the date of day `n` gives the date of day `n + k`. */
  lemma AddDays(n: int, k: int)
    requires DayFromYear(100) <= n
    ensures AddCalendarDays(CivilOf(n), k) == CivilOf(n + k)
    ensures WeekdayOf(CivilOf(n)) == WeekdayOfDay(n)
  {
    hide CivilOf, DayFromYear, MakeDay;
    MakeDayOfCivil(n);
    assert (n * DAY_MS + k * DAY_MS) / DAY_MS == n + k;
  }

  lemma WallSplit(n: int, time: Time)
    requires ValidTime(time)
    ensures WallAt(n, time) / DAY_MS == n
  {
  }

  /** The clock shows the run time of each of these days once: no change of offset touches it. */
  ghost predicate PassesDaily(time: Time, z: Zone, first: int, last: int)
    requires ValidTime(time)
  {
    forall m :: first <= m <= last ==> PassesOnce(WallAt(m, time), z)
  }

  lemma PassesOn(time: Time, z: Zone, first: int, last: int, m: int)
    requires ValidTime(time) && PassesDaily(time, z, first, last) && first <= m <= last
    ensures PassesOnce(WallAt(m, time), z)
  {
  }

  /** However offsets change, a later instant is at most two days earlier by the clock. */
  lemma NotLongBefore(from: int, t: int, z: Zone)
    requires ZoneOk(z) && from < t
    ensures LocalDay(from, z) - 2 <= LocalDay(t, z)
  {
    OffsetBounds(from, z);
    OffsetBounds(t, z);
    assert Local(from, z) - 2 * DAY_MS <= Local(t, z);
  }

  /** The run time of a later day than today's is still ahead. */
  lemma AheadLater(from: int, n: int, time: Time, z: Zone)
    requires ValidTime(time) && PassesOnce(WallAt(n, time), z) && LocalDay(from, z) < n
    ensures from < RunAt(n, time, z)
  {
    hide Landed;
    assert Local(from, z) < n * DAY_MS;
  }

  /** A day is the next firing day when no earlier one still ahead is allowed. */
  lemma LeastDay(s: TaskSchedule, time: Time, z: Zone, from: int, n: int)
    requires ZoneOk(z) && ParseTimeOfDay(s.timeOfDay) == Some(time)
    requires PassesDaily(time, z, LocalDay(from, z) - 2, n) && LocalDay(from, z) - 2 <= n
    requires DayAllowed(s, n) && from < RunAt(n, time, z)
    requires forall m :: LocalDay(from, z) <= m < n && DayAllowed(s, m) ==> RunAt(m, time, z) <= from
    ensures IsNextFiring(s, z, from, Some(RunAt(n, time, z)))
  {
    hide DayAllowed, ParseTimeOfDay, Landed, ZoneOk, PassesOnce, PassesDaily;
    var today := LocalDay(from, z);
    var x := RunAt(n, time, z);
    PassesOn(time, z, today - 2, n, n);
    ShownAt(n, time, z);
    forall t: int | from < t < x ensures !Fires(s, z, t) {
      if Fires(s, z, t) {
        var m := LocalDay(t, z);
        NotLongBefore(from, t, z);
        ShownBefore(n, m, time, z, t);
        PassesOn(time, z, today - 2, n, m);
        ShownOnlyAt(m, time, z, from, t);
      }
    }
  }

  lemma ShownAt(n: int, time: Time, z: Zone)
    requires ValidTime(time) && PassesOnce(WallAt(n, time), z)
    ensures Local(RunAt(n, time, z), z) == WallAt(n, time) && LocalDay(RunAt(n, time, z), z) == n
  {
    hide Landed;
    WallSplit(n, time);
  }

  lemma ShownBefore(n: int, m: int, time: Time, z: Zone, t: int)
    requires ValidTime(time) && PassesOnce(WallAt(n, time), z)
    requires t < RunAt(n, time, z) && Local(t, z) == WallAt(m, time)
    ensures m < n
  {
    hide Landed;
  }

  lemma ShownOnlyAt(m: int, time: Time, z: Zone, from: int, t: int)
    requires ValidTime(time) && PassesOnce(WallAt(m, time), z) && Local(t, z) == WallAt(m, time) && from < t
    ensures t == RunAt(m, time, z) && LocalDay(from, z) <= m
  {
    hide Landed;
    assert Local(from, z) < WallAt(m, time);
    WallSplit(m, time);
  }

  // ---- daily and weekly -----------------------------------------------------

  lemma DailyIsNext(s: TaskSchedule, from: int, z: Zone, time: Time)
    requires ZoneOk(z) && Modern(from, z)
    requires s.kind == Daily && ParseTimeOfDay(s.timeOfDay) == Some(time)
    requires PassesDaily(time, z, LocalDay(from, z) - 2, LocalDay(from, z) + 7)
    ensures IsNextFiring(s, z, from, Some(NextDaily(time, from, z)))
  {
    hide CivilOf, DayFromYear, ZonedWallClockToUtc, AddCalendarDays, IsNextFiring, ParseTimeOfDay;
    hide Landed, ZoneOk, PassesOnce;
    var n := LocalDay(from, z);
    DayWallClock(n, time, z);
    DayWallClock(n + 1, time, z);
    ModernYear(n);
    AddDays(n, 1);
    AheadLater(from, n + 1, time, z);
    LeastDay(s, time, z, from, if RunAt(n, time, z) > from then n else n + 1);
  }

  lemma WeeklyStep(s: TaskSchedule, time: Time, from: int, z: Zone, k: nat)
    requires ZoneOk(z) && Modern(from, z) && ValidTime(time) && k < 8
    requires s.kind == Weekly && PassesOnce(WallAt(LocalDay(from, z) + k, time), z)
    ensures
      var n := LocalDay(from, z);
      WeeklyFrom(DaysOf(s), ZonedDate(from, z), time, from, z, k)
      == if DayAllowed(s, n + k) && from < RunAt(n + k, time, z)
         then Some(RunAt(n + k, time, z))
         else WeeklyFrom(DaysOf(s), ZonedDate(from, z), time, from, z, k + 1)
  {
    hide CivilOf, DayFromYear, ZonedWallClockToUtc, AddCalendarDays, WeekdayOf, NormalizeWeekdays;
    hide Landed, ZoneOk, PassesOnce;
    var n := LocalDay(from, z);
    ModernYear(n);
    ModernYear(n + k);
    AddDays(n, k);
    AddDays(n + k, 0);
    DayWallClock(n + k, time, z);
    if k > 0 {
      AheadLater(from, n + k, time, z);
    }
  }

  lemma {:induction false} WeeklyIsNext(s: TaskSchedule, time: Time, from: int, z: Zone, k: nat)
    requires ZoneOk(z) && Modern(from, z) && k <= 8
    requires s.kind == Weekly && ParseTimeOfDay(s.timeOfDay) == Some(time)
    requires PassesDaily(time, z, LocalDay(from, z) - 2, LocalDay(from, z) + 7)
    requires forall m :: LocalDay(from, z) <= m < LocalDay(from, z) + k && DayAllowed(s, m)
                         ==> RunAt(m, time, z) <= from
    ensures IsNextFiring(s, z, from, WeeklyFrom(DaysOf(s), ZonedDate(from, z), time, from, z, k))
    decreases 8 - k
  {
    hide IsNextFiring, DayAllowed, DaysOf, ZonedDate, ParseTimeOfDay, RunAt, TimeMs, AddCalendarDays;
    hide ZonedWallClockToUtc, WeekdayOf, ZoneOk, PassesOnce;
    var n := LocalDay(from, z);
    if k < 8 {
      WeeklyStep(s, time, from, z, k);
      if DayAllowed(s, n + k) && from < RunAt(n + k, time, z) {
        LeastDay(s, time, z, from, n + k);
      } else {
        WeeklyIsNext(s, time, from, z, k + 1);
      }
    } else {
      NoWeekday(s, time, from, z);
    }
  }

  /** A week and a day without an allowed day ahead: no weekday is allowed at all. */
  lemma NoWeekday(s: TaskSchedule, time: Time, from: int, z: Zone)
    requires ZoneOk(z) && s.kind == Weekly && ParseTimeOfDay(s.timeOfDay) == Some(time)
    requires PassesDaily(time, z, LocalDay(from, z) - 2, LocalDay(from, z) + 7)
    requires forall m :: LocalDay(from, z) <= m < LocalDay(from, z) + 8 && DayAllowed(s, m)
                         ==> RunAt(m, time, z) <= from
    ensures IsNextFiring(s, z, from, None)
  {
    hide ParseTimeOfDay, RunAt, ZoneOk, PassesOnce, WeekdayOfDay, LocalDay;
    var n := LocalDay(from, z);
    forall t: int | from < t ensures !Fires(s, z, t) {
      var m := LocalDay(t, z);
      var near := DayLikeIt(n, m);
      assert DayAllowed(s, m) ==> DayAllowed(s, near);
      PassesOn(time, z, n - 2, n + 7, near);
      AheadLater(from, near, time, z);
    }
  }

  /** Within a week of day `n` there is a day of the same weekday as day `m`. */
  lemma DayLikeIt(n: int, m: int) returns (near: int)
    ensures n < near <= n + 7 && WeekdayOfDay(near) == WeekdayOfDay(m)
  {
    hide WeekdayOfDay;
    var weeks := (m - n - 1) / 7;
    near := m - 7 * weeks;
    WeeksApart(m, weeks);
  }

  lemma WeeksApart(m: int, weeks: int)
    ensures WeekdayOfDay(m - 7 * weeks) == WeekdayOfDay(m)
  {
    assert m - 7 * weeks + 4 == 7 * ((m + 4) / 7 - weeks) + (m + 4) % 7;
  }

  // ---- run dates ------------------------------------------------------------

  lemma CalendarDay(d: Ymd)
    requires OnCalendar(d)
    ensures FIRST_DAY <= DayNumber(d) && CivilOf(DayNumber(d)) == d
  {
    hide CivilOf, DayFromYear, DaysBefore;
    InsideYear(d);
    CivilBijection(d);
    if FIRST_YEAR < d.year {
      YearsGrow(FIRST_YEAR, d.year);
      YearStep(FIRST_YEAR);
    }
  }

  lemma OnceOnCalendar(s: TaskSchedule, time: Time, from: int, z: Zone, d: Ymd)
    requires s.kind == Once && ParseTimeOfDay(s.timeOfDay) == Some(time)
    requires ZoneOk(z) && OnCalendar(d) && PassesOnce(WallAt(DayNumber(d), time), z)
    requires s.runDate.Some? && ParseRunDate(s.runDate.value) == Some(d)
    ensures IsNextFiring(s, z, from, NextOnce(s.runDate, time, from, z))
  {
    hide CivilOf, DayFromYear, DaysBefore, ZonedWallClockToUtc, ParseTimeOfDay, ParseRunDate;
    hide Landed, ZoneOk, PassesOnce;
    CalendarDay(d);
    var n := DayNumber(d);
    DayWallClock(n, time, z);
    ShownAt(n, time, z);
    forall t: int | from < t && Fires(s, z, t) ensures t == RunAt(n, time, z) {
      assert LocalDay(t, z) == DayNumber(CivilOf(LocalDay(t, z))) == n;
      ShownOnlyAt(n, time, z, from, t);
    }
  }

  lemma MadeDayBounds(d: Ymd)
    requires 0 <= d.year && 1 <= d.month <= 12 && 1 <= d.day
    ensures DayFromYear(100) <= MakeDay(d.year, d.month - 1, d.day)
  {
    hide DayFromYear;
    var y := if d.year <= 99 then 1900 + d.year else d.year;
    if 1 < d.month {
      MonthsGrow(y, 1, d.month);
    }
    if 100 < y {
      YearsGrow(100, y);
      YearStep(100);
    }
  }

  /** `Date.UTC` takes a civil date for its own day, or for one 1900 years later. */
  lemma NeverEarlier(n: int)
    ensures
      var d := CivilOf(n);
      n <= MakeDay(d.year, d.month - 1, d.day)
  {
    hide CivilOf, DayFromYear, DaysBefore;
    var d := CivilOf(n);
    if 0 <= d.year <= 99 {
      MadeDayBounds(d);
      InsideYear(d);
      YearStep(d.year);
      if d.year < 99 {
        YearsGrow(d.year, 99);
        YearStep(99);
      }
    }
  }

  lemma OffsetAtLeast(t: int, z: Zone)
    requires ZoneOk(z)
    ensures -2 * DAY_MS <= ZoneOffsetMs(t, z)
  {
    hide CivilOf, MakeDay, ZoneOk;
    NeverEarlier(LocalDay(t, z));
    OffsetBounds(t, z);
    WithinSecond(Local(t, z));
  }

  lemma WithinSecond(l: int)
    ensures l - 1000 < l / DAY_MS * DAY_MS + l % DAY_MS / 1000 * 1000
  {
    assert l == l / DAY_MS * DAY_MS + l % DAY_MS;
  }

  lemma CenturiesBetween()
    ensures DayFromYear(100) + 6 <= FIRST_DAY
  {
  }

  /** Whatever the zone, a date in or before year 100 comes out too early to be ahead. */
  lemma LongPast(d: Ymd, time: Time, from: int, z: Zone)
    requires ZoneOk(z) && Modern(from, z) && DateUtc(d, time.hour, time.minute) < LATE_ENOUGH
    ensures ZonedWallClockToUtc(d, time.hour, time.minute, z) <= from
    ensures Landed(DateUtc(d, time.hour, time.minute), z) <= from
  {
    hide CivilOf, DayFromYear, ZoneOffsetMs, DateUtc, ZoneOk;
    var w := DateUtc(d, time.hour, time.minute);
    OffsetAtLeast(w, z);
    OffsetAtLeast(w - ZoneOffsetMs(w, z), z);
    OffsetBounds(w, z);
    OffsetBounds(w - z(w), z);
    OffsetBounds(from, z);
    assert LATE_ENOUGH + 4 * DAY_MS <= FIRST_DAY * DAY_MS by {
      CenturiesBetween();
    }
    assert FIRST_DAY * DAY_MS <= Local(from, z);
  }

  /** A date off the calendar, or before year 1000, is never shown after a modern `from`. */
  lemma NeverShown(s: TaskSchedule, from: int, z: Zone, d: Ymd, t: int)
    requires ZoneOk(z) && Modern(from, z) && Modern(t, z) && !OnCalendar(d)
    requires s.kind == Once && s.runDate.Some? && ParseRunDate(s.runDate.value) == Some(d)
    ensures !Fires(s, z, t)
  {
    hide CivilOf, DayFromYear, ParseTimeOfDay, ParseRunDate;
    ModernYear(LocalDay(t, z));
  }

  // ---- the theorems ---------------------------------------------------------

  /** A `once` schedule that is still ahead on a date no calendar has, or before year 1000. */
  ghost predicate AheadOffCalendar(s: TaskSchedule, from: int, z: Zone) {
    && s.kind == Once && ParseTimeOfDay(s.timeOfDay).Some?
    && s.runDate.Some? && ParseRunDate(s.runDate.value).Some?
    && var time, d := ParseTimeOfDay(s.timeOfDay).value, ParseRunDate(s.runDate.value).value;
       !OnCalendar(d) && from < Landed(DateUtc(d, time.hour, time.minute), z)
  }

  /**
   The zone's clock shows once each run time the search may come to: that of the run
   date, or those of the days around `from`. So it is wherever no change of offset
   skips or repeats them, and always where the offset is constant.
   */
  ghost predicate RunTimesPass(s: TaskSchedule, from: int, z: Zone) {
    var time := ParseTimeOfDay(s.timeOfDay);
    time.Some? ==>
      if s.kind == Once then
        s.runDate.Some? ==>
          match ParseRunDate(s.runDate.value)
          case Some(d) => OnCalendar(d) ==> PassesOnce(WallAt(DayNumber(d), time.value), z)
          case None => true
      else PassesDaily(time.value, z, LocalDay(from, z) - 2, LocalDay(from, z) + 7)
  }

  lemma OnceIsNext(s: TaskSchedule, time: Time, from: int, z: Zone, d: Ymd)
    requires ZoneOk(z) && FIRST_DAY + 2 <= LocalDay(from, z) && RunTimesPass(s, from, z)
    requires s.kind == Once && ParseTimeOfDay(s.timeOfDay) == Some(time)
    requires s.runDate.Some? && ParseRunDate(s.runDate.value) == Some(d)
    ensures IsNextFiring(s, z, from, NextOnce(s.runDate, time, from, z)) <==> !AheadOffCalendar(s, from, z)
  {
    hide ParseTimeOfDay, ParseRunDate, ZonedWallClockToUtc, DateUtc;
    hide DayFromYear, Landed, ZoneOk, PassesOnce, OnCalendar;
    if OnCalendar(d) {
      OnceOnCalendar(s, time, from, z, d);
    } else {
      forall t: int | from < t ensures !Fires(s, z, t) {
        NotLongBefore(from, t, z);
        NeverShown(s, from, z, d, t);
      }
      if LATE_ENOUGH <= DateUtc(d, time.hour, time.minute) {
        LateWallClock(d, time.hour, time.minute, z);
      } else {
        LongPast(d, time, from, z);
      }
    }
  }

  /**
   In every zone whose clock shows the run times in question once, the run is the
   least firing instant after `from`, and there is none exactly when there is no
   such instant; all but for a `once` date still ahead that is not on the calendar,
   such as 31 February: the day rolls over and a run comes out all the same.
   */
  lemma NextRunIsLeast(s: TaskSchedule, from: int, z: Zone)
    requires ZoneOk(z) && FIRST_DAY + 2 <= LocalDay(from, z) && RunTimesPass(s, from, z)
    ensures IsNextFiring(s, z, from, NextScheduleRun(s, from, z)) <==> !AheadOffCalendar(s, from, z)
  {
    hide ParseTimeOfDay, ParseRunDate, NextDaily, WeeklyFrom, ZonedDate, ZonedWallClockToUtc;
    hide CivilOf, DayFromYear, DaysOf, OnCalendar, DateUtc, Landed, ZoneOk, PassesOnce;
    var time := ParseTimeOfDay(s.timeOfDay);
    if time.Some? {
      match s.kind
      case Daily => DailyIsNext(s, from, z, time.value);
      case Weekly => WeeklyIsNext(s, time.value, from, z, 0);
      case Once =>
        if s.runDate.Some? && ParseRunDate(s.runDate.value).Some? {
          OnceIsNext(s, time.value, from, z, ParseRunDate(s.runDate.value).value);
        }
    }
  }

  lemma ConstantRunTimes(s: TaskSchedule, from: int, o: int)
    requires OffsetOk(o)
    ensures ZoneOk(Fixed(o)) && RunTimesPass(s, from, Fixed(o))
  {
    hide ParseTimeOfDay, ParseRunDate, PassesOnce, ZoneOk, OnCalendar, LocalDay;
    ConstantPasses(0, o);
    forall w: int ensures PassesOnce(w, Fixed(o)) {
      ConstantPasses(w, o);
    }
  }

  /** With a constant offset the run is the least firing instant, but for a `once` date ahead that no calendar has. */
  lemma ConstantNextRun(s: TaskSchedule, from: int, o: int)
    requires OffsetOk(o) && FIRST_DAY + 2 <= LocalDay(from, Fixed(o))
    ensures IsNextFiring(s, Fixed(o), from, NextScheduleRun(s, from, Fixed(o)))
            <==> !AheadOffCalendar(s, from, Fixed(o))
  {
    hide RunTimesPass, IsNextFiring, NextScheduleRun, AheadOffCalendar, ZoneOk, DayFromYear;
    ConstantRunTimes(s, from, o);
    NextRunIsLeast(s, from, Fixed(o));
  }

  /** A number a calendar day can have as its weekday. */
  predicate WholeWeekday(x: real) {
    0.0 <= x <= 6.0 && x.Floor as real == x
  }

  ghost predicate HasWholeWeekday(ws: seq<real>) {
    exists x :: x in ws && WholeWeekday(x)
  }

  lemma {:induction false} WeeklyFound(days: seq<real>, from: int, z: Zone, time: Time, k: nat, hit: nat)
    requires Modern(from, z) && k <= hit && 1 <= hit <= 7
    requires WeekdayOfDay(LocalDay(from, z) + hit) as real in days
    ensures WeeklyFrom(days, ZonedDate(from, z), time, from, z, k).Some?
    decreases hit - k
  {
    hide CivilOf, DayFromYear, ZonedWallClockToUtc, AddCalendarDays, WeekdayOf;
    var n := LocalDay(from, z);
    ModernYear(n);
    ModernYear(n + k);
    AddDays(n, k);
    AddDays(n + k, 0);
    if k < hit {
      WeeklyFound(days, from, z, time, k + 1, hit);
    }
  }

  lemma {:induction false} WeeklyMissed(days: seq<real>, from: int, z: Zone, time: Time, k: nat)
    requires Modern(from, z) && k <= 8 && !HasWholeWeekday(days)
    ensures WeeklyFrom(days, ZonedDate(from, z), time, from, z, k) == None
    decreases 8 - k
  {
    hide CivilOf, DayFromYear, ZonedWallClockToUtc, AddCalendarDays, WeekdayOf;
    if k < 8 {
      var n := LocalDay(from, z);
      ModernYear(n);
      ModernYear(n + k);
      AddDays(n, k);
      AddDays(n + k, 0);
      assert WholeWeekday(WeekdayOfDay(n + k) as real);
      WeeklyMissed(days, from, z, time, k + 1);
    }
  }

  lemma WeekdayAhead(n: int, w: int)
    requires 0 <= w <= 6
    ensures
      var hit := 1 + (w - WeekdayOfDay(n + 1)) % 7;
      1 <= hit <= 7 && WeekdayOfDay(n + hit) == w
  {
  }

  /**
   In any zone at all, a weekly schedule has a run exactly when one of its
   weekdays is a whole number from 0 to 6.
   */
  lemma WeeklyRuns(s: TaskSchedule, from: int, z: Zone, time: Time)
    requires Modern(from, z) && s.kind == Weekly && ParseTimeOfDay(s.timeOfDay) == Some(time)
    ensures NextScheduleRun(s, from, z).Some? <==> HasWholeWeekday(DaysOf(s))
  {
    hide ParseTimeOfDay, WeeklyFrom, ZonedDate, DayFromYear, CivilOf, DaysOf, Insert;
    var days := DaysOf(s);
    var n := LocalDay(from, z);
    if HasWholeWeekday(days) {
      var x :| x in days && WholeWeekday(x);
      var w := x.Floor;
      var hit := 1 + (w - WeekdayOfDay(n + 1)) % 7;
      WeekdayAhead(n, w);
      WeeklyFound(days, from, z, time, 0, hit);
    } else {
      WeeklyMissed(days, from, z, time, 0);
    }
  }
}
