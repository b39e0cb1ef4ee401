/**
 Wall-clock trigger arithmetic (`core/features/tasks/schedule.ts`): a time zone
 is the function from instants to offsets that `Intl` stands for, instants and
 offsets are milliseconds, and civil dates are those of module `Calendar`.
 */
module Schedule {
  import opened Wrappers
  import opened Text
  import opened Calendar

  // ---- zones ----------------------------------------------------------------

  /** Offset of the zone's wall clock from UTC at an instant. */
  type Zone = int -> int

  function Fixed(o: int): Zone {
    t => o
  }

  /** Offsets are whole seconds, at most a day either way: true of every IANA zone. */
  ghost predicate ZoneOk(z: Zone) {
    forall t: int :: -DAY_MS <= z(t) <= DAY_MS && z(t) % 1000 == 0
  }

  /** The wall clock at `t`, as the UTC instant that reads the same. */
  function Local(t: int, z: Zone): int {
    t + z(t)
  }

  function LocalDay(t: int, z: Zone): int {
    Local(t, z) / DAY_MS
  }

  /** Four-digit years: `Date.UTC` rewrites years 0..99, and shorter years print shorter. */
  const FIRST_YEAR := 1000
  const FIRST_DAY := DayFromYear(FIRST_YEAR)

  /** The wall clock at `t` shows a year of at least four digits. */
  predicate Modern(t: int, z: Zone) {
    FIRST_DAY <= LocalDay(t, z)
  }

  function ZonedDate(t: int, z: Zone): Ymd {
    CivilOf(LocalDay(t, z))
  }

  /** `zoneOffsetMs`: the formatted wall clock, to the second, read back as UTC. */
  function ZoneOffsetMs(t: int, z: Zone): int {
    var d := ZonedDate(t, z);
    var s := Local(t, z) % DAY_MS / 1000;
    MakeDay(d.year, d.month - 1, d.day) * DAY_MS + s * 1000 - t
  }

  function ZonedWallClockToUtc(d: Ymd, hour: int, minute: int, z: Zone): int {
    var wallAsUtc := DateUtc(d, hour, minute);
    var offset := ZoneOffsetMs(wallAsUtc, z);
    var utc := wallAsUtc - offset;
    var refined := ZoneOffsetMs(utc, z);
    if refined != offset then wallAsUtc - refined else utc
  }

  function AddCalendarDays(d: Ymd, n: int): Ymd {
    CivilOf((MakeDay(d.year, d.month - 1, d.day) * DAY_MS + n * DAY_MS) / DAY_MS)
  }

  function WeekdayOf(d: Ymd): int {
    WeekdayOfDay(MakeDay(d.year, d.month - 1, d.day))
  }

  // ---- parsing --------------------------------------------------------------

  datatype Time = Time(hour: nat, minute: nat)

  predicate ValidTime(t: Time) {
    t.hour <= 23 && t.minute <= 59
  }

  /** One or two digits, a colon and two digits, after `trim`. */
  function ParseTimeOfDay(value: string): (r: Option<Time>)
    ensures r.Some? ==> ValidTime(r.value)
  {
    var s := Trim(value);
    if 4 <= |s| <= 5 && s[|s| - 3] == ':' && AllDigits(s[..|s| - 3]) && AllDigits(s[|s| - 2..]) then
      var t := Time(NumberOf(s[..|s| - 3]), NumberOf(s[|s| - 2..]));
      if ValidTime(t) then Some(t) else None
    else None
  }

  function NormalizeTimeOfDay(value: string): Option<string> {
    match ParseTimeOfDay(value)
    case None => None
    case Some(t) => Some(Pad2(t.hour) + ":" + Pad2(t.minute))
  }

  /** Four, two and two digits joined by dashes, after `trim`; the day is only checked against 31. */
  function ParseRunDate(value: string): (r: Option<Ymd>)
    ensures r.Some? ==> 0 <= r.value.year && 1 <= r.value.month <= 12 && 1 <= r.value.day <= 31
  {
    var s := Trim(value);
    if |s| == 10 && s[4] == '-' && s[7] == '-' && AllDigits(s[..4]) && AllDigits(s[5..7]) && AllDigits(s[8..]) then
      var d := Ymd(NumberOf(s[..4]), NumberOf(s[5..7]), NumberOf(s[8..]));
      if 1 <= d.month <= 12 && 1 <= d.day <= 31 then Some(d) else None
    else None
  }

  predicate StrictlyIncreasing(s: seq<real>) {
    forall i, j :: 0 <= i < j < |s| ==> s[i] < s[j]
  }

  function Insert(s: seq<real>, x: real): (r: seq<real>)
    requires StrictlyIncreasing(s)
    ensures StrictlyIncreasing(r)
    ensures forall y :: y in r <==> y in s || y == x
  {
    if s == [] || x < s[0] then [x] + s
    else if x == s[0] then s
    else
      var rest := Insert(s[1..], x);
      assert forall j :: 0 <= j < |rest| ==> s[0] < rest[j] by {
        forall j | 0 <= j < |rest| ensures s[0] < rest[j] {
          assert rest[j] in s[1..] || rest[j] == x;
        }
      }
      [s[0]] + rest
  }

  /**
   `normalizeWeekdays`: sorted, de-duplicated, between 0 and 6. The weekdays are
   JavaScript numbers, and a fraction between 0 and 6 passes the filter.
   */
  function NormalizeWeekdays(ws: seq<real>): (r: seq<real>)
    ensures StrictlyIncreasing(r)
    ensures forall x :: x in r <==> x in ws && 0.0 <= x <= 6.0
  {
    if ws == [] then []
    else
      var rest := NormalizeWeekdays(ws[1..]);
      if 0.0 <= ws[0] <= 6.0 then Insert(rest, ws[0]) else rest
  }

  // ---- the next calendar run ------------------------------------------------

  datatype ScheduleKind = Once | Daily | Weekly

  datatype TaskSchedule = TaskSchedule(
    kind: ScheduleKind,
    timeOfDay: string,
    weekdays: Option<seq<real>>,
    runDate: Option<string>)

  function DaysOf(s: TaskSchedule): seq<real> {
    NormalizeWeekdays(if s.weekdays.Some? then s.weekdays.value else [])
  }

  /** The weekly search from day offset `k` on; offset 0 only counts when still ahead. */
  function WeeklyFrom(days: seq<real>, today: Ymd, time: Time, from: int, z: Zone, k: nat): Option<int>
    requires k <= 8
    decreases 8 - k
  {
    if k == 8 then None
    else
      var date := AddCalendarDays(today, k);
      var instant := ZonedWallClockToUtc(date, time.hour, time.minute, z);
      if WeekdayOf(date) as real in days && !(k == 0 && instant <= from) then Some(instant)
      else WeeklyFrom(days, today, time, from, z, k + 1)
  }

  function NextOnce(runDate: Option<string>, time: Time, from: int, z: Zone): Option<int> {
    if runDate.None? then None
    else
      match ParseRunDate(runDate.value)
      case None => None
      case Some(date) =>
        var instant := ZonedWallClockToUtc(date, time.hour, time.minute, z);
        if instant > from then Some(instant) else None
  }

  function NextDaily(time: Time, from: int, z: Zone): int {
    var today := ZonedDate(from, z);
    var todayInstant := ZonedWallClockToUtc(today, time.hour, time.minute, z);
    if todayInstant > from then todayInstant
    else ZonedWallClockToUtc(AddCalendarDays(today, 1), time.hour, time.minute, z)
  }

  /** What `computeNextScheduleRun` computes. */
  function NextScheduleRun(s: TaskSchedule, from: int, z: Zone): Option<int> {
    match ParseTimeOfDay(s.timeOfDay)
    case None => None
    case Some(time) =>
      match s.kind
      case Once => NextOnce(s.runDate, time, from, z)
      case Daily => Some(NextDaily(time, from, z))
      case Weekly => WeeklyFrom(DaysOf(s), ZonedDate(from, z), time, from, z, 0)
  }

  /** `computeNextScheduleRun`, with its loop over the coming week. */
  method ComputeNextScheduleRun(s: TaskSchedule, from: int, z: Zone) returns (r: Option<int>)
    ensures r == NextScheduleRun(s, from, z)
  {
    hide ZonedWallClockToUtc, AddCalendarDays, WeekdayOf, ZonedDate, ParseTimeOfDay, NextOnce, NextDaily, NormalizeWeekdays;
    var parsed := ParseTimeOfDay(s.timeOfDay);
    if parsed.None? { return None; }
    var time := parsed.value;
    if s.kind == Once { return NextOnce(s.runDate, time, from, z); }
    var today := ZonedDate(from, z);
    if s.kind == Daily { return Some(NextDaily(time, from, z)); }
    var days := DaysOf(s);
    if |days| == 0 {
      NoDays(today, time, from, z, 0);
      return None;
    }
    var offset := 0;
    while offset <= 7
      invariant 0 <= offset <= 8
      invariant WeeklyFrom(days, today, time, from, z, 0) == WeeklyFrom(days, today, time, from, z, offset)
    {
      var date := AddCalendarDays(today, offset);
      if WeekdayOf(date) as real in days {
        var instant := ZonedWallClockToUtc(date, time.hour, time.minute, z);
        if !(offset == 0 && instant <= from) {
          return Some(instant);
        }
      }
      offset := offset + 1;
    }
    return None;
  }

  lemma {:induction false} NoDays(today: Ymd, time: Time, from: int, z: Zone, k: nat)
    requires k <= 8
    ensures WeeklyFrom([], today, time, from, z, k) == None
    decreases 8 - k
  {
    if k < 8 {
      NoDays(today, time, from, z, k + 1);
    }
  }

  // ---- wall clock to instant ------------------------------------------------

  lemma LateDay(n: int, y: int)
    requires DayFromYear(y) <= n
    ensures CivilOf(n).year >= y
  {
    hide CivilOf, DayFromYear;
    InsideYear(CivilOf(n));
    var c := CivilOf(n).year;
    if c < y {
      YearsGrow(c, y);
    }
  }

  /** MakeDay reads a civil date back, away from the years `Date.UTC` rewrites. */
  lemma MakeDayOfCivil(n: int)
    requires DayFromYear(100) <= n
    ensures
      var d := CivilOf(n);
      MakeDay(d.year, d.month - 1, d.day) == n
  {
    hide CivilOf, DayFromYear, DaysBefore;
    LateDay(n, 100);
  }

  lemma WholeSeconds(l: int)
    requires l % 1000 == 0
    ensures l / DAY_MS * DAY_MS + l % DAY_MS / 1000 * 1000 == l
  {
    assert l == l / DAY_MS * DAY_MS + l % DAY_MS;
    assert l % DAY_MS % 1000 == 0;
  }

  /** From year 100 on the offset is read back exactly, on whole seconds. */
  lemma OffsetExact(t: int, z: Zone)
    requires ZoneOk(z) && t % 1000 == 0 && DayFromYear(100) <= LocalDay(t, z)
    ensures ZoneOffsetMs(t, z) == z(t)
  {
    hide CivilOf, DayFromYear, MakeDay, ZoneOk;
    MakeDayOfCivil(LocalDay(t, z));
    WholeOffset(t, z);
    WholeSeconds(Local(t, z));
  }

  lemma WholeOffset(t: int, z: Zone)
    requires ZoneOk(z) && t % 1000 == 0
    ensures Local(t, z) % 1000 == 0
  {
  }

  /** The wall-clock times whose offsets are read back exactly, whatever they are. */
  const LATE_ENOUGH := (DayFromYear(100) + 2) * DAY_MS

  lemma LateOffset(w: int, z: Zone, x: int)
    requires ZoneOk(z) && LATE_ENOUGH <= w && x % 1000 == 0 && w - 2 * DAY_MS <= Local(x, z)
    ensures ZoneOffsetMs(x, z) == z(x)
  {
    hide DayFromYear, ZoneOffsetMs, ZoneOk;
    assert DayFromYear(100) <= Local(x, z) / DAY_MS;
    OffsetExact(x, z);
  }

  lemma WholeMinute(d: Ymd, hour: int, minute: int)
    ensures DateUtc(d, hour, minute) % 1000 == 0
  {
    hide MakeDay;
    var day := MakeDay(d.year, d.month - 1, d.day);
    assert DateUtc(d, hour, minute) == 1000 * (day * 86_400 + hour * 3600 + minute * 60);
  }

  /** Where the two guesses land for wall clock `w`, when offsets are read back exactly. */
  function Landed(w: int, z: Zone): int {
    var utc := w - z(w);
    if z(utc) != z(w) then w - z(utc) else utc
  }

  /** `ZonedWallClockToUtc` once the offsets are read back exactly: from year 101 on. */
  lemma LateWallClock(d: Ymd, hour: int, minute: int, z: Zone)
    requires ZoneOk(z) && LATE_ENOUGH <= DateUtc(d, hour, minute)
    ensures ZonedWallClockToUtc(d, hour, minute, z) == Landed(DateUtc(d, hour, minute), z)
  {
    hide ZoneOffsetMs, DateUtc, ZoneOk;
    var w := DateUtc(d, hour, minute);
    WholeMinute(d, hour, minute);
    OffsetBounds(w, z);
    LateOffset(w, z, w);
    var u := w - z(w);
    OffsetBounds(u, z);
    LateOffset(w, z, u);
  }

  lemma OffsetBounds(t: int, z: Zone)
    requires ZoneOk(z)
    ensures -DAY_MS <= z(t) <= DAY_MS && z(t) % 1000 == 0
  {
  }

  lemma WallClockSteps(d: Ymd, hour: int, minute: int, z: Zone)
    requires ZoneOk(z)
    requires FIRST_DAY * DAY_MS <= DateUtc(d, hour, minute)
    ensures ZonedWallClockToUtc(d, hour, minute, z) == Landed(DateUtc(d, hour, minute), z)
  {
    hide ZonedWallClockToUtc, DateUtc, Landed, ZoneOk;
    assert LATE_ENOUGH <= FIRST_DAY * DAY_MS;
    LateWallClock(d, hour, minute, z);
  }

  /** An instant at which the zone's wall clock shows this date and time. */
  ghost predicate Shows(t: int, d: Ymd, hour: int, minute: int, z: Zone) {
    Local(t, z) == DateUtc(d, hour, minute)
  }

  /**
   When the result shows the requested wall clock, for any zone whatever: the
   offset at the first guess was right, or the refined one holds where it lands.
   */
  lemma WallClockExact(d: Ymd, hour: int, minute: int, z: Zone)
    requires ZoneOk(z)
    requires FIRST_DAY * DAY_MS <= DateUtc(d, hour, minute)
    ensures
      var w := DateUtc(d, hour, minute);
      var guess := z(w - z(w));
      Shows(ZonedWallClockToUtc(d, hour, minute, z), d, hour, minute, z)
      <==> guess == z(w) || z(w - guess) == guess
  {
    hide DateUtc, ZonedWallClockToUtc;
    WallClockSteps(d, hour, minute, z);
  }

  /** The zone takes no third offset within a day of `w`, however often it switches. */
  ghost predicate TwoOffsetsNear(z: Zone, a: int, b: int, w: int) {
    forall t: int :: w - DAY_MS <= t <= w + DAY_MS ==> z(t) == a || z(t) == b
  }

  /**
   One refinement suffices where the zone has at most two offsets within a day of the
   requested wall clock, whatever it had before or has later: an existing wall-clock
   time is always found.
   */
  lemma WallClockTwoOffsets(d: Ymd, hour: int, minute: int, z: Zone, a: int, b: int)
    requires ZoneOk(z) && TwoOffsetsNear(z, a, b, DateUtc(d, hour, minute))
    requires FIRST_DAY * DAY_MS <= DateUtc(d, hour, minute)
    ensures Shows(ZonedWallClockToUtc(d, hour, minute, z), d, hour, minute, z)
            <==> exists t :: Shows(t, d, hour, minute, z)
  {
    hide DateUtc, ZonedWallClockToUtc;
    WallClockSteps(d, hour, minute, z);
    var w := DateUtc(d, hour, minute);
    var guess := z(w - z(w));
    assert z(w) == a || z(w) == b;
    assert guess == a || guess == b;
    assert z(w - guess) == a || z(w - guess) == b;
    if t :| Shows(t, d, hour, minute, z) {
      assert z(t) == a || z(t) == b;
      assert t == w - a || t == w - b;
    }
  }

  /** Three offsets, changing three times within three hours. */
  function ThreeOffsets(w: int): Zone {
    t => if t <= w - 3 * HOUR_MS then 3 * HOUR_MS
         else if w - 2 * HOUR_MS < t <= w - HOUR_MS then 2 * HOUR_MS
         else HOUR_MS
  }

  /** With three offsets one refinement can miss an existing wall-clock time. */
  lemma ThreeOffsetsMiss()
    ensures
      var d := Ymd(2000, 1, 1);
      var w := DateUtc(d, 0, 0);
      var z := ThreeOffsets(w);
      && ZoneOk(z)
      && Shows(w - 3 * HOUR_MS, d, 0, 0, z)
      && !Shows(ZonedWallClockToUtc(d, 0, 0, z), d, 0, 0, z)
  {
    hide ZonedWallClockToUtc, CivilOf;
    var d := Ymd(2000, 1, 1);
    var w := DateUtc(d, 0, 0);
    assert DaysBefore(2000, 1) == 0;
    WallClockExact(d, 0, 0, ThreeOffsets(w));
  }
}
