/**
 Dashboard periods (`core/features/analytics/period.ts`): bucket keys as
 strings, half-open UTC ranges, sub-bucket axes and period stepping.
 */
module Period {
  import opened Wrappers
  import opened Text
  import opened Calendar
  import opened Schedule

  datatype Granularity = Hour | Day | Week | Month | Year | All

  datatype ZonedParts = ZonedParts(date: Ymd, hour: int)

  datatype PeriodRange = PeriodRange(startUtc: int, endUtc: int) {
    predicate Contains(t: int) {
      startUtc <= t < endUtc
    }
  }

  function PartsOf(t: int, z: Zone): ZonedParts {
    ZonedParts(ZonedDate(t, z), Local(t, z) % DAY_MS / HOUR_MS)
  }

  function MondayOf(d: Ymd): Ymd {
    AddCalendarDays(d, -((WeekdayOf(d) + 6) % 7))
  }

  /** Day 0 of the next month. */
  function DaysInMonth(year: int, month: int): int {
    CivilOf(MakeDay(year, month, 0)).day
  }

  /** A date whose fields print without a sign. */
  predicate Plain(d: Ymd) {
    0 <= d.year && 0 <= d.month && 0 <= d.day
  }

  function DateKey(d: Ymd): string
    requires Plain(d)
  {
    Decimal(d.year) + "-" + Pad2(d.month) + "-" + Pad2(d.day)
  }

  function BucketKey(p: ZonedParts, g: Granularity): string
    requires Plain(p.date) && Plain(MondayOf(p.date)) && 0 <= p.hour
  {
    match g
    case Hour => DateKey(p.date) + " " + Pad2(p.hour)
    case Day => DateKey(p.date)
    case Week => DateKey(MondayOf(p.date))
    case Month => Decimal(p.date.year) + "-" + Pad2(p.date.month)
    case Year => Decimal(p.date.year)
    case All => "all"
  }

  // ---- reading anchors ------------------------------------------------------

  /**
   `Number` on one part of an anchor that is digits. Other parts are not modelled,
   some of which `Number` reads too: None for them is no claim that they are NaN.
   */
  function ReadPart(parts: seq<string>, i: nat): Option<nat> {
    if i < |parts| && AllDigits(parts[i]) then Some(NumberOf(parts[i])) else None
  }

  /** `anchor.split("-").map(Number)` as year, month and day. */
  function ReadYmd(anchor: string): Option<Ymd> {
    var parts := Split(anchor, '-');
    var y, m, d := ReadPart(parts, 0), ReadPart(parts, 1), ReadPart(parts, 2);
    if y.Some? && m.Some? && d.Some? then Some(Ymd(y.value, m.value, d.value)) else None
  }

  function ReadYm(anchor: string): Option<Ymd> {
    var parts := Split(anchor, '-');
    var y, m := ReadPart(parts, 0), ReadPart(parts, 1);
    if y.Some? && m.Some? then Some(Ymd(y.value, m.value, 1)) else None
  }

  // ---- ranges, axes and steps -----------------------------------------------

  function MidnightOf(d: Ymd, z: Zone): int {
    ZonedWallClockToUtc(d, 0, 0, z)
  }

  const FOREVER := DateUtc(Ymd(9999, 12, 31), 0, 0)

  /** The range of a period, or None where the source computes invalid dates. */
  function RangeOf(u: Granularity, anchor: string, z: Zone): Option<PeriodRange>
    requires u != Hour
  {
    match u
    case All => Some(PeriodRange(0, FOREVER))
    case Day =>
      (match ReadYmd(anchor)
       case None => None
       case Some(d) => Some(PeriodRange(MidnightOf(d, z), MidnightOf(AddCalendarDays(d, 1), z))))
    case Week =>
      (match ReadYmd(anchor)
       case None => None
       case Some(d) => Some(PeriodRange(MidnightOf(d, z), MidnightOf(AddCalendarDays(d, 7), z))))
    case Month =>
      (match ReadYm(anchor)
       case None => None
       case Some(d) =>
         var next := if d.month == 12 then Ymd(d.year + 1, 1, 1) else Ymd(d.year, d.month + 1, 1);
         Some(PeriodRange(MidnightOf(d, z), MidnightOf(next, z))))
    case Year =>
      if AllDigits(anchor) then
        var y := NumberOf(anchor);
        Some(PeriodRange(MidnightOf(Ymd(y, 1, 1), z), MidnightOf(Ymd(y + 1, 1, 1), z)))
      else None
  }

  function SubUnitOf(u: Granularity): Granularity {
    match u
    case Day => Hour
    case Week => Day
    case Month => Day
    case _ => Month
  }

  /** `AddDaysToDateStr`; an unreadable or unprintable date gives None. */
  function AddDaysToDateStr(date: string, n: int): Option<string> {
    match ReadYmd(date)
    case None => None
    case Some(d) =>
      var r := AddCalendarDays(d, n);
      if Plain(r) then Some(DateKey(r)) else None
  }

  function OrEmpty(s: Option<string>): string {
    if s.Some? then s.value else ""
  }

  /** The dense chart axis inside a period. */
  function SubBucketKeys(u: Granularity, anchor: string): seq<string>
    requires u != Hour
  {
    match u
    case Day => seq(24, h requires 0 <= h < 24 => anchor + " " + Pad2(h))
    case Week => seq(7, i requires 0 <= i < 7 => OrEmpty(AddDaysToDateStr(anchor, i)))
    case Month =>
      (match ReadYm(anchor)
       case None => []
       case Some(d) =>
         var n := DaysInMonth(d.year, d.month);
         if n < 0 then [] else seq(n, i requires 0 <= i < n => anchor + "-" + Pad2(i + 1)))
    case Year => seq(12, i requires 0 <= i < 12 => anchor + "-" + Pad2(i + 1))
    case All => []
  }

  /** JavaScript `%`: the remainder has the sign of the dividend. */
  function Rem(a: int, b: int): int
    requires b > 0
  {
    if a < 0 then -((-a) % b) else a % b
  }

  /** Shared by `stepAnchor` and the calendar's `shiftMonth`. */
  function ShiftMonth(anchor: string, delta: int): Option<string> {
    match ReadYm(anchor)
    case None => None
    case Some(d) =>
      var total := d.year * 12 + (d.month - 1) + delta;
      if total < 0 then None
      else Some(Decimal(total / 12) + "-" + Pad2(Rem(total, 12) + 1))
  }

  function StepAnchor(u: Granularity, anchor: string, delta: int): Option<string>
    requires u != Hour
  {
    match u
    case Day => AddDaysToDateStr(anchor, delta)
    case Week => AddDaysToDateStr(anchor, delta * 7)
    case Month => ShiftMonth(anchor, delta)
    case Year =>
      if AllDigits(anchor) && NumberOf(anchor) + delta >= 0 then Some(Decimal(NumberOf(anchor) + delta)) else None
    case All => Some("all")
  }

  function AnchorStartDate(u: Granularity, anchor: string, today: string): string
    requires u != Hour
  {
    match u
    case Day => anchor
    case Week => anchor
    case Month => anchor + "-01"
    case Year => anchor + "-01-01"
    case All => today
  }

  /** `weekBucketOf` */
  function WeekBucketOf(date: string): Option<string> {
    match ReadYmd(date)
    case None => None
    case Some(d) =>
      var m := MondayOf(d);
      if Plain(m) then Some(DateKey(m)) else None
  }

  function Prefix(s: string, n: nat): string {
    if n <= |s| then s[..n] else s
  }

  function AnchorOfDate(u: Granularity, date: string): string
    requires u != Hour
  {
    match u
    case Day => date
    case Week => OrEmpty(WeekBucketOf(date))
    case Month => Prefix(date, 7)
    case Year => Prefix(date, 4)
    case All => "all"
  }

  function Reanchor(fromUnit: Granularity, anchor: string, toUnit: Granularity, today: string): string
    requires fromUnit != Hour && toUnit != Hour
  {
    AnchorOfDate(toUnit, AnchorStartDate(fromUnit, anchor, today))
  }

  predicate IsAtOrAfterAnchor(u: Granularity, anchor: string, current: string)
    requires u != Hour
  {
    u == All || !StrLt(anchor, current)
  }
}

/**
 The bounds and the day test of history summaries
 (`core/features/history/summary.ts`).
 */
module SummaryDays {
  import opened Wrappers
  import opened Text
  import opened Calendar
  import opened Schedule
  import Period

  function SummaryDayBounds(date: string, z: Zone): Option<Period.PeriodRange> {
    match Period.ReadYmd(date)
    case None => None
    case Some(d) =>
      var next := AddCalendarDays(d, 1);
      Some(Period.PeriodRange(ZonedWallClockToUtc(d, 0, 0, z), ZonedWallClockToUtc(next, 0, 0, z)))
  }

  function CurrentSummaryDate(now: int, z: Zone): string
    requires Period.Plain(ZonedDate(now, z))
  {
    Period.DateKey(ZonedDate(now, z))
  }

  predicate IsSummarizableDay(date: string, now: int, z: Zone)
    requires Period.Plain(ZonedDate(now, z))
  {
    StrLt(date, CurrentSummaryDate(now, z))
  }
}
