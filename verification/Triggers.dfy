/**
 Validation and next-run arithmetic of task triggers
 (`normalizeTrigger`, `scheduleKindOf` and `computeNextTriggerRun` of
 `core/features/tasks/schedule.ts`). Minutes and weekdays are JavaScript
 numbers, modelled as reals.
 */
module Triggers {
  import opened Wrappers
  import opened Text
  import opened Calendar
  import opened Schedule
  import opened NextRun

  datatype TriggerKind = Message | OnReply | Interval | Timeout | AtSchedule

  datatype TriggerInput = TriggerInput(
    kind: TriggerKind,
    everyMinutes: Option<real>,
    delayMinutes: Option<real>,
    scheduleKind: Option<ScheduleKind>,
    timeOfDay: Option<string>,
    weekdays: Option<seq<real>>,
    runDate: Option<string>)

  /** The canonical fields of a trigger; what its kind does not use is None. */
  datatype Trigger = Trigger(
    kind: TriggerKind,
    everyMinutes: Option<real>,
    delayMinutes: Option<real>,
    timeOfDay: Option<string>,
    weekdays: Option<seq<real>>,
    runDate: Option<string>)
  {
    /** The trigger handed in again, with no kind of schedule named. */
    function AsInput(): TriggerInput {
      TriggerInput(kind, everyMinutes, delayMinutes, None, timeOfDay, weekdays, runDate)
    }
  }

  datatype TriggerError = BadMinutes | BadTime | NoWeekdays | BadRunDate

  const MIN_TRIGGER_MINUTES := 1.0
  const MAX_TRIGGER_MINUTES := 525_600.0

  function OrElse<T>(o: Option<T>, default: T): T {
    if o.Some? then o.value else default
  }

  function ScheduleKindOf(weekdays: Option<seq<real>>, runDate: Option<string>): ScheduleKind {
    if OrElse(runDate, "") != "" then Once
    else if OrElse(weekdays, []) != [] then Weekly
    else Daily
  }

  predicate MinutesOk(minutes: Option<real>) {
    && minutes.Some?
    && minutes.value.Floor as real == minutes.value
    && MIN_TRIGGER_MINUTES <= minutes.value <= MAX_TRIGGER_MINUTES
  }

  /** The kind of calendar schedule an input asks for. */
  function KindAsked(i: TriggerInput): ScheduleKind {
    OrElse(i.scheduleKind, ScheduleKindOf(i.weekdays, i.runDate))
  }

  function NormalizeSchedule(i: TriggerInput): Result<Trigger, TriggerError> {
    var none := Trigger(AtSchedule, None, None, None, None, None);
    match NormalizeTimeOfDay(OrElse(i.timeOfDay, ""))
    case None => Failure(BadTime)
    case Some(time) =>
      match KindAsked(i)
      case Weekly =>
        var weekdays := NormalizeWeekdays(OrElse(i.weekdays, []));
        if weekdays == [] then Failure(NoWeekdays)
        else Success(none.(timeOfDay := Some(time), weekdays := Some(weekdays)))
      case Once =>
        var runDate := OrElse(i.runDate, "");
        if runDate == "" || ParseRunDate(runDate).None? then Failure(BadRunDate)
        else Success(none.(timeOfDay := Some(time), runDate := Some(Trim(runDate))))
      case Daily => Success(none.(timeOfDay := Some(time)))
  }

  function NormalizeTrigger(i: TriggerInput): Result<Trigger, TriggerError> {
    var none := Trigger(i.kind, None, None, None, None, None);
    match i.kind
    case Message => Success(none)
    case OnReply => Success(none)
    case Interval =>
      if MinutesOk(i.everyMinutes) then Success(none.(everyMinutes := i.everyMinutes)) else Failure(BadMinutes)
    case Timeout =>
      if MinutesOk(i.delayMinutes) then Success(none.(delayMinutes := i.delayMinutes)) else Failure(BadMinutes)
    case AtSchedule => NormalizeSchedule(i)
  }

  /** `new Date(x)`: the fraction of a millisecond is dropped, toward zero. */
  function TimeClip(x: real): int {
    if x < 0.0 then -(-x).Floor else x.Floor
  }

  function AsSchedule(t: Trigger): TaskSchedule {
    TaskSchedule(ScheduleKindOf(t.weekdays, t.runDate), OrElse(t.timeOfDay, ""), t.weekdays, t.runDate)
  }

  /** `computeNextTriggerRun` */
  function NextTriggerRun(t: Trigger, from: int, z: Zone): Option<int> {
    match t.kind
    case Interval =>
      var minutes := OrElse(t.everyMinutes, 0.0);
      if minutes < MIN_TRIGGER_MINUTES then None
      else Some(TimeClip(from as real + minutes * MINUTE_MS as real))
    case AtSchedule => NextScheduleRun(AsSchedule(t), from, z)
    case _ => None
  }

  // ---- normal forms ---------------------------------------------------------

  lemma TwoDigitTime(t: Time)
    requires ValidTime(t)
    ensures ParseTimeOfDay(Pad2(t.hour) + ":" + Pad2(t.minute)) == Some(t)
  {
    hide Pad2, NumberOf, TrimStart, TrimEnd;
    NumberOfPad2(t.hour);
    NumberOfPad2(t.minute);
    var s := Pad2(t.hour) + ":" + Pad2(t.minute);
    assert s[..2] == Pad2(t.hour) && s[3..] == Pad2(t.minute);
    assert Trim(s) == s by {
      TrimFixes(s);
    }
  }

  lemma ParseTrimmed(value: string)
    ensures ParseRunDate(Trim(value)) == ParseRunDate(value)
    ensures ParseRunDate(value).Some? ==> Trim(value) != ""
    ensures Trim(Trim(value)) == Trim(value)
  {
    TrimFixes(Trim(value));
  }

  lemma LeastFirst(a: seq<real>)
    requires StrictlyIncreasing(a) && a != []
    ensures forall x :: x in a ==> a[0] <= x
    ensures forall x :: x in a[1..] <==> x in a && x != a[0]
  {
    assert a == [a[0]] + a[1..];
  }

  /** A strictly increasing list is determined by its members. */
  lemma {:induction false} SameMembers(a: seq<real>, b: seq<real>)
    requires StrictlyIncreasing(a) && StrictlyIncreasing(b)
    requires forall x :: x in a <==> x in b
    ensures a == b
  {
    assert a != [] ==> a[0] in a;
    assert b != [] ==> b[0] in b;
    if a != [] {
      LeastFirst(a);
      LeastFirst(b);
      SameMembers(a[1..], b[1..]);
    }
  }

  /** Normalizing an accepted trigger again gives it back: what is accepted is in normal form. */
  lemma NormalizeTriggerIdempotent(i: TriggerInput)
    requires NormalizeTrigger(i).Success?
    ensures NormalizeTrigger(NormalizeTrigger(i).value.AsInput()) == NormalizeTrigger(i)
  {
    hide ParseTimeOfDay, ParseRunDate, Trim, NormalizeWeekdays, Pad2;
    var t := NormalizeTrigger(i).value;
    if i.kind == AtSchedule {
      TwoDigitTime(ParseTimeOfDay(OrElse(i.timeOfDay, "")).value);
      ParseTrimmed(OrElse(i.runDate, ""));
      if t.weekdays.Some? {
        SameMembers(NormalizeWeekdays(t.weekdays.value), t.weekdays.value);
      }
    }
  }

  /** The accepted fields alone tell which kind of schedule was asked for. */
  lemma KindRecovered(i: TriggerInput)
    requires i.kind == AtSchedule && NormalizeTrigger(i).Success?
    ensures
      var t := NormalizeTrigger(i).value;
      ScheduleKindOf(t.weekdays, t.runDate) == KindAsked(i)
  {
    hide ParseRunDate, Trim, NormalizeWeekdays;
    ParseTrimmed(OrElse(i.runDate, ""));
  }

  /** Normalizing does not move a run: the accepted fields fire when the raw ones would. */
  lemma NormalizeKeepsRuns(i: TriggerInput, from: int, z: Zone)
    requires i.kind == AtSchedule && NormalizeTrigger(i).Success?
    ensures NextTriggerRun(NormalizeTrigger(i).value, from, z)
            == NextScheduleRun(TaskSchedule(KindAsked(i), OrElse(i.timeOfDay, ""), i.weekdays, i.runDate), from, z)
  {
    hide ParseTimeOfDay, ParseRunDate, Trim, NormalizeWeekdays, Pad2, ZonedDate, NextDaily, WeeklyFrom, ZonedWallClockToUtc;
    var t := NormalizeTrigger(i).value;
    KindRecovered(i);
    TwoDigitTime(ParseTimeOfDay(OrElse(i.timeOfDay, "")).value);
    ParseTrimmed(OrElse(i.runDate, ""));
    if t.weekdays.Some? {
      SameMembers(NormalizeWeekdays(t.weekdays.value), t.weekdays.value);
    }
  }

  /** A trigger that comes round again: an interval, or a daily or weekly schedule. */
  predicate Repeating(t: Trigger) {
    t.kind == Interval || (t.kind == AtSchedule && ScheduleKindOf(t.weekdays, t.runDate) != Once)
  }

  /**
   When an accepted repeating trigger has a next run, in any zone: always, but
   for a weekly one none of whose weekdays is whole.
   */
  lemma RepeatingRuns(i: TriggerInput, from: int, z: Zone)
    requires NormalizeTrigger(i).Success? && Repeating(NormalizeTrigger(i).value)
    requires Modern(from, z)
    ensures
      var t := NormalizeTrigger(i).value;
      NextTriggerRun(t, from, z).Some?
      <==> (t.weekdays.Some? ==> HasWholeWeekday(t.weekdays.value))
  {
    hide ParseTimeOfDay, ParseRunDate, Trim, NormalizeWeekdays, Pad2, HasWholeWeekday, Modern, ZonedDate, NextDaily, WeeklyFrom;
    var t := NormalizeTrigger(i).value;
    if i.kind == AtSchedule {
      var time := ParseTimeOfDay(OrElse(i.timeOfDay, "")).value;
      TwoDigitTime(time);
      if t.weekdays.Some? {
        WeeklyRuns(AsSchedule(t), from, z, time);
        SameMembers(NormalizeWeekdays(t.weekdays.value), t.weekdays.value);
      }
    }
  }

  /** Weekdays as every caller of the code checks them to be: whole numbers. */
  predicate WholeNumbers(ws: seq<real>) {
    forall x :: x in ws ==> x.Floor as real == x
  }

  /** In every zone, an accepted repeating trigger whose weekdays are whole numbers has a next run. */
  lemma WholeWeekdaysRun(i: TriggerInput, from: int, z: Zone)
    requires NormalizeTrigger(i).Success? && Repeating(NormalizeTrigger(i).value) && Modern(from, z)
    requires i.weekdays.Some? ==> WholeNumbers(i.weekdays.value)
    ensures NextTriggerRun(NormalizeTrigger(i).value, from, z).Some?
  {
    hide ParseTimeOfDay, ParseRunDate, Trim, NormalizeWeekdays, Pad2, Modern, NextTriggerRun;
    var t := NormalizeTrigger(i).value;
    if t.weekdays.Some? {
      var x := t.weekdays.value[0];
      assert x in t.weekdays.value && x in i.weekdays.value && WholeWeekday(x);
    }
    RepeatingRuns(i, from, z);
  }

  /** An interval advances by its period, to the millisecond. */
  lemma IntervalAdvances(i: TriggerInput, from: int, z: Zone)
    requires i.kind == Interval && NormalizeTrigger(i).Success?
    ensures NextTriggerRun(NormalizeTrigger(i).value, from, z)
            == Some(from + i.everyMinutes.value.Floor * MINUTE_MS)
  {
    var m := i.everyMinutes.value.Floor;
    assert from as real + m as real * MINUTE_MS as real == (from + m * MINUTE_MS) as real;
  }

  // ---- the two exceptions, on concrete input --------------------------------

  /**
   The hypothesis is needed: weekday 2.5, which the normalizer alone would let
   through, never comes.
   */
  lemma HalfWeekdayNeverRuns(from: int, z: Zone)
    requires Modern(from, z)
    ensures
      var i := TriggerInput(AtSchedule, None, None, None, Some("09:00"), Some([2.5]), None);
      && NormalizeTrigger(i).Success?
      && Repeating(NormalizeTrigger(i).value)
      && NextTriggerRun(NormalizeTrigger(i).value, from, z) == None
  {
    hide ParseTimeOfDay, NormalizeWeekdays, Modern, NextTriggerRun;
    var i := TriggerInput(AtSchedule, None, None, None, Some("09:00"), Some([2.5]), None);
    NineIsATime();
    SameMembers(NormalizeWeekdays([2.5]), [2.5]);
    RepeatingRuns(i, from, z);
  }

  lemma NineIsATime()
    ensures ParseTimeOfDay("09:00") == Some(Time(9, 0))
  {
    hide ParseTimeOfDay;
    TwoDigitTime(Time(9, 0));
    assert Pad2(9) + ":" + Pad2(0) == "09:00";
  }

  /** 31 February rolls over: the run falls on 3 March, a day its date never names. */
  lemma RollsOver(from: int)
    requires from == DateUtc(Ymd(2026, 1, 1), 0, 0)
    ensures
      var s := TaskSchedule(Once, "09:00", None, Some("2026-02-31"));
      && NextScheduleRun(s, from, Fixed(0)) == Some(DateUtc(Ymd(2026, 3, 3), 9, 0))
      && !IsNextFiring(s, Fixed(0), from, NextScheduleRun(s, from, Fixed(0)))
  {
    hide ParseTimeOfDay, ParseRunDate, ZonedWallClockToUtc, IsNextFiring, DateUtc, Modern;
    var s := TaskSchedule(Once, "09:00", None, Some("2026-02-31"));
    NineIsATime();
    ReadRunDate();
    February31();
    WallClockSteps(Ymd(2026, 2, 31), 9, 0, Fixed(0));
    NextRunIsLeast(s, from, Fixed(0));
  }

  /** The days behind the dates of 2026: 31 February reads as 3 March. */
  lemma DaysOf2026()
    ensures DayNumber(Ymd(2026, 2, 31)) == DayNumber(Ymd(2026, 3, 3)) == 20_515
    ensures DayNumber(Ymd(2026, 1, 1)) == 20_454
    ensures FIRST_DAY < 0
  {
    assert DaysBefore(2026, 2) == 31;
    assert DaysBefore(2026, 3) == 59;
    assert DayFromYear(2026) == 20_454;
  }

  lemma February31()
    ensures DateUtc(Ymd(2026, 2, 31), 9, 0) == DateUtc(Ymd(2026, 3, 3), 9, 0)
    ensures DateUtc(Ymd(2026, 1, 1), 0, 0) < DateUtc(Ymd(2026, 3, 3), 9, 0)
    ensures FIRST_DAY * DAY_MS <= DateUtc(Ymd(2026, 3, 3), 9, 0)
    ensures FIRST_DAY + 2 <= LocalDay(DateUtc(Ymd(2026, 1, 1), 0, 0), Fixed(0))
  {
    hide DayNumber, DayFromYear;
    DaysOf2026();
    assert MakeDay(2026, 1, 31) == MakeDay(2026, 2, 3) == 20_515 && MakeDay(2026, 0, 1) == 20_454;
    hide MakeDay;
    assert DateUtc(Ymd(2026, 1, 1), 0, 0) == 20_454 * DAY_MS;
    assert LocalDay(20_454 * DAY_MS, Fixed(0)) == 20_454;
  }

  lemma ReadRunDate()
    ensures ParseRunDate("2026-02-31") == Some(Ymd(2026, 2, 31))
  {
    hide ParseRunDate;
    RunDateParts("2026", "02", "31");
    assert "2026" + "-" + "02" + "-" + "31" == "2026-02-31";
    TwoDigits('0', '2');
    TwoDigits('3', '1');
    TwoDigits('2', '0');
    assert "2026"[..3] == "202" && "202"[..2] == "20";
  }

  /** A dashed date reads part by part. */
  lemma RunDateParts(y: string, m: string, d: string)
    requires |y| == 4 && |m| == 2 && |d| == 2 && AllDigits(y) && AllDigits(m) && AllDigits(d)
    ensures
      var r := Ymd(NumberOf(y), NumberOf(m), NumberOf(d));
      ParseRunDate(y + "-" + m + "-" + d)
      == if 1 <= r.month <= 12 && 1 <= r.day <= 31 then Some(r) else None
  {
    hide Trim, NumberOf;
    DashedParts(y, m, d);
  }

  lemma DashedParts(y: string, m: string, d: string)
    requires |y| == 4 && |m| == 2 && |d| == 2 && AllDigits(y) && AllDigits(m) && AllDigits(d)
    ensures
      var s := y + "-" + m + "-" + d;
      && |s| == 10 && s[..4] == y && s[4] == '-' && s[5..7] == m && s[7] == '-' && s[8..] == d
      && Trim(s) == s
  {
    var s := y + "-" + m + "-" + d;
    assert s[0] == y[0] && s[9] == d[1];
    TrimFixes(s);
  }

  lemma TwoDigits(a: char, b: char)
    requires IsDigit(a) && IsDigit(b)
    ensures NumberOf([a, b]) == 10 * (a as int - '0' as int) + (b as int - '0' as int)
  {
    assert [a, b][..1] == [a] && [a][..0] == "";
    assert NumberOf([a]) == a as int - '0' as int;
  }

  // ---- what is read -----------------------------------------------------------

  /** `value` is, but for white space around it, an hour of one or two digits, a colon and a minute of two. */
  ghost predicate WritesTime(value: string, hour: string, minute: string) {
    && Trim(value) == hour + ":" + minute
    && 1 <= |hour| <= 2 && |minute| == 2 && AllDigits(hour) && AllDigits(minute)
  }

  /** A time of day is read exactly when it is written so, from 0:00 to 23:59. */
  lemma TimeReads(value: string, t: Time)
    ensures ParseTimeOfDay(value) == Some(t)
            <==> && t.hour <= 23 && t.minute <= 59
                 && exists hour, minute ::
                      WritesTime(value, hour, minute) && NumberOf(hour) == t.hour && NumberOf(minute) == t.minute
  {
    hide Trim, NumberOf;
    var s := Trim(value);
    if ParseTimeOfDay(value) == Some(t) {
      var hour, minute := s[..|s| - 3], s[|s| - 2..];
      assert s == hour + ":" + minute;
      assert WritesTime(value, hour, minute);
    }
    if hour, minute :| WritesTime(value, hour, minute) && NumberOf(hour) == t.hour && NumberOf(minute) == t.minute {
      assert s[..|s| - 3] == hour && s[|s| - 2..] == minute && s[|s| - 3] == ':';
    }
  }

  /** `value` is, but for white space around it, a year of four digits, a month and a day of two, joined by dashes. */
  ghost predicate WritesDate(value: string, year: string, month: string, day: string) {
    && Trim(value) == year + "-" + month + "-" + day
    && |year| == 4 && |month| == 2 && |day| == 2 && AllDigits(year) && AllDigits(month) && AllDigits(day)
  }

  ghost predicate WritesYmd(value: string, d: Ymd) {
    exists year, month, day ::
      WritesDate(value, year, month, day) && NumberOf(year) == d.year && NumberOf(month) == d.month && NumberOf(day) == d.day
  }

  /** A run date is read exactly when it is written so, with a month of the year and a day no month exceeds. */
  lemma DateReads(value: string, d: Ymd)
    ensures ParseRunDate(value) == Some(d) <==> 1 <= d.month <= 12 && 1 <= d.day <= 31 && WritesYmd(value, d)
  {
    hide Trim, NumberOf;
    var s := Trim(value);
    if ParseRunDate(value) == Some(d) {
      assert s == s[..4] + "-" + s[5..7] + "-" + s[8..];
      assert WritesDate(value, s[..4], s[5..7], s[8..]);
    }
    if WritesYmd(value, d) {
      var year, month, day :| WritesDate(value, year, month, day)
        && NumberOf(year) == d.year && NumberOf(month) == d.month && NumberOf(day) == d.day;
      assert s[..4] == year && s[5..7] == month && s[8..] == day && s[4] == '-' && s[7] == '-';
    }
  }

  // ---- what is accepted -------------------------------------------------------

  /** A whole number of minutes, up to a year of them. */
  predicate WholeMinutes(m: Option<real>) {
    m.Some? && 1.0 <= m.value <= 525_600.0 && m.value == m.value.Floor as real
  }

  /**
   A message or reply trigger is always accepted, an interval or a timeout with whole
   minutes, and keeps nothing but these; otherwise minutes are what it is refused for.
   */
  lemma TimerAccepted(i: TriggerInput)
    requires i.kind != AtSchedule
    ensures
      NormalizeTrigger(i) == match i.kind
        case Interval =>
          if WholeMinutes(i.everyMinutes) then Success(Trigger(Interval, i.everyMinutes, None, None, None, None))
          else Failure(BadMinutes)
        case Timeout =>
          if WholeMinutes(i.delayMinutes) then Success(Trigger(Timeout, None, i.delayMinutes, None, None, None))
          else Failure(BadMinutes)
        case _ => Success(Trigger(i.kind, None, None, None, None, None))
  {
  }

  /** The fields of a calendar trigger: the time in two digits each, and what its kind of schedule needs. */
  ghost predicate IsCalendar(t: Trigger, time: Time, days: Option<seq<real>>, date: Option<string>) {
    && t.kind == AtSchedule && t.everyMinutes == None && t.delayMinutes == None
    && t.timeOfDay == Some(Pad2(time.hour) + ":" + Pad2(time.minute)) && t.weekdays == days && t.runDate == date
  }

  /**
   A calendar trigger is accepted exactly with a readable time and, when weekly, a
   weekday from 0 to 6, when for once, a readable date; the weekdays are kept in order
   and once each, the date trimmed. A time that does not read is complained of first.
   */
  lemma CalendarAccepted(i: TriggerInput)
    requires i.kind == AtSchedule
    ensures
      var time := ParseTimeOfDay(if i.timeOfDay.Some? then i.timeOfDay.value else "");
      var days := if i.weekdays.Some? then i.weekdays.value else [];
      var date := if i.runDate.Some? then i.runDate.value else "";
      var asked := if i.scheduleKind.Some? then i.scheduleKind.value
                   else if date != "" then Once else if days != [] then Weekly else Daily;
      match NormalizeTrigger(i)
      case Failure(BadTime) => time.None?
      case Failure(NoWeekdays) => time.Some? && asked == Weekly && forall x :: x in days ==> !(0.0 <= x <= 6.0)
      case Failure(BadRunDate) => time.Some? && asked == Once && ParseRunDate(date).None?
      case Failure(BadMinutes) => false
      case Success(t) =>
        && time.Some?
        && (asked == Daily ==> IsCalendar(t, time.value, None, None))
        && (asked == Once ==> ParseRunDate(date).Some? && IsCalendar(t, time.value, None, Some(Trim(date))))
        && (asked == Weekly ==>
              && t.weekdays.Some? && IsCalendar(t, time.value, t.weekdays, None)
              && t.weekdays.value != [] && StrictlyIncreasing(t.weekdays.value)
              && forall x :: x in t.weekdays.value <==> x in days && 0.0 <= x <= 6.0)
  {
    hide ParseTimeOfDay, ParseRunDate, Trim, Pad2;
    ParseTrimmed("");
    NothingReads();
    var days := NormalizeWeekdays(OrElse(i.weekdays, []));
    if days != [] {
      assert days[0] in days;
    }
  }

  lemma NothingReads()
    ensures ParseRunDate("") == None
  {
  }

  /** What only happens when something else does, or happened once, has no next run of its own. */
  lemma SpentForGood(t: Trigger, from: int, z: Zone)
    requires t.kind == Message || t.kind == OnReply || t.kind == Timeout
    ensures NextTriggerRun(t, from, z) == None
  {
    hide NextScheduleRun;
  }

  /** A fraction of a millisecond is dropped, before the epoch as after it. */
  lemma FractionDropped(x: real)
    requires 0.0 <= x
    ensures TimeClip(x) as real <= x < TimeClip(x) as real + 1.0 && TimeClip(-x) == -TimeClip(x)
  {
    assert -(-x) == x;
  }

  /** Nor has an interval under a minute; any other comes its whole minutes later. */
  lemma IntervalRuns(t: Trigger, from: int, z: Zone, minutes: nat)
    requires t.kind == Interval
    ensures t.everyMinutes == Some(minutes as real) && minutes >= 1 ==>
              NextTriggerRun(t, from, z) == Some(from + 60_000 * minutes)
    ensures t.everyMinutes == None || t.everyMinutes.value < 1.0 ==> NextTriggerRun(t, from, z) == None
  {
    hide NextScheduleRun;
    assert from as real + minutes as real * 60_000.0 == (from + 60_000 * minutes) as real;
  }
}
