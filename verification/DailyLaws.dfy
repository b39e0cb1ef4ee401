/** What the daily job keeps over every run of its steps, in any interleaving. */
module DailyLaws {
  import opened Wrappers
  import opened Calendar
  import opened Schedule
  import opened Boundaries
  import opened NextRun
  import opened DailyDue
  import opened DailyJobs
  import Interval

  // ---- runs -----------------------------------------------------------------

  /** A run of the scheduler: `ss[i]` before event `es[i]`, `ss[i + 1]` after it. */
  ghost predicate IsRun(ss: seq<State>, es: seq<Event>) {
    && |ss| == |es| + 1
    && ss[0] == INITIAL
    && forall i :: 0 <= i < |es| ==> Enabled(ss[i], es[i]) && ss[i + 1] == Step(ss[i], es[i])
  }

  /** The clock never goes back between two decisions. */
  ghost predicate ClockForward(es: seq<Event>) {
    forall i, j :: 0 <= i < j < |es| && es[i].Decide? && es[j].Decide? ==> es[i].now <= es[j].now
  }

  ghost predicate NoRestart(es: seq<Event>, from: nat, to: nat)
    requires to <= |es|
  {
    forall i :: from <= i < to ==> !es[i].Restart?
  }

  // ---- one tick at a time ---------------------------------------------------

  /** At most one body is in flight, exactly while `ticking`; only it has progress. */
  predicate OneTick(s: State) {
    && |s.bodies| == (if s.ticker.ticking then 1 else 0)
    && (s.ticker.progress.Some? ==> |s.bodies| == 1 && s.bodies[0].RunningJob?)
  }

  lemma StepKeepsOneTick(s: State, e: Event)
    requires OneTick(s) && Enabled(s, e)
    ensures OneTick(Step(s, e))
  {
    hide IsDailyRunDue, NextScheduleRun;
  }

  /** At most one tick is ever in flight, whatever fires, is asked for or settles when. */
  lemma {:induction false} AtMostOneTick(ss: seq<State>, es: seq<Event>, i: nat)
    requires IsRun(ss, es) && i <= |es|
    ensures OneTick(ss[i])
  {
    if i > 0 {
      AtMostOneTick(ss, es, i - 1);
      StepKeepsOneTick(ss[i - 1], es[i - 1]);
    }
  }

  // ---- no target twice ------------------------------------------------------

  /** Event `i` starts the job because it is due. */
  predicate Serves(ss: seq<State>, es: seq<Event>, i: nat) {
    && i < |es| && i < |ss|
    && es[i].Decide?
    && IsDailyRunDue(es[i].runTime, es[i].now, es[i].zone, ss[i].lastDailyRunAt)
  }

  /** The run instant a decision is about. */
  function TargetOf(e: Event): Option<int>
    requires e.Decide?
  {
    TodaysRunInstant(e.runTime, e.now, e.zone)
  }

  lemma {:induction false} LastRunGrows(ss: seq<State>, es: seq<Event>, i: nat, j: nat)
    requires IsRun(ss, es) && ClockForward(es) && Serves(ss, es, i)
    requires i < j <= |es| && NoRestart(es, i, j)
    ensures ss[j].lastDailyRunAt.Some? && es[i].now <= ss[j].lastDailyRunAt.value
  {
    hide IsDailyRunDue, NextScheduleRun;
    if j > i + 1 {
      LastRunGrows(ss, es, i, j - 1);
    }
    assert ss[j] == Step(ss[j - 1], es[j - 1]);
  }

  /** The last run on record was a served decision. */
  lemma {:induction false} LastRunServed(ss: seq<State>, es: seq<Event>, j: nat) returns (i: nat)
    requires IsRun(ss, es) && j <= |es| && ss[j].lastDailyRunAt.Some?
    ensures i < j && Serves(ss, es, i) && es[i].now == ss[j].lastDailyRunAt.value && NoRestart(es, i, j)
  {
    hide IsDailyRunDue, NextScheduleRun;
    assert ss[j] == Step(ss[j - 1], es[j - 1]);
    if Serves(ss, es, j - 1) {
      i := j - 1;
    } else {
      i := LastRunServed(ss, es, j - 1);
    }
  }

  /** A run that decision `j` still knows of, at or after its target. */
  ghost predicate Covers(ss: seq<State>, es: seq<Event>, i: nat, j: nat)
    requires j < |es| && es[j].Decide? && TargetOf(es[j]).Some?
  {
    i < j && Serves(ss, es, i) && NoRestart(es, i, j) && TargetOf(es[j]).value <= es[i].now
  }

  /**
   When an unforced tick starts the job, in any zones and with settings that change
   from tick to tick: exactly when its target has come and no run since the last
   restart was at or after it.
   */
  lemma ServesExactly(ss: seq<State>, es: seq<Event>, j: nat)
    requires IsRun(ss, es) && ClockForward(es) && j < |es| && es[j].Decide?
    ensures Serves(ss, es, j)
            <==> TargetOf(es[j]).Some? && TargetOf(es[j]).value <= es[j].now && forall i :: !Covers(ss, es, i, j)
  {
    hide TodaysRunInstant, NextScheduleRun;
    if i :| TargetOf(es[j]).Some? && Covers(ss, es, i, j) {
      LastRunGrows(ss, es, i, j);
    }
    if TargetOf(es[j]).Some? && ss[j].lastDailyRunAt.Some? {
      var i := LastRunServed(ss, es, j);
      assert TargetOf(es[j]).value <= es[i].now ==> Covers(ss, es, i, j);
    }
  }

  /**
   Between restarts no target is served twice, even when the run time or the
   zone changes from tick to tick: a later run's target lies strictly after the
   time of the earlier run, which is not before its own target.
   */
  lemma NoTargetTwice(ss: seq<State>, es: seq<Event>, i: nat, j: nat)
    requires IsRun(ss, es) && ClockForward(es)
    requires i < j && Serves(ss, es, i) && Serves(ss, es, j) && NoRestart(es, i, j)
    ensures TargetOf(es[i]).value <= es[i].now < TargetOf(es[j]).value
  {
    hide TodaysRunInstant, NextScheduleRun, Serves;
    ServesAt(ss, es, i);
    ServesAt(ss, es, j);
    ServesExactly(ss, es, i);
    ServesExactly(ss, es, j);
    assert !Covers(ss, es, i, j);
  }

  lemma ServesAt(ss: seq<State>, es: seq<Event>, i: nat)
    requires Serves(ss, es, i)
    ensures i < |es| && es[i].Decide?
  {
  }

  /**
   A target once served is served again exactly when the process restarts after
   every run that served it or came later.
   */
  lemma ServedAgainExactly(ss: seq<State>, es: seq<Event>, i: nat, j: nat)
    requires IsRun(ss, es) && ClockForward(es) && i < j < |es| && es[j].Decide?
    requires Serves(ss, es, i) && TargetOf(es[i]) == TargetOf(es[j])
    ensures Serves(ss, es, j) <==> forall k: nat :: i <= k < j && Serves(ss, es, k) ==> !NoRestart(es, k, j)
  {
    hide TodaysRunInstant, NextScheduleRun, Serves;
    ServesAt(ss, es, i);
    ServesExactly(ss, es, i);
    ServesExactly(ss, es, j);
    forall k: nat | i <= k < j && Serves(ss, es, k) ensures NoRestart(es, k, j) ==> Covers(ss, es, k, j) {
      ServesAt(ss, es, k);
    }
    if k: nat :| Covers(ss, es, k, j) {
      if k < i {
        assert NoRestart(es, i, j);
      }
    }
  }

  /** A day whose run is served, then the process restarts and ticks again. */
  function RestartedDay(runTime: string, now: int, zone: Zone, done: Interval.Outcome): seq<Event> {
    [STARTED, TimerFires, Decide(0, now, runTime, zone), Settle(0, now, done),
     Restart, STARTED, TimerFires, Decide(0, now, runTime, zone)]
  }

  const STARTED := Event.Start

  /** From a fresh process: started, ticked and decided, a job that is due runs. */
  lemma FreshServes(runTime: string, now: int, zone: Zone, done: Interval.Outcome)
    returns (s1: State, s2: State, s3: State)
    requires TodaysRunInstant(runTime, now, zone).Some?
    requires TodaysRunInstant(runTime, now, zone).value <= now
    ensures
      var decide := Decide(0, now, runTime, zone);
      && Enabled(INITIAL, STARTED) && s1 == Step(INITIAL, STARTED)
      && Enabled(s1, TimerFires) && s2 == Step(s1, TimerFires)
      && Enabled(s2, decide) && s3 == Step(s2, decide)
      && Enabled(s3, Settle(0, now, done))
  {
    hide TodaysRunInstant, NextScheduleRun;
    s1 := Step(INITIAL, STARTED);
    s2 := Step(s1, TimerFires);
    s3 := Step(s2, Decide(0, now, runTime, zone));
  }

  /**
   The last run is only remembered in memory, so a process that restarts after the
   day's run serves the same target again, at any time past it and in any zone.
   */
  lemma RestartServesTwice(runTime: string, now: int, zone: Zone, done: Interval.Outcome)
    returns (ss: seq<State>)
    requires TodaysRunInstant(runTime, now, zone).Some?
    requires TodaysRunInstant(runTime, now, zone).value <= now
    ensures
      var es := RestartedDay(runTime, now, zone, done);
      IsRun(ss, es) && ClockForward(es) && Serves(ss, es, 2) && Serves(ss, es, 7)
  {
    hide TodaysRunInstant, NextScheduleRun, IsDailyRunDue, Decided, Ticked;
    var es := RestartedDay(runTime, now, zone, done);
    var s1, s2, s3 := FreshServes(runTime, now, zone, done);
    var s4 := Step(s3, Settle(0, now, done));
    ss := [INITIAL, s1, s2, s3, s4, INITIAL, s1, s2, s3];
    assert IsRun(ss, es) && ClockForward(es);
    ServesExactly(ss, es, 2);
    ServesExactly(ss, es, 7);
    assert es[4].Restart?;
  }

  // ---- every day is served --------------------------------------------------

  /** Every decision reads the same settings: this run time, in this zone. */
  ghost predicate FixedSettings(es: seq<Event>, runTime: string, z: Zone) {
    forall i :: 0 <= i < |es| && es[i].Decide? ==> es[i].runTime == runTime && es[i].zone == z
  }

  /** The target of a decision: the run of the day the wall clock is on. */
  lemma DayTarget(runTime: string, now: int, z: Zone, time: Time)
    requires ZoneOk(z) && Modern(now, z) && ParseTimeOfDay(runTime) == Some(time)
    ensures TodaysRunInstant(runTime, now, z) == Some(RunAt(LocalDay(now, z), time, z))
  {
    hide ZonedWallClockToUtc, CivilOf, ParseTimeOfDay, DayFromYear, ZoneOk, RunAt;
    DayWallClock(LocalDay(now, z), time, z);
  }

  /**
   After an unforced tick at or past its target the target is served, whatever the
   zones and settings: by this tick, or by a run not before it.
   */
  lemma TargetIsServed(ss: seq<State>, es: seq<Event>, j: nat) returns (i: nat)
    requires IsRun(ss, es) && ClockForward(es) && j < |es| && es[j].Decide?
    requires TargetOf(es[j]).Some? && TargetOf(es[j]).value <= es[j].now
    ensures i <= j && Serves(ss, es, i) && (i == j || Covers(ss, es, i, j))
  {
    hide TodaysRunInstant, Serves;
    ServesExactly(ss, es, j);
    if Serves(ss, es, j) {
      i := j;
    } else {
      i :| Covers(ss, es, i, j);
    }
  }

  /** Once the run of day `n` has come, and until the midnight after it, it is day `n`. */
  lemma SameDay(n: int, time: Time, z: Zone, now: int, t: int)
    requires ValidTime(time) && LocalDay(now, z) == n && RunAt(n, time, z) <= t <= now
    requires Splits(WallAt(n, time), z) && Splits((n + 1) * DAY_MS, z)
    ensures LocalDay(t, z) == n
  {
    hide Landed;
    assert Local(now, z) < (n + 1) * DAY_MS && WallAt(n, time) <= Local(t, z) < (n + 1) * DAY_MS;
  }

  /**
   With fixed settings that run was for the same target, and the day's job has run:
   in any zone whose clock passes the run time and the midnight after it cleanly.
   */
  lemma DayIsServed(ss: seq<State>, es: seq<Event>, j: nat, runTime: string, z: Zone, time: Time)
    returns (i: nat)
    requires IsRun(ss, es) && ClockForward(es) && FixedSettings(es, runTime, z)
    requires ZoneOk(z) && ParseTimeOfDay(runTime) == Some(time)
    requires forall k :: 0 <= k < |es| && es[k].Decide? ==> Modern(es[k].now, z)
    requires j < |es| && es[j].Decide? && TargetOf(es[j]).value <= es[j].now
    requires Splits(WallAt(LocalDay(es[j].now, z), time), z) && Splits((LocalDay(es[j].now, z) + 1) * DAY_MS, z)
    ensures i <= j && Serves(ss, es, i) && TargetOf(es[i]) == TargetOf(es[j])
  {
    hide ParseTimeOfDay, TodaysRunInstant, Modern, Serves, LocalDay, RunAt, Splits, ZoneOk;
    DayTarget(runTime, es[j].now, z, time);
    i := TargetIsServed(ss, es, j);
    ServesAt(ss, es, i);
    DayTarget(runTime, es[i].now, z, time);
    SameDay(LocalDay(es[j].now, z), time, z, es[j].now, es[i].now);
  }

  // ---- what a decision and a settled job come to ----------------------------

  /** A decision that serves its target starts the job and records the time; any other ends the tick, waiting. */
  lemma DecideComesTo(ss: seq<State>, es: seq<Event>, j: nat)
    requires IsRun(ss, es) && j < |es| && es[j].Decide?
    ensures ss[j + 1].bodies == if Serves(ss, es, j) then [RunningJob(false)] else []
    ensures ss[j + 1].lastDailyRunAt == if Serves(ss, es, j) then Some(es[j].now) else ss[j].lastDailyRunAt
    ensures !Serves(ss, es, j) ==>
              var next := NextScheduleRun(TaskSchedule(ScheduleKind.Daily, es[j].runTime, None, None), es[j].now, es[j].zone);
              ShowsTick(ss[j + 1], es[j].now, Interval.Done(Interval.Waiting(next)))
    ensures ss[j + 1].lastResult == ss[j].lastResult && ss[j + 1].forceNext == ss[j].forceNext
  {
    hide IsDailyRunDue, NextScheduleRun;
    AtMostOneTick(ss, es, j);
    assert ss[j + 1] == Step(ss[j], es[j]);
  }

  /** A firing enters a tick when none is in flight, and is nothing otherwise. */
  lemma FiringComesTo(ss: seq<State>, es: seq<Event>, j: nat)
    requires IsRun(ss, es) && j < |es| && es[j].TimerFires?
    ensures ss[j].ticker.ticking ==> ss[j + 1] == ss[j]
    ensures !ss[j].ticker.ticking ==>
              && ss[j + 1].ticker.ticking && !ss[j + 1].forceNext
              && ss[j + 1].bodies == [if ss[j].forceNext then RunningJob(true) else ReadingSettings]
  {
    AtMostOneTick(ss, es, j);
    assert ss[j + 1] == Step(ss[j], es[j]);
  }

  /** The ticker shows a tick that ended so, at this time. */
  predicate ShowsTick(s: State, now: int, outcome: Interval.Outcome) {
    && s.ticker.lastTickAt == Some(now)
    && match outcome
       case Done(summary) => s.ticker.lastSummary == Some(summary) && s.ticker.lastError == None
       case Threw(message) =>
         s.ticker.lastSummary == Some(Interval.Text(message)) && s.ticker.lastError == Some(message)
  }

  /** Event `i` ends the tick in flight. */
  predicate EndsTick(ss: seq<State>, es: seq<Event>, i: nat) {
    i < |es| && (es[i].Settle? || (es[i].Decide? && !Serves(ss, es, i)))
  }

  /** Until the next tick ends the ticker shows how the job of the last one settled; the job being over, it is free. */
  lemma {:induction false} LastTickShown(ss: seq<State>, es: seq<Event>, i: nat, j: nat)
    requires IsRun(ss, es) && i < j <= |es| && es[i].Settle? && NoRestart(es, i, j)
    requires forall m: nat :: i < m < j ==> !EndsTick(ss, es, m)
    ensures ShowsTick(ss[j], es[i].now, es[i].outcome)
    ensures j == i + 1 ==> !ss[j].ticker.ticking && ss[j].bodies == []
  {
    hide IsDailyRunDue, NextScheduleRun;
    AtMostOneTick(ss, es, i);
    if j > i + 1 {
      LastTickShown(ss, es, i, j - 1);
      assert !EndsTick(ss, es, j - 1);
    }
    assert ss[j] == Step(ss[j - 1], es[j - 1]);
  }

  /** The card keeps the last job that did not fail, through waiting ticks and failures. */
  lemma {:induction false} LastResultShown(ss: seq<State>, es: seq<Event>, i: nat, j: nat)
    requires IsRun(ss, es) && i < j <= |es| && es[i].Settle? && es[i].outcome.Done? && NoRestart(es, i, j)
    requires forall m :: i < m < j ==> !(es[m].Settle? && es[m].outcome.Done?)
    ensures ss[j].lastResult == Some(LastResult(es[i].now, es[i].outcome.summary))
  {
    hide IsDailyRunDue, NextScheduleRun;
    if j > i + 1 {
      LastResultShown(ss, es, i, j - 1);
    }
    assert ss[j] == Step(ss[j - 1], es[j - 1]);
  }

  /** What a job reports last is shown until it settles. */
  lemma {:induction false} LastProgressShown(ss: seq<State>, es: seq<Event>, i: nat, j: nat)
    requires IsRun(ss, es) && i < j <= |es| && es[i].Report? && NoRestart(es, i, j)
    requires forall m :: i < m < j ==> !es[m].Report? && !es[m].Settle?
    ensures ss[j].ticker.progress == es[i].progress
    ensures |ss[j].bodies| == 1 && ss[j].bodies[0].RunningJob?
  {
    hide Step, Enabled, OneTick;
    AtMostOneTick(ss, es, j - 1);
    if j > i + 1 {
      LastProgressShown(ss, es, i, j - 1);
    }
    ProgressKept(ss[j - 1], es[j - 1]);
    assert Enabled(ss[j - 1], es[j - 1]) && ss[j] == Step(ss[j - 1], es[j - 1]);
  }

  lemma ProgressKept(s: State, e: Event)
    requires OneTick(s) && Enabled(s, e) && !e.Restart? && !e.Settle?
    requires e.Report? || (|s.bodies| == 1 && s.bodies[0].RunningJob?)
    ensures
      var next := Step(s, e);
      && |next.bodies| == 1 && next.bodies[0].RunningJob?
      && next.ticker.progress == if e.Report? then e.progress else s.ticker.progress
  {
    hide IsDailyRunDue, NextScheduleRun;
  }

  /** The ticker may fire exactly from a start to the next stop or restart. */
  lemma {:induction false} ArmedExactly(ss: seq<State>, es: seq<Event>, j: nat)
    requires IsRun(ss, es) && j <= |es|
    ensures Enabled(ss[j], TimerFires)
            <==> exists i: nat :: i < j && es[i].Start? && forall m :: i < m < j ==> !es[m].Stop? && !es[m].Restart?
  {
    hide Step, Enabled;
    if j == 0 {
      StartsUnarmed();
    } else {
      ArmedExactly(ss, es, j - 1);
      ArmedStep(ss[j - 1], es[j - 1]);
      assert ss[j] == Step(ss[j - 1], es[j - 1]);
      if Enabled(ss[j - 1], TimerFires) && Enabled(ss[j], TimerFires) && !es[j - 1].Start? {
        var i: nat :| i < j - 1 && es[i].Start? && forall m :: i < m < j - 1 ==> !es[m].Stop? && !es[m].Restart?;
        assert forall m :: i < m < j ==> !es[m].Stop? && !es[m].Restart?;
      }
    }
  }

  lemma StartsUnarmed()
    ensures !Enabled(INITIAL, TimerFires)
  {
  }

  lemma ArmedStep(s: State, e: Event)
    requires Enabled(s, e)
    ensures Enabled(Step(s, e), TimerFires) <==> e.Start? || (Enabled(s, TimerFires) && !e.Stop? && !e.Restart?)
  {
    hide IsDailyRunDue, NextScheduleRun;
  }

  // ---- Run now is never lost ------------------------------------------------

  /** Event `i` starts a tick: its body is entered. */
  predicate StartsTick(s: State, e: Event) {
    (e.TimerFires? || e.RunNow?) && !s.ticker.ticking
  }

  lemma {:induction false} ForceKept(ss: seq<State>, es: seq<Event>, i: nat, j: nat)
    requires IsRun(ss, es) && i < j <= |es| && es[i].RunNow?
    requires NoRestart(es, i, j) && forall k :: i <= k < j ==> !StartsTick(ss[k], es[k])
    ensures ss[j].forceNext
  {
    hide IsDailyRunDue, NextScheduleRun;
    if j > i + 1 {
      ForceKept(ss, es, i, j - 1);
    }
    assert ss[j] == Step(ss[j - 1], es[j - 1]) && !StartsTick(ss[j - 1], es[j - 1]);
  }

  /**
   A "Run now" is never lost: the next tick to start, at the request itself or
   after the tick in flight, runs the job at once, whatever the clock says.
   */
  lemma RunNowRuns(ss: seq<State>, es: seq<Event>, i: nat, j: nat)
    requires IsRun(ss, es) && i <= j < |es| && es[i].RunNow?
    requires NoRestart(es, i, j) && StartsTick(ss[j], es[j])
    requires forall k :: i <= k < j ==> !StartsTick(ss[k], es[k])
    ensures ss[j + 1].bodies == [RunningJob(true)] && !ss[j + 1].forceNext
  {
    AtMostOneTick(ss, es, j);
    if i < j {
      ForceKept(ss, es, i, j);
    }
    assert ss[j + 1] == Step(ss[j], es[j]);
  }

  // ---- the reported next run ------------------------------------------------

  /** The clock passes today's midnight cleanly, and shows the run time of today and of tomorrow once. */
  ghost predicate DayPasses(now: int, time: Time, z: Zone)
    requires ValidTime(time)
  {
    var n := LocalDay(now, z);
    Splits(n * DAY_MS, z) && PassesOnce(WallAt(n, time), z) && PassesOnce(WallAt(n + 1, time), z)
  }

  /**
   With a last run in the past the job card reports the least instant from now on at
   which the job is due; an unreadable run time has none, and reports none.
   */
  lemma ReportIsLeastDue(last: Option<int>, now: int, runTime: string, z: Zone)
    requires ZoneOk(z) && Modern(now, z) && (last.Some? ==> last.value <= now)
    requires ParseTimeOfDay(runTime).Some? && !IsDailyRunDue(runTime, now, z, last) ==>
               DayPasses(now, ParseTimeOfDay(runTime).value, z)
    ensures
      match ReportedNextRun(last, now, runTime, z)
      case None => forall t: int :: now <= t ==> !IsDailyRunDue(runTime, t, z, last)
      case Some(x) =>
        && now <= x && IsDailyRunDue(runTime, x, z, last)
        && forall t: int :: now <= t < x ==> !IsDailyRunDue(runTime, t, z, last)
  {
    hide ParseTimeOfDay, ZonedWallClockToUtc, ZonedDate, NextDaily, DayFromYear, IsDailyRunDue, ZoneOk, DayPasses;
    var parsed := ParseTimeOfDay(runTime);
    if parsed.None? {
      NeverDue(runTime, last, z);
    } else if !IsDailyRunDue(runTime, now, z, last) {
      NextIsLeastDue(last, now, runTime, z, parsed.value);
    }
  }

  lemma NeverDue(runTime: string, last: Option<int>, z: Zone)
    requires ParseTimeOfDay(runTime).None?
    ensures forall t :: !IsDailyRunDue(runTime, t, z, last)
  {
    hide ParseTimeOfDay, ZonedWallClockToUtc, ZonedDate;
  }

  /** When a job is due. */
  lemma DueWhen(runTime: string, t: int, z: Zone, last: Option<int>, time: Time)
    requires ZoneOk(z) && Modern(t, z) && ParseTimeOfDay(runTime) == Some(time)
    ensures
      var target := RunAt(LocalDay(t, z), time, z);
      IsDailyRunDue(runTime, t, z, last) <==> target <= t && (last.None? || last.value < target)
  {
    hide ParseTimeOfDay, TodaysRunInstant, Modern, RunAt, ZoneOk;
    DayTarget(runTime, t, z, time);
  }

  /** The next daily run, by day. */
  lemma NextByDay(now: int, z: Zone, time: Time)
    requires ZoneOk(z) && Modern(now, z) && ValidTime(time)
    ensures
      var n := LocalDay(now, z);
      NextDaily(time, now, z) == if RunAt(n, time, z) > now then RunAt(n, time, z) else RunAt(n + 1, time, z)
  {
    hide CivilOf, DayFromYear, ZonedWallClockToUtc, AddCalendarDays, RunAt, ZoneOk;
    var n := LocalDay(now, z);
    DayWallClock(n, time, z);
    DayWallClock(n + 1, time, z);
    ModernYear(n);
    AddDays(n, 1);
  }

  /** Until the next run the wall clock is on its day or on the one before it, and not before today. */
  lemma UntilNext(now: int, z: Zone, time: Time, m: int, t: int)
    requires ValidTime(time) && DayPasses(now, time, z) && now <= t
    requires LocalDay(now, z) <= m <= LocalDay(now, z) + 1 && t < RunAt(m, time, z)
    ensures LocalDay(now, z) <= LocalDay(t, z) <= m
  {
    hide Landed;
    var n := LocalDay(now, z);
    assert n * DAY_MS <= Local(now, z);
    assert n * DAY_MS <= Local(t, z) < WallAt(m, time);
  }

  lemma NextIsLeastDue(last: Option<int>, now: int, runTime: string, z: Zone, time: Time)
    requires ZoneOk(z) && Modern(now, z) && (last.Some? ==> last.value <= now)
    requires ParseTimeOfDay(runTime) == Some(time) && !IsDailyRunDue(runTime, now, z, last)
    requires DayPasses(now, time, z)
    ensures
      var x := NextDaily(time, now, z);
      && now <= x && IsDailyRunDue(runTime, x, z, last)
      && forall t: int :: now <= t < x ==> !IsDailyRunDue(runTime, t, z, last)
  {
    hide ParseTimeOfDay, IsDailyRunDue, NextDaily, DayFromYear, RunAt, LocalDay, PassesOnce, Splits, ZoneOk, WallAt;
    var n := LocalDay(now, z);
    NextByDay(now, z, time);
    DueWhen(runTime, now, z, last, time);
    var m := if RunAt(n, time, z) > now then n else n + 1;
    var x := RunAt(m, time, z);
    AheadLater(now, n + 1, time, z);
    ShownAt(m, time, z);
    DueWhen(runTime, x, z, last, time);
    forall t: int | now <= t < x ensures !IsDailyRunDue(runTime, t, z, last) {
      UntilNext(now, z, time, m, t);
      DueWhen(runTime, t, z, last, time);
    }
  }
}
