/**
 The fixed-interval ticker (`core/server/jobs/interval-scheduler.ts`), one
 atomic step per event-loop turn.
 */
module Interval {
  import opened Wrappers

  datatype Progress = Progress(step: string)

  /** A summary line: a text, or the daily job's "waiting (next run ...)" before it is printed. */
  datatype Summary = Text(text: string) | Waiting(next: Option<int>)

  /** How a tick's body ended. */
  datatype Outcome = Done(summary: Summary) | Threw(message: string)

  datatype State = State(
    armed: bool,
    ticking: bool,
    lastTickAt: Option<int>,
    lastSummary: Option<Summary>,
    lastError: Option<string>,
    progress: Option<Progress>)
  {
    /** `finally` of `tick`, with what the body came to. */
    function Settled(now: int, outcome: Outcome): State {
      match outcome
      case Done(s) =>
        this.(lastSummary := Some(s), lastError := None, lastTickAt := Some(now), progress := None, ticking := false)
      case Threw(m) =>
        this.(lastSummary := Some(Text(m)), lastError := Some(m), lastTickAt := Some(now), progress := None, ticking := false)
    }
  }

  const INITIAL := State(false, false, None, None, None, None)

  class Scheduler {
    var armed: bool
    var ticking: bool
    var lastTickAt: Option<int>
    var lastSummary: Option<Summary>
    var lastError: Option<string>
    var progress: Option<Progress>

    constructor ()
      ensures Snapshot() == INITIAL
    {
      armed, ticking := false, false;
      lastTickAt, lastSummary, lastError, progress := None, None, None, None;
    }

    function Snapshot(): State
      reads this
    {
      State(armed, ticking, lastTickAt, lastSummary, lastError, progress)
    }

    method Start()
      modifies this
      ensures Snapshot() == old(Snapshot()).(armed := true)
    {
      if armed { return; }
      armed := true;
    }

    method Stop()
      modifies this
      ensures Snapshot() == old(Snapshot()).(armed := false)
    {
      if armed {
        armed := false;
      }
    }

    /** The guard of `tick`: whether the body is entered. */
    method Enter() returns (entered: bool)
      modifies this
      ensures entered == !old(ticking)
      ensures Snapshot() == old(Snapshot()).(ticking := true)
    {
      if ticking { return false; }
      ticking := true;
      return true;
    }

    method ReportProgress(next: Option<Progress>)
      modifies this
      ensures Snapshot() == old(Snapshot()).(progress := next)
    {
      progress := next;
    }

    method Settle(now: int, outcome: Outcome)
      modifies this
      ensures Snapshot() == old(Snapshot()).Settled(now, outcome)
    {
      match outcome {
        case Done(s) =>
          lastSummary := Some(s);
          lastError := None;
        case Threw(m) =>
          lastError := Some(m);
          lastSummary := Some(Text(m));
      }
      lastTickAt := Some(now);
      progress := None;
      ticking := false;
    }
  }
}

/** Whether the daily run is owed (`core/server/jobs/daily-due.ts`). */
module DailyDue {
  import opened Wrappers
  import opened Schedule

  function TodaysRunInstant(timeOfDay: string, now: int, z: Zone): Option<int> {
    match ParseTimeOfDay(timeOfDay)
    case None => None
    case Some(time) => Some(ZonedWallClockToUtc(ZonedDate(now, z), time.hour, time.minute, z))
  }

  predicate IsDailyRunDue(timeOfDay: string, now: int, z: Zone, lastRunAt: Option<int>) {
    match TodaysRunInstant(timeOfDay, now, z)
    case None => false
    case Some(target) => target <= now && (lastRunAt.None? || lastRunAt.value < target)
  }
}

/**
 The daily job on top of the ticker (`core/server/jobs/daily-scheduler.ts`).
 A tick's body is asynchronous: it starts, reads the settings, and runs the job,
 and anything may happen in between. Bodies in flight are kept in a sequence, so
 that there is at most one is proved and not built in.
 */
module DailyJobs {
  import opened Wrappers
  import opened Schedule
  import opened DailyDue
  import Interval

  /** Where a tick's body stands: awaiting the settings, or awaiting the job. */
  datatype Body = ReadingSettings | RunningJob(forced: bool)

  datatype LastResult = LastResult(at: int, summary: Interval.Summary)

  datatype State = State(
    ticker: Interval.State,
    bodies: seq<Body>,
    forceNext: bool,
    lastDailyRunAt: Option<int>,
    lastResult: Option<LastResult>)

  const INITIAL := State(Interval.INITIAL, [], false, None, None)

  datatype Event =
    | Start
    | Stop
    | TimerFires
    | RunNow
    | Decide(i: nat, now: int, runTime: string, zone: Zone)
    | Settle(i: nat, now: int, outcome: Interval.Outcome)
    | Report(progress: Option<Interval.Progress>)
    | Restart

  predicate Enabled(s: State, e: Event) {
    match e
    case TimerFires => s.ticker.armed
    case Decide(i, _, _, _) => i < |s.bodies| && s.bodies[i].ReadingSettings?
    case Settle(i, _, _) => i < |s.bodies| && s.bodies[i].RunningJob?
    case Report(_) => exists i :: 0 <= i < |s.bodies| && s.bodies[i].RunningJob?
    case _ => true
  }

  function Without(bodies: seq<Body>, i: nat): seq<Body>
    requires i < |bodies|
  {
    bodies[..i] + bodies[i + 1..]
  }

  /** `tick`, up to the first `await` of its body. */
  function Ticked(s: State): State {
    if s.ticker.ticking then s
    else
      s.(ticker := s.ticker.(ticking := true),
         bodies := s.bodies + [if s.forceNext then RunningJob(true) else ReadingSettings],
         forceNext := false)
  }

  function DailySchedule(runTime: string): TaskSchedule {
    TaskSchedule(ScheduleKind.Daily, runTime, None, None)
  }

  function Decided(s: State, i: nat, now: int, runTime: string, zone: Zone): State
    requires i < |s.bodies|
  {
    if IsDailyRunDue(runTime, now, zone, s.lastDailyRunAt) then
      s.(lastDailyRunAt := Some(now), bodies := s.bodies[i := RunningJob(false)])
    else
      var next := NextScheduleRun(DailySchedule(runTime), now, zone);
      s.(ticker := s.ticker.Settled(now, Interval.Done(Interval.Waiting(next))), bodies := Without(s.bodies, i))
  }

  function Step(s: State, e: Event): State
    requires Enabled(s, e)
  {
    match e
    case Start => s.(ticker := s.ticker.(armed := true))
    case Stop => s.(ticker := s.ticker.(armed := false))
    case TimerFires => Ticked(s)
    case RunNow => Ticked(s.(forceNext := true))
    case Decide(i, now, runTime, zone) => Decided(s, i, now, runTime, zone)
    case Settle(i, now, outcome) =>
      s.(ticker := s.ticker.Settled(now, outcome),
         bodies := Without(s.bodies, i),
         lastResult := if outcome.Done? then Some(LastResult(now, outcome.summary)) else s.lastResult)
    case Report(progress) => s.(ticker := s.ticker.(progress := progress))
    case Restart => INITIAL
  }

  /** The store and its ticker, as the source mutates them. */
  class Scheduler {
    const ticker: Interval.Scheduler
    var bodies: seq<Body>
    var forceNext: bool
    var lastDailyRunAt: Option<int>
    var lastResult: Option<LastResult>

    constructor ()
      ensures Snapshot() == INITIAL && fresh(ticker)
    {
      ticker := new Interval.Scheduler();
      bodies, forceNext, lastDailyRunAt, lastResult := [], false, None, None;
    }

    function Snapshot(): State
      reads this, ticker
    {
      State(ticker.Snapshot(), bodies, forceNext, lastDailyRunAt, lastResult)
    }

    method Start()
      modifies this, ticker
      ensures Snapshot() == Step(old(Snapshot()), Event.Start)
    {
      ticker.Start();
    }

    method Stop()
      modifies this, ticker
      ensures Snapshot() == Step(old(Snapshot()), Event.Stop)
    {
      ticker.Stop();
    }

    /** The ticker's `tick`, into the synchronous head of `runTick`. */
    method Tick()
      modifies this, ticker
      ensures Snapshot() == Ticked(old(Snapshot()))
    {
      var entered := ticker.Enter();
      if entered {
        var forced := forceNext;
        forceNext := false;
        bodies := bodies + [if forced then RunningJob(true) else ReadingSettings];
      }
    }

    method RunNow()
      modifies this, ticker
      ensures Snapshot() == Step(old(Snapshot()), Event.RunNow)
    {
      forceNext := true;
      Tick();
    }

    /** The rest of an unforced `runTick`, once the settings are read. */
    method Decide(i: nat, now: int, runTime: string, zone: Zone)
      requires Enabled(Snapshot(), Event.Decide(i, now, runTime, zone))
      modifies this, ticker
      ensures Snapshot() == Step(old(Snapshot()), Event.Decide(i, now, runTime, zone))
    {
      hide IsDailyRunDue, NextScheduleRun;
      if !IsDailyRunDue(runTime, now, zone, lastDailyRunAt) {
        bodies := Without(bodies, i);
        var next := ComputeNextScheduleRun(DailySchedule(runTime), now, zone);
        ticker.Settle(now, Interval.Done(Interval.Waiting(next)));
      } else {
        lastDailyRunAt := Some(now);
        bodies := bodies[i := RunningJob(false)];
      }
    }

    /** The job settles, and with it the tick. */
    method Settle(i: nat, now: int, outcome: Interval.Outcome)
      requires Enabled(Snapshot(), Event.Settle(i, now, outcome))
      modifies this, ticker
      ensures Snapshot() == Step(old(Snapshot()), Event.Settle(i, now, outcome))
    {
      hide IsDailyRunDue, NextScheduleRun;
      if outcome.Done? {
        lastResult := Some(LastResult(now, outcome.summary));
      }
      bodies := Without(bodies, i);
      ticker.Settle(now, outcome);
    }

    /** The next run the job card reports. */
    method NextRunAt(now: int, runTime: string, zone: Zone) returns (next: Option<int>)
      ensures next == ReportedNextRun(lastDailyRunAt, now, runTime, zone)
    {
      var due := IsDailyRunDue(runTime, now, zone, lastDailyRunAt);
      if due {
        next := Some(now);
      } else {
        next := ComputeNextScheduleRun(DailySchedule(runTime), now, zone);
      }
    }
  }

  function ReportedNextRun(lastDailyRunAt: Option<int>, now: int, runTime: string, zone: Zone): Option<int> {
    if IsDailyRunDue(runTime, now, zone, lastDailyRunAt) then Some(now)
    else NextScheduleRun(DailySchedule(runTime), now, zone)
  }
}
