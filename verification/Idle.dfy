/**
 The idle-debounced scheduler (`core/server/jobs/idle-scheduler.ts`), one atomic
 step per event-loop turn. A job body is asynchronous: it starts when the timer
 fires and settles some turns later, so the bodies in flight are counted.
 */
module Idle {
  import opened Wrappers

  datatype Phase = Idling | Scheduled | Running

  datatype Progress = Progress(step: string)

  datatype Outcome = Done(summary: string) | Threw(message: string)

  datatype State = State(
    timer: Option<int>,
    phase: Phase,
    aborted: bool,
    stopped: bool,
    nextRunAt: Option<int>,
    lastRunAt: Option<int>,
    lastSummary: Option<string>,
    lastError: Option<string>,
    progress: Option<Progress>,
    bodies: nat)

  const INITIAL := State(None, Idling, false, false, None, None, None, None, None, 0)

  datatype Event =
    | Activity(now: int)
    | RunNow(now: int)
    | Stop(now: int)
    | Fires(now: int)
    | Settles(now: int, outcome: Outcome)
    | Report(now: int, progress: Option<Progress>)

  /** A timer fires no sooner than its deadline; only a body in flight settles or reports. */
  predicate Enabled(s: State, e: Event) {
    match e
    case Fires(now) => s.timer.Some? && s.timer.value <= now
    case Settles(_, _) => s.bodies > 0
    case Report(_, _) => s.bodies > 0
    case _ => true
  }

  function Armed(s: State, now: int, delay: nat): State {
    if s.stopped then s
    else s.(timer := Some(now + delay), nextRunAt := Some(now + delay), phase := Scheduled)
  }

  function Settled(s: State, now: int, outcome: Outcome, debounce: nat): State
    requires s.bodies > 0
  {
    var t := s.(
      lastSummary := Some(if outcome.Done? then outcome.summary else outcome.message),
      lastError := if outcome.Done? then None else Some(outcome.message),
      lastRunAt := Some(now),
      progress := None,
      bodies := s.bodies - 1);
    if !s.stopped && s.aborted then Armed(t, now, debounce)
    else t.(phase := Idling, nextRunAt := None)
  }

  function Step(s: State, e: Event, debounce: nat): State
    requires Enabled(s, e)
  {
    match e
    case Activity(now) =>
      if s.stopped then s
      else Armed(s.(aborted := s.aborted || s.phase == Running), now, debounce)
    case RunNow(now) =>
      if s.stopped || s.phase == Running then s else Armed(s, now, 0)
    case Stop(_) =>
      s.(stopped := true, aborted := true, timer := None, phase := Idling, nextRunAt := None)
    case Fires(_) =>
      if s.stopped || s.phase == Running then s.(timer := None)
      else s.(timer := None, aborted := false, phase := Running, nextRunAt := None, bodies := s.bodies + 1)
    case Settles(now, outcome) => Settled(s, now, outcome, debounce)
    case Report(_, progress) => s.(progress := progress)
  }

  class Scheduler {
    const debounce: nat
    var timer: Option<int>
    var phase: Phase
    var aborted: bool
    var stopped: bool
    var nextRunAt: Option<int>
    var lastRunAt: Option<int>
    var lastSummary: Option<string>
    var lastError: Option<string>
    var progress: Option<Progress>
    ghost var bodies: nat

    constructor (debounce: nat)
      ensures Snapshot() == INITIAL && this.debounce == debounce
    {
      this.debounce := debounce;
      timer, phase, aborted, stopped := None, Idling, false, false;
      nextRunAt, lastRunAt, lastSummary, lastError, progress := None, None, None, None, None;
      bodies := 0;
    }

    ghost function Snapshot(): State
      reads this
    {
      State(timer, phase, aborted, stopped, nextRunAt, lastRunAt, lastSummary, lastError, progress, bodies)
    }

    method SetPhase(next: Phase)
      modifies this
      ensures Snapshot() == old(Snapshot()).(
        phase := next, nextRunAt := if next != Scheduled then None else old(nextRunAt))
    {
      phase := next;
      if next != Scheduled {
        nextRunAt := None;
      }
    }

    method ClearTimer()
      modifies this
      ensures Snapshot() == old(Snapshot()).(timer := None)
    {
      if timer.Some? {
        timer := None;
      }
    }

    method Schedule(now: int, delay: nat)
      modifies this
      ensures Snapshot() == Armed(old(Snapshot()), now, delay)
    {
      if stopped { return; }
      ClearTimer();
      nextRunAt := Some(now + delay);
      SetPhase(Scheduled);
      timer := Some(now + delay);
    }

    method OnActivity(now: int)
      modifies this
      ensures Snapshot() == Step(old(Snapshot()), Activity(now), debounce)
    {
      if stopped { return; }
      if phase == Running {
        aborted := true;
      }
      Schedule(now, debounce);
    }

    method OnRunNow(now: int)
      modifies this
      ensures Snapshot() == Step(old(Snapshot()), RunNow(now), debounce)
    {
      if stopped { return; }
      if phase == Running { return; }
      Schedule(now, 0);
    }

    method OnStop(now: int)
      modifies this
      ensures Snapshot() == Step(old(Snapshot()), Stop(now), debounce)
    {
      stopped := true;
      aborted := true;
      ClearTimer();
      SetPhase(Idling);
    }

    /** The timer callback, up to the `await` of the body in `runJob`. */
    method OnTimer(now: int)
      requires Enabled(Snapshot(), Fires(now))
      modifies this
      ensures Snapshot() == Step(old(Snapshot()), Fires(now), debounce)
    {
      timer := None;
      if stopped || phase == Running { return; }
      aborted := false;
      SetPhase(Running);
      bodies := bodies + 1;
    }

    /** The rest of `runJob`, once its body has settled. */
    method OnSettled(now: int, outcome: Outcome)
      requires Enabled(Snapshot(), Settles(now, outcome))
      modifies this
      ensures Snapshot() == Step(old(Snapshot()), Settles(now, outcome), debounce)
    {
      match outcome {
        case Done(s) =>
          lastSummary := Some(s);
          lastError := None;
        case Threw(m) =>
          lastError := Some(m);
          lastSummary := lastError;
      }
      bodies := bodies - 1;
      lastRunAt := Some(now);
      progress := None;
      if !stopped && aborted {
        Schedule(now, debounce);
      } else {
        SetPhase(Idling);
      }
    }
  }
}

/** What the idle scheduler keeps over every run of its steps. */
module IdleLaws {
  import opened Wrappers
  import opened Idle

  ghost predicate IsRun(ss: seq<State>, es: seq<Event>, debounce: nat) {
    && |ss| == |es| + 1
    && ss[0] == INITIAL
    && forall i :: 0 <= i < |es| ==> Enabled(ss[i], es[i]) && ss[i + 1] == Step(ss[i], es[i], debounce)
  }

  ghost predicate ClockForward(es: seq<Event>) {
    forall i, j :: 0 <= i < j < |es| ==> es[i].now <= es[j].now
  }

  // ---- without any hypothesis -----------------------------------------------

  /** An armed timer means the scheduler is neither stopped nor in phase "running". */
  predicate TimerMeansWaiting(s: State) {
    s.timer.Some? ==> !s.stopped && s.phase != Running
  }

  lemma {:induction false} TimerAlwaysWaits(ss: seq<State>, es: seq<Event>, debounce: nat, i: nat)
    requires IsRun(ss, es, debounce) && i <= |es|
    ensures TimerMeansWaiting(ss[i])
  {
    if i > 0 {
      TimerAlwaysWaits(ss, es, debounce, i - 1);
      assert ss[i] == Step(ss[i - 1], es[i - 1], debounce);
    }
  }

  /**
   The guard of `runJob` never holds a run back: on every run, each firing of the
   timer starts one more body, whether or not another is still in flight.
   */
  lemma EveryFiringStarts(ss: seq<State>, es: seq<Event>, debounce: nat, i: nat)
    requires IsRun(ss, es, debounce) && i < |es| && es[i].Fires?
    ensures ss[i + 1].bodies == ss[i].bodies + 1 && ss[i + 1].phase == Running
  {
    TimerAlwaysWaits(ss, es, debounce, i);
    assert ss[i + 1] == Step(ss[i], es[i], debounce);
  }

  /** No timer fires while a body is in flight. */
  ghost predicate NoFiringInFlight(ss: seq<State>, es: seq<Event>)
    requires |ss| == |es| + 1
  {
    forall i :: 0 <= i < |es| && es[i].Fires? ==> ss[i].bodies == 0
  }

  lemma {:induction false} AtMostOneBody(ss: seq<State>, es: seq<Event>, debounce: nat, i: nat)
    requires IsRun(ss, es, debounce) && NoFiringInFlight(ss, es) && i <= |es|
    ensures ss[i].bodies <= 1
  {
    if i > 0 {
      AtMostOneBody(ss, es, debounce, i - 1);
      assert ss[i] == Step(ss[i - 1], es[i - 1], debounce);
    }
  }

  /** Bodies never overlap exactly when no timer fires while one is in flight. */
  lemma NonOverlapExactly(ss: seq<State>, es: seq<Event>, debounce: nat)
    requires IsRun(ss, es, debounce)
    ensures (forall i :: 0 <= i <= |es| ==> ss[i].bodies <= 1) <==> NoFiringInFlight(ss, es)
  {
    if NoFiringInFlight(ss, es) {
      forall i | 0 <= i <= |es| ensures ss[i].bodies <= 1 {
        AtMostOneBody(ss, es, debounce, i);
      }
    }
    if forall i :: 0 <= i <= |es| ==> ss[i].bodies <= 1 {
      forall i | 0 <= i < |es| && es[i].Fires? ensures ss[i].bodies == 0 {
        EveryFiringStarts(ss, es, debounce, i);
        assert ss[i + 1].bodies <= 1;
      }
    }
  }

  lemma {:induction false} DeadlineFar(ss: seq<State>, es: seq<Event>, debounce: nat, i: nat, j: nat)
    requires IsRun(ss, es, debounce) && ClockForward(es) && i < j <= |es| && es[i].Activity?
    requires forall m :: i < m < j ==> !es[m].RunNow?
    ensures ss[j].timer.Some? ==> es[i].now + debounce <= ss[j].timer.value
  {
    TimerAlwaysWaits(ss, es, debounce, i);
    if j > i + 1 {
      DeadlineFar(ss, es, debounce, i, j - 1);
    }
    assert ss[j] == Step(ss[j - 1], es[j - 1], debounce);
  }

  /**
   No body starts within the quiet period of any activity, unless a "Run now"
   came in between: true of every run, overlapping bodies included.
   */
  lemma QuietBeforeRun(ss: seq<State>, es: seq<Event>, debounce: nat, i: nat, j: nat)
    requires IsRun(ss, es, debounce) && ClockForward(es) && i < j < |es|
    requires es[i].Activity? && es[j].Fires?
    requires forall m :: i < m < j ==> !es[m].RunNow?
    ensures es[i].now + debounce <= es[j].now
  {
    DeadlineFar(ss, es, debounce, i, j);
    assert Enabled(ss[j], es[j]);
  }

  lemma {:induction false} StaysStopped(ss: seq<State>, es: seq<Event>, debounce: nat, i: nat, j: nat)
    requires IsRun(ss, es, debounce) && i < j <= |es| && es[i].Stop?
    ensures ss[j].stopped && ss[j].aborted && ss[j].timer.None? && ss[j].nextRunAt.None? && ss[j].phase == Idling
  {
    if j > i + 1 {
      StaysStopped(ss, es, debounce, i, j - 1);
    }
    assert ss[j] == Step(ss[j - 1], es[j - 1], debounce);
  }

  /** No body starts after `stop`. */
  lemma NothingAfterStop(ss: seq<State>, es: seq<Event>, debounce: nat, i: nat, j: nat)
    requires IsRun(ss, es, debounce) && i < j < |es| && es[i].Stop?
    ensures !es[j].Fires? && ss[j + 1].bodies <= ss[j].bodies
  {
    StaysStopped(ss, es, debounce, i, j);
    assert Enabled(ss[j], es[j]) && ss[j + 1] == Step(ss[j], es[j], debounce);
  }

  /** Activity arms a run, and it stays armed until it fires or the scheduler stops. */
  lemma {:induction false} ArmedUntilFired(ss: seq<State>, es: seq<Event>, debounce: nat, i: nat, j: nat)
    requires IsRun(ss, es, debounce) && i < j <= |es| && es[i].Activity? && !ss[i].stopped
    requires forall m :: i < m < j ==> !es[m].Fires? && !es[m].Stop?
    ensures ss[j].timer.Some? && !ss[j].stopped
  {
    if j > i + 1 {
      ArmedUntilFired(ss, es, debounce, i, j - 1);
    }
    assert ss[j] == Step(ss[j - 1], es[j - 1], debounce);
  }

  // ---- what arms a run ------------------------------------------------------

  /** A run is armed for `t` and reported so. */
  predicate ArmedFor(s: State, t: int) {
    s.timer == Some(t) && s.nextRunAt == Some(t) && s.phase == Scheduled && !s.stopped
  }

  /** From where it is armed, its firing is enabled when it is due, and not before, and starts a body. */
  lemma ArmedStarts(s: State, t: int, now: int, debounce: nat)
    requires ArmedFor(s, t)
    ensures Enabled(s, Fires(now)) <==> t <= now
    ensures t <= now ==>
              var after := Step(s, Fires(now), debounce);
              after.bodies == s.bodies + 1 && after.phase == Running && !after.aborted && after.timer == None
  {
  }

  /**
   On every run, activity arms a run for the debounce from then, and a "Run now" one
   for at once; the latter does nothing while stopped or in phase "running".
   */
  lemma ArmsWhen(ss: seq<State>, es: seq<Event>, debounce: nat, i: nat)
    requires IsRun(ss, es, debounce) && i < |es|
    ensures es[i].Activity? && !ss[i].stopped ==> ArmedFor(ss[i + 1], es[i].now + debounce)
    ensures es[i].Activity? && !ss[i].stopped && ss[i].phase == Running ==> ss[i + 1].aborted
    ensures es[i].RunNow? && !ss[i].stopped && ss[i].phase != Running ==> ArmedFor(ss[i + 1], es[i].now)
    ensures es[i].RunNow? && (ss[i].stopped || ss[i].phase == Running) ==> ss[i + 1] == ss[i]
    ensures es[i].Activity? && ss[i].stopped ==> ss[i + 1] == ss[i]
  {
    assert ss[i + 1] == Step(ss[i], es[i], debounce);
  }

  /**
   When a body settles that activity has aborted, a run is armed again for the debounce
   from then; any other leaves the timer as it is, and the scheduler idle.
   */
  lemma SettlesWhen(ss: seq<State>, es: seq<Event>, debounce: nat, i: nat)
    requires IsRun(ss, es, debounce) && i < |es| && es[i].Settles?
    ensures ss[i + 1].bodies == ss[i].bodies - 1
    ensures ss[i].aborted && !ss[i].stopped ==> ArmedFor(ss[i + 1], es[i].now + debounce)
    ensures !(ss[i].aborted && !ss[i].stopped) ==>
              ss[i + 1].timer == ss[i].timer && ss[i + 1].phase == Idling && ss[i + 1].nextRunAt == None
  {
    assert ss[i + 1] == Step(ss[i], es[i], debounce);
  }

  /** Nothing but these ends or moves what a "Run now" armed. */
  ghost predicate Undisturbed(es: seq<Event>, i: nat, j: nat) {
    forall m :: i < m < j && m < |es| ==> !es[m].Fires? && !es[m].Activity? && !es[m].Stop?
  }

  /**
   A "Run now" that is heard is not lost: until a timer fires, activity re-arms or the
   scheduler stops, a run stays armed, no earlier than the request; at the time of the
   request itself so long as nobody asks again and no aborted body settles.
   */
  lemma {:induction false} RunNowKept(ss: seq<State>, es: seq<Event>, debounce: nat, i: nat, j: nat)
    requires IsRun(ss, es, debounce) && ClockForward(es) && i < j <= |es| && Undisturbed(es, i, j)
    requires es[i].RunNow? && !ss[i].stopped && ss[i].phase != Running
    ensures ss[j].timer.Some? && es[i].now <= ss[j].timer.value && !ss[j].stopped && ss[j].phase != Running
    ensures (forall m :: i < m < j ==> !es[m].RunNow? && !es[m].Settles?) ==> ArmedFor(ss[j], es[i].now)
  {
    ArmsWhen(ss, es, debounce, i);
    if j > i + 1 {
      RunNowKept(ss, es, debounce, i, j - 1);
    }
    assert ss[j] == Step(ss[j - 1], es[j - 1], debounce);
  }

  /** And reported, when no timer fires while a body is in flight. */
  lemma RunNowReported(ss: seq<State>, es: seq<Event>, debounce: nat, i: nat, j: nat)
    requires IsRun(ss, es, debounce) && NoFiringInFlight(ss, es)
    requires ClockForward(es) && i < j <= |es| && Undisturbed(es, i, j)
    requires es[i].RunNow? && !ss[i].stopped && ss[i].phase != Running
    ensures ss[j].timer.Some? && ArmedFor(ss[j], ss[j].timer.value) && es[i].now <= ss[j].timer.value
  {
    RunNowKept(ss, es, debounce, i, j);
    AlwaysCoherent(ss, es, debounce, j);
  }

  // ---- what the status shows of the last body -------------------------------

  /** The status shows this outcome, and when it came. */
  predicate ShowsOutcome(s: State, now: int, outcome: Outcome) {
    && s.lastRunAt == Some(now)
    && match outcome
       case Done(summary) => s.lastSummary == Some(summary) && s.lastError == None
       case Threw(message) => s.lastSummary == Some(message) && s.lastError == Some(message)
  }

  /** Until another body settles the status shows the outcome of the last one, whatever else happens. */
  lemma {:induction false} LastOutcomeShown(ss: seq<State>, es: seq<Event>, debounce: nat, i: nat, j: nat)
    requires IsRun(ss, es, debounce) && i < j <= |es| && es[i].Settles?
    requires forall m :: i < m < j ==> !es[m].Settles?
    ensures ShowsOutcome(ss[j], es[i].now, es[i].outcome)
  {
    if j > i + 1 {
      LastOutcomeShown(ss, es, debounce, i, j - 1);
    }
    assert ss[j] == Step(ss[j - 1], es[j - 1], debounce);
  }

  /** What a body reports is shown until it reports again or a body settles, which clears it. */
  lemma {:induction false} LastReportShown(ss: seq<State>, es: seq<Event>, debounce: nat, i: nat, j: nat)
    requires IsRun(ss, es, debounce) && i < j <= |es| && (es[i].Report? || es[i].Settles?)
    requires forall m :: i < m < j ==> !es[m].Settles? && !es[m].Report?
    ensures ss[j].progress == if es[i].Report? then es[i].progress else None
  {
    if j > i + 1 {
      LastReportShown(ss, es, debounce, i, j - 1);
    }
    assert ss[j] == Step(ss[j - 1], es[j - 1], debounce);
  }

  // ---- when no timer fires while a body is in flight ------------------------

  /**
   The status tells the truth: "scheduled" means an armed timer whose deadline is
   the reported next run, "running" means the one body in flight has not been
   aborted, and a body that has been aborted leaves a run armed behind it.
   */
  predicate Coherent(s: State) {
    && s.bodies <= 1
    && (s.phase == Scheduled <==> s.timer.Some?)
    && s.nextRunAt == s.timer
    && (s.phase == Running ==> s.bodies == 1 && !s.aborted)
    && (s.bodies == 1 && !s.stopped ==> s.phase == Running || (s.phase == Scheduled && s.aborted))
    && (s.bodies == 0 ==> s.progress.None?)
  }

  /** Without overlap the reported status is coherent at every point of the run. */
  lemma {:induction false} AlwaysCoherent(ss: seq<State>, es: seq<Event>, debounce: nat, i: nat)
    requires IsRun(ss, es, debounce) && NoFiringInFlight(ss, es) && i <= |es|
    ensures Coherent(ss[i])
  {
    if i > 0 {
      AlwaysCoherent(ss, es, debounce, i - 1);
      TimerAlwaysWaits(ss, es, debounce, i - 1);
      assert ss[i] == Step(ss[i - 1], es[i - 1], debounce);
    }
  }

  /**
   Without overlap activity during a body reaches it: from then until it settles
   the body sees that it is aborted, and a run is armed and reported meanwhile.
   */
  lemma {:induction false} ActivityReachesBody(ss: seq<State>, es: seq<Event>, debounce: nat, i: nat, j: nat)
    requires IsRun(ss, es, debounce) && NoFiringInFlight(ss, es) && i < j <= |es|
    requires es[i].Activity? && ss[i].bodies == 1 && !ss[i].stopped
    requires forall m :: i < m < j ==> !es[m].Settles?
    ensures ss[j].bodies == 1 && ss[j].aborted
    ensures !ss[j].stopped ==> ss[j].phase == Scheduled && ss[j].timer.Some? && ss[j].nextRunAt == ss[j].timer
  {
    AlwaysCoherent(ss, es, debounce, i);
    AlwaysCoherent(ss, es, debounce, j);
    if j > i + 1 {
      ActivityReachesBody(ss, es, debounce, i, j - 1);
    }
    assert ss[j] == Step(ss[j - 1], es[j - 1], debounce);
  }

  // ---- bodies that yield in time --------------------------------------------

  /** Activity at `i` is the latest before `j`, and finds a body that is still in flight at `j`. */
  ghost predicate LastAborts(ss: seq<State>, es: seq<Event>, i: nat, j: nat)
    requires |ss| == |es| + 1
  {
    && i < j <= |es| && es[i].Activity? && ss[i].bodies > 0
    && forall m :: i < m < j ==> !es[m].Activity? && !es[m].Settles?
  }

  /**
   A body that activity aborts has settled before the debounce is over again, and
   until it has, nobody asks for a run. This is on the jobs and the user, not the scheduler.
   */
  ghost predicate PromptBodies(ss: seq<State>, es: seq<Event>, debounce: nat)
    requires |ss| == |es| + 1
  {
    forall i, j :: 0 <= i < j < |es| && LastAborts(ss, es, i, j) && !ss[j].stopped ==>
      es[j].now < es[i].now + debounce && !es[j].RunNow?
  }

  lemma {:induction false} AbortedWaits(ss: seq<State>, es: seq<Event>, debounce: nat, j: nat)
    requires IsRun(ss, es, debounce) && PromptBodies(ss, es, debounce) && j <= |es|
    ensures Coherent(ss[j])
    ensures ss[j].bodies == 1 && ss[j].timer.Some? ==>
              exists i: nat :: LastAborts(ss, es, i, j) && ss[j].timer.value == es[i].now + debounce
  {
    if j > 0 {
      AbortedWaits(ss, es, debounce, j - 1);
      TimerAlwaysWaits(ss, es, debounce, j - 1);
      var s, e := ss[j - 1], es[j - 1];
      assert Enabled(s, e) && ss[j] == Step(s, e, debounce);
      if s.bodies == 1 && s.timer.Some? {
        var i: nat :| LastAborts(ss, es, i, j - 1) && s.timer.value == es[i].now + debounce;
        assert !s.stopped && e.now < es[i].now + debounce && !e.RunNow?;
        if !e.Activity? && !e.Settles? {
          assert LastAborts(ss, es, i, j);
        }
      }
      if e.Activity? && s.bodies > 0 {
        assert LastAborts(ss, es, j - 1, j);
      }
    }
  }

  /** When aborted bodies settle in time, no two bodies are ever in flight together. */
  lemma PromptBodiesNeverOverlap(ss: seq<State>, es: seq<Event>, debounce: nat)
    requires IsRun(ss, es, debounce) && PromptBodies(ss, es, debounce)
    ensures NoFiringInFlight(ss, es)
    ensures forall j :: 0 <= j <= |es| ==> ss[j].bodies <= 1
  {
    forall j | 0 <= j <= |es| ensures ss[j].bodies <= 1 {
      AbortedWaits(ss, es, debounce, j);
    }
    NonOverlapExactly(ss, es, debounce);
  }

  // ---- the hypothesis is needed ---------------------------------------------

  /** A body slow to yield: the timer its abort armed fires while it still runs. */
  function SlowBody(d: nat, done: Outcome): seq<Event> {
    [Activity(0), Fires(d), Activity(d), Fires(2 * d), Settles(2 * d, done), Activity(2 * d), Settles(2 * d, done)]
  }

  /**
   With a slow body, two bodies overlap; the first to settle shows "idle" with
   the other in flight, which the next activity then fails to abort; and in the
   end the scheduler shows "idle" and no next run with a run armed.
   */
  lemma SlowBodyOverlaps(d: nat, done: Outcome) returns (ss: seq<State>)
    ensures
      var es := SlowBody(d, done);
      && IsRun(ss, es, d) && ClockForward(es)
      && ss[4].bodies == 2
      && ss[5].bodies == 1 && ss[5].phase == Idling
      && ss[6].bodies == 1 && !ss[6].aborted
      && ss[7].phase == Idling && ss[7].nextRunAt.None? && ss[7].timer.Some?
  {
    var es := SlowBody(d, done);
    var s1 := Step(INITIAL, es[0], d);
    var s2 := Step(s1, es[1], d);
    var s3 := Step(s2, es[2], d);
    var s4 := Step(s3, es[3], d);
    var s5 := Step(s4, es[4], d);
    var s6 := Step(s5, es[5], d);
    var s7 := Step(s6, es[6], d);
    ss := [INITIAL, s1, s2, s3, s4, s5, s6, s7];
  }
}
