/**
 The promise chains of the ingest stage (`startTransportIngest` of
 `core/server/ingest/consumer.ts`): per chat one update at a time, one atomic step
 per event-loop turn.
 */
module Chains {
  import opened Wrappers
  import opened Text

  /** What the ordering key is read from; `uuid` is the random one a payload without a chat gets. */
  datatype Payload = Payload(source: string, chatIdOfChat: Option<string>, chatId: Option<string>, uuid: string)

  function ChatOf(p: Payload): Option<string> {
    if p.chatIdOfChat.Some? then p.chatIdOfChat else p.chatId
  }

  /** `chainKeyOf` */
  function ChainKeyOf(p: Payload): string {
    match ChatOf(p)
    case Some(chat) => if chat != "" then p.source + ":" + chat else p.uuid
    case None => p.uuid
  }

  /** A job's run, or the run with its failure caught. */
  datatype Promise = Resolved | RunOf(job: nat) | CaughtOf(job: nat)

  datatype Status = Waiting | Processing | Settled(ok: bool)

  /** One update the worker picked: its key, the promise it chains on, and how far it is. */
  datatype Job = Job(key: string, after: Promise, status: Status)

  datatype State = State(jobs: seq<Job>, chains: map<string, Promise>)

  const INITIAL := State([], map[])

  datatype Event =
    | Arrive(payload: Payload)
    | Begin(job: nat)
    | Settle(job: nat, ok: bool)
    | Cleanup(job: nat)

  /** A `then` callback runs once its promise is fulfilled; a rejected run never is, its caught form always. */
  predicate Fulfilled(s: State, p: Promise) {
    match p
    case Resolved => true
    case RunOf(j) => j < |s.jobs| && s.jobs[j].status == Settled(true)
    case CaughtOf(j) => j < |s.jobs| && s.jobs[j].status.Settled?
  }

  predicate Enabled(s: State, e: Event) {
    match e
    case Arrive(_) => true
    case Begin(j) => j < |s.jobs| && s.jobs[j].status == Waiting && Fulfilled(s, s.jobs[j].after)
    case Settle(j, _) => j < |s.jobs| && s.jobs[j].status == Processing
    case Cleanup(j) => j < |s.jobs| && s.jobs[j].status.Settled?
  }

  function TailOf(s: State, key: string): Promise {
    if key in s.chains then s.chains[key] else Resolved
  }

  function WithStatus(s: State, j: nat, status: Status): State
    requires j < |s.jobs|
  {
    s.(jobs := s.jobs[j := s.jobs[j].(status := status)])
  }

  function Step(s: State, e: Event): State
    requires Enabled(s, e)
  {
    match e
    case Arrive(payload) =>
      var key := ChainKeyOf(payload);
      State(s.jobs + [Job(key, TailOf(s, key), Waiting)], s.chains[key := CaughtOf(|s.jobs|)])
    case Begin(j) => WithStatus(s, j, Processing)
    case Settle(j, ok) => WithStatus(s, j, Settled(ok))
    case Cleanup(j) =>
      if TailOf(s, s.jobs[j].key) == RunOf(j) then s.(chains := s.chains - {s.jobs[j].key}) else s
  }

  class TransportIngest {
    var jobs: seq<Job>
    var chains: map<string, Promise>

    constructor ()
      ensures Snapshot() == INITIAL
    {
      jobs := [];
      chains := map[];
    }

    ghost function Snapshot(): State
      reads this
    {
      State(jobs, chains)
    }

    /** The worker hands a job to its handler: look up the chain, link on, store the caught run. */
    method Accept(payload: Payload)
      modifies this
      ensures Snapshot() == Step(old(Snapshot()), Arrive(payload))
    {
      var key := ChainKeyOf(payload);
      var chain := if key in chains then chains[key] else Resolved;
      var run := |jobs|;
      jobs := jobs + [Job(key, chain, Waiting)];
      chains := chains[key := CaughtOf(run)];
    }

    method Process(job: nat)
      requires Enabled(Snapshot(), Begin(job))
      modifies this
      ensures Snapshot() == Step(old(Snapshot()), Begin(job))
    {
      jobs := jobs[job := jobs[job].(status := Processing)];
    }

    method Finish(job: nat, ok: bool)
      requires Enabled(Snapshot(), Settle(job, ok))
      modifies this
      ensures Snapshot() == Step(old(Snapshot()), Settle(job, ok))
    {
      jobs := jobs[job := jobs[job].(status := Settled(ok))];
    }

    /** The handler's `finally`. */
    method CleanUp(job: nat)
      requires Enabled(Snapshot(), Cleanup(job))
      modifies this
      ensures Snapshot() == Step(old(Snapshot()), Cleanup(job))
    {
      var key := jobs[job].key;
      if key in chains && chains[key] == RunOf(job) {
        chains := chains - {key};
      }
    }
  }
}

/** What the chains keep, over every interleaving. */
module ChainLaws {
  import opened Wrappers
  import opened Text
  import opened Chains

  ghost predicate IsRun(ss: seq<State>, es: seq<Event>) {
    && |ss| == |es| + 1 && ss[0] == INITIAL
    && forall i :: 0 <= i < |es| ==> Enabled(ss[i], es[i]) && ss[i + 1] == Step(ss[i], es[i])
  }

  // ---- keys -----------------------------------------------------------------

  lemma {:induction false} ColonSplits(a: string, x: string, b: string, y: string)
    requires ':' !in a && ':' !in b && a + ":" + x == b + ":" + y
    ensures a == b && x == y
  {
    SplitHead(a, ':', x);
    SplitHead(b, ':', y);
    assert a + ":" + x == a + [':'] + x && b + ":" + y == b + [':'] + y;
    assert ([a] + Split(x, ':'))[0] == ([b] + Split(y, ':'))[0];
    assert (a + ":" + x)[|a| + 1..] == x && (b + ":" + y)[|b| + 1..] == y;
  }

  predicate HasChat(p: Payload) {
    ChatOf(p).Some? && ChatOf(p).value != ""
  }

  /**
   Two updates share a chain exactly when they are of one chat of one source. A source
   id and a UUID hold no colon, whatever a chat id holds.
   */
  lemma KeysTellChatsApart(p: Payload, q: Payload)
    requires ':' !in p.source && ':' !in q.source && ':' !in p.uuid && ':' !in q.uuid
    ensures ChainKeyOf(p) == ChainKeyOf(q)
            <==> if HasChat(p) && HasChat(q) then p.source == q.source && ChatOf(p) == ChatOf(q)
                 else !HasChat(p) && !HasChat(q) && p.uuid == q.uuid
  {
    if HasChat(p) {
      assert ChainKeyOf(p)[|p.source|] == ':';
    }
    if HasChat(q) {
      assert ChainKeyOf(q)[|q.source|] == ':';
    }
    if HasChat(p) && HasChat(q) && ChainKeyOf(p) == ChainKeyOf(q) {
      ColonSplits(p.source, ChatOf(p).value, q.source, ChatOf(q).value);
    }
  }

  /** The key is the source and the chat of the update, by its own id before the bare one, and the random id without either. */
  lemma KeyReads(p: Payload, chat: string)
    ensures p.chatIdOfChat == Some(chat) && chat != "" ==> ChainKeyOf(p) == p.source + ":" + chat
    ensures p.chatIdOfChat == None && p.chatId == Some(chat) && chat != "" ==> ChainKeyOf(p) == p.source + ":" + chat
    ensures p.chatIdOfChat == Some("") || (p.chatIdOfChat == None && (p.chatId == None || p.chatId == Some(""))) ==>
              ChainKeyOf(p) == p.uuid
  {
  }

  // ---- the invariant --------------------------------------------------------

  /** The latest job before `n` of a key; `n` when there is none. */
  function LastBefore(jobs: seq<Job>, key: string, n: nat): (k: nat)
    requires n <= |jobs|
    ensures k <= n && (k < n ==> jobs[k].key == key)
    ensures forall i :: 0 <= i < n && (k == n || i > k) ==> jobs[i].key != key
  {
    if n == 0 then 0
    else if jobs[n - 1].key == key then n - 1
    else
      var k := LastBefore(jobs, key, n - 1);
      if k == n - 1 then n else k
  }

  function LinkOf(jobs: seq<Job>, key: string, n: nat): Promise
    requires n <= |jobs|
  {
    var k := LastBefore(jobs, key, n);
    if k < n then CaughtOf(k) else Resolved
  }

  predicate Started(j: Job) {
    j.status != Waiting
  }

  ghost predicate LinksGood(jobs: seq<Job>) {
    forall i :: 0 <= i < |jobs| ==> jobs[i].after == LinkOf(jobs, jobs[i].key, i)
  }

  ghost predicate TailsGood(s: State) {
    forall key :: TailOf(s, key) == LinkOf(s.jobs, key, |s.jobs|)
  }

  ghost predicate StartsInOrder(jobs: seq<Job>) {
    forall i, j :: 0 <= i < j < |jobs| && jobs[i].key == jobs[j].key && Started(jobs[j]) ==> jobs[i].status.Settled?
  }

  /** Each job hangs on the one before it of its key, and starts only after that one settled. */
  ghost predicate Linked(s: State) {
    LinksGood(s.jobs) && TailsGood(s) && StartsInOrder(s.jobs)
  }

  lemma {:induction false} LastOfKeys(jobs: seq<Job>, more: seq<Job>, key: string, n: nat)
    requires n <= |jobs| <= |more| && forall i :: 0 <= i < n ==> jobs[i].key == more[i].key
    ensures LastBefore(jobs, key, n) == LastBefore(more, key, n)
  {
    if n > 0 {
      LastOfKeys(jobs, more, key, n - 1);
    }
  }

  lemma ArriveKeepsLinked(s: State, payload: Payload)
    requires Linked(s)
    ensures Linked(Step(s, Arrive(payload)))
  {
    hide ChainKeyOf, LastBefore;
    var t := Step(s, Arrive(payload));
    ArriveLinks(s, t, ChainKeyOf(payload));
    ArriveTails(s, t, ChainKeyOf(payload));
    assert forall i :: 0 <= i < |s.jobs| ==> t.jobs[i] == s.jobs[i];
  }

  lemma ArriveLinks(s: State, t: State, key: string)
    requires LinksGood(s.jobs) && TailsGood(s) && t.jobs == s.jobs + [Job(key, TailOf(s, key), Waiting)]
    ensures LinksGood(t.jobs)
  {
    hide LastBefore, TailOf;
    forall i | 0 <= i < |t.jobs| ensures t.jobs[i].after == LinkOf(t.jobs, t.jobs[i].key, i) {
      LastOfKeys(s.jobs, t.jobs, t.jobs[i].key, i);
    }
  }

  lemma ArriveTails(s: State, t: State, key: string)
    requires TailsGood(s) && |t.jobs| == |s.jobs| + 1 && t.jobs[..|s.jobs|] == s.jobs && t.jobs[|s.jobs|].key == key
    requires t.chains == s.chains[key := CaughtOf(|s.jobs|)]
    ensures TailsGood(t)
  {
    forall k ensures TailOf(t, k) == LinkOf(t.jobs, k, |t.jobs|) {
      LastOfKeys(s.jobs, t.jobs, k, |s.jobs|);
      assert TailOf(s, k) == LinkOf(s.jobs, k, |s.jobs|);
    }
  }

  /** Everything before a job's link is settled once the link is. */
  lemma LinkSettled(s: State, j: nat)
    requires Linked(s) && j < |s.jobs| && Fulfilled(s, s.jobs[j].after)
    ensures forall i :: 0 <= i < j && s.jobs[i].key == s.jobs[j].key ==> s.jobs[i].status.Settled?
  {
    hide LastBefore, TailsGood;
    var key := s.jobs[j].key;
    var k := LastBefore(s.jobs, key, j);
    assert s.jobs[j].after == LinkOf(s.jobs, key, j);
    forall i | 0 <= i < j && s.jobs[i].key == key ensures s.jobs[i].status.Settled? {
      assert k < j && s.jobs[k].status.Settled? && i <= k;
      assert i < k ==> Started(s.jobs[k]);
    }
  }

  lemma StatusKeepsLinked(s: State, j: nat, status: Status)
    requires Linked(s) && j < |s.jobs| && status != Waiting
    requires s.jobs[j].status.Settled? ==> status.Settled?
    requires forall i :: 0 <= i < j && s.jobs[i].key == s.jobs[j].key ==> s.jobs[i].status.Settled?
    ensures Linked(WithStatus(s, j, status))
  {
    hide LastBefore, TailOf;
    var t := WithStatus(s, j, status);
    assert forall i :: 0 <= i < |s.jobs| ==> t.jobs[i].key == s.jobs[i].key && t.jobs[i].after == s.jobs[i].after;
    forall i | 0 <= i < |t.jobs| ensures t.jobs[i].after == LinkOf(t.jobs, t.jobs[i].key, i) {
      LastOfKeys(s.jobs, t.jobs, t.jobs[i].key, i);
    }
    forall key ensures TailOf(t, key) == LinkOf(t.jobs, key, |t.jobs|) {
      LastOfKeys(s.jobs, t.jobs, key, |s.jobs|);
      SameTail(s, t, key);
    }
  }

  lemma SameTail(s: State, t: State, key: string)
    requires s.chains == t.chains
    ensures TailOf(s, key) == TailOf(t, key)
  {
  }

  lemma StepKeepsLinked(s: State, e: Event)
    requires Linked(s) && Enabled(s, e)
    ensures Linked(Step(s, e))
  {
    hide ChainKeyOf, Linked, LastBefore;
    match e {
      case Arrive(payload) =>
        ArriveKeepsLinked(s, payload);
      case Begin(j) =>
        LinkSettled(s, j);
        StatusKeepsLinked(s, j, Processing);
      case Settle(j, ok) =>
        BeforeStarted(s, j);
        StatusKeepsLinked(s, j, Settled(ok));
      case Cleanup(j) =>
        NothingCleaned(s, j);
    }
  }

  lemma BeforeStarted(s: State, j: nat)
    requires Linked(s) && j < |s.jobs| && Started(s.jobs[j])
    ensures forall i :: 0 <= i < j && s.jobs[i].key == s.jobs[j].key ==> s.jobs[i].status.Settled?
  {
  }

  /**
   The clean-up never finds what it looks for: the chain holds the caught run, and a
   run is compared with it. So no key is ever forgotten, and every link stays good.
   */
  lemma NothingCleaned(s: State, j: nat)
    requires Linked(s) && Enabled(s, Cleanup(j))
    ensures Step(s, Cleanup(j)) == s
  {
    assert TailOf(s, s.jobs[j].key) == LinkOf(s.jobs, s.jobs[j].key, |s.jobs|);
  }

  lemma {:induction false} AlwaysLinked(ss: seq<State>, es: seq<Event>, i: nat)
    requires IsRun(ss, es) && i < |ss|
    ensures Linked(ss[i])
  {
    hide Linked;
    if i > 0 {
      AlwaysLinked(ss, es, i - 1);
      StepKeepsLinked(ss[i - 1], es[i - 1]);
    } else {
      NoJobsLinked();
    }
  }

  lemma NoJobsLinked()
    ensures Linked(INITIAL)
  {
  }

  // ---- the theorems ---------------------------------------------------------

  /** At every point of every run, at most one update of a chat is being processed, and all before it have settled. */
  lemma OneAtATime(ss: seq<State>, es: seq<Event>, k: nat, i: nat, j: nat)
    requires IsRun(ss, es) && k < |ss| && i < j < |ss[k].jobs|
    requires ss[k].jobs[i].key == ss[k].jobs[j].key
    ensures Started(ss[k].jobs[j]) ==> ss[k].jobs[i].status.Settled?
    ensures !(ss[k].jobs[i].status == Processing && ss[k].jobs[j].status == Processing)
  {
    AlwaysLinked(ss, es, k);
  }

  /**
   An update the worker has picked may start exactly when every earlier one of its chat
   has settled, well or badly: a failure never blocks the next, nor does another chat.
   */
  lemma StartsExactly(ss: seq<State>, es: seq<Event>, k: nat, j: nat)
    requires IsRun(ss, es) && k < |ss| && j < |ss[k].jobs|
    ensures
      var jobs := ss[k].jobs;
      Enabled(ss[k], Begin(j))
      <==> jobs[j].status == Waiting
           && forall i :: 0 <= i < j && jobs[i].key == jobs[j].key ==> jobs[i].status.Settled?
  {
    AlwaysLinked(ss, es, k);
    if Enabled(ss[k], Begin(j)) {
      LinkSettled(ss[k], j);
    }
  }

  /** No chat is ever stuck: of its unsettled updates the earliest is being processed or may start. */
  lemma ChatMovesOn(ss: seq<State>, es: seq<Event>, k: nat, j: nat) returns (first: nat)
    requires IsRun(ss, es) && k < |ss| && j < |ss[k].jobs| && !ss[k].jobs[j].status.Settled?
    ensures first <= j && ss[k].jobs[first].key == ss[k].jobs[j].key && !ss[k].jobs[first].status.Settled?
    ensures ss[k].jobs[first].status == Processing || Enabled(ss[k], Begin(first))
  {
    first := FirstUnsettled(ss[k].jobs, ss[k].jobs[j].key, j);
    StartsExactly(ss, es, k, first);
  }

  lemma {:induction false} FirstUnsettled(jobs: seq<Job>, key: string, j: nat) returns (first: nat)
    requires j < |jobs| && jobs[j].key == key && !jobs[j].status.Settled?
    ensures first <= j && jobs[first].key == key && !jobs[first].status.Settled?
    ensures forall i :: 0 <= i < first && jobs[i].key == key ==> jobs[i].status.Settled?
  {
    if i :| 0 <= i < j && jobs[i].key == key && !jobs[i].status.Settled? {
      first := FirstUnsettled(jobs, key, i);
    } else {
      first := j;
    }
  }

  /** Jobs stay where they arrived, with their keys. */
  lemma {:induction false} JobsStay(ss: seq<State>, es: seq<Event>, a: nat, b: nat, j: nat)
    requires IsRun(ss, es) && a <= b < |ss| && j < |ss[a].jobs|
    ensures j < |ss[b].jobs| && ss[b].jobs[j].key == ss[a].jobs[j].key
    ensures Started(ss[a].jobs[j]) ==> Started(ss[b].jobs[j])
    decreases b - a
  {
    hide ChainKeyOf;
    if a < b {
      JobsStay(ss, es, a, b - 1, j);
      assert ss[b] == Step(ss[b - 1], es[b - 1]);
    }
  }

  /** The updates of a chat are processed in the order they arrived. */
  lemma InArrivalOrder(ss: seq<State>, es: seq<Event>, a: nat, b: nat)
    requires IsRun(ss, es) && a < b < |es| && es[a].Begin? && es[b].Begin?
    requires Enabled(ss[a], es[a]) && Enabled(ss[b], es[b])
    requires es[a].job < |ss[b].jobs| && ss[b].jobs[es[a].job].key == ss[b].jobs[es[b].job].key
    ensures es[a].job < es[b].job
  {
    var i, j := es[a].job, es[b].job;
    assert ss[a + 1] == Step(ss[a], es[a]);
    JobsStay(ss, es, a + 1, b, i);
    if j < i {
      JobsStay(ss, es, a, b, i);
      AlwaysLinked(ss, es, b);
    }
  }

  /** The clean-up of a settled update changes nothing, in any run. */
  lemma ChainsNeverForget(ss: seq<State>, es: seq<Event>, k: nat)
    requires IsRun(ss, es) && k < |es|
    ensures es[k].Cleanup? ==> ss[k + 1] == ss[k]
    ensures ss[k].chains.Keys <= ss[k + 1].chains.Keys
  {
    hide ChainKeyOf;
    AlwaysLinked(ss, es, k);
    if es[k].Cleanup? {
      NothingCleaned(ss[k], es[k].job);
    }
  }

  // ---- the worker's slots ---------------------------------------------------

  /** How many of the updates the worker has picked are not settled: each holds one of its slots. */
  function InHand(jobs: seq<Job>): nat {
    if jobs == [] then 0
    else InHand(jobs[..|jobs| - 1]) + if jobs[|jobs| - 1].status.Settled? then 0 else 1
  }

  /** The worker picks an update only while a slot is free. */
  predicate Allowed(s: State, e: Event, slots: nat) {
    Enabled(s, e) && (e.Arrive? ==> InHand(s.jobs) < slots)
  }

  ghost predicate IsWorkerRun(ss: seq<State>, es: seq<Event>, slots: nat) {
    IsRun(ss, es) && forall i :: 0 <= i < |es| ==> Allowed(ss[i], es[i], slots)
  }

  lemma InHandMore(jobs: seq<Job>, job: Job)
    ensures InHand(jobs + [job]) == InHand(jobs) + if job.status.Settled? then 0 else 1
  {
    assert (jobs + [job])[..|jobs|] == jobs;
  }

  lemma {:induction false} InHandChange(jobs: seq<Job>, j: nat, job: Job)
    requires j < |jobs|
    ensures InHand(jobs[j := job]) + (if jobs[j].status.Settled? then 0 else 1)
            == InHand(jobs) + if job.status.Settled? then 0 else 1
  {
    var last := |jobs| - 1;
    if j == last {
      assert jobs[j := job][..last] == jobs[..last];
    } else {
      InHandChange(jobs[..last], j, job);
      assert jobs[j := job][..last] == jobs[..last][j := job];
    }
  }

  /** Never more updates in hand than slots. */
  lemma {:induction false} SlotsSuffice(ss: seq<State>, es: seq<Event>, slots: nat, k: nat)
    requires IsWorkerRun(ss, es, slots) && k < |ss|
    ensures InHand(ss[k].jobs) <= slots
  {
    hide ChainKeyOf;
    if k > 0 {
      SlotsSuffice(ss, es, slots, k - 1);
      var s, e := ss[k - 1], es[k - 1];
      assert Allowed(s, e, slots) && ss[k] == Step(s, e);
      match e
      case Arrive(payload) => InHandMore(s.jobs, Job(ChainKeyOf(payload), TailOf(s, ChainKeyOf(payload)), Waiting));
      case Begin(j) => InHandChange(s.jobs, j, s.jobs[j].(status := Processing));
      case Settle(j, ok) => InHandChange(s.jobs, j, s.jobs[j].(status := Settled(ok)));
      case Cleanup(_) =>
    }
  }

  lemma {:induction false} SomeInHand(jobs: seq<Job>) returns (j: nat)
    requires InHand(jobs) > 0
    ensures j < |jobs| && !jobs[j].status.Settled?
  {
    j := |jobs| - 1;
    if jobs[j].status.Settled? {
      j := SomeInHand(jobs[..j]);
    }
  }

  /** Full or not, the worker never stalls: a slot is free, or an update in hand is being processed or may start. */
  lemma NeverStalls(ss: seq<State>, es: seq<Event>, slots: nat, k: nat) returns (j: nat)
    requires IsWorkerRun(ss, es, slots) && k < |ss| && slots > 0
    ensures InHand(ss[k].jobs) < slots
            || (j < |ss[k].jobs| && (ss[k].jobs[j].status == Processing || Enabled(ss[k], Begin(j))))
  {
    hide ChainKeyOf;
    SlotsSuffice(ss, es, slots, k);
    j := 0;
    if InHand(ss[k].jobs) == slots {
      j := SomeInHand(ss[k].jobs);
      j := ChatMovesOn(ss, es, k, j);
    }
  }

  /**
   What makes one chat wait for another: while the slots are full of updates of one
   chat, the only thing that can happen at all is that the earliest of them moves on.
   */
  lemma OneChatFillsSlots(ss: seq<State>, es: seq<Event>, slots: nat, k: nat, key: string) returns (first: nat)
    requires IsWorkerRun(ss, es, slots) && k < |ss| && slots > 0 && InHand(ss[k].jobs) == slots
    requires forall j :: 0 <= j < |ss[k].jobs| && !ss[k].jobs[j].status.Settled? ==> ss[k].jobs[j].key == key
    ensures first < |ss[k].jobs| && ss[k].jobs[first].key == key && !ss[k].jobs[first].status.Settled?
    ensures forall e :: Allowed(ss[k], e, slots) && Step(ss[k], e) != ss[k] ==>
              e == Begin(first) || (e.Settle? && e.job == first)
  {
    hide ChainKeyOf;
    var j := SomeInHand(ss[k].jobs);
    first := FirstUnsettled(ss[k].jobs, key, j);
    AlwaysLinked(ss, es, k);
    forall e | Allowed(ss[k], e, slots) && Step(ss[k], e) != ss[k]
      ensures e == Begin(first) || (e.Settle? && e.job == first)
    {
      match e
      case Begin(i) => StartsExactly(ss, es, k, i);
      case Settle(i, _) => BeforeStarted(ss[k], i);
      case Cleanup(i) => NothingCleaned(ss[k], i);
      case Arrive(_) =>
    }
  }

  /** The state after `n` updates of one chat. */
  function Flooded(payload: Payload, n: nat): State {
    if n == 0 then INITIAL else Step(Flooded(payload, n - 1), Arrive(payload))
  }

  lemma {:induction false} FloodedHas(payload: Payload, n: nat)
    ensures
      var jobs := Flooded(payload, n).jobs;
      && |jobs| == n && InHand(jobs) == n
      && forall j :: 0 <= j < n ==> jobs[j].key == ChainKeyOf(payload) && jobs[j].status == Waiting
  {
    hide ChainKeyOf, InHand, Step, TailOf;
    if n == 0 {
      NoneInHand();
    } else {
      FloodedHas(payload, n - 1);
      ArriveAppends(Flooded(payload, n - 1), payload);
    }
  }

  lemma NoneInHand()
    ensures InHand([]) == 0
  {
  }

  lemma ArriveAppends(s: State, payload: Payload)
    ensures
      var job := Job(ChainKeyOf(payload), TailOf(s, ChainKeyOf(payload)), Waiting);
      Step(s, Arrive(payload)).jobs == s.jobs + [job] && InHand(s.jobs + [job]) == InHand(s.jobs) + 1
  {
    InHandMore(s.jobs, Job(ChainKeyOf(payload), TailOf(s, ChainKeyOf(payload)), Waiting));
  }

  /** As many updates of one chat as there are slots do fill them: no update of any chat is picked then. */
  lemma FloodFills(payload: Payload, slots: nat) returns (ss: seq<State>, es: seq<Event>)
    ensures IsWorkerRun(ss, es, slots) && |es| == slots && InHand(ss[slots].jobs) == slots
    ensures forall j :: 0 <= j < |ss[slots].jobs| ==> ss[slots].jobs[j].key == ChainKeyOf(payload)
    ensures forall other :: !Allowed(ss[slots], Arrive(other), slots)
  {
    hide ChainKeyOf, InHand;
    ss := seq(slots + 1, n requires 0 <= n <= slots => Flooded(payload, n));
    es := seq(slots, n requires 0 <= n < slots => Arrive(payload));
    forall i | 0 <= i < slots ensures Allowed(ss[i], es[i], slots) && ss[i + 1] == Step(ss[i], es[i]) {
      FloodedHas(payload, i);
    }
    FloodedHas(payload, slots);
  }
}
