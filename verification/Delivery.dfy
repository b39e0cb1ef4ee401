/**
 Who gets a turn (`core/server/ingest/consumer.ts`): a message is mirrored first,
 under the unique key of the store, and only a row that was new opens turns.
 */
module Delivery {
  import opened Wrappers
  import opened Text

  datatype Kind = Direct | Group

  /** A running connection. */
  datatype Receiver = Receiver(assistantId: string, botUsername: string)

  /** The unique index of the mirror: the source and the key its transport computed. */
  datatype Key = Key(source: string, dedupeKey: string)

  datatype Turn = Turn(key: Key, assistantId: string)

  datatype MessageEvent = MessageEvent(key: Key, kind: Kind, receivedBy: string, receivers: seq<Receiver>)

  datatype DeliveredEvent = DeliveredEvent(
    key: Key, kind: Kind, assistantId: Option<string>, silent: bool, content: string, running: seq<Receiver>)

  /**
   What the store answers while an event is handled: the silenced assistants, the
   chat's presence rows, and whether feedback capture or a self-link code consumes the message.
   */
  datatype Answers = Answers(silenced: set<string>, present: set<string>, consumed: bool)

  // ---- receivers ------------------------------------------------------------

  function Heard(receivers: seq<Receiver>, silenced: set<string>): seq<Receiver> {
    if receivers == [] then []
    else (if receivers[0].assistantId !in silenced then [receivers[0]] else []) + Heard(receivers[1..], silenced)
  }

  function Listening(receivers: seq<Receiver>, present: set<string>): seq<Receiver> {
    if receivers == [] then []
    else (if receivers[0].assistantId in present then [receivers[0]] else []) + Listening(receivers[1..], present)
  }

  /** `receivers.find(r => r.assistantId === id)` */
  function Find(receivers: seq<Receiver>, id: string): Option<Receiver> {
    if receivers == [] then None
    else if receivers[0].assistantId == id then Some(receivers[0])
    else Find(receivers[1..], id)
  }

  predicate Has(receivers: seq<Receiver>, id: string) {
    exists i :: 0 <= i < |receivers| && receivers[i].assistantId == id
  }

  /** `resolveReceivers` */
  function ResolveReceivers(e: MessageEvent, a: Answers): seq<Receiver> {
    var receivers := Heard(e.receivers, a.silenced);
    var self := Find(receivers, e.receivedBy);
    var selfList := if self.Some? then [self.value] else [];
    if e.kind == Direct then selfList
    else
      var listening := Listening(receivers, a.present);
      if self.Some? && !Has(listening, self.value.assistantId) then selfList + listening else listening
  }

  function Others(running: seq<Receiver>, author: string, present: set<string>): seq<Receiver> {
    if running == [] then []
    else
      (if running[0].assistantId != author && running[0].assistantId in present then [running[0]] else [])
      + Others(running[1..], author, present)
  }

  /** The targets of `crossFeedDelivered`. */
  function CrossFeedTargets(e: DeliveredEvent, a: Answers): seq<Receiver> {
    if e.kind != Group then []
    else if e.assistantId.None? || e.assistantId.value == "" || e.silent || Trim(e.content) == "" then []
    else if Find(e.running, e.assistantId.value).None? then []
    else Others(e.running, e.assistantId.value, a.present)
  }

  function Ids(receivers: seq<Receiver>): seq<string> {
    seq(|receivers|, i requires 0 <= i < |receivers| => receivers[i].assistantId)
  }

  // ---- the ingest as a step system ------------------------------------------

  datatype Update = Message(message: MessageEvent) | Delivered(delivered: DeliveredEvent)

  function KeyOf(u: Update): Key {
    match u
    case Message(m) => m.key
    case Delivered(d) => d.key
  }

  /** The assistants a new row opens a turn for, in order. */
  function TargetsOf(u: Update, a: Answers): seq<string> {
    match u
    case Message(m) => if a.consumed then [] else Ids(ResolveReceivers(m, a))
    case Delivered(d) => Ids(CrossFeedTargets(d, a))
  }

  /** One handler past its mirror: whom it has enqueued a turn for, and who is left. */
  datatype Handler = Handler(key: Key, done: seq<string>, left: seq<string>)

  /** The mirror's keys, the handlers, and the queue of turns. */
  datatype State = State(mirrored: set<Key>, handlers: seq<Handler>, turns: seq<Turn>)

  const INITIAL := State({}, [], [])

  datatype Event =
    | Mirror(update: Update, answers: Answers)
    | Enqueue(handler: nat)
    | Skip(handler: nat)
    | Abandon(handler: nat)

  predicate Enabled(s: State, e: Event) {
    match e
    case Mirror(_, _) => true
    case Enqueue(h) => h < |s.handlers| && s.handlers[h].left != []
    case Skip(h) => h < |s.handlers| && s.handlers[h].left != []
    case Abandon(h) => h < |s.handlers|
  }

  /**
   One step of one handler. The insert of the mirror is atomic and does nothing on a
   key that is there; a turn is enqueued, skipped (the cross-feed survives one target's
   failure), or the handler dies and leaves the rest.
   */
  function Step(s: State, e: Event): State
    requires Enabled(s, e)
  {
    match e
    case Mirror(u, a) =>
      if KeyOf(u) in s.mirrored then s
      else
        s.(mirrored := s.mirrored + {KeyOf(u)}, handlers := s.handlers + [Handler(KeyOf(u), [], TargetsOf(u, a))])
    case Enqueue(h) =>
      var handler := s.handlers[h];
      var id := handler.left[0];
      s.(handlers := s.handlers[h := Handler(handler.key, handler.done + [id], handler.left[1..])],
         turns := s.turns + [Turn(handler.key, id)])
    case Skip(h) => s.(handlers := s.handlers[h := s.handlers[h].(left := s.handlers[h].left[1..])])
    case Abandon(h) => s.(handlers := s.handlers[h := s.handlers[h].(left := [])])
  }

  /** `n` turns in a row of the handler that mirrored last. */
  function Enqueues(s: State, n: nat): State
    requires s.handlers != [] && n <= |s.handlers[|s.handlers| - 1].left|
    decreases n
  {
    if n == 0 then s
    else
      var last := |s.handlers| - 1;
      Enqueues(Step(s, Enqueue(last)), n - 1)
  }

  // ---- the handlers ---------------------------------------------------------

  class Ingest {
    var mirrored: set<Key>
    var turns: seq<Turn>
    ghost var handlers: seq<Handler>

    constructor ()
      ensures Snapshot() == INITIAL
    {
      mirrored, turns, handlers := {}, [], [];
    }

    ghost function Snapshot(): State
      reads this
    {
      State(mirrored, handlers, turns)
    }

    /** `appendSourceMessage`: whether the row was new. */
    method Append(key: Key) returns (isNew: bool)
      modifies this`mirrored
      ensures isNew == (key !in old(mirrored)) && mirrored == old(mirrored) + {key}
    {
      isNew := key !in mirrored;
      mirrored := mirrored + {key};
    }

    /**
     `handleTransportMessage` from the mirror on, when the queue takes the first
     `accepted` turns and then fails; handled alone, it is one run of the step system.
     */
    method HandleTransportMessage(e: MessageEvent, a: Answers, accepted: nat) returns (ok: bool)
      modifies this
      ensures e.key in old(mirrored) ==> ok && Snapshot() == old(Snapshot())
      ensures e.key !in old(mirrored) ==>
                var begun := Step(old(Snapshot()), Mirror(Message(e), a));
                var targets := TargetsOf(Message(e), a);
                && ok == (|targets| <= accepted)
                && Snapshot() == Enqueues(begun, if ok then |targets| else accepted)
    {
      hide ResolveReceivers, Enqueues;
      var isNew := Append(e.key);
      if !isNew {
        assert mirrored == old(mirrored);
        return true;
      }
      ghost var targets := TargetsOf(Message(e), a);
      handlers := handlers + [Handler(e.key, [], targets)];
      ghost var begun := Snapshot();
      NoneEnqueued(begun);
      if a.consumed {
        return true;
      }
      var receivers := ResolveReceivers(e, a);
      for i := 0 to |receivers|
        invariant i <= accepted && i <= |targets| == |receivers|
        invariant |handlers| == |begun.handlers| && handlers[|handlers| - 1].left == targets[i..]
        invariant handlers[|handlers| - 1].key == e.key
        invariant Snapshot() == Enqueues(begun, i)
      {
        if i == accepted {
          return false;
        }
        EnqueueNext(begun, i);
        turns := turns + [Turn(e.key, receivers[i].assistantId)];
        ghost var last := |handlers| - 1;
        handlers := handlers[last := Handler(e.key, handlers[last].done + [targets[i]], targets[i + 1..])];
      }
      ok := true;
    }

    /** `handleDelivered` with its `crossFeedDelivered`, whose target `k` fails when `failing(k)`. */
    method HandleDelivered(e: DeliveredEvent, a: Answers, failing: nat -> bool)
      modifies this
      ensures e.key in old(mirrored) ==> Snapshot() == old(Snapshot())
      ensures e.key !in old(mirrored) ==>
                Snapshot() == Feeds(Step(old(Snapshot()), Mirror(Delivered(e), a)), failing, 0)
    {
      hide CrossFeedTargets, Feeds;
      var isNew := Append(e.key);
      if !isNew {
        assert mirrored == old(mirrored);
        return;
      }
      ghost var ids := TargetsOf(Delivered(e), a);
      handlers := handlers + [Handler(e.key, [], ids)];
      ghost var begun := Snapshot();
      var targets := CrossFeedTargets(e, a);
      for i := 0 to |targets|
        invariant |ids| == |targets| && handlers != []
        invariant handlers[|handlers| - 1].left == ids[i..] && handlers[|handlers| - 1].key == e.key
        invariant Feeds(Snapshot(), failing, i) == Feeds(begun, failing, 0)
      {
        FeedNext(Snapshot(), failing, i);
        ghost var last := |handlers| - 1;
        ghost var done := handlers[last].done;
        assert ids[i..][1..] == ids[i + 1..];
        if failing(i) {
          handlers := handlers[last := Handler(e.key, done, ids[i + 1..])];
        } else {
          turns := turns + [Turn(e.key, targets[i].assistantId)];
          handlers := handlers[last := Handler(e.key, done + [ids[i]], ids[i + 1..])];
        }
      }
      FeedNext(Snapshot(), failing, |targets|);
    }
  }

  /** The rest of the last handler's targets, from the `k`-th on, those skipped that fail. */
  function Feeds(s: State, failing: nat -> bool, k: nat): State
    requires s.handlers != []
    decreases |s.handlers[|s.handlers| - 1].left|
  {
    var last := |s.handlers| - 1;
    if s.handlers[last].left == [] then s
    else Feeds(Step(s, if failing(k) then Skip(last) else Enqueue(last)), failing, k + 1)
  }

  lemma FeedNext(s: State, failing: nat -> bool, k: nat)
    requires s.handlers != []
    ensures
      var last := |s.handlers| - 1;
      Feeds(s, failing, k)
      == if s.handlers[last].left == [] then s
         else Feeds(Step(s, if failing(k) then Skip(last) else Enqueue(last)), failing, k + 1)
  {
  }

  lemma NoneEnqueued(s: State)
    requires s.handlers != []
    ensures Enqueues(s, 0) == s
  {
  }

  /** One turn more is one step more at the end. */
  lemma {:induction false} EnqueueNext(s: State, n: nat)
    requires s.handlers != [] && n < |s.handlers[|s.handlers| - 1].left|
    ensures
      var t := Enqueues(s, n);
      var last := |s.handlers| - 1;
      && |t.handlers| == |s.handlers| && t.handlers[last].left == s.handlers[last].left[n..]
      && Enqueues(s, n + 1) == Step(t, Enqueue(last))
    decreases n
  {
    if n > 0 {
      var last := |s.handlers| - 1;
      EnqueueNext(Step(s, Enqueue(last)), n - 1);
    }
  }
}

/** At most one turn, and for whom. */
module DeliveryLaws {
  import opened Wrappers
  import opened Text
  import opened Delivery

  predicate Distinct(ids: seq<string>) {
    forall i, j :: 0 <= i < j < |ids| ==> ids[i] != ids[j]
  }

  ghost predicate IsRun(ss: seq<State>, es: seq<Event>) {
    && |ss| == |es| + 1 && ss[0] == INITIAL
    && forall i :: 0 <= i < |es| ==> Enabled(ss[i], es[i]) && ss[i + 1] == Step(ss[i], es[i])
  }

  // ---- receivers ------------------------------------------------------------

  lemma {:induction false} HeardHas(receivers: seq<Receiver>, silenced: set<string>, id: string)
    ensures Has(Heard(receivers, silenced), id) <==> Has(receivers, id) && id !in silenced
  {
    hide Has;
    NobodyHas(id);
    if receivers != [] {
      HeardHas(receivers[1..], silenced, id);
      HasCons(receivers, id);
      OnlyOneHas(receivers[0], id);
      HasAppend(if receivers[0].assistantId !in silenced then [receivers[0]] else [], Heard(receivers[1..], silenced), id);
    }
  }

  lemma {:induction false} ListeningHas(receivers: seq<Receiver>, present: set<string>, id: string)
    ensures Has(Listening(receivers, present), id) <==> Has(receivers, id) && id in present
  {
    hide Has;
    NobodyHas(id);
    if receivers != [] {
      ListeningHas(receivers[1..], present, id);
      HasCons(receivers, id);
      OnlyOneHas(receivers[0], id);
      HasAppend(if receivers[0].assistantId in present then [receivers[0]] else [], Listening(receivers[1..], present), id);
    }
  }

  lemma {:induction false} OthersHas(running: seq<Receiver>, author: string, present: set<string>, id: string)
    ensures Has(Others(running, author, present), id) <==> Has(running, id) && id != author && id in present
  {
    hide Has;
    NobodyHas(id);
    if running != [] {
      OthersHas(running[1..], author, present, id);
      HasCons(running, id);
      OnlyOneHas(running[0], id);
      var first := if running[0].assistantId != author && running[0].assistantId in present then [running[0]] else [];
      HasAppend(first, Others(running[1..], author, present), id);
    }
  }

  lemma HasCons(receivers: seq<Receiver>, id: string)
    requires receivers != []
    ensures Has(receivers, id) <==> receivers[0].assistantId == id || Has(receivers[1..], id)
  {
    assert receivers == [receivers[0]] + receivers[1..];
    HasAppend([receivers[0]], receivers[1..], id);
    assert Has([receivers[0]], id) <==> [receivers[0]][0].assistantId == id;
  }

  lemma HasAppend(a: seq<Receiver>, b: seq<Receiver>, id: string)
    ensures Has(a + b, id) <==> Has(a, id) || Has(b, id)
  {
    var all := a + b;
    if Has(a, id) {
      var i :| 0 <= i < |a| && a[i].assistantId == id;
      assert all[i].assistantId == id;
    }
    if Has(b, id) {
      var i :| 0 <= i < |b| && b[i].assistantId == id;
      assert all[|a| + i].assistantId == id;
    }
    if Has(all, id) {
      var i :| 0 <= i < |all| && all[i].assistantId == id;
      assert if i < |a| then a[i].assistantId == id else b[i - |a|].assistantId == id;
    }
  }

  lemma {:induction false} FindHas(receivers: seq<Receiver>, id: string)
    ensures Find(receivers, id).Some? <==> Has(receivers, id)
    ensures Find(receivers, id).Some? ==> Find(receivers, id).value.assistantId == id
  {
    if receivers != [] {
      FindHas(receivers[1..], id);
      HasCons(receivers, id);
    }
  }

  /**
   A direct message goes to the connection that got it, a group's to the running
   connections that are present and to the one that got it; never to a silenced one.
   */
  lemma ReceiversExactly(e: MessageEvent, a: Answers, id: string)
    ensures Has(ResolveReceivers(e, a), id)
            <==> && Has(e.receivers, id) && id !in a.silenced
                 && (id == e.receivedBy || (e.kind == Group && id in a.present))
  {
    hide Has;
    var heard := Heard(e.receivers, a.silenced);
    HeardHas(e.receivers, a.silenced, id);
    HeardHas(e.receivers, a.silenced, e.receivedBy);
    FindHas(heard, e.receivedBy);
    var self := Find(heard, e.receivedBy);
    var listening := Listening(heard, a.present);
    ListeningHas(heard, a.present, id);
    ListeningHas(heard, a.present, e.receivedBy);
    NobodyHas(id);
    if self.Some? {
      HasAppend([self.value], listening, id);
      OnlyOneHas(self.value, id);
    }
  }

  lemma NobodyHas(id: string)
    ensures !Has([], id)
  {
  }

  lemma OnlyOneHas(r: Receiver, id: string)
    ensures Has([r], id) <==> r.assistantId == id
  {
    assert [r][0] == r;
  }

  /** A connection that got a group message whose presence it lacks is put first; the others keep their order. */
  lemma SelfFirst(e: MessageEvent, a: Answers)
    requires e.kind == Group
    ensures
      var listening := Listening(Heard(e.receivers, a.silenced), a.present);
      var added := Has(e.receivers, e.receivedBy) && e.receivedBy !in a.silenced && e.receivedBy !in a.present;
      && (added ==> |ResolveReceivers(e, a)| == |listening| + 1
                    && ResolveReceivers(e, a)[0].assistantId == e.receivedBy && ResolveReceivers(e, a)[1..] == listening)
      && (!added ==> ResolveReceivers(e, a) == listening)
  {
    hide Has;
    var heard := Heard(e.receivers, a.silenced);
    HeardHas(e.receivers, a.silenced, e.receivedBy);
    FindHas(heard, e.receivedBy);
    ListeningHas(heard, a.present, e.receivedBy);
  }

  /** Everyone the cross-feed wakes is another running connection that is present. */
  lemma CrossFeedExactly(e: DeliveredEvent, a: Answers, id: string)
    ensures Has(CrossFeedTargets(e, a), id)
            <==> && e.kind == Group && !e.silent && Trim(e.content) != ""
                 && e.assistantId.Some? && e.assistantId.value != "" && Has(e.running, e.assistantId.value)
                 && Has(e.running, id) && id != e.assistantId.value && id in a.present
  {
    hide Has, Trim;
    NobodyHas(id);
    if e.assistantId.Some? {
      FindHas(e.running, e.assistantId.value);
      OthersHas(e.running, e.assistantId.value, a.present, id);
    }
  }

  /** No two connections of the list are the same assistant's, among those that pass. */
  predicate DistinctAmong(receivers: seq<Receiver>, skip: set<string>, keep: set<string>) {
    forall i, j :: 0 <= i < j < |receivers| && receivers[i].assistantId == receivers[j].assistantId ==>
                     receivers[i].assistantId in skip || receivers[i].assistantId !in keep
  }

  lemma DistinctAppend(a: seq<string>, b: seq<string>)
    ensures Distinct(a + b) <==> Distinct(a) && Distinct(b) && forall i, j :: 0 <= i < |a| && 0 <= j < |b| ==> a[i] != b[j]
  {
    var all := a + b;
    if Distinct(all) {
      forall i, j | 0 <= i < |a| && 0 <= j < |b| ensures a[i] != b[j] {
        assert all[i] == a[i] && all[|a| + j] == b[j];
      }
      assert forall i :: 0 <= i < |a| ==> all[i] == a[i];
      forall i, j | 0 <= i < j < |b| ensures b[i] != b[j] {
        assert all[|a| + i] == b[i] && all[|a| + j] == b[j];
      }
    }
  }

  lemma HasIds(receivers: seq<Receiver>, id: string)
    ensures Has(receivers, id) <==> id in Ids(receivers)
  {
    if Has(receivers, id) {
      var i :| 0 <= i < |receivers| && receivers[i].assistantId == id;
      assert Ids(receivers)[i] == id;
    }
    if id in Ids(receivers) {
      var i :| 0 <= i < |Ids(receivers)| && Ids(receivers)[i] == id;
      assert receivers[i].assistantId == id;
    }
  }

  lemma DistinctCons(r: Receiver, rest: seq<Receiver>)
    ensures Distinct(Ids([r] + rest)) <==> Distinct(Ids(rest)) && !Has(rest, r.assistantId)
  {
    assert Ids([r] + rest) == [r.assistantId] + Ids(rest);
    DistinctAppend([r.assistantId], Ids(rest));
    HasIds(rest, r.assistantId);
    assert [r.assistantId][0] == r.assistantId;
    assert !Has(rest, r.assistantId) ==> forall j :: 0 <= j < |Ids(rest)| ==> Ids(rest)[j] != r.assistantId;
  }

  lemma AmongCons(receivers: seq<Receiver>, skip: set<string>, keep: set<string>)
    requires receivers != []
    ensures DistinctAmong(receivers, skip, keep)
            <==> && DistinctAmong(receivers[1..], skip, keep)
                 && var id := receivers[0].assistantId;
                    (Has(receivers[1..], id) ==> id in skip || id !in keep)
  {
    var rest, id := receivers[1..], receivers[0].assistantId;
    if DistinctAmong(receivers, skip, keep) {
      forall i, j | 0 <= i < j < |rest| && rest[i].assistantId == rest[j].assistantId
        ensures rest[i].assistantId in skip || rest[i].assistantId !in keep
      {
        assert receivers[i + 1] == rest[i] && receivers[j + 1] == rest[j];
      }
      if Has(rest, id) {
        var j :| 0 <= j < |rest| && rest[j].assistantId == id;
        assert receivers[j + 1].assistantId == id;
      }
    } else {
      var i, j :| && 0 <= i < j < |receivers| && receivers[i].assistantId == receivers[j].assistantId
                  && receivers[i].assistantId !in skip && receivers[i].assistantId in keep;
      assert rest[j - 1] == receivers[j];
      if i > 0 {
        assert rest[i - 1] == receivers[i];
      }
    }
  }

  lemma {:induction false} ListeningDistinct(receivers: seq<Receiver>, silenced: set<string>, present: set<string>)
    ensures Distinct(Ids(Listening(Heard(receivers, silenced), present))) <==> DistinctAmong(receivers, silenced, present)
  {
    hide Has, Ids, Distinct, DistinctAmong;
    if receivers == [] {
      NobodyTwice(silenced, present);
    } else {
      var rest := receivers[1..];
      var id := receivers[0].assistantId;
      ListeningDistinct(rest, silenced, present);
      AmongCons(receivers, silenced, present);
      var heard := Heard(rest, silenced);
      HeardHas(rest, silenced, id);
      ListeningHas(heard, present, id);
      assert [] + heard == heard && [] + Listening(heard, present) == Listening(heard, present);
      if id !in silenced {
        assert ([receivers[0]] + heard)[1..] == heard;
        DistinctCons(receivers[0], Listening(heard, present));
      }
    }
  }

  lemma NobodyTwice(skip: set<string>, keep: set<string>)
    ensures Distinct(Ids([])) && DistinctAmong([], skip, keep)
  {
  }

  /**
   A receiver is named twice exactly when the group event lists a present assistant
   twice that is not silenced; a direct message never names one twice.
   */
  lemma NoRepeatsExactly(e: MessageEvent, a: Answers)
    ensures Distinct(Ids(ResolveReceivers(e, a)))
            <==> e.kind == Direct || DistinctAmong(e.receivers, a.silenced, a.present)
  {
    hide Has, Distinct, DistinctAmong, Ids;
    var heard := Heard(e.receivers, a.silenced);
    var self := Find(heard, e.receivedBy);
    var listening := Listening(heard, a.present);
    ListeningDistinct(e.receivers, a.silenced, a.present);
    NobodyTwice(a.silenced, a.present);
    if self.Some? {
      DistinctCons(self.value, listening);
      DistinctCons(self.value, []);
      NobodyHas(self.value.assistantId);
      assert [self.value] + [] == [self.value];
    }
  }

  lemma {:induction false} OthersDistinct(running: seq<Receiver>, author: string, present: set<string>)
    ensures Distinct(Ids(Others(running, author, present))) <==> DistinctAmong(running, {author}, present)
  {
    hide Has, Ids, Distinct, DistinctAmong;
    if running == [] {
      NobodyTwice({author}, present);
    } else {
      var rest := running[1..];
      OthersDistinct(rest, author, present);
      AmongCons(running, {author}, present);
      OthersHas(rest, author, present, running[0].assistantId);
      assert [] + Others(rest, author, present) == Others(rest, author, present);
      DistinctCons(running[0], Others(rest, author, present));
    }
  }

  /** The gates of the cross-feed. */
  predicate FeedsAcross(e: DeliveredEvent) {
    && e.kind == Group && !e.silent && Trim(e.content) != ""
    && e.assistantId.Some? && e.assistantId.value != "" && Has(e.running, e.assistantId.value)
  }

  /** No target is named twice exactly when the cross-feed is off, or no present assistant but the author is listed twice. */
  lemma NoTargetRepeatsExactly(e: DeliveredEvent, a: Answers)
    ensures Distinct(Ids(CrossFeedTargets(e, a)))
            <==> !FeedsAcross(e) || DistinctAmong(e.running, {e.assistantId.value}, a.present)
  {
    hide Has, Trim, Ids, Distinct, DistinctAmong;
    NobodyTwice({}, {});
    if e.assistantId.Some? {
      FindHas(e.running, e.assistantId.value);
      OthersDistinct(e.running, e.assistantId.value, a.present);
    }
  }

  /** Positions in rising order. */
  predicate Rising(places: seq<nat>) {
    forall i, j :: 0 <= i < j < |places| ==> places[i] < places[j]
  }

  /** `kept` are the connections at these places, in order, and the places are all at which `passes` holds of the id. */
  ghost predicate Picks(kept: seq<Receiver>, all: seq<Receiver>, places: seq<nat>, passes: string -> bool) {
    Rising(places) && Drawn(kept, all, places) && Complete(all, places, passes)
  }

  predicate Drawn(kept: seq<Receiver>, all: seq<Receiver>, places: seq<nat>) {
    |kept| == |places| && forall i :: 0 <= i < |places| ==> places[i] < |all| && kept[i] == all[places[i]]
  }

  ghost predicate Complete(all: seq<Receiver>, places: seq<nat>, passes: string -> bool) {
    forall p: nat :: p < |all| ==> (p in places <==> passes(all[p].assistantId))
  }

  function Later(places: seq<nat>): (r: seq<nat>)
    ensures |r| == |places| && forall i :: 0 <= i < |r| ==> r[i] == places[i] + 1
  {
    seq(|places|, i requires 0 <= i < |places| => places[i] + 1)
  }

  lemma LaterHas(places: seq<nat>, p: nat)
    ensures p + 1 in Later(places) <==> p in places
    ensures 0 !in Later(places) && (p + 1 in [0] + Later(places) <==> p in places) && 0 in [0] + Later(places)
  {
    var shifted := Later(places);
    if p in places {
      var i :| 0 <= i < |places| && places[i] == p;
      assert shifted[i] == p + 1;
    }
    if p + 1 in shifted {
      var i :| 0 <= i < |shifted| && shifted[i] == p + 1;
      assert places[i] == p;
    }
    assert ([0] + shifted)[0] == 0;
  }

  lemma LaterComplete(first: Receiver, rest: seq<Receiver>, places: seq<nat>, passes: string -> bool)
    requires Complete(rest, places, passes)
    ensures passes(first.assistantId) ==> Complete([first] + rest, [0] + Later(places), passes)
    ensures !passes(first.assistantId) ==> Complete([first] + rest, Later(places), passes)
  {
    hide Later;
    var all := [first] + rest;
    forall p: nat | p < |all|
      ensures p in Later(places) <==> p > 0 && passes(all[p].assistantId)
      ensures p in [0] + Later(places) <==> p == 0 || passes(all[p].assistantId)
    {
      LaterHas(places, if p > 0 then p - 1 else 0);
      assert p > 0 ==> all[p] == rest[p - 1];
    }
  }

  lemma LaterDrawn(first: Receiver, kept: seq<Receiver>, rest: seq<Receiver>, places: seq<nat>)
    requires Drawn(kept, rest, places) && Rising(places)
    ensures Drawn([first] + kept, [first] + rest, [0] + Later(places)) && Rising([0] + Later(places))
    ensures Drawn(kept, [first] + rest, Later(places)) && Rising(Later(places))
  {
  }

  lemma PicksCons(first: Receiver, kept: seq<Receiver>, rest: seq<Receiver>, places: seq<nat>, passes: string -> bool)
    requires Picks(kept, rest, places, passes)
    ensures passes(first.assistantId) ==> Picks([first] + kept, [first] + rest, [0] + Later(places), passes)
    ensures !passes(first.assistantId) ==> Picks(kept, [first] + rest, Later(places), passes)
  {
    hide Later, Rising, Drawn, Complete;
    LaterComplete(first, rest, places, passes);
    LaterDrawn(first, kept, rest, places);
  }

  lemma {:induction false} ListeningPicks(receivers: seq<Receiver>, silenced: set<string>, present: set<string>)
    returns (places: seq<nat>)
    ensures Picks(Listening(Heard(receivers, silenced), present), receivers, places, id => id !in silenced && id in present)
  {
    hide Picks;
    if receivers == [] {
      places := [];
      NothingPicked(id => id !in silenced && id in present);
    } else {
      var rest := receivers[1..];
      var before := ListeningPicks(rest, silenced, present);
      var kept := Listening(Heard(rest, silenced), present);
      PicksCons(receivers[0], kept, rest, before, id => id !in silenced && id in present);
      assert [receivers[0]] + rest == receivers;
      assert ([receivers[0]] + Heard(rest, silenced))[1..] == Heard(rest, silenced);
      assert [] + kept == kept && [] + Heard(rest, silenced) == Heard(rest, silenced);
      var id := receivers[0].assistantId;
      places := if id !in silenced && id in present then [0] + Later(before) else Later(before);
    }
  }

  lemma NothingPicked(passes: string -> bool)
    ensures Picks([], [], [], passes)
  {
  }

  lemma {:induction false} OthersPicks(running: seq<Receiver>, author: string, present: set<string>) returns (places: seq<nat>)
    ensures Picks(Others(running, author, present), running, places, id => id != author && id in present)
  {
    hide Picks;
    if running == [] {
      places := [];
      NothingPicked(id => id != author && id in present);
    } else {
      var rest := running[1..];
      var before := OthersPicks(rest, author, present);
      PicksCons(running[0], Others(rest, author, present), rest, before, id => id != author && id in present);
      assert [running[0]] + rest == running;
      assert [] + Others(rest, author, present) == Others(rest, author, present);
      var id := running[0].assistantId;
      places := if id != author && id in present then [0] + Later(before) else Later(before);
    }
  }

  /**
   The receivers of a group message are the connections of its list that are present
   and not silenced, each as listed, as often and in that order; before them comes the
   connection that got it, when its presence is missing.
   */
  lemma ReceiversInOrder(e: MessageEvent, a: Answers) returns (places: seq<nat>)
    requires e.kind == Group
    ensures
      var added := Has(e.receivers, e.receivedBy) && e.receivedBy !in a.silenced && e.receivedBy !in a.present;
      var all := ResolveReceivers(e, a);
      && (added ==> all != [] && all[0].assistantId == e.receivedBy)
      && Picks(if added then all[1..] else all, e.receivers, places, id => id !in a.silenced && id in a.present)
  {
    hide Picks, Has, Heard, Listening, ResolveReceivers;
    SelfFirst(e, a);
    places := ListeningPicks(e.receivers, a.silenced, a.present);
  }

  /** The targets of a cross-feed are the running connections that are present, but for the author, in order. */
  lemma TargetsInOrder(e: DeliveredEvent, a: Answers) returns (places: seq<nat>)
    requires FeedsAcross(e)
    ensures Picks(CrossFeedTargets(e, a), e.running, places, id => id != e.assistantId.value && id in a.present)
  {
    hide Picks, Has, Others, Trim;
    FindHas(e.running, e.assistantId.value);
    places := OthersPicks(e.running, e.assistantId.value, a.present);
  }

  // ---- at most one turn -----------------------------------------------------

  ghost predicate Opens(h: Handler, t: Turn) {
    h.key == t.key && t.assistantId in h.done
  }

  /** One handler a key, each with distinct targets, and every turn begun by one, once. */
  ghost predicate Safe(s: State) {
    && (forall h :: 0 <= h < |s.handlers| ==>
          s.handlers[h].key in s.mirrored && Distinct(s.handlers[h].done + s.handlers[h].left))
    && (forall g, h :: 0 <= g < h < |s.handlers| ==> s.handlers[g].key != s.handlers[h].key)
    && (forall t :: t in s.turns ==> exists h :: 0 <= h < |s.handlers| && Opens(s.handlers[h], t))
    && (forall i, j :: 0 <= i < j < |s.turns| ==> s.turns[i] != s.turns[j])
  }

  /**
   The list the update came with names no assistant twice that could get a turn: for
   a message one present and not silenced, for a delivery one present but its author.
   */
  predicate ListsNobodyTwice(e: Event) {
    match e
    case Mirror(Message(m), a) =>
      a.consumed || m.kind == Direct || DistinctAmong(m.receivers, a.silenced, a.present)
    case Mirror(Delivered(d), a) =>
      !FeedsAcross(d) || DistinctAmong(d.running, {d.assistantId.value}, a.present)
    case _ => true
  }

  lemma NoneTwice()
    ensures Distinct([])
  {
  }

  lemma ListsTell(e: Event)
    requires e.Mirror?
    ensures Distinct(TargetsOf(e.update, e.answers)) <==> ListsNobodyTwice(e)
  {
    hide Distinct, DistinctAmong, Ids, ResolveReceivers, CrossFeedTargets, FeedsAcross;
    match e.update {
      case Message(m) =>
        NoneTwice();
        NoRepeatsExactly(m, e.answers);
      case Delivered(d) => NoTargetRepeatsExactly(d, e.answers);
    }
  }

  lemma MirrorKeepsSafe(s: State, u: Update, a: Answers)
    requires Safe(s) && Distinct(TargetsOf(u, a))
    ensures Safe(Step(s, Mirror(u, a)))
  {
    hide TargetsOf, Distinct;
    if KeyOf(u) !in s.mirrored {
      var t := Step(s, Mirror(u, a));
      assert [] + TargetsOf(u, a) == TargetsOf(u, a);
      forall turn | turn in t.turns ensures exists h :: 0 <= h < |t.handlers| && Opens(t.handlers[h], turn) {
        var h :| 0 <= h < |s.handlers| && Opens(s.handlers[h], turn);
        assert t.handlers[h] == s.handlers[h];
      }
    }
  }

  lemma ChangeKeepsOpened(s: State, h: nat, changed: Handler, turn: Turn)
    requires h < |s.handlers| && changed.key == s.handlers[h].key && s.handlers[h].done <= changed.done
    requires exists g :: 0 <= g < |s.handlers| && Opens(s.handlers[g], turn)
    ensures
      var after := s.handlers[h := changed];
      exists g :: 0 <= g < |after| && Opens(after[g], turn)
  {
    var after := s.handlers[h := changed];
    var g :| 0 <= g < |s.handlers| && Opens(s.handlers[g], turn);
    if g == h {
      var i :| 0 <= i < |s.handlers[h].done| && s.handlers[h].done[i] == turn.assistantId;
      assert changed.done[i] == turn.assistantId;
    }
    assert Opens(after[g], turn);
  }

  lemma EnqueueKeepsSafe(s: State, h: nat)
    requires Safe(s) && Enabled(s, Enqueue(h))
    ensures Safe(Step(s, Enqueue(h)))
  {
    var t := Step(s, Enqueue(h));
    var before := s.handlers[h];
    var id := before.left[0];
    var turn := Turn(before.key, id);
    assert before.done + before.left == before.done + [id] + before.left[1..];
    forall k | k in t.turns ensures exists g :: 0 <= g < |t.handlers| && Opens(t.handlers[g], k) {
      if k == turn {
        assert t.handlers[h].done[|before.done|] == id;
        assert Opens(t.handlers[h], turn);
      } else {
        assert k in s.turns;
        ChangeKeepsOpened(s, h, t.handlers[h], k);
      }
    }
    NotYetOpened(s, h);
  }

  lemma NotYetOpened(s: State, h: nat)
    requires Safe(s) && Enabled(s, Enqueue(h))
    ensures Turn(s.handlers[h].key, s.handlers[h].left[0]) !in s.turns
  {
    var handler := s.handlers[h];
    DistinctAppend(handler.done, handler.left);
    assert forall i :: 0 <= i < |handler.done| ==> handler.done[i] != handler.left[0];
  }

  lemma LeaveKeepsSafe(s: State, h: nat, left: seq<string>)
    requires Safe(s) && h < |s.handlers|
    requires left == [] || (s.handlers[h].left != [] && left == s.handlers[h].left[1..])
    ensures Safe(s.(handlers := s.handlers[h := s.handlers[h].(left := left)]))
  {
    var before := s.handlers[h];
    var changed := before.(left := left);
    var t := s.(handlers := s.handlers[h := changed]);
    DistinctAppend(before.done, before.left);
    DistinctAppend(changed.done, left);
    if left != [] {
      assert forall i :: 0 <= i < |left| ==> left[i] == before.left[i + 1];
    }
    forall turn | turn in t.turns ensures exists g :: 0 <= g < |t.handlers| && Opens(t.handlers[g], turn) {
      ChangeKeepsOpened(s, h, changed, turn);
    }
  }

  lemma {:induction false} AlwaysSafe(ss: seq<State>, es: seq<Event>, i: nat)
    requires IsRun(ss, es) && i < |ss| && forall k :: 0 <= k < i ==> ListsNobodyTwice(es[k])
    ensures Safe(ss[i])
  {
    hide Safe, TargetsOf, Distinct, ListsNobodyTwice;
    if i == 0 {
      NothingYetSafe();
    } else {
      AlwaysSafe(ss, es, i - 1);
      var s := ss[i - 1];
      assert ss[i] == Step(s, es[i - 1]);
      match es[i - 1] {
        case Mirror(u, a) =>
          ListsTell(es[i - 1]);
          MirrorKeepsSafe(s, u, a);
        case Enqueue(h) => EnqueueKeepsSafe(s, h);
        case Skip(h) => LeaveKeepsSafe(s, h, s.handlers[h].left[1..]);
        case Abandon(h) => LeaveKeepsSafe(s, h, []);
      }
    }
  }

  lemma NothingYetSafe()
    ensures Safe(INITIAL)
  {
  }

  /**
   Over every interleaving of deliveries, redeliveries, failures and crashes, each
   assistant gets at most one turn for a message of a source, so long as no update's
   own list names twice an assistant that could get one.
   */
  lemma AtMostOneTurn(ss: seq<State>, es: seq<Event>, k: nat, i: nat, j: nat)
    requires IsRun(ss, es) && k < |ss| && (forall n :: 0 <= n < k ==> ListsNobodyTwice(es[n]))
    requires i < j < |ss[k].turns|
    ensures ss[k].turns[i] != ss[k].turns[j]
  {
    AlwaysSafe(ss, es, k);
  }

  /** A handler that died opens no turn any more: what it had left is lost. */
  lemma {:induction false} AbandonedEnds(ss: seq<State>, es: seq<Event>, h: nat, i: nat, j: nat)
    requires IsRun(ss, es) && i < j < |es| && es[i] == Abandon(h)
    ensures es[j] != Enqueue(h) && es[j] != Skip(h)
  {
    LeftBehind(ss, es, h, i, j);
  }

  lemma {:induction false} LeftBehind(ss: seq<State>, es: seq<Event>, h: nat, i: nat, j: nat)
    requires IsRun(ss, es) && i < j <= |es| && es[i] == Abandon(h)
    ensures h < |ss[j].handlers| && ss[j].handlers[h].left == []
    decreases j
  {
    hide TargetsOf;
    if i + 1 < j {
      LeftBehind(ss, es, h, i, j - 1);
    }
    assert ss[j] == Step(ss[j - 1], es[j - 1]) && Enabled(ss[j - 1], es[j - 1]);
  }

  /** The mirrored keys only grow, so a redelivery changes nothing, however often it comes. */
  lemma {:induction false} RedeliveryChangesNothing(ss: seq<State>, es: seq<Event>, i: nat, j: nat)
    requires IsRun(ss, es) && i < j < |es| && es[i].Mirror? && es[j].Mirror?
    requires KeyOf(es[i].update) == KeyOf(es[j].update)
    ensures ss[j + 1] == ss[j]
  {
    MirroredStays(ss, es, i + 1, j, KeyOf(es[i].update));
    assert ss[i + 1] == Step(ss[i], es[i]) && ss[j + 1] == Step(ss[j], es[j]);
  }

  lemma {:induction false} MirroredStays(ss: seq<State>, es: seq<Event>, i: nat, j: nat, key: Key)
    requires IsRun(ss, es) && i <= j < |ss| && key in ss[i].mirrored
    ensures key in ss[j].mirrored
    decreases j - i
  {
    hide TargetsOf;
    if i < j {
      MirroredStays(ss, es, i, j - 1, key);
      assert ss[j] == Step(ss[j - 1], es[j - 1]);
    }
  }

  ghost predicate Rooted(s: State) {
    && (forall h :: 0 <= h < |s.handlers| ==> s.handlers[h].key in s.mirrored)
    && (forall i :: 0 <= i < |s.turns| ==> s.turns[i].key in s.mirrored)
  }

  /** Every turn is of a mirrored message: the mirror comes first. */
  lemma {:induction false} MirroredFirst(ss: seq<State>, es: seq<Event>, k: nat)
    requires IsRun(ss, es) && k < |ss|
    ensures Rooted(ss[k])
  {
    hide TargetsOf;
    if k > 0 {
      MirroredFirst(ss, es, k - 1);
      assert ss[k] == Step(ss[k - 1], es[k - 1]);
    }
  }

  function TurnsFor(key: Key, ids: seq<string>): (turns: seq<Turn>)
    ensures |turns| == |ids| && forall i :: 0 <= i < |ids| ==> turns[i] == Turn(key, ids[i])
  {
    seq(|ids|, i requires 0 <= i < |ids| => Turn(key, ids[i]))
  }

  /** A handler left to itself opens exactly its targets' turns, in order, and nobody else's. */
  lemma {:induction false} EnqueuesAll(s: State, n: nat)
    requires s.handlers != [] && n <= |s.handlers[|s.handlers| - 1].left|
    ensures
      var h := s.handlers[|s.handlers| - 1];
      var t := Enqueues(s, n);
      t.mirrored == s.mirrored && t.turns == s.turns + TurnsFor(h.key, h.left[..n])
    decreases n
  {
    hide TurnsFor, TargetsOf;
    NoTurns(s.handlers[|s.handlers| - 1].key);
    if n > 0 {
      var last := |s.handlers| - 1;
      var h := s.handlers[last];
      var next := Step(s, Enqueue(last));
      EnqueuesAll(next, n - 1);
      assert h.left[..n] == [h.left[0]] + h.left[1..][..n - 1];
      TurnsCons(h.key, h.left[0], h.left[1..][..n - 1]);
    } else {
      NoneEnqueued(s);
      assert s.handlers[|s.handlers| - 1].left[..0] == [] && s.turns + [] == s.turns;
    }
  }

  lemma NoTurns(key: Key)
    ensures TurnsFor(key, []) == []
  {
  }

  /** A cross-feed opens the turns of the targets that do not fail, in order. */
  function Surviving(ids: seq<string>, failing: nat -> bool, k: nat): seq<string>
    decreases |ids|
  {
    if ids == [] then [] else (if failing(k) then [] else [ids[0]]) + Surviving(ids[1..], failing, k + 1)
  }

  lemma {:induction false} FeedsSurviving(s: State, failing: nat -> bool, k: nat)
    requires s.handlers != []
    ensures
      var h := s.handlers[|s.handlers| - 1];
      var t := Feeds(s, failing, k);
      t.mirrored == s.mirrored && t.turns == s.turns + TurnsFor(h.key, Surviving(h.left, failing, k))
    decreases |s.handlers[|s.handlers| - 1].left|
  {
    hide Feeds, TurnsFor;
    var last := |s.handlers| - 1;
    var h := s.handlers[last];
    FeedNext(s, failing, k);
    if h.left == [] {
      assert TurnsFor(h.key, []) == [];
      assert s.turns + [] == s.turns;
    } else {
      var rest := Surviving(h.left[1..], failing, k + 1);
      var next := Step(s, if failing(k) then Skip(last) else Enqueue(last));
      FeedsSurviving(next, failing, k + 1);
      assert Feeds(s, failing, k).turns == next.turns + TurnsFor(h.key, rest);
      if failing(k) {
        assert [] + rest == rest;
      } else {
        TurnsCons(h.key, h.left[0], rest);
        assert s.turns + [Turn(h.key, h.left[0])] + TurnsFor(h.key, rest)
               == s.turns + ([Turn(h.key, h.left[0])] + TurnsFor(h.key, rest));
      }
    }
  }

  lemma TurnsCons(key: Key, id: string, rest: seq<string>)
    ensures TurnsFor(key, [id] + rest) == [Turn(key, id)] + TurnsFor(key, rest)
  {
  }

  /** No two of these turns are the same. */
  ghost predicate NoTurnTwice(turns: seq<Turn>) {
    forall i, j :: 0 <= i < j < |turns| ==> turns[i] != turns[j]
  }

  lemma TurnsDistinct(key: Key, ids: seq<string>)
    ensures NoTurnTwice(TurnsFor(key, ids)) <==> Distinct(ids)
  {
    var turns := TurnsFor(key, ids);
    if NoTurnTwice(turns) {
      forall i, j | 0 <= i < j < |ids| ensures ids[i] != ids[j] {
        assert turns[i] == Turn(key, ids[i]) && turns[j] == Turn(key, ids[j]);
      }
    }
  }

  /**
   The condition on the lists is exact: an update taken up afresh, whether a message or
   a delivery, opens no turn twice if and only if its own list names nobody twice.
   */
  lemma OneTurnExactly(u: Update, a: Answers)
    ensures
      var begun := Step(INITIAL, Mirror(u, a));
      var n := |TargetsOf(u, a)|;
      && begun.handlers != [] && n <= |begun.handlers[|begun.handlers| - 1].left|
      && (NoTurnTwice(Enqueues(begun, n).turns) <==> ListsNobodyTwice(Mirror(u, a)))
  {
    hide TargetsOf, Enqueues, TurnsFor, NoTurnTwice, Distinct, ListsNobodyTwice;
    var begun := Step(INITIAL, Mirror(u, a));
    var ids := TargetsOf(u, a);
    EnqueuesAll(begun, |ids|);
    assert ids[..|ids|] == ids && [] + TurnsFor(KeyOf(u), ids) == TurnsFor(KeyOf(u), ids);
    TurnsDistinct(KeyOf(u), ids);
    ListsTell(Mirror(u, a));
  }
}
