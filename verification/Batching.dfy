/**
 Greedy transcript batching (`batchMessages` of `core/features/history/summary.ts`)
 and the loop that completes a day batch by batch, shrinking the budget when the
 model refuses one (`core/features/history/server/batched-completion.ts`).
 */
module Batching {
  import opened Wrappers

  datatype Message = Message(sourceMessageId: string, sentAt: string, speaker: string, content: string)

  const SUMMARY_BATCH_CHARS := 24_000
  const MIN_SUMMARY_BATCH_CHARS := 1_500
  const LINE_OVERHEAD_CHARS := 48

  type Batch = seq<Message>

  function Cost(m: Message): nat {
    |m.content| + |m.speaker| + LINE_OVERHEAD_CHARS
  }

  function Total(batch: Batch): nat {
    if batch == [] then 0 else Total(batch[..|batch| - 1]) + Cost(batch[|batch| - 1])
  }

  function Flatten(batches: seq<Batch>): seq<Message> {
    if batches == [] then [] else batches[0] + Flatten(batches[1..])
  }

  /** A pass takes 24 000 characters, and is not shrunk below 1 500. */
  lemma Budgets()
    ensures SUMMARY_BATCH_CHARS == 24_000 && MIN_SUMMARY_BATCH_CHARS == 1_500
  {
  }

  // ---- what a batching must be ----------------------------------------------

  /** A batch is one message, however long, or within the budget. */
  predicate Fits(batch: Batch, budget: int) {
    |batch| == 1 || (|batch| > 1 && Total(batch) <= budget)
  }

  predicate AllFit(batches: seq<Batch>, budget: int) {
    forall k :: 0 <= k < |batches| ==> Fits(batches[k], budget)
  }

  /** The messages cut into consecutive batches that fit. */
  predicate IsBatching(batches: seq<Batch>, messages: seq<Message>, budget: int) {
    Flatten(batches) == messages && AllFit(batches, budget)
  }

  /** No batch had room for the message after it. */
  predicate Crowded(batches: seq<Batch>, budget: int) {
    && (forall k :: 0 <= k < |batches| ==> batches[k] != [])
    && (forall k {:trigger batches[k]} :: 0 <= k < |batches| - 1 ==>
          Total(batches[k]) + Cost(batches[k + 1][0]) > budget)
  }

  // ---- the greedy batching --------------------------------------------------

  /** How many messages the first batch ends up with, once it has `n`, of `chars` in all. */
  function Fill(messages: seq<Message>, budget: int, n: nat, chars: int): (end: nat)
    requires n <= |messages|
    ensures n <= end <= |messages| && (n < |messages| && n == 0 ==> end > 0)
    decreases |messages| - n
  {
    if n == |messages| then n
    else if n > 0 && chars + Cost(messages[n]) > budget then n
    else Fill(messages, budget, n + 1, chars + Cost(messages[n]))
  }

  /** What `batchMessages` computes. */
  function Batches(messages: seq<Message>, budget: int): seq<Batch>
    decreases |messages|
  {
    if messages == [] then []
    else
      var end := Fill(messages, budget, 0, 0);
      [messages[..end]] + Batches(messages[end..], budget)
  }

  /** A batch about to be cut: the rest is batched on its own. */
  lemma CutHere(current: Batch, rest: seq<Message>, budget: int)
    requires current != [] && Filling(current, rest, budget)
    requires rest == [] || Total(current) + Cost(rest[0]) > budget
    ensures Batches(current + rest, budget) == [current] + Batches(rest, budget)
  {
    hide Cost, Total;
    var all := current + rest;
    assert rest != [] ==> all[|current|] == rest[0];
    assert all[..|current|] == current && all[|current|..] == rest;
  }

  /** The first batch of what is current and what is left holds at least what is current. */
  ghost predicate Filling(current: Batch, rest: seq<Message>, budget: int) {
    current != [] ==>
      Fill(current + rest, budget, 0, 0) == Fill(current + rest, budget, |current|, Total(current))
  }

  lemma TakeOne(current: Batch, rest: seq<Message>, budget: int)
    requires rest != [] && Filling(current, rest, budget)
    requires current == [] || Total(current) + Cost(rest[0]) <= budget
    ensures Filling(current + [rest[0]], rest[1..], budget)
    ensures current + rest == current + [rest[0]] + rest[1..]
  {
    hide Cost;
    var all := current + rest;
    assert all == current + [rest[0]] + rest[1..] && all[|current|] == rest[0];
    TotalAppend(current, rest[0]);
  }

  method BatchMessages(messages: seq<Message>, budget: int) returns (batches: seq<Batch>)
    ensures batches == Batches(messages, budget)
    ensures IsBatching(batches, messages, budget) && Crowded(batches, budget)
  {
    hide Flatten, Fits, Cost, Fill, Batches;
    batches := [];
    var current: Batch, currentChars := [], 0;
    assert messages[0..] == messages && [] + messages == messages;
    NoTotal();
    for i := 0 to |messages|
      invariant currentChars == Total(current)
      invariant Batches(messages, budget) == batches + Batches(current + messages[i..], budget)
      invariant Filling(current, messages[i..], budget)
    {
      var message := messages[i];
      ghost var rest := messages[i..];
      var cost := Cost(message);
      if current != [] && currentChars + cost > budget {
        CutHere(current, rest, budget);
        assert batches + ([current] + Batches(rest, budget)) == batches + [current] + Batches(rest, budget);
        batches := batches + [current];
        current := [];
        currentChars := 0;
        assert current + rest == rest;
      }
      TakeOne(current, rest, budget);
      TotalAppend(current, message);
      assert rest[1..] == messages[i + 1..];
      current := current + [message];
      currentChars := currentChars + cost;
    }
    assert current + [] == current;
    NoBatches(budget);
    if current != [] {
      CutHere(current, [], budget);
      batches := batches + [current];
    }
    BatchesFit(messages, budget);
  }

  // ---- in characters --------------------------------------------------------

  /** The characters of the messages themselves, content and speaker. */
  function Letters(batch: Batch): nat {
    if batch == [] then 0
    else
      var last := batch[|batch| - 1];
      Letters(batch[..|batch| - 1]) + |last.content| + |last.speaker|
  }

  lemma {:induction false} LettersTotal(batch: Batch)
    ensures Total(batch) == Letters(batch) + 48 * |batch|
  {
    if batch != [] {
      LettersTotal(batch[..|batch| - 1]);
    }
  }

  /**
   Contents and speakers of a batch of two or more messages, and 48 characters more
   for each, are within the budget; and where a batch ends the next message would have
   gone beyond it. Every message is in one batch, in order.
   */
  lemma WithinBudget(messages: seq<Message>, budget: int)
    ensures
      var batches := Batches(messages, budget);
      && Flatten(batches) == messages
      && (forall k :: 0 <= k < |batches| ==> batches[k] != [])
      && (forall k :: 0 <= k < |batches| && |batches[k]| >= 2 ==> Letters(batches[k]) + 48 * |batches[k]| <= budget)
      && (forall k, next :: 0 <= k < |batches| - 1 && next == batches[k + 1][0] ==>
            Letters(batches[k]) + 48 * |batches[k]| + |next.content| + |next.speaker| + 48 > budget)
  {
    hide Total, Letters, Batches, Flatten;
    BatchesFit(messages, budget);
    var batches := Batches(messages, budget);
    forall k | 0 <= k < |batches| ensures Total(batches[k]) == Letters(batches[k]) + 48 * |batches[k]| {
      LettersTotal(batches[k]);
    }
    forall k, next | 0 <= k < |batches| - 1 && next == batches[k + 1][0]
      ensures Letters(batches[k]) + 48 * |batches[k]| + |next.content| + |next.speaker| + 48 > budget
    {
      assert Total(batches[k]) + Cost(batches[k + 1][0]) > budget;
    }
  }

  lemma NoBatches(budget: int)
    ensures Batches([], budget) == []
  {
  }

  lemma TotalAppend(batch: Batch, message: Message)
    ensures Total(batch + [message]) == Total(batch) + Cost(message)
  {
    assert (batch + [message])[..|batch|] == batch;
  }

  lemma {:induction false} TotalPrefix(batch: Batch, n: nat)
    requires n <= |batch|
    ensures Total(batch[..n]) <= Total(batch)
  {
    if n < |batch| {
      TotalPrefix(batch[..|batch| - 1], n);
      assert batch[..|batch| - 1][..n] == batch[..n];
    } else {
      assert batch[..n] == batch;
    }
  }

  lemma {:induction false} TotalSplit(a: Batch, b: Batch)
    ensures Total(a + b) == Total(a) + Total(b)
  {
    if b == [] {
      assert a + b == a;
    } else {
      assert (a + b)[..|a + b| - 1] == a + b[..|b| - 1];
      TotalSplit(a, b[..|b| - 1]);
    }
  }

  /** The first batch fits, and the next message would not have. */
  lemma {:induction false} FillStops(messages: seq<Message>, budget: int, n: nat, chars: int)
    requires n <= |messages| && chars == Total(messages[..n])
    requires n > 0 ==> Fits(messages[..n], budget)
    ensures
      var end := Fill(messages, budget, n, chars);
      && (end > 0 ==> Fits(messages[..end], budget))
      && (0 < end < |messages| ==> Total(messages[..end]) + Cost(messages[end]) > budget)
    decreases |messages| - n
  {
    if n < |messages| && (n == 0 || chars + Cost(messages[n]) <= budget) {
      assert messages[..n] + [messages[n]] == messages[..n + 1];
      TotalAppend(messages[..n], messages[n]);
      FillStops(messages, budget, n + 1, chars + Cost(messages[n]));
    }
  }

  /** The greedy batching is one, and leaves no room before a cut. */
  lemma {:induction false} BatchesFit(messages: seq<Message>, budget: int)
    ensures IsBatching(Batches(messages, budget), messages, budget)
    ensures Crowded(Batches(messages, budget), budget)
    decreases |messages|
  {
    hide Fits, Cost, Total;
    var all := Batches(messages, budget);
    if messages != [] {
      NoTotal();
      var end := Fill(messages, budget, 0, 0);
      assert messages[..0] == [];
      FillStops(messages, budget, 0, 0);
      BatchesFit(messages[end..], budget);
      var rest := Batches(messages[end..], budget);
      assert all == [messages[..end]] + rest;
      assert all[1..] == rest;
      assert messages == messages[..end] + messages[end..];
      if rest != [] {
        assert rest[0][0] == messages[end] by {
          FirstOfFlatten(rest);
        }
      }
    }
  }

  lemma NoTotal()
    ensures Total([]) == 0
  {
  }

  lemma FirstOfFlatten(batches: seq<Batch>)
    requires batches != [] && batches[0] != []
    ensures Flatten(batches) != [] && Flatten(batches)[0] == batches[0][0]
  {
  }

  // ---- no batching is shorter -----------------------------------------------

  /**
   Greedy stays ahead: a crowded batching of the end of what another one covers has
   at most as many batches.
   */
  lemma {:induction false} StaysAhead(crowded: seq<Batch>, other: seq<Batch>, before: seq<Message>, budget: int)
    requires Crowded(crowded, budget) && AllFit(other, budget)
    requires Flatten(other) == before + Flatten(crowded)
    ensures |crowded| <= |other|
    decreases |other|
  {
    hide Cost, Total;
    if crowded != [] && other != [] {
      var c, o := crowded[0], other[0];
      if |crowded| > 1 {
        Reaches(crowded, other, before, budget);
        var rest := Flatten(crowded[1..]);
        var ahead := (before + c)[|o|..];
        assert Flatten(other[1..]) == ahead + rest by {
          assert o + Flatten(other[1..]) == (before + c) + rest;
          assert Flatten(other[1..]) == (o + Flatten(other[1..]))[|o|..];
        }
        StaysAhead(crowded[1..], other[1..], ahead, budget);
      }
    }
  }

  lemma Reaches(crowded: seq<Batch>, other: seq<Batch>, before: seq<Message>, budget: int)
    requires |crowded| > 1 && other != [] && Crowded(crowded, budget) && AllFit(other, budget)
    requires Flatten(other) == before + Flatten(crowded)
    ensures |before| + |crowded[0]| >= |other[0]|
  {
    hide Cost, Total, Flatten;
    if |before| + |crowded[0]| < |other[0]| {
      assert Fits(other[0], budget) && |crowded[0]| > 0;
      assert Total(crowded[0]) + Cost(crowded[1][0]) > budget;
      RoomTaken(crowded, other, before);
    }
  }

  /** A batch that reaches past the crowded one holds all of it and the message after. */
  lemma RoomTaken(crowded: seq<Batch>, other: seq<Batch>, before: seq<Message>)
    requires |crowded| > 1 && other != [] && crowded[1] != []
    requires Flatten(other) == before + Flatten(crowded)
    requires |before| + |crowded[0]| < |other[0]|
    ensures Total(crowded[0]) + Cost(crowded[1][0]) <= Total(other[0])
  {
    hide Cost, Total;
    var c, o, next := crowded[0], other[0], crowded[1][0];
    var whole := Flatten(other);
    var reach := |before| + |c| + 1;
    assert Flatten(crowded) == c + Flatten(crowded[1..]);
    FirstOfFlatten(crowded[1..]);
    assert whole == (before + c) + Flatten(crowded[1..]);
    assert whole[..reach] == before + (c + [next]);
    assert whole[..reach] == o[..reach];
    TotalSplit(before, c + [next]);
    TotalAppend(c, next);
    TotalPrefix(o, reach);
  }

  /** No batching of the messages within the budget has fewer batches than `batchMessages` makes. */
  lemma FewestBatches(messages: seq<Message>, budget: int, other: seq<Batch>)
    requires IsBatching(other, messages, budget)
    ensures |Batches(messages, budget)| <= |other|
  {
    hide Fits, Flatten;
    BatchesFit(messages, budget);
    assert [] + messages == messages;
    StaysAhead(Batches(messages, budget), other, [], budget);
  }

  /** A smaller budget never makes fewer batches. */
  lemma ShrinkingNeverFewer(messages: seq<Message>, small: int, big: int)
    requires small <= big
    ensures |Batches(messages, big)| <= |Batches(messages, small)|
  {
    BatchesFit(messages, small);
    FewestBatches(messages, big, Batches(messages, small));
  }

  lemma FirstTheSame(a: seq<Batch>, b: seq<Batch>, messages: seq<Message>, budget: int)
    requires messages != [] && IsBatching(a, messages, budget) && IsBatching(b, messages, budget)
    requires Crowded(a, budget) && Crowded(b, budget)
    ensures a != [] && b != [] && a[0] == b[0] != []
    ensures Flatten(a[1..]) == Flatten(b[1..]) == messages[|a[0]|..]
  {
    hide Cost, Total, Fits;
    FirstAtLeast(a, b, messages, budget);
    FirstAtLeast(b, a, messages, budget);
    assert messages == a[0] + Flatten(a[1..]) == b[0] + Flatten(b[1..]);
    assert a[0] == messages[..|a[0]|] == b[0];
  }

  /** `batchMessages` is the only crowded batching: two of them never differ. */
  lemma {:induction false} CrowdedUnique(a: seq<Batch>, b: seq<Batch>, messages: seq<Message>, budget: int)
    requires IsBatching(a, messages, budget) && IsBatching(b, messages, budget)
    requires Crowded(a, budget) && Crowded(b, budget)
    ensures a == b
    decreases |messages|
  {
    hide Cost, Total, Fits;
    if messages == [] {
      NothingBatched(a);
      NothingBatched(b);
    } else {
      FirstTheSame(a, b, messages, budget);
      CrowdedUnique(a[1..], b[1..], messages[|a[0]|..], budget);
      assert a == [a[0]] + a[1..] && b == [b[0]] + b[1..];
    }
  }

  lemma NothingBatched(a: seq<Batch>)
    requires Flatten(a) == [] && forall k :: 0 <= k < |a| ==> a[k] != []
    ensures a == []
  {
  }

  lemma OnlyCrowded(messages: seq<Message>, budget: int, other: seq<Batch>)
    requires IsBatching(other, messages, budget) && Crowded(other, budget)
    ensures other == Batches(messages, budget)
  {
    hide Batches, Flatten, Fits, Crowded;
    BatchesFit(messages, budget);
    CrowdedUnique(other, Batches(messages, budget), messages, budget);
  }

  lemma FirstAtLeast(crowded: seq<Batch>, other: seq<Batch>, messages: seq<Message>, budget: int)
    requires crowded != [] && other != [] && Crowded(crowded, budget) && AllFit(other, budget)
    requires Flatten(crowded) == Flatten(other) == messages
    ensures |crowded[0]| >= |other[0]|
  {
    hide Cost, Total;
    if |crowded| == 1 {
      assert Flatten(crowded[1..]) == [];
    } else {
      assert [] + messages == messages;
      Reaches(crowded, other, [], budget);
    }
  }
}

/** The completion loop. */
module Completion {
  import opened Wrappers
  import opened Batching

  /** What a call to the model comes to. */
  datatype Outcome = Completed(content: string) | Overflow | Failed(error: string)

  /** The model: what call `attempt` answers to a batch. */
  type Model = (nat, Batch) -> Outcome

  datatype Cause = ContextOverflow | Other(error: string)

  /** How a run ended, and what was left of the queue and of the budget then. */
  datatype Run = Run(
    contents: seq<string>, batches: seq<Batch>, attempts: nat, left: seq<Message>, budget: int, failure: Option<Cause>)

  function Shrunk(budget: int): int {
    if budget / 2 < MIN_SUMMARY_BATCH_CHARS then MIN_SUMMARY_BATCH_CHARS else budget / 2
  }

  function FirstBatch(queue: seq<Message>, budget: int): (batch: Batch)
    requires queue != []
    ensures batch != [] && batch <= queue && Batches(queue, budget) == [batch] + Batches(queue[|batch|..], budget)
  {
    queue[..Fill(queue, budget, 0, 0)]
  }

  /** The rest of the loop, from a queue and a budget on. */
  function RunFrom(queue: seq<Message>, budget: int, attempt: nat, model: Model): Run
    requires MIN_SUMMARY_BATCH_CHARS <= budget
    decreases |queue|, budget
  {
    if queue == [] then Run([], [], 0, [], budget, None)
    else
      var batch := FirstBatch(queue, budget);
      match model(attempt, batch)
      case Overflow =>
        if budget > MIN_SUMMARY_BATCH_CHARS then
          var run := RunFrom(queue, Shrunk(budget), attempt + 1, model);
          run.(attempts := run.attempts + 1)
        else Run([], [], 1, queue, budget, Some(ContextOverflow))
      case Failed(error) => Run([], [], 1, queue, budget, Some(Other(error)))
      case Completed(content) =>
        var run := RunFrom(queue[|batch|..], budget, attempt + 1, model);
        run.(contents := [content] + run.contents, batches := [batch] + run.batches, attempts := run.attempts + 1)
  }

  function Completions(messages: seq<Message>, model: Model): Run {
    RunFrom(messages, SUMMARY_BATCH_CHARS, 0, model)
  }

  method CompleteTranscriptBatches(messages: seq<Message>, model: Model) returns (result: Result<seq<string>, Cause>)
    ensures
      var run := Completions(messages, model);
      result == match run.failure case None => Success(run.contents) case Some(cause) => Failure(cause)
  {
    hide Batches, Fill;
    var budget := SUMMARY_BATCH_CHARS;
    var queue := messages;
    var contents: seq<string> := [];
    var attempt := 0;
    ghost var run := Completions(messages, model);
    assert [] + run.contents == run.contents;
    while queue != []
      invariant MIN_SUMMARY_BATCH_CHARS <= budget
      invariant run.contents == contents + RunFrom(queue, budget, attempt, model).contents
      invariant run.failure == RunFrom(queue, budget, attempt, model).failure
      decreases |queue|, budget
    {
      var remaining := BatchMessages(queue, budget);
      var batch := remaining[0];
      assert batch == FirstBatch(queue, budget);
      var outcome := model(attempt, batch);
      ghost var rest := RunFrom(queue, budget, attempt, model).contents;
      attempt := attempt + 1;
      match outcome {
        case Overflow =>
          if budget > MIN_SUMMARY_BATCH_CHARS {
            budget := Shrunk(budget);
            continue;
          }
          return Failure(ContextOverflow);
        case Failed(error) =>
          return Failure(Other(error));
        case Completed(content) =>
          queue := queue[|batch|..];
          assert rest == [content] + RunFrom(queue, budget, attempt, model).contents;
          assert contents + rest == contents + [content] + RunFrom(queue, budget, attempt, model).contents;
          contents := contents + [content];
      }
    }
    assert RunFrom(queue, budget, attempt, model).contents == [] && contents + [] == contents;
    result := Success(contents);
  }

  // ---- every message is summarized, once, in order --------------------------

  /** How often a budget can still be halved. */
  function Halvings(budget: int): nat
    decreases budget
  {
    if budget <= MIN_SUMMARY_BATCH_CHARS then 0 else 1 + Halvings(Shrunk(budget))
  }

  /** The completed batches are the start of the queue, each the longest its budget allowed. */
  lemma {:induction false} RunCovers(queue: seq<Message>, budget: int, attempt: nat, model: Model)
    requires MIN_SUMMARY_BATCH_CHARS <= budget
    ensures
      var run := RunFrom(queue, budget, attempt, model);
      && |run.contents| == |run.batches|
      && Flatten(run.batches) <= queue
      && (run.failure.None? ==> Flatten(run.batches) == queue)
      && AllFit(run.batches, budget)
      && (run.failure.None? ==> Crowded(run.batches, MIN_SUMMARY_BATCH_CHARS))
      && |run.batches| <= run.attempts <= |queue| + Halvings(budget) + 1
      && (run.failure.None? ==> run.attempts <= |queue| + Halvings(budget))
    decreases |queue|, budget
  {
    hide Fits, Total, Cost, Fill, Batches;
    if queue != [] {
      var batch := FirstBatch(queue, budget);
      FirstFits(queue, budget);
      match model(attempt, batch) {
        case Overflow =>
          if budget > MIN_SUMMARY_BATCH_CHARS {
            RunCovers(queue, Shrunk(budget), attempt + 1, model);
            LooserFits(RunFrom(queue, Shrunk(budget), attempt + 1, model).batches, Shrunk(budget), budget);
          }
        case Failed(error) =>
        case Completed(content) =>
          var rest := RunFrom(queue[|batch|..], budget, attempt + 1, model);
          RunCovers(queue[|batch|..], budget, attempt + 1, model);
          CoversStep(queue, batch, rest.batches, budget, rest.failure.None?);
      }
    }
  }

  lemma FirstFits(queue: seq<Message>, budget: int)
    requires queue != []
    ensures
      var batch := FirstBatch(queue, budget);
      && Fits(batch, budget)
      && (|batch| < |queue| ==> Total(batch) + Cost(queue[|batch|]) > budget)
  {
    hide Fits, Cost, Fill, Batches;
    NoTotal();
    assert queue[..0] == [];
    FillStops(queue, budget, 0, 0);
  }

  lemma LooserFits(batches: seq<Batch>, small: int, big: int)
    requires small <= big && AllFit(batches, small)
    ensures AllFit(batches, big)
  {
  }

  lemma CoversStep(queue: seq<Message>, batch: Batch, rest: seq<Batch>, budget: int, whole: bool)
    requires batch != [] && batch <= queue && Fits(batch, budget) && AllFit(rest, budget)
    requires MIN_SUMMARY_BATCH_CHARS <= budget
    requires |batch| < |queue| ==> Total(batch) + Cost(queue[|batch|]) > budget
    requires Flatten(rest) <= queue[|batch|..]
    requires whole ==> Flatten(rest) == queue[|batch|..] && Crowded(rest, MIN_SUMMARY_BATCH_CHARS)
    ensures
      var all := [batch] + rest;
      && Flatten(all) <= queue && AllFit(all, budget)
      && (whole ==> Flatten(all) == queue && Crowded(all, MIN_SUMMARY_BATCH_CHARS))
  {
    hide Fits, Total, Cost;
    var all := [batch] + rest;
    assert all[1..] == rest;
    assert queue == batch + queue[|batch|..];
    if whole && rest != [] {
      FirstOfFlatten(rest);
      assert queue[|batch|] == rest[0][0];
    }
  }

  /** The model answers a batch with this content, at attempt `from` or later. */
  ghost predicate Answers(model: Model, from: nat, batch: Batch, content: string) {
    exists a: nat :: from <= a && model(a, batch) == Completed(content)
  }

  /** Each content is what the model said of its batch, never before its place in the run. */
  ghost predicate Answered(run: Run, attempt: nat, model: Model) {
    |run.contents| == |run.batches|
    && forall k :: 0 <= k < |run.batches| ==> Answers(model, attempt + k, run.batches[k], run.contents[k])
  }

  lemma AnswersEarlier(model: Model, from: nat, sooner: nat, batch: Batch, content: string)
    requires sooner <= from && Answers(model, from, batch, content)
    ensures Answers(model, sooner, batch, content)
  {
  }

  lemma {:induction false} EachAnswered(queue: seq<Message>, budget: int, attempt: nat, model: Model)
    requires MIN_SUMMARY_BATCH_CHARS <= budget
    ensures Answered(RunFrom(queue, budget, attempt, model), attempt, model)
    decreases |queue|, budget
  {
    hide FirstBatch, Batches, Answers;
    if queue != [] {
      var batch := FirstBatch(queue, budget);
      match model(attempt, batch) {
        case Overflow =>
          if budget > MIN_SUMMARY_BATCH_CHARS {
            EachAnswered(queue, Shrunk(budget), attempt + 1, model);
            var later := RunFrom(queue, Shrunk(budget), attempt + 1, model);
            forall k | 0 <= k < |later.batches| ensures Answers(model, attempt + k, later.batches[k], later.contents[k]) {
              AnswersEarlier(model, attempt + 1 + k, attempt + k, later.batches[k], later.contents[k]);
            }
          }
        case Failed(_) =>
        case Completed(content) =>
          EachAnswered(queue[|batch|..], budget, attempt + 1, model);
          AnsweredNow(model, attempt, batch, content);
      }
    }
  }

  lemma AnsweredNow(model: Model, attempt: nat, batch: Batch, content: string)
    requires model(attempt, batch) == Completed(content)
    ensures Answers(model, attempt, batch, content)
  {
  }

  /**
   However the model answers, a run that returns has put every message in exactly
   one completed batch, in order, with one content a batch; it made between the
   fewest batches of the full budget and of the smallest, and at most four calls
   more than there are messages.
   */
  lemma EveryMessageOnce(messages: seq<Message>, model: Model)
    requires Completions(messages, model).failure.None?
    ensures
      var run := Completions(messages, model);
      && Flatten(run.batches) == messages && |run.contents| == |run.batches| && Answered(run, 0, model)
      && AllFit(run.batches, SUMMARY_BATCH_CHARS)
      && |Batches(messages, SUMMARY_BATCH_CHARS)| <= |run.batches| <= |Batches(messages, MIN_SUMMARY_BATCH_CHARS)|
      && run.attempts <= |messages| + 4
  {
    hide Fits, Crowded, Flatten, Batches, RunFrom, Answered;
    var run := Completions(messages, model);
    RunCovers(messages, SUMMARY_BATCH_CHARS, 0, model);
    EachAnswered(messages, SUMMARY_BATCH_CHARS, 0, model);
    FourHalvings();
    FewestBatches(messages, SUMMARY_BATCH_CHARS, run.batches);
    BatchesFit(messages, MIN_SUMMARY_BATCH_CHARS);
    assert [] + messages == messages;
    StaysAhead(run.batches, Batches(messages, MIN_SUMMARY_BATCH_CHARS), [], MIN_SUMMARY_BATCH_CHARS);
  }

  lemma FourHalvings()
    ensures Halvings(SUMMARY_BATCH_CHARS) == 4
  {
    assert Halvings(1_500) == 0;
    assert Halvings(3_000) == 1;
    assert Halvings(6_000) == 2;
    assert Halvings(12_000) == 3;
  }

  /** A model that never overflows is asked exactly the batches of `batchMessages`. */
  lemma {:induction false} WithoutOverflow(queue: seq<Message>, budget: int, attempt: nat, model: Model)
    requires MIN_SUMMARY_BATCH_CHARS <= budget
    requires forall k, batch :: model(k, batch) != Overflow
    ensures
      var run := RunFrom(queue, budget, attempt, model);
      && run.batches <= Batches(queue, budget)
      && (run.failure.None? ==> run.batches == Batches(queue, budget) && run.attempts == |run.batches|)
      && run.failure != Some(ContextOverflow)
    decreases |queue|
  {
    hide Batches, FirstBatch;
    BatchesFirst(queue, budget);
    if queue != [] {
      var batch := FirstBatch(queue, budget);
      assert model(attempt, batch) != Overflow;
      if model(attempt, batch).Completed? {
        WithoutOverflow(queue[|batch|..], budget, attempt + 1, model);
      }
    }
  }

  lemma BatchesFirst(queue: seq<Message>, budget: int)
    requires MIN_SUMMARY_BATCH_CHARS <= budget
    ensures Batches(queue, budget)
            == if queue == [] then []
               else [FirstBatch(queue, budget)] + Batches(queue[|FirstBatch(queue, budget)|..], budget)
  {
    hide Fill;
  }

  lemma NothingFlat()
    ensures Flatten([]) == []
  {
  }

  lemma PutFirst(batch: Batch, rest: seq<Batch>, left: seq<Message>, queue: seq<Message>)
    requires batch <= queue && Flatten(rest) + left == queue[|batch|..]
    ensures Flatten([batch] + rest) + left == queue
  {
    assert ([batch] + rest)[1..] == rest;
    assert batch + Flatten(rest) + left == batch + (Flatten(rest) + left) == queue;
  }

  /** Nothing of the queue is lost: it is what was completed and what is left. */
  lemma {:induction false} NothingLost(queue: seq<Message>, budget: int, attempt: nat, model: Model)
    requires MIN_SUMMARY_BATCH_CHARS <= budget
    ensures
      var run := RunFrom(queue, budget, attempt, model);
      Flatten(run.batches) + run.left == queue && MIN_SUMMARY_BATCH_CHARS <= run.budget <= budget
    decreases |queue|, budget
  {
    hide FirstBatch, Batches, Flatten;
    NothingFlat();
    if queue != [] {
      var batch := FirstBatch(queue, budget);
      match model(attempt, batch) {
        case Overflow =>
          if budget > MIN_SUMMARY_BATCH_CHARS {
            NothingLost(queue, Shrunk(budget), attempt + 1, model);
          }
        case Failed(error) =>
        case Completed(content) =>
          var rest := RunFrom(queue[|batch|..], budget, attempt + 1, model);
          NothingLost(queue[|batch|..], budget, attempt + 1, model);
          PutFirst(batch, rest.batches, rest.left, queue);
      }
    }
  }

  /**
   What a run that throws was stopped by: its last call, made with the first batch
   of what was left, either overflowed at the smallest budget or failed otherwise.
   */
  lemma {:induction false} GivesUp(queue: seq<Message>, budget: int, attempt: nat, model: Model)
    requires MIN_SUMMARY_BATCH_CHARS <= budget
    ensures
      var run := RunFrom(queue, budget, attempt, model);
      run.failure.Some? ==>
        && run.attempts > 0 && run.left != []
        && var answer := model(attempt + run.attempts - 1, FirstBatch(run.left, run.budget));
           match run.failure.value
           case ContextOverflow => answer == Overflow && run.budget == MIN_SUMMARY_BATCH_CHARS
           case Other(error) => answer == Failed(error)
    decreases |queue|, budget
  {
    hide FirstBatch, Batches, Fits;
    if queue != [] {
      var batch := FirstBatch(queue, budget);
      match model(attempt, batch) {
        case Overflow =>
          if budget > MIN_SUMMARY_BATCH_CHARS {
            GivesUp(queue, Shrunk(budget), attempt + 1, model);
          }
        case Failed(error) =>
        case Completed(content) =>
          GivesUp(queue[|batch|..], budget, attempt + 1, model);
      }
    }
  }

  /** An overflow halves the budget, rounded down, but for the least one, and the same queue is batched again. */
  lemma OverflowHalves(queue: seq<Message>, budget: int, attempt: nat, model: Model) returns (next: int)
    requires budget > 1500 && queue != [] && model(attempt, FirstBatch(queue, budget)) == Overflow
    ensures if budget >= 3000 then 2 * next <= budget <= 2 * next + 1 else next == 1500
    ensures
      var run := RunFrom(queue, budget, attempt, model);
      MIN_SUMMARY_BATCH_CHARS <= next && run == RunFrom(queue, next, attempt + 1, model).(attempts := run.attempts)
  {
    hide FirstBatch;
    next := Shrunk(budget);
  }

  /** A model that overflows at any size is asked five times: at 24 000, 12 000, 6 000, 3 000 and 1 500 characters. */
  lemma FiveTries(messages: seq<Message>, model: Model)
    requires messages != [] && forall attempt: nat, batch :: model(attempt, batch) == Overflow
    ensures
      var run := Completions(messages, model);
      run.attempts == 5 && run.failure == Some(ContextOverflow) && run.left == messages && run.budget == 1500
  {
    hide RunFrom;
    TriesAgain(messages, 24000, 0, model);
    TriesAgain(messages, 12000, 1, model);
    TriesAgain(messages, 6000, 2, model);
    TriesAgain(messages, 3000, 3, model);
    TriesAgain(messages, 1500, 4, model);
  }

  lemma TriesAgain(messages: seq<Message>, budget: int, attempt: nat, model: Model)
    requires messages != [] && forall attempt: nat, batch :: model(attempt, batch) == Overflow
    requires budget >= MIN_SUMMARY_BATCH_CHARS
    ensures
      var run := RunFrom(messages, budget, attempt, model);
      if budget == MIN_SUMMARY_BATCH_CHARS then run == Run([], [], 1, messages, budget, Some(ContextOverflow))
      else
        var next := RunFrom(messages, Shrunk(budget), attempt + 1, model);
        run == next.(attempts := next.attempts + 1)
  {
    hide FirstBatch;
  }

  /** A call that fails for another reason than the size of its batch is the last, and the run throws. */
  lemma {:induction false} FailsAtOnce(queue: seq<Message>, budget: int, attempt: nat, model: Model, n: nat, error: string)
    requires MIN_SUMMARY_BATCH_CHARS <= budget && attempt <= n
    requires forall batch :: model(n, batch) == Failed(error)
    ensures
      var run := RunFrom(queue, budget, attempt, model);
      && run.attempts <= n - attempt + 1
      && (run.attempts == n - attempt + 1 ==> run.failure == Some(Other(error)))
    decreases |queue|, budget
  {
    hide FirstBatch, Batches;
    if queue != [] {
      var batch := FirstBatch(queue, budget);
      if attempt < n {
        match model(attempt, batch) {
          case Overflow =>
            if budget > MIN_SUMMARY_BATCH_CHARS {
              FailsAtOnce(queue, Shrunk(budget), attempt + 1, model, n, error);
            }
          case Failed(_) =>
          case Completed(_) =>
            FailsAtOnce(queue[|batch|..], budget, attempt + 1, model, n, error);
        }
      } else {
        assert model(n, batch) == Failed(error);
      }
    }
  }
}
