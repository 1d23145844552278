/** The `POST /api` handler: the request checks, then the events sent in
    consecutive batches, with a pause between batches, and a summary of what
    was sent and what failed. The network is an oracle: `outcome(i)` is what
    sending the event at position `i` gives. */
module ApiServer {
  import opened Wrappers
  import opened Types
  import Seqs

  /** What one `fetch` of an event ends in: a 2xx response, or an error with
      the message the handler records. */
  datatype SendOutcome = Sent | Failed(message: string)

  /** One entry of the `errors` array. */
  datatype SendError = SendError(eventId: string, error: string)

  /** The request body. `events` is None when it is missing or not an array;
      `targetUrl` and `batchSize` are None when they are missing. */
  datatype Request = Request(events: Option<seq<WebhookEvent>>, targetUrl: Option<string>, batchSize: Option<nat>)

  /** A 400 answer with its error text, or the summary of a run. */
  datatype ApiResponse =
    | Rejected(status: nat, error: string)
    | Summary(success: bool, processedCount: nat, totalEvents: nat, errors: seq<SendError>, targetUrl: string)

  /** One batch as it ran: the slice `[start, end)` of the events, and whether
      the handler paused after it. */
  datatype BatchRun = BatchRun(start: nat, end: nat, delayed: bool)

  const DefaultBatchSize: nat := 10

  /** `batchSize = 10` in the destructuring of the body. */
  function BatchSizeOf(req: Request): nat
  {
    match req.batchSize
    case None => DefaultBatchSize
    case Some(b) => b
  }

  /** `!targetUrl` is false: a present, non-empty string. */
  predicate HasTargetUrl(req: Request)
  {
    req.targetUrl.Some? && req.targetUrl.value != ""
  }

  function Min(a: nat, b: nat): nat
  {
    if a <= b then a else b
  }

  // ---------------------------------------------------------------------
  // Specification of a run
  // ---------------------------------------------------------------------

  /** The error entry one event adds: one for a failed send, carrying that
      event's own id. */
  function ErrorStep(outcome: nat -> SendOutcome): (WebhookEvent, nat) -> seq<SendError>
  {
    (e: WebhookEvent, i: nat) => if outcome(i).Failed? then [SendError(e.eventId, outcome(i).message)] else []
  }

  /** The error entries of the events, in event order. */
  function SendErrors(events: seq<WebhookEvent>, outcome: nat -> SendOutcome): seq<SendError>
  {
    Seqs.FlatMapIndexed(ErrorStep(outcome), events)
  }

  /** The number of successful sends among the first `n` events. */
  function Successes(outcome: nat -> SendOutcome, n: nat): nat
  {
    if n == 0 then 0 else Successes(outcome, n - 1) + (if outcome(n - 1).Sent? then 1 else 0)
  }

  /** The positions `0, 1, ..., n - 1`, each once, in order. */
  function Range(n: nat): (r: seq<nat>)
    ensures |r| == n && forall i :: 0 <= i < n ==> r[i] == i
  {
    seq(n, i requires 0 <= i < n => i)
  }

  /** The batches of `for (let i = from; i < n; i += b)`: the slices
      `events.slice(i, i + b)` and whether `i + b < n` asks for a pause. */
  function BatchPlan(n: nat, b: nat, from: nat): seq<BatchRun>
    requires b > 0
    decreases n - from
  {
    if from >= n then [] else [BatchRun(from, Min(from + b, n), from + b < n)] + BatchPlan(n, b, from + b)
  }

  // ---------------------------------------------------------------------
  // The handler
  // ---------------------------------------------------------------------

  /** The batch loop, one event after the other: every event is attempted
      once, a success increments `processedCount`, a failure appends one
      entry with the event's own id. */
  method DispatchInBatches(events: seq<WebhookEvent>, batchSize: nat, outcome: nat -> SendOutcome)
    returns (processedCount: nat, errors: seq<SendError>, ghost attempts: seq<nat>, ghost batches: seq<BatchRun>)
    requires batchSize > 0 || events == []
    ensures processedCount == Successes(outcome, |events|)
    ensures errors == SendErrors(events, outcome)
    ensures attempts == Range(|events|)
    ensures batchSize > 0 ==> batches == BatchPlan(|events|, batchSize, 0)
    ensures events == [] ==> batches == []
  {
    var n := |events|;
    processedCount, errors, attempts, batches := 0, [], [], [];
    if n == 0 {
      return;
    }
    var i := 0;
    while i < n
      invariant i < n + batchSize
      invariant processedCount == Successes(outcome, Min(i, n))
      invariant errors == SendErrors(events[..Min(i, n)], outcome)
      invariant attempts == Range(Min(i, n))
      invariant batches + BatchPlan(n, batchSize, i) == BatchPlan(n, batchSize, 0)
      decreases n - i
    {
      var end := Min(i + batchSize, n);
      processedCount, errors, attempts := SendBatch(events, i, end, outcome, processedCount, errors, attempts);
      ghost var delayed := false;
      if i + batchSize < n {
        // the 100 ms pause between batches
        delayed := true;
      }
      ghost var run := BatchRun(i, end, delayed);
      assert BatchPlan(n, batchSize, i) == [run] + BatchPlan(n, batchSize, i + batchSize);
      assert (batches + [run]) + BatchPlan(n, batchSize, i + batchSize) == batches + BatchPlan(n, batchSize, i);
      batches := batches + [run];
      assert Min(i + batchSize, n) == end;
      i := i + batchSize;
    }
    assert events[..n] == events;
    assert batches == batches + BatchPlan(n, batchSize, i);
  }

  /** `Promise.all(batch.map(...))` for the events `[start, end)`, one after
      the other: the counters after the batch are those of the first `end`
      events. */
  method SendBatch(events: seq<WebhookEvent>, start: nat, end: nat, outcome: nat -> SendOutcome,
                   processedCount: nat, errors: seq<SendError>, ghost attempts: seq<nat>)
    returns (processedCount': nat, errors': seq<SendError>, ghost attempts': seq<nat>)
    requires start <= end <= |events|
    requires processedCount == Successes(outcome, start)
    requires errors == SendErrors(events[..start], outcome)
    requires attempts == Range(start)
    ensures processedCount' == Successes(outcome, end)
    ensures errors' == SendErrors(events[..end], outcome)
    ensures attempts' == Range(end)
  {
    processedCount', errors', attempts' := processedCount, errors, attempts;
    for j := start to end
      invariant processedCount' == Successes(outcome, j)
      invariant errors' == SendErrors(events[..j], outcome)
      invariant attempts' == Range(j)
    {
      SendErrorsStep(events, outcome, j);
      assert Range(j + 1) == Range(j) + [j];
      attempts' := attempts' + [j];
      match outcome(j)
      case Sent =>
        processedCount' := processedCount' + 1;
      case Failed(message) =>
        errors' := errors' + [SendError(events[j].eventId, message)];
    }
  }

  /** The `POST` handler: the request checks in order, then the batch loop
      and its summary. A batch size of 0 is only a problem once both checks
      pass and there are events to send: the loop would then never end. */
  method HandlePost(req: Request, outcome: nat -> SendOutcome) returns (resp: ApiResponse)
    requires req.events.Some? && HasTargetUrl(req) && req.events.value != [] ==> BatchSizeOf(req) > 0
    ensures req.events.None? ==> resp == Rejected(400, "Invalid events data")
    ensures req.events.Some? && !HasTargetUrl(req) ==> resp == Rejected(400, "Target URL is required")
    ensures req.events.Some? && HasTargetUrl(req) ==>
              var events := req.events.value;
              resp == Summary(SendErrors(events, outcome) == [], Successes(outcome, |events|), |events|,
                              SendErrors(events, outcome), req.targetUrl.value)
    ensures resp.Summary? ==> resp.processedCount + |resp.errors| == resp.totalEvents
    ensures resp.Summary? ==> (resp.success <==> resp.errors == [])
  {
    if req.events.None? {
      return Rejected(400, "Invalid events data");
    }
    if !HasTargetUrl(req) {
      return Rejected(400, "Target URL is required");
    }
    var events := req.events.value;
    var processedCount, errors, attempts, batches := DispatchInBatches(events, BatchSizeOf(req), outcome);
    CountsAddUp(events, outcome);
    resp := Summary(|errors| == 0, processedCount, |events|, errors, req.targetUrl.value);
  }

  // ---------------------------------------------------------------------
  // Properties
  // ---------------------------------------------------------------------

  /** One more event adds its error entry, if any, at the end. */
  lemma SendErrorsStep(events: seq<WebhookEvent>, outcome: nat -> SendOutcome, j: nat)
    requires j < |events|
    ensures SendErrors(events[..j + 1], outcome) ==
            SendErrors(events[..j], outcome) +
            (if outcome(j).Failed? then [SendError(events[j].eventId, outcome(j).message)] else [])
  {
    Seqs.FlatMapStep(ErrorStep(outcome), events, j);
  }

  /** Every event is counted once: as a success or as one error entry. */
  lemma {:induction false} CountsAddUp(events: seq<WebhookEvent>, outcome: nat -> SendOutcome)
    ensures Successes(outcome, |events|) + |SendErrors(events, outcome)| == |events|
  {
    if events != [] {
      var n := |events| - 1;
      CountsAddUp(events[..n], outcome);
      SendErrorsStep(events, outcome, n);
      assert events[..n + 1] == events;
    }
  }

  /** The error entries are exactly one per failed send, with the id of the
      event that failed and the message of its failure. */
  lemma FailedSendsUseOwnIds(events: seq<WebhookEvent>, outcome: nat -> SendOutcome, e: SendError)
    ensures e in SendErrors(events, outcome) <==>
            exists i :: 0 <= i < |events| && outcome(i).Failed? &&
                        e == SendError(events[i].eventId, outcome(i).message)
  {
    Seqs.FlatMapMember(ErrorStep(outcome), events, e);
    if e in SendErrors(events, outcome) {
      var i :| 0 <= i < |events| && e in ErrorStep(outcome)(events[i], i);
      assert outcome(i).Failed? && e == SendError(events[i].eventId, outcome(i).message);
    }
    if exists i :: 0 <= i < |events| && outcome(i).Failed? && e == SendError(events[i].eventId, outcome(i).message) {
      var i :| 0 <= i < |events| && outcome(i).Failed? && e == SendError(events[i].eventId, outcome(i).message);
      assert e in ErrorStep(outcome)(events[i], i);
    }
  }

  /** The run succeeds exactly when every send succeeds. */
  lemma SuccessIffAllSent(events: seq<WebhookEvent>, outcome: nat -> SendOutcome)
    ensures SendErrors(events, outcome) == [] <==> forall i :: 0 <= i < |events| ==> outcome(i).Sent?
  {
    Seqs.FlatMapEmpty(ErrorStep(outcome), events);
    assert forall i :: 0 <= i < |events| ==> (ErrorStep(outcome)(events[i], i) == [] <==> outcome(i).Sent?);
  }

  /** `k * b <= x < k * b + b` means `x / b == k`. */
  lemma DivBetween(x: nat, b: nat, k: nat)
    requires b > 0 && k * b <= x < k * b + b
    ensures x / b == k
  {
    var q := x / b;
    assert q * b <= x < q * b + b;
    if q < k {
      MulLess(q, k, b);
    } else if q > k {
      MulLess(k, q, b);
    }
  }

  /** A smaller factor gives a product smaller by at least `b`. */
  lemma {:induction false} MulLess(a: nat, c: nat, b: nat)
    requires a < c
    ensures a * b + b <= c * b
    decreases c - a
  {
    assert c * b == (c - 1) * b + b;
    if a < c - 1 {
      MulLess(a, c - 1, b);
    }
  }

  /** Batch `k` of the plan starting at `from` is the slice from
      `from + k * b`, and a pause follows it when more events remain. */
  lemma {:induction false} BatchPlanAt(n: nat, b: nat, from: nat, k: nat)
    requires b > 0 && k < |BatchPlan(n, b, from)|
    ensures from + k * b < n
    ensures BatchPlan(n, b, from)[k] == BatchRun(from + k * b, Min(from + k * b + b, n), from + k * b + b < n)
    decreases n - from
  {
    if k > 0 {
      BatchPlanAt(n, b, from + b, k - 1);
      assert from + b + (k - 1) * b == from + k * b;
    }
  }

  /** The plan from `from` has ceil((n - from) / b) batches. */
  lemma {:induction false} BatchPlanLength(n: nat, b: nat, from: nat)
    requires b > 0
    ensures from < n ==> |BatchPlan(n, b, from)| == (n - from + b - 1) / b
    ensures from >= n ==> |BatchPlan(n, b, from)| == 0
    decreases n - from
  {
    if from < n {
      BatchPlanLength(n, b, from + b);
      var k := |BatchPlan(n, b, from + b)|;
      if from + b < n {
        assert k * b <= n - from - 1 < k * b + b by {
          DivBetween(n - from - 1, b, k);
          assert (n - from - 1) / b == k;
        }
        DivBetween(n - from + b - 1, b, k + 1);
      } else {
        DivBetween(n - from + b - 1, b, 1);
      }
    }
  }

  /** ceil(n / b) batches; batch `k` is `[k * b, min(k * b + b, n))`; they
      tile `[0, n)`; and there is a pause after every batch but the last. */
  lemma BatchShape(n: nat, b: nat)
    requires b > 0
    ensures |BatchPlan(n, b, 0)| == (n + b - 1) / b
    ensures forall k :: 0 <= k < |BatchPlan(n, b, 0)| ==>
              BatchPlan(n, b, 0)[k] == BatchRun(k * b, Min(k * b + b, n), k < |BatchPlan(n, b, 0)| - 1)
  {
    BatchPlanLength(n, b, 0);
    if n == 0 {
      assert (n + b - 1) / b == 0 by { DivBetween(b - 1, b, 0); }
    }
    var count := |BatchPlan(n, b, 0)|;
    forall k | 0 <= k < count
      ensures BatchPlan(n, b, 0)[k] == BatchRun(k * b, Min(k * b + b, n), k < count - 1)
    {
      BatchPlanAt(n, b, 0, k);
      if k < count - 1 {
        BatchPlanAt(n, b, 0, k + 1);
        assert (k + 1) * b == k * b + b;
      } else {
        BatchPlanLast(n, b, k);
      }
    }
  }

  /** No pause after the last batch: it reaches the end of the events. */
  lemma BatchPlanLast(n: nat, b: nat, k: nat)
    requires b > 0 && k == |BatchPlan(n, b, 0)| - 1
    ensures k * b + b >= n
  {
    BatchPlanLength(n, b, 0);
    DivBetween(n + b - 1, b, k + 1);
  }

  /** Twenty-five events in batches of ten: three batches, of 10, 10 and 5
      events, with a pause after the first two. */
  lemma TwentyFiveInTens()
    ensures BatchPlan(25, 10, 0) == [BatchRun(0, 10, true), BatchRun(10, 20, true), BatchRun(20, 25, false)]
  {
  }
}
