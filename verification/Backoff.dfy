/** How often and how long a failing event is retried, over runs of the delivery protocol. */
module Backoff {
  import opened Outbox
  import opened OutboxSafety

  // ------------------------------------------------------- what a failure writes

  predicate Failed(r: Record)
  {
    r.status == Retry || r.status == DeadLetter
  }

  /** What is in an open batch: rows claimed when they were due, and for each that failed, one attempt
      more, the status that number calls for, and a wait from the moment of the failure. */
  ghost predicate BatchShaped(b: Batch, now: int, maxAttempts: int)
  {
    && (forall e | e in b.claimed :: b.claimed[e].availableAt <= now)
    && forall e | e in b.claimed && e in b.writes && Failed(b.writes[e]) :: FailedOnce(b.claimed[e], b.writes[e], now, maxAttempts)
  }

  ghost predicate FailedOnce(before: Record, after: Record, now: int, maxAttempts: int)
  {
    && after.attempts == before.attempts + 1
    && (after.status == DeadLetter <==> after.attempts >= maxAttempts)
    && before.availableAt + Delay(after.attempts) <= after.availableAt <= now + Delay(after.attempts)
  }

  /** Committed rows: nothing attempted yet while pending, attempts left while in retry. */
  ghost predicate RowShaped(r: Record, now: int, maxAttempts: int)
  {
    && (r.status == Pending ==> r.attempts == 0)
    && (r.status == Retry ==> r.attempts < maxAttempts)
    && (Failed(r) ==> r.availableAt <= now + Delay(r.attempts))
  }

  ghost predicate Shaped(s: System, maxAttempts: int)
  {
    && (forall w | w in s.batches :: BatchShaped(s.batches[w], s.now, maxAttempts))
    && forall e | e in s.outbox :: RowShaped(s.outbox[e], s.now, maxAttempts)
  }

  lemma FailShapes(b: Batch, outbox: map<EventId, Record>, now: int, maxAttempts: int)
    requires BatchOk(outbox, b) && BatchShaped(b, now, maxAttempts) && b.next < |b.events|
    ensures BatchShaped(Failing(b, now, maxAttempts), now, maxAttempts)
  {
    assert b.events[b.next] in b.claimed;
  }

  lemma SettleShapes(b: Batch, r: Record, result: Counters, now: int, maxAttempts: int)
    requires BatchShaped(b, now, maxAttempts) && b.next < |b.events| && !Failed(r)
    ensures BatchShaped(Settle(b, r, result), now, maxAttempts)
  {
  }

  lemma OpenedShapes(s: System, events: seq<EventId>, maxAttempts: int)
    requires forall i | 0 <= i < |events| :: events[i] in s.outbox && Claimable(s, events[i])
    ensures BatchShaped(Opened(s, events), s.now, maxAttempts)
  {
  }

  lemma TickShapes(s: System, seconds: nat, maxAttempts: int)
    requires Shaped(s, maxAttempts)
    ensures Shaped(s.(now := s.now + seconds), maxAttempts)
  {
  }

  /** A row a finished batch is about to commit. */
  lemma CommittedShapes(s: System, w: WorkerId, maxAttempts: int, e: EventId)
    requires Shaped(s, maxAttempts) && w in s.batches && BatchOk(s.outbox, s.batches[w]) && e in s.batches[w].writes
    requires s.batches[w].next == |s.batches[w].events|
    ensures RowShaped(s.batches[w].writes[e], s.now, maxAttempts)
  {
    WrittenRow(s.outbox, s.batches[w], e);
    assert BatchShaped(s.batches[w], s.now, maxAttempts);
    WrittenNotPending(s.outbox, s.batches[w], e);
  }

  lemma WrittenNotPending(outbox: map<EventId, Record>, b: Batch, e: EventId)
    requires BatchOk(outbox, b) && b.next == |b.events| && e in b.claimed
    ensures b.writes[e].status != Pending
  {
    var i :| 0 <= i < |b.events| && b.events[i] == e;
    assert i < b.next;
  }

  lemma CommitShapes(s: System, w: WorkerId, maxAttempts: int)
    requires Inv(s) && Shaped(s, maxAttempts) && Enabled(s, CommitCentral(w))
    ensures Shaped(Apply(s, CommitCentral(w), maxAttempts), maxAttempts)
  {
    var v := Apply(s, CommitCentral(w), maxAttempts);
    assert BatchOk(s.outbox, s.batches[w]);
    forall e | e in v.outbox
      ensures RowShaped(v.outbox[e], v.now, maxAttempts)
    {
      if e in s.batches[w].writes {
        CommittedShapes(s, w, maxAttempts, e);
      }
    }
  }

  /** One worker's batch changes, the committed rows and the clock do not. */
  lemma BatchMoves(s: System, v: System, w: WorkerId, maxAttempts: int)
    requires Shaped(s, maxAttempts) && v.outbox == s.outbox && v.now == s.now
    requires forall u | u in v.batches && u != w :: u in s.batches && v.batches[u] == s.batches[u]
    requires w in v.batches ==> BatchShaped(v.batches[w], s.now, maxAttempts)
    ensures Shaped(v, maxAttempts)
  {
  }

  lemma DeliveringShapes(b: Batch, now: int, maxAttempts: int)
    requires BatchShaped(b, now, maxAttempts) && b.next < |b.events|
    ensures BatchShaped(Delivering(b), now, maxAttempts)
  {
    var r := Current(b);
    SettleShapes(b, Record(Delivered, r.attempts + 1, r.availableAt), b.result.(delivered := b.result.delivered + 1), now, maxAttempts);
  }

  lemma QuarantiningShapes(b: Batch, now: int, maxAttempts: int)
    requires BatchShaped(b, now, maxAttempts) && b.next < |b.events|
    ensures BatchShaped(Quarantining(b), now, maxAttempts)
  {
    SettleShapes(b, Current(b).(status := Quarantined), b.result.(quarantined := b.result.quarantined + 1), now, maxAttempts);
  }

  lemma MarkShapes(s: System, w: WorkerId, maxAttempts: int)
    requires Shaped(s, maxAttempts) && Enabled(s, MarkDelivered(w))
    ensures Shaped(Apply(s, MarkDelivered(w), maxAttempts), maxAttempts)
  {
    DeliveringShapes(s.batches[w], s.now, maxAttempts);
    BatchMoves(s, Apply(s, MarkDelivered(w), maxAttempts), w, maxAttempts);
  }

  lemma QuarantineShapes(s: System, w: WorkerId, maxAttempts: int)
    requires Shaped(s, maxAttempts) && Enabled(s, Quarantine(w))
    ensures Shaped(Apply(s, Quarantine(w), maxAttempts), maxAttempts)
  {
    QuarantiningShapes(s.batches[w], s.now, maxAttempts);
    BatchMoves(s, Apply(s, Quarantine(w), maxAttempts), w, maxAttempts);
  }

  lemma BatchReplaced(s: System, w: WorkerId, b: Batch, maxAttempts: int)
    requires Shaped(s, maxAttempts) && BatchShaped(b, s.now, maxAttempts)
    ensures Shaped(s.(batches := s.batches[w := b]), maxAttempts)
  {
    BatchMoves(s, s.(batches := s.batches[w := b]), w, maxAttempts);
  }

  lemma HeldBatchOk(s: System, w: WorkerId)
    requires Inv(s) && w in s.batches
    ensures BatchOk(s.outbox, s.batches[w])
  {
  }

  lemma FailStepShapes(s: System, w: WorkerId, maxAttempts: int)
    requires Inv(s) && Shaped(s, maxAttempts) && Enabled(s, Fail(w))
    ensures Shaped(Apply(s, Fail(w), maxAttempts), maxAttempts)
  {
    HeldBatchOk(s, w);
    FailShapes(s.batches[w], s.outbox, s.now, maxAttempts);
    BatchReplaced(s, w, Failing(s.batches[w], s.now, maxAttempts), maxAttempts);
  }

  lemma HoldingShapes(s: System, step: Step, maxAttempts: int)
    requires Shaped(s, maxAttempts) && Enabled(s, step)
    requires step.Claim? || step.FanOut? || step.CommitTarget? || step.Die?
    ensures Shaped(Apply(s, step, maxAttempts), maxAttempts)
  {
    if step.Claim? {
      OpenedShapes(s, step.events, maxAttempts);
    } else {
      assert BatchShaped(s.batches[step.w], s.now, maxAttempts);
    }
    BatchMoves(s, Apply(s, step, maxAttempts), step.w, maxAttempts);
  }

  lemma ResetShapes(s: System, step: Step, maxAttempts: int)
    requires Shaped(s, maxAttempts) && Enabled(s, step) && (step.Enqueue? || step.Replay?)
    ensures Shaped(Apply(s, step, maxAttempts), maxAttempts)
  {
  }

  lemma StepShapes(s: System, step: Step, maxAttempts: int)
    requires Inv(s) && Shaped(s, maxAttempts) && Enabled(s, step)
    ensures Shaped(Apply(s, step, maxAttempts), maxAttempts)
  {
    match step
    case Enqueue(e) => ResetShapes(s, step, maxAttempts);
    case Replay(e) => ResetShapes(s, step, maxAttempts);
    case Tick(seconds) => TickShapes(s, seconds, maxAttempts);
    case CommitCentral(w) => CommitShapes(s, w, maxAttempts);
    case MarkDelivered(w) => MarkShapes(s, w, maxAttempts);
    case Quarantine(w) => QuarantineShapes(s, w, maxAttempts);
    case Fail(w) => FailStepShapes(s, w, maxAttempts);
    case _ => HoldingShapes(s, step, maxAttempts);
  }

  lemma {:induction false} RunShapes(s: System, steps: seq<Step>, maxAttempts: int)
    requires Inv(s) && Shaped(s, maxAttempts) && Legal(s, steps, maxAttempts)
    ensures Inv(Run(s, steps, maxAttempts)) && Shaped(Run(s, steps, maxAttempts), maxAttempts)
    decreases |steps|
  {
    if steps != [] {
      StepShapes(s, steps[0], maxAttempts);
      StepInv(s, steps[0], maxAttempts);
      RunShapes(Apply(s, steps[0], maxAttempts), steps[1..], maxAttempts);
    }
  }

  // ------------------------------------------------------------ failures over a run

  /** This step commits a batch that holds the event. */
  predicate CommitsIt(s: System, step: Step, e: EventId)
  {
    step.CommitCentral? && step.w in s.batches && e in s.batches[step.w].claimed
  }

  /** The event is not replayed, and every committed batch that holds it failed it. Batches whose worker dies, and
      what other events come to, are not restricted. */
  predicate OnlyFails(s: System, steps: seq<Step>, e: EventId, maxAttempts: int)
    requires Legal(s, steps, maxAttempts)
    decreases |steps|
  {
    steps == [] ||
    (&& steps[0] != Replay(e)
     && (CommitsIt(s, steps[0], e) ==>
           e in s.batches[steps[0].w].writes && Failed(s.batches[steps[0].w].writes[e]))
     && OnlyFails(Apply(s, steps[0], maxAttempts), steps[1..], e, maxAttempts))
  }

  /** Committed batches that held the event: its claims, less those whose worker died. */
  function Claims(s: System, steps: seq<Step>, e: EventId, maxAttempts: int): nat
    requires Legal(s, steps, maxAttempts)
    decreases |steps|
  {
    if steps == [] then 0
    else (if CommitsIt(s, steps[0], e) then 1 else 0) + Claims(Apply(s, steps[0], maxAttempts), steps[1..], e, maxAttempts)
  }

  /** The sum of the waits after attempts a + 1 to a + n. */
  function Waits(a: nat, n: nat): int
  {
    if n == 0 then 0 else Waits(a, n - 1) + Delay(a + n)
  }

  lemma {:induction false} WaitsFromFront(a: nat, n: nat)
    requires n > 0
    ensures Waits(a, n) == Delay(a + 1) + Waits(a + 1, n - 1)
    decreases n
  {
    if n > 1 {
      WaitsFromFront(a, n - 1);
    }
  }

  /** A step other than a replay changes the event's row only by committing a batch that holds it. */
  lemma RowMoves(s: System, step: Step, e: EventId, maxAttempts: int)
    requires Inv(s) && Enabled(s, step) && e in s.outbox && step != Replay(e)
    ensures e in Apply(s, step, maxAttempts).outbox
    ensures !CommitsIt(s, step, e) ==> Apply(s, step, maxAttempts).outbox[e] == s.outbox[e]
    ensures CommitsIt(s, step, e) ==>
              var b := s.batches[step.w];
              BatchOk(s.outbox, b) && b.claimed[e] == s.outbox[e] && e in b.writes
              && Apply(s, step, maxAttempts).outbox[e] == b.writes[e]
  {
    if step.CommitCentral? {
      assert BatchOk(s.outbox, s.batches[step.w]);
    }
  }

  /** One more failure: attempts, status and the time it is due again. */
  lemma FailureMoves(s: System, step: Step, e: EventId, maxAttempts: int)
    requires Inv(s) && Shaped(s, maxAttempts) && Enabled(s, step) && e in s.outbox && CommitsIt(s, step, e)
    requires e in s.batches[step.w].writes && Failed(s.batches[step.w].writes[e])
    ensures var v := Apply(s, step, maxAttempts);
            e in v.outbox && Failed(v.outbox[e]) && FailedOnce(s.outbox[e], v.outbox[e], s.now, maxAttempts)
            && (s.outbox[e].status == Pending || s.outbox[e].status == Retry)
  {
    RowMoves(s, step, e, maxAttempts);
    assert BatchShaped(s.batches[step.w], s.now, maxAttempts);
  }

  /** What one step makes of the event, if it only fails. */
  lemma StepAddsUp(s: System, step: Step, e: EventId, maxAttempts: int)
    requires Inv(s) && Shaped(s, maxAttempts) && e in s.outbox && Enabled(s, step)
    requires OnlyFails(s, [step], e, maxAttempts)
    ensures var u := Apply(s, step, maxAttempts);
            && Inv(u) && Shaped(u, maxAttempts) && e in u.outbox
            && (!CommitsIt(s, step, e) ==> u.outbox[e] == s.outbox[e])
            && (CommitsIt(s, step, e) ==> s.outbox[e].status != DeadLetter && Failed(u.outbox[e])
                                          && FailedOnce(s.outbox[e], u.outbox[e], s.now, maxAttempts))
  {
    StepInv(s, step, maxAttempts);
    StepShapes(s, step, maxAttempts);
    RowMoves(s, step, e, maxAttempts);
    if CommitsIt(s, step, e) {
      FailureMoves(s, step, e, maxAttempts);
    }
  }

  /** Over any legal run in which the event only fails, its attempts grow by the number of its committed claims
      and its status is what that number calls for. */
  lemma {:induction false} FailuresCount(s: System, steps: seq<Step>, e: EventId, maxAttempts: int)
    requires Inv(s) && Shaped(s, maxAttempts) && e in s.outbox
    requires Legal(s, steps, maxAttempts) && OnlyFails(s, steps, e, maxAttempts)
    ensures var v := Run(s, steps, maxAttempts);
            var n := Claims(s, steps, e, maxAttempts);
            && e in v.outbox && v.outbox[e].attempts == s.outbox[e].attempts + n
            && (n == 0 ==> v.outbox[e] == s.outbox[e])
            && (n > 0 ==> s.outbox[e].status != DeadLetter && Failed(v.outbox[e])
                          && (v.outbox[e].status == DeadLetter <==> v.outbox[e].attempts >= maxAttempts))
    decreases |steps|
  {
    if steps != [] {
      FirstOnlyFails(s, steps, e, maxAttempts);
      StepAddsUp(s, steps[0], e, maxAttempts);
      FailuresCount(Apply(s, steps[0], maxAttempts), steps[1..], e, maxAttempts);
    }
  }

  lemma FirstOnlyFails(s: System, steps: seq<Step>, e: EventId, maxAttempts: int)
    requires steps != [] && Legal(s, steps, maxAttempts) && OnlyFails(s, steps, e, maxAttempts)
    ensures Legal(s, [steps[0]], maxAttempts) && OnlyFails(s, [steps[0]], e, maxAttempts)
  {
    assert [steps[0]][1..] == [];
  }

  /** And it is due no earlier than the waits add up to. */
  lemma {:induction false} FailuresWait(s: System, steps: seq<Step>, e: EventId, maxAttempts: int)
    requires Inv(s) && Shaped(s, maxAttempts) && e in s.outbox
    requires Legal(s, steps, maxAttempts) && OnlyFails(s, steps, e, maxAttempts)
    ensures WaitsOut(s, Run(s, steps, maxAttempts), e, Claims(s, steps, e, maxAttempts))
    decreases |steps|
  {
    if steps != [] {
      var u := Apply(s, steps[0], maxAttempts);
      FirstOnlyFails(s, steps, e, maxAttempts);
      StepAddsUp(s, steps[0], e, maxAttempts);
      FailuresWait(u, steps[1..], e, maxAttempts);
      if CommitsIt(s, steps[0], e) {
        OneMoreWait(s, u, Run(s, steps, maxAttempts), e, Claims(u, steps[1..], e, maxAttempts), maxAttempts);
      }
    }
  }

  ghost predicate WaitsOut(s: System, v: System, e: EventId, n: nat)
    requires e in s.outbox
  {
    e in v.outbox && v.outbox[e].availableAt >= s.outbox[e].availableAt + Waits(s.outbox[e].attempts, n)
  }

  lemma OneMoreWait(s: System, u: System, v: System, e: EventId, n: nat, maxAttempts: int)
    requires e in s.outbox && e in u.outbox && FailedOnce(s.outbox[e], u.outbox[e], s.now, maxAttempts)
    requires WaitsOut(u, v, e, n)
    ensures WaitsOut(s, v, e, n + 1)
  {
    WaitsFromFront(s.outbox[e].attempts, n + 1);
  }

  /** A reachable state in which the event has its whole budget: just enqueued, or just replayed. */
  ghost predicate Fresh(before: seq<Step>, e: EventId, maxAttempts: int)
  {
    && Legal(EMPTY, before, maxAttempts)
    && var s := Run(EMPTY, before, maxAttempts);
       e in s.outbox && s.outbox[e].status == Pending
  }

  lemma ReachedShaped(before: seq<Step>, maxAttempts: int)
    requires Legal(EMPTY, before, maxAttempts)
    ensures Inv(Run(EMPTY, before, maxAttempts)) && Shaped(Run(EMPTY, before, maxAttempts), maxAttempts)
  {
    assert Inv(EMPTY);
    RunShapes(EMPTY, before, maxAttempts);
  }

  /** In every legal run, an event that only fails from a fresh row on is dead-lettered on exactly its n-th committed
      claim for maximum n: earlier it is in retry, and it never gets another. */
  lemma DeadLetteredOnNthClaim(before: seq<Step>, steps: seq<Step>, e: EventId, maxAttempts: nat)
    requires maxAttempts >= 1 && Fresh(before, e, maxAttempts)
    requires var s := Run(EMPTY, before, maxAttempts);
             Legal(s, steps, maxAttempts) && OnlyFails(s, steps, e, maxAttempts)
    ensures var s := Run(EMPTY, before, maxAttempts);
            var v := Run(s, steps, maxAttempts);
            var n := Claims(s, steps, e, maxAttempts);
            && n <= maxAttempts && e in v.outbox && v.outbox[e].attempts == n
            && v.outbox[e].status == (if n == 0 then Pending else if n < maxAttempts then Retry else DeadLetter)
  {
    ReachedShaped(before, maxAttempts);
    var s := Run(EMPTY, before, maxAttempts);
    FailuresCount(s, steps, e, maxAttempts);
    NeverBeyond(s, steps, e, maxAttempts);
  }

  lemma {:induction false} NeverBeyond(s: System, steps: seq<Step>, e: EventId, maxAttempts: nat)
    requires Inv(s) && Shaped(s, maxAttempts) && e in s.outbox && s.outbox[e].attempts <= maxAttempts && maxAttempts >= 1
    requires Legal(s, steps, maxAttempts) && OnlyFails(s, steps, e, maxAttempts)
    ensures s.outbox[e].attempts + Claims(s, steps, e, maxAttempts) <= maxAttempts
    decreases |steps|
  {
    if steps != [] {
      FirstOnlyFails(s, steps, e, maxAttempts);
      StepAddsUp(s, steps[0], e, maxAttempts);
      if CommitsIt(s, steps[0], e) {
        RowMoves(s, steps[0], e, maxAttempts);
        assert RowShaped(s.outbox[e], s.now, maxAttempts);
      }
      NeverBeyond(Apply(s, steps[0], maxAttempts), steps[1..], e, maxAttempts);
    }
  }

  /** A replay gives the full budget back, whatever the event went through. */
  lemma ReplayRestoresBudget(before: seq<Step>, steps: seq<Step>, e: EventId, maxAttempts: nat)
    requires maxAttempts >= 1 && Legal(EMPTY, before, maxAttempts)
    requires var s := Run(EMPTY, before, maxAttempts); Enabled(s, Replay(e))
    requires var u := Apply(Run(EMPTY, before, maxAttempts), Replay(e), maxAttempts);
             Legal(u, steps, maxAttempts) && OnlyFails(u, steps, e, maxAttempts)
    ensures var u := Apply(Run(EMPTY, before, maxAttempts), Replay(e), maxAttempts);
            var v := Run(u, steps, maxAttempts);
            var n := Claims(u, steps, e, maxAttempts);
            && n <= maxAttempts && e in v.outbox && v.outbox[e].attempts == n
            && v.outbox[e].status == (if n == 0 then Pending else if n < maxAttempts then Retry else DeadLetter)
  {
    LastStep(EMPTY, before, Replay(e), maxAttempts);
    DeadLetteredOnNthClaim(before + [Replay(e)], steps, e, maxAttempts);
  }

  // ----------------------------------------------------- the wait before a claim

  /** Step j of the run failed the event at hand, and `r` is the row that failure wrote. */
  ghost predicate FailedAt(steps: seq<Step>, j: int, e: EventId, r: Record, maxAttempts: int)
  {
    && 0 <= j < |steps| && steps[j].Fail? && Legal(EMPTY, steps[..j], maxAttempts)
    && var s := Run(EMPTY, steps[..j], maxAttempts);
       && Enabled(s, steps[j]) && s.batches[steps[j].w].events[s.batches[steps[j].w].next] == e
       && r == Retried(Current(s.batches[steps[j].w]), s.now, maxAttempts)
  }

  ghost predicate HasFailed(steps: seq<Step>, e: EventId, r: Record, maxAttempts: int)
  {
    exists j :: FailedAt(steps, j, e, r, maxAttempts)
  }

  /** Every failed row, committed or written by an open batch, stems from a failure of the run. */
  ghost predicate Traced(steps: seq<Step>, s: System, maxAttempts: int)
  {
    && (forall e | e in s.outbox && Failed(s.outbox[e]) :: HasFailed(steps, e, s.outbox[e], maxAttempts))
    && forall w, e | w in s.batches && e in s.batches[w].writes && Failed(s.batches[w].writes[e]) ::
         HasFailed(steps, e, s.batches[w].writes[e], maxAttempts)
  }

  lemma StillFailed(steps: seq<Step>, last: Step, e: EventId, r: Record, maxAttempts: int)
    requires HasFailed(steps, e, r, maxAttempts)
    ensures HasFailed(steps + [last], e, r, maxAttempts)
  {
    var j :| FailedAt(steps, j, e, r, maxAttempts);
    assert (steps + [last])[..j] == steps[..j];
    assert FailedAt(steps + [last], j, e, r, maxAttempts);
  }

  lemma StillTraced(steps: seq<Step>, last: Step, s: System, maxAttempts: int)
    requires Traced(steps, s, maxAttempts)
    ensures Traced(steps + [last], s, maxAttempts)
  {
    forall e | e in s.outbox && Failed(s.outbox[e])
      ensures HasFailed(steps + [last], e, s.outbox[e], maxAttempts)
    {
      StillFailed(steps, last, e, s.outbox[e], maxAttempts);
    }
    forall w, e | w in s.batches && e in s.batches[w].writes && Failed(s.batches[w].writes[e])
      ensures HasFailed(steps + [last], e, s.batches[w].writes[e], maxAttempts)
    {
      StillFailed(steps, last, e, s.batches[w].writes[e], maxAttempts);
    }
  }

  /** A step that writes no failed row of its own. */
  lemma QuietStepTraced(steps: seq<Step>, s: System, step: Step, maxAttempts: int)
    requires Traced(steps, s, maxAttempts) && Enabled(s, step) && !step.Fail?
    ensures Traced(steps, Apply(s, step, maxAttempts), maxAttempts)
  {
    var v := Apply(s, step, maxAttempts);
    forall e | e in v.outbox && Failed(v.outbox[e])
      ensures HasFailed(steps, e, v.outbox[e], maxAttempts)
    {
      QuietRow(s, step, e, maxAttempts);
    }
    forall w, e | w in v.batches && e in v.batches[w].writes && Failed(v.batches[w].writes[e])
      ensures HasFailed(steps, e, v.batches[w].writes[e], maxAttempts)
    {
      QuietWrite(s, step, w, e, maxAttempts);
    }
  }

  lemma QuietRow(s: System, step: Step, e: EventId, maxAttempts: int)
    requires Enabled(s, step)
    requires var v := Apply(s, step, maxAttempts); e in v.outbox && Failed(v.outbox[e])
    ensures var v := Apply(s, step, maxAttempts);
            || (e in s.outbox && s.outbox[e] == v.outbox[e])
            || (step.CommitCentral? && e in s.batches[step.w].writes && s.batches[step.w].writes[e] == v.outbox[e])
  {
  }

  lemma QuietWrite(s: System, step: Step, w: WorkerId, e: EventId, maxAttempts: int)
    requires Enabled(s, step) && !step.Fail?
    requires var v := Apply(s, step, maxAttempts); w in v.batches && e in v.batches[w].writes && Failed(v.batches[w].writes[e])
    ensures w in s.batches && e in s.batches[w].writes && s.batches[w].writes[e] == Apply(s, step, maxAttempts).batches[w].writes[e]
  {
  }

  lemma FailStepTraced(steps: seq<Step>, s: System, w: WorkerId, maxAttempts: int)
    requires Legal(EMPTY, steps, maxAttempts) && s == Run(EMPTY, steps, maxAttempts)
    requires Traced(steps, s, maxAttempts) && Enabled(s, Fail(w))
    ensures Traced(steps + [Fail(w)], Apply(s, Fail(w), maxAttempts), maxAttempts)
  {
    var all, v := steps + [Fail(w)], Apply(s, Fail(w), maxAttempts);
    StillTraced(steps, Fail(w), s, maxAttempts);
    var b := s.batches[w];
    var e, r := b.events[b.next], Retried(Current(b), s.now, maxAttempts);
    assert all[..|steps|] == steps;
    assert FailedAt(all, |steps|, e, r, maxAttempts);
    assert v.batches[w].writes == b.writes[e := r];
  }

  lemma {:induction false} RunTraced(steps: seq<Step>, maxAttempts: int)
    requires Legal(EMPTY, steps, maxAttempts)
    ensures Traced(steps, Run(EMPTY, steps, maxAttempts), maxAttempts)
    decreases |steps|
  {
    if steps != [] {
      var front, last := steps[..|steps| - 1], steps[|steps| - 1];
      assert steps == front + [last];
      LegalFront(EMPTY, front, last, maxAttempts);
      RunTraced(front, maxAttempts);
      var s := Run(EMPTY, front, maxAttempts);
      if last.Fail? {
        FailStepTraced(front, s, last.w, maxAttempts);
      } else {
        QuietStepTraced(front, s, last, maxAttempts);
        StillTraced(front, last, Apply(s, last, maxAttempts), maxAttempts);
      }
    }
  }

  lemma {:induction false} LegalFront(s: System, front: seq<Step>, last: Step, maxAttempts: int)
    requires Legal(s, front + [last], maxAttempts)
    ensures Legal(s, front, maxAttempts) && Enabled(Run(s, front, maxAttempts), last)
    ensures Run(s, front + [last], maxAttempts) == Apply(Run(s, front, maxAttempts), last, maxAttempts)
    decreases |front|
  {
    var all := front + [last];
    if front == [] {
      assert all == [last] && all[1..] == [];
    } else {
      assert all[1..] == front[1..] + [last];
      LegalFront(Apply(s, front[0], maxAttempts), front[1..], last, maxAttempts);
    }
  }

  /** Whoever claims an event in retry, it was failed earlier in the run, that failure made its attempts what they
      are, and since then at least the delay for that many attempts has passed. */
  lemma ClaimWaitsOutDelay(steps: seq<Step>, w: WorkerId, events: seq<EventId>, i: nat, maxAttempts: int)
    requires Legal(EMPTY, steps, maxAttempts) && Enabled(Run(EMPTY, steps, maxAttempts), Claim(w, events))
    requires i < |events| && events[i] in Run(EMPTY, steps, maxAttempts).outbox
    requires Run(EMPTY, steps, maxAttempts).outbox[events[i]].status == Retry
    ensures var s := Run(EMPTY, steps, maxAttempts);
            var r := s.outbox[events[i]];
            exists j :: FailedAt(steps, j, events[i], r, maxAttempts)
                        && Run(EMPTY, steps[..j], maxAttempts).now + Delay(r.attempts) <= s.now
  {
    RunTraced(steps, maxAttempts);
    var s := Run(EMPTY, steps, maxAttempts);
    var j :| FailedAt(steps, j, events[i], s.outbox[events[i]], maxAttempts);
    assert Claimable(s, events[i]);
  }

  // ----------------------------------------------------------------- durations

  lemma {:induction false} Pow2Grows(a: nat, b: nat)
    requires a <= b
    ensures 1 <= Pow2(a) <= Pow2(b)
    decreases b
  {
    if a < b {
      Pow2Grows(a, b - 1);
    } else if a > 0 {
      Pow2Grows(a - 1, a - 1);
    }
  }

  lemma Pow2Values()
    ensures Pow2(7) == 128 && Pow2(8) == 256 && Pow2(10) == 1024
  {
    assert Pow2(3) == 8;
    assert Pow2(6) == 64;
  }

  /** Delays never shrink and stay between half a minute and an hour. */
  lemma DelaysGrowWithinBounds(a: nat, b: nat)
    requires 1 <= a <= b
    ensures 30 <= Delay(a) <= Delay(b) <= 3600
    ensures Delay(b) <= 15 * Pow2(b)
    ensures Delay(b) == 15 * Pow2(b) <==> b <= 7
  {
    Pow2Values();
    Pow2Grows(1, if a < 10 then a else 10);
    Pow2Grows(if a < 10 then a else 10, if b < 10 then b else 10);
    if b <= 7 {
      Pow2Grows(b, 7);
    } else {
      Pow2Grows(8, b);
      Pow2Grows(if b < 10 then b else 10, b);
    }
  }

  /** Total wait before the n-th attempt: one delay after each of the earlier ones. */
  function TotalDelay(n: nat): int
    requires n >= 1
  {
    Waits(0, n - 1)
  }

  /** The waits before the n-th and last attempt add up to at most both bounds; doubling
      reaches the first exactly up to eight attempts, then the hourly cap takes over. */
  lemma {:induction false} TotalDelayBounded(n: nat)
    requires n >= 1
    ensures 30 * (n - 1) <= TotalDelay(n) <= Min(15 * (Pow2(n) - 2), 3600 * (n - 1))
    ensures TotalDelay(n) == 15 * (Pow2(n) - 2) <==> n <= 8
    decreases n
  {
    if n > 1 {
      TotalDelayBounded(n - 1);
      DelaysGrowWithinBounds(n - 1, n - 1);
      assert Pow2(n) == 2 * Pow2(n - 1);
      assert TotalDelay(n) == TotalDelay(n - 1) + Delay(n - 1);
    }
  }

  /** In every legal run, n failures of a fresh event take at least the total of the waits before the n-th. */
  lemma FailuresTakeTime(before: seq<Step>, steps: seq<Step>, e: EventId, maxAttempts: nat)
    requires Fresh(before, e, maxAttempts)
    requires var s := Run(EMPTY, before, maxAttempts);
             && Legal(s, steps, maxAttempts) && OnlyFails(s, steps, e, maxAttempts)
             && Claims(s, steps, e, maxAttempts) >= 1
    ensures var s := Run(EMPTY, before, maxAttempts);
            Run(s, steps, maxAttempts).now >= s.outbox[e].availableAt + TotalDelay(Claims(s, steps, e, maxAttempts))
  {
    ReachedShaped(before, maxAttempts);
    var s := Run(EMPTY, before, maxAttempts);
    FailuresCount(s, steps, e, maxAttempts);
    FailuresWait(s, steps, e, maxAttempts);
    RunShapes(s, steps, maxAttempts);
    var v, n := Run(s, steps, maxAttempts), Claims(s, steps, e, maxAttempts);
    assert RowShaped(s.outbox[e], s.now, maxAttempts) && RowShaped(v.outbox[e], v.now, maxAttempts);
    assert Waits(0, n) == Waits(0, n - 1) + Delay(n);
  }

  // ------------------------------------------------------- and no more than that

  /** The batch of one claim that failed. */
  ghost predicate FailedBatch(s: System, v: System, w: WorkerId, e: EventId, maxAttempts: int)
    requires e in s.outbox
  {
    && w in v.batches && v.batches - {w} == s.batches && v.outbox == s.outbox && v.now == s.now
    && v.batches[w].writes == map[e := Retried(s.outbox[e], s.now, maxAttempts)]
    && Enabled(v, CommitCentral(w))
  }

  lemma OpenedOne(s: System, e: EventId)
    requires e in s.outbox
    ensures var b := Opened(s, [e]);
            b.events == [e] && b.next == 0 && b.phase == Ready
            && b.claimed == map[e := s.outbox[e]] && b.writes == map[e := s.outbox[e].(status := Processing)]
  {
    var events := [e];
    var b := Opened(s, events);
    assert events[0] in b.claimed && events[0] in b.writes;
    assert forall x | x in b.claimed :: x == e;
    assert forall x | x in b.writes :: x == e;
  }

  lemma ClaimAndFail(s: System, w: WorkerId, e: EventId, maxAttempts: int)
    requires w !in s.batches && Claimable(s, e)
    ensures Legal(s, [Claim(w, [e]), Fail(w)], maxAttempts)
    ensures FailedBatch(s, Run(s, [Claim(w, [e]), Fail(w)], maxAttempts), w, e, maxAttempts)
  {
    OpenedOne(s, e);
    assert Enabled(s, Claim(w, [e])) by {
      assert forall i | 0 <= i < 1 :: [e][i] == e;
    }
    var s1 := Apply(s, Claim(w, [e]), maxAttempts);
    RunTwo(s, Claim(w, [e]), Fail(w), maxAttempts);
    FailsTheOne(s, s1, w, e, maxAttempts);
  }

  lemma FailsTheOne(s: System, u: System, w: WorkerId, e: EventId, maxAttempts: int)
    requires w !in s.batches && e in s.outbox && u == s.(batches := s.batches[w := Opened(s, [e])])
    requires Enabled(u, Fail(w))
    ensures FailedBatch(s, Apply(u, Fail(w), maxAttempts), w, e, maxAttempts)
  {
    OpenedOne(s, e);
    var v := Apply(u, Fail(w), maxAttempts);
    assert v.batches - {w} == s.batches;
    assert v.batches[w] == Failing(u.batches[w], s.now, maxAttempts);
  }

  /** One claim that fails and is committed, at one instant. */
  lemma FailOnce(s: System, w: WorkerId, e: EventId, maxAttempts: int) returns (steps: seq<Step>)
    requires w !in s.batches && Claimable(s, e)
    ensures Legal(s, steps, maxAttempts)
    ensures var v := Run(s, steps, maxAttempts);
            v.outbox == s.outbox[e := Retried(s.outbox[e], s.now, maxAttempts)] && v.batches == s.batches && v.now == s.now
  {
    ClaimAndFail(s, w, e, maxAttempts);
    var u := Run(s, [Claim(w, [e]), Fail(w)], maxAttempts);
    LastStep(s, [Claim(w, [e]), Fail(w)], CommitCentral(w), maxAttempts);
    assert u.outbox + u.batches[w].writes == s.outbox[e := Retried(s.outbox[e], s.now, maxAttempts)];
    steps := [Claim(w, [e]), Fail(w)] + [CommitCentral(w)];
  }

  /** What n failures in a row leave. */
  ghost predicate FailedTimes(s: System, v: System, e: EventId, n: nat, maxAttempts: nat)
    requires e in s.outbox && n >= 1
  {
    && e in v.outbox && v.outbox[e].attempts == s.outbox[e].attempts + n
    && (v.outbox[e].status == DeadLetter <==> s.outbox[e].attempts + n >= maxAttempts)
    && v.now == s.now + Waits(s.outbox[e].attempts, n - 1)
  }

  /** After a failure that leaves attempts, the event is due once its delay has passed. */
  lemma DueAgain(s: System, u: System, e: EventId, maxAttempts: nat)
    requires Claimable(s, e) && s.outbox[e].attempts + 1 < maxAttempts
    requires u.outbox == s.outbox[e := Retried(s.outbox[e], s.now, maxAttempts)] && u.batches == s.batches && u.now == s.now
    ensures Claimable(u.(now := u.now + Delay(s.outbox[e].attempts + 1)), e)
  {
    var later := u.(now := u.now + Delay(s.outbox[e].attempts + 1));
    assert !Locked(s, e);
    assert !Locked(later, e);
  }

  /** An idle worker that claims the event whenever it is due, and fails it. */
  lemma {:induction false} FailTimes(s: System, w: WorkerId, e: EventId, n: nat, maxAttempts: nat) returns (steps: seq<Step>)
    requires n >= 1 && w !in s.batches && Claimable(s, e) && s.outbox[e].attempts + n <= maxAttempts
    ensures Legal(s, steps, maxAttempts) && FailedTimes(s, Run(s, steps, maxAttempts), e, n, maxAttempts)
    decreases n
  {
    steps := FailOnce(s, w, e, maxAttempts);
    if n > 1 {
      var wait := Tick(Delay(s.outbox[e].attempts + 1));
      var later := Apply(Run(s, steps, maxAttempts), wait, maxAttempts);
      DueAgain(s, Run(s, steps, maxAttempts), e, maxAttempts);
      var rest := FailTimes(later, w, e, n - 1, maxAttempts);
      MoreTimes(s, later, Run(later, rest, maxAttempts), e, n - 1, maxAttempts);
      WaitThen(s, steps, wait, rest, maxAttempts);
      steps := steps + ([wait] + rest);
    }
  }

  lemma WaitThen(s: System, once: seq<Step>, wait: Step, rest: seq<Step>, maxAttempts: int)
    requires Legal(s, once, maxAttempts) && Enabled(Run(s, once, maxAttempts), wait)
    requires Legal(Apply(Run(s, once, maxAttempts), wait, maxAttempts), rest, maxAttempts)
    ensures Legal(s, once + ([wait] + rest), maxAttempts)
    ensures Run(s, once + ([wait] + rest), maxAttempts) == Run(Apply(Run(s, once, maxAttempts), wait, maxAttempts), rest, maxAttempts)
  {
    StepThen(Run(s, once, maxAttempts), wait, rest, maxAttempts);
    RunConcat(s, once, [wait] + rest, maxAttempts);
  }

  lemma MoreTimes(s: System, later: System, v: System, e: EventId, n: nat, maxAttempts: nat)
    requires n >= 1 && e in s.outbox && e in later.outbox && later.outbox[e].attempts == s.outbox[e].attempts + 1
    requires later.now == s.now + Delay(s.outbox[e].attempts + 1) && FailedTimes(later, v, e, n, maxAttempts)
    ensures FailedTimes(s, v, e, n + 1, maxAttempts)
  {
    WaitsFromFront(s.outbox[e].attempts, n);
  }

  lemma StepThen(u: System, step: Step, rest: seq<Step>, maxAttempts: int)
    requires Enabled(u, step) && Legal(Apply(u, step, maxAttempts), rest, maxAttempts)
    ensures Legal(u, [step] + rest, maxAttempts)
    ensures Run(u, [step] + rest, maxAttempts) == Run(Apply(u, step, maxAttempts), rest, maxAttempts)
  {
    assert ([step] + rest)[1..] == rest;
  }

  /** The total is met: from any state with an idle worker and a fresh event that is due, some run dead-letters it
      after exactly the total wait, so within 15(2^n - 2) and within 3600(n - 1) seconds. */
  lemma SoonestDeadLetter(s: System, w: WorkerId, e: EventId, maxAttempts: nat) returns (steps: seq<Step>)
    requires maxAttempts >= 1 && w !in s.batches && Claimable(s, e) && s.outbox[e].attempts == 0
    ensures Legal(s, steps, maxAttempts)
    ensures var v := Run(s, steps, maxAttempts);
            && e in v.outbox && v.outbox[e].status == DeadLetter && v.now == s.now + TotalDelay(maxAttempts)
            && v.now - s.now <= Min(15 * (Pow2(maxAttempts) - 2), 3600 * (maxAttempts - 1))
  {
    steps := FailTimes(s, w, e, maxAttempts, maxAttempts);
    TotalDelayBounded(maxAttempts);
  }
}
