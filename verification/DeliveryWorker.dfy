/** The statements of the integration store and one pass of the worker, as a program over the
    state of the protocol: a pass is one legal run of the worker's own steps. */
module DeliveryWorker {
  import opened Outbox
  import opened OutboxSafety

  /** What delivering one event comes to. */
  datatype Verdict = NoMapping | Raises | Rejects | Delivers

  /** The committed row a pass leaves for an event it claimed. */
  function RowAfter(r: Record, v: Verdict, now: int, maxAttempts: int): Record
  {
    match v
    case NoMapping => r.(status := Quarantined)
    case Rejects => r.(status := Quarantined)
    case Raises => Retried(r, now, maxAttempts)
    case Delivers => Record(Delivered, r.attempts + 1, r.availableAt)
  }

  function Sent(events: seq<EventId>, verdict: EventId -> Verdict): set<EventId>
  {
    set i | 0 <= i < |events| && verdict(events[i]).Delivers? :: events[i]
  }

  /** Half way through a pass: `i` events settled as their verdicts say, nothing committed. */
  ghost predicate Settled(s0: System, s: System, w: WorkerId, events: seq<EventId>, i: nat,
                          verdict: EventId -> Verdict, maxAttempts: int)
    requires i <= |events|
  {
    && w in s.batches && s.batches[w].events == events && s.batches[w].next == i && s.batches[w].phase == Ready
    && s.outbox == s0.outbox && s.now == s0.now
    && (forall j | 0 <= j < i :: events[j] in s0.outbox && events[j] in s.batches[w].writes
          && s.batches[w].writes[events[j]] == RowAfter(s0.outbox[events[j]], verdict(events[j]), s0.now, maxAttempts))
    && (forall e :: Count(s.target, e) == Count(s0.target, e) + if e in Sent(events[..i], verdict) then 1 else 0)
  }

  class Bridge {
    var s: System
    const maxAttempts: int

    constructor (s: System, maxAttempts: int)
      ensures this.s == s && this.maxAttempts == maxAttempts
    {
      this.s, this.maxAttempts := s, maxAttempts;
    }

    /** Lock and mark up to `limit` claimable rows, skipping rows others have locked. */
    method ClaimEvents(w: WorkerId, limit: nat) returns (events: seq<EventId>)
      requires w !in s.batches
      modifies this`s
      ensures Enabled(old(s), Claim(w, events)) && s == Apply(old(s), Claim(w, events), maxAttempts)
      ensures |events| <= limit
      ensures forall i, j | 0 <= i < j < |events| :: events[i] != events[j]
      ensures forall e | e in events ::
                && e in old(s).outbox && (old(s).outbox[e].status == Pending || old(s).outbox[e].status == Retry)
                && old(s).outbox[e].availableAt <= old(s).now && forall v | v in old(s).batches :: e !in old(s).batches[v].claimed
      ensures |events| < limit ==> forall e |
                && e in old(s).outbox && (old(s).outbox[e].status == Pending || old(s).outbox[e].status == Retry)
                && old(s).outbox[e].availableAt <= old(s).now && (forall v | v in old(s).batches :: e !in old(s).batches[v].claimed)
              :: e in events
    {
      var claimable := set e | e in s.outbox && Claimable(s, e);
      events := [];
      while |events| < limit && claimable != {}
        invariant |events| <= limit && Distinct(events)
        invariant forall i | 0 <= i < |events| :: Claimable(s, events[i]) && events[i] !in claimable
        invariant forall e :: Claimable(s, e) ==> e in events || e in claimable
        invariant forall e | e in claimable :: Claimable(s, e)
        decreases claimable
      {
        var e :| e in claimable;
        events, claimable := events + [e], claimable - {e};
      }
      s := s.(batches := s.batches[w := Opened(s, events)]);
    }

    method MarkEventDelivered(w: WorkerId)
      requires InHand(s, w, Committed)
      modifies this`s
      ensures s == Apply(old(s), MarkDelivered(w), maxAttempts)
    {
      var b := s.batches[w];
      var r := Current(b);
      var attempt := r.attempts + 1;
      var writes := b.writes[b.events[b.next] := Record(Delivered, attempt, r.availableAt)];
      var result := b.result.(delivered := b.result.delivered + 1);
      s := s.(batches := s.batches[w := b.(next := b.next + 1, phase := Ready, writes := writes, result := result)]);
    }

    method QuarantineEvent(w: WorkerId)
      requires InHand(s, w, Ready) || InHand(s, w, Written)
      modifies this`s
      ensures s == Apply(old(s), Quarantine(w), maxAttempts)
    {
      var b := s.batches[w];
      var writes := b.writes[b.events[b.next] := Current(b).(status := Quarantined)];
      var result := b.result.(quarantined := b.result.quarantined + 1);
      s := s.(batches := s.batches[w := b.(next := b.next + 1, phase := Ready, writes := writes, result := result)]);
    }

    method RetryOrDeadLetter(w: WorkerId)
      requires InHand(s, w, Ready) || InHand(s, w, Written)
      modifies this`s
      ensures s == Apply(old(s), Fail(w), maxAttempts)
    {
      var b := s.batches[w];
      var attempt := Current(b).attempts + 1;
      var terminal := attempt >= maxAttempts;
      var delay := Min(3600, Pow2(if attempt < 10 then attempt else 10) * 15);
      var r := Record(if terminal then DeadLetter else Retry, attempt, s.now + delay);
      var result := b.result.(retried := b.result.retried + 1);
      s := s.(batches := s.batches[w := b.(next := b.next + 1, phase := Ready, writes := b.writes[b.events[b.next] := r], result := result)]);
    }

    /** Put a finished event back; anything else is refused and left alone. */
    method ReplayEvent(e: EventId) returns (ok: bool)
      modifies this`s
      ensures ok <==> Enabled(old(s), Replay(e))
      ensures s == if ok then Apply(old(s), Replay(e), maxAttempts) else old(s)
    {
      ok := e in s.outbox && s.outbox[e].status in {Quarantined, DeadLetter, Delivered};
      if ok {
        s := s.(outbox := s.outbox[e := Record(Pending, 0, s.now)], replays := AddOne(s.replays, {e}));
      }
    }

    /** One event: fan out, then commit or roll back the target, then write its central row. */
    method DeliverOneEvent(w: WorkerId, verdict: Verdict) returns (ghost steps: seq<Step>)
      requires InHand(s, w, Ready)
      modifies this`s
      ensures Legal(old(s), steps, maxAttempts) && s == Run(old(s), steps, maxAttempts)
      ensures s.outbox == old(s).outbox && s.now == old(s).now && s.batches.Keys == old(s).batches.Keys
      ensures var b, e := old(s).batches[w], old(s).batches[w].events[old(s).batches[w].next];
              && s.batches[w].events == b.events && s.batches[w].next == b.next + 1 && s.batches[w].phase == Ready
              && s.batches[w].writes == b.writes[e := RowAfter(Current(b), verdict, s.now, maxAttempts)]
              && s.target == if verdict.Delivers? then AddOne(old(s).target, {e}) else old(s).target
    {
      match verdict
      case NoMapping =>
        QuarantineEvent(w);
        steps := [Quarantine(w)];
        RunOne(old(s), Quarantine(w), maxAttempts);
      case Raises =>
        // whatever part of the fan-out was written is rolled back with the target transaction
        RetryOrDeadLetter(w);
        steps := [Fail(w)];
        RunOne(old(s), Fail(w), maxAttempts);
      case Rejects =>
        QuarantineEvent(w);
        steps := [Quarantine(w)];
        RunOne(old(s), Quarantine(w), maxAttempts);
      case Delivers =>
        var b := s.batches[w];
        s := s.(batches := s.batches[w := b.(phase := Written)]);
        ghost var written := s;
        RunOne(old(s), FanOut(w), maxAttempts);
        b := s.batches[w];
        var e := b.events[b.next];
        s := s.(batches := s.batches[w := b.(phase := Committed, sent := b.sent + {e})], target := AddOne(s.target, {e}));
        MarkEventDelivered(w);
        RunTwo(written, CommitTarget(w), MarkDelivered(w), maxAttempts);
        RunConcat(old(s), [FanOut(w)], [CommitTarget(w), MarkDelivered(w)], maxAttempts);
        steps := [FanOut(w)] + [CommitTarget(w), MarkDelivered(w)];
    }

    /** One pass: claim a batch, deliver each event, commit the central transaction. The pass is
        a legal run; every claimed event ends as its verdict says, each counted once, and the
        target has committed exactly the delivered ones once more. */
    method ProcessOnce(w: WorkerId, limit: nat, verdict: EventId -> Verdict)
      returns (result: Counters, ghost events: seq<EventId>, ghost steps: seq<Step>)
      requires w !in s.batches && Inv(s)
      modifies this`s
      ensures Legal(old(s), steps, maxAttempts) && s == Run(old(s), steps, maxAttempts)
      ensures Inv(s) && w !in s.batches
      ensures |events| <= limit && Enabled(old(s), Claim(w, events))
      ensures |events| < limit ==> forall e |
                && e in old(s).outbox && (old(s).outbox[e].status == Pending || old(s).outbox[e].status == Retry)
                && old(s).outbox[e].availableAt <= old(s).now && (forall v | v in old(s).batches :: e !in old(s).batches[v].claimed)
              :: e in events
      ensures result.claimed == |events| == result.delivered + result.quarantined + result.retried
      ensures forall i | 0 <= i < |events| :: events[i] in old(s).outbox && events[i] in s.outbox
                && s.outbox[events[i]] == RowAfter(old(s).outbox[events[i]], verdict(events[i]), s.now, maxAttempts)
      ensures forall e :: Count(s.target, e) == Count(old(s).target, e) + if e in Sent(events, verdict) then 1 else 0
    {
      var batch := ClaimEvents(w, limit);
      events := batch;
      RunOne(old(s), Claim(w, batch), maxAttempts);
      StepInv(old(s), Claim(w, batch), maxAttempts);
      ClaimSettled(old(s), w, batch, verdict, maxAttempts);
      ghost var claimed := s;
      ghost var more := DeliverAll(w, batch, verdict, old(s));
      RunConcat(old(s), [Claim(w, batch)], more, maxAttempts);
      result := s.batches[w].result;
      CommitPass(old(s), s, w, batch, verdict, maxAttempts);
      LastStep(old(s), [Claim(w, batch)] + more, CommitCentral(w), maxAttempts);
      steps := ([Claim(w, batch)] + more) + [CommitCentral(w)];
      Commit(w);
    }

    method Commit(w: WorkerId)
      requires Enabled(s, CommitCentral(w))
      modifies this`s
      ensures s == Apply(old(s), CommitCentral(w), maxAttempts)
    {
      var b := s.batches[w];
      s := s.(batches := s.batches - {w}, outbox := s.outbox + b.writes, confirmed := AddOne(s.confirmed, b.sent));
    }

    /** The loop over the claimed events. */
    method DeliverAll(w: WorkerId, events: seq<EventId>, verdict: EventId -> Verdict, ghost s0: System)
      returns (ghost steps: seq<Step>)
      requires Inv(s) && Settled(s0, s, w, events, 0, verdict, maxAttempts)
      modifies this`s
      ensures Legal(old(s), steps, maxAttempts) && s == Run(old(s), steps, maxAttempts)
      ensures Inv(s) && Settled(s0, s, w, events, |events|, verdict, maxAttempts)
    {
      steps := [];
      var i := 0;
      while i < |events|
        invariant 0 <= i <= |events|
        invariant Reached(old(s), steps, s, maxAttempts)
        invariant Settled(s0, s, w, events, i, verdict, maxAttempts)
      {
        ghost var before := s;
        HeldRow(s, w, i);
        ghost var more := DeliverOneEvent(w, verdict(events[i]));
        ReachedOn(old(s), steps, before, more, s, maxAttempts);
        SettledStep(s0, before, s, w, events, i, verdict, maxAttempts);
        steps := steps + more;
        i := i + 1;
      }
    }
  }

  /** A legal run of the protocol leads here. */
  ghost predicate Reached(s0: System, steps: seq<Step>, s: System, maxAttempts: int)
  {
    Legal(s0, steps, maxAttempts) && s == Run(s0, steps, maxAttempts) && Inv(s)
  }

  lemma ReachedOn(s0: System, steps: seq<Step>, s: System, more: seq<Step>, s': System, maxAttempts: int)
    requires Reached(s0, steps, s, maxAttempts)
    requires Legal(s, more, maxAttempts) && s' == Run(s, more, maxAttempts)
    ensures Reached(s0, steps + more, s', maxAttempts)
  {
    RunInv(s, more, maxAttempts);
    RunConcat(s0, steps, more, maxAttempts);
  }

  lemma ClaimSettled(s0: System, w: WorkerId, events: seq<EventId>, verdict: EventId -> Verdict, maxAttempts: int)
    requires Enabled(s0, Claim(w, events))
    ensures Settled(s0, Apply(s0, Claim(w, events), maxAttempts), w, events, 0, verdict, maxAttempts)
  {
    assert Sent(events[..0], verdict) == {};
  }

  lemma RunOne(s: System, step: Step, maxAttempts: int)
    requires Enabled(s, step)
    ensures Legal(s, [step], maxAttempts) && Run(s, [step], maxAttempts) == Apply(s, step, maxAttempts)
  {
    assert [step][1..] == [];
  }

  /** A row held by a batch reads as it did when it was claimed. */
  lemma HeldRow(s: System, w: WorkerId, i: nat)
    requires Inv(s) && w in s.batches && s.batches[w].next == i < |s.batches[w].events|
    ensures s.batches[w].events[i] in s.outbox && Current(s.batches[w]) == s.outbox[s.batches[w].events[i]]
    ensures Distinct(s.batches[w].events)
  {
    assert BatchOk(s.outbox, s.batches[w]);
  }

  lemma SettledStep(s0: System, before: System, after: System, w: WorkerId, events: seq<EventId>, i: nat,
                    verdict: EventId -> Verdict, maxAttempts: int)
    requires i < |events| && Settled(s0, before, w, events, i, verdict, maxAttempts) && Distinct(events)
    requires after.outbox == before.outbox && after.now == before.now && w in after.batches
    requires after.batches[w].events == events && after.batches[w].next == i + 1 && after.batches[w].phase == Ready
    requires events[i] in before.outbox
    requires after.batches[w].writes
          == before.batches[w].writes[events[i] := RowAfter(before.outbox[events[i]], verdict(events[i]), after.now, maxAttempts)]
    requires after.target == if verdict(events[i]).Delivers? then AddOne(before.target, {events[i]}) else before.target
    ensures Settled(s0, after, w, events, i + 1, verdict, maxAttempts)
  {
    TargetStep(s0, before, after, events, i, verdict);
    WritesStep(s0, before.batches[w].writes, after.batches[w].writes, events, i, verdict, maxAttempts);
  }

  lemma TargetStep(s0: System, before: System, after: System, events: seq<EventId>, i: nat, verdict: EventId -> Verdict)
    requires i < |events| && Distinct(events)
    requires forall e :: Count(before.target, e) == Count(s0.target, e) + if e in Sent(events[..i], verdict) then 1 else 0
    requires after.target == if verdict(events[i]).Delivers? then AddOne(before.target, {events[i]}) else before.target
    ensures forall e :: Count(after.target, e) == Count(s0.target, e) + if e in Sent(events[..i + 1], verdict) then 1 else 0
  {
    SentGrows(events, i, verdict);
  }

  lemma WritesStep(s0: System, writes: map<EventId, Record>, writes': map<EventId, Record>, events: seq<EventId>, i: nat,
                   verdict: EventId -> Verdict, maxAttempts: int)
    requires i < |events| && Distinct(events) && events[i] in s0.outbox
    requires forall j | 0 <= j < i :: events[j] in s0.outbox && events[j] in writes
               && writes[events[j]] == RowAfter(s0.outbox[events[j]], verdict(events[j]), s0.now, maxAttempts)
    requires writes' == writes[events[i] := RowAfter(s0.outbox[events[i]], verdict(events[i]), s0.now, maxAttempts)]
    ensures forall j | 0 <= j < i + 1 :: events[j] in s0.outbox && events[j] in writes'
               && writes'[events[j]] == RowAfter(s0.outbox[events[j]], verdict(events[j]), s0.now, maxAttempts)
  {
    assert forall j | 0 <= j < i :: events[j] != events[i];
  }

  lemma SentGrows(events: seq<EventId>, i: nat, verdict: EventId -> Verdict)
    requires i < |events| && Distinct(events)
    ensures Sent(events[..i + 1], verdict) == Sent(events[..i], verdict) + if verdict(events[i]).Delivers? then {events[i]} else {}
    ensures events[i] !in Sent(events[..i], verdict)
  {
    var a, b := events[..i], events[..i + 1];
    assert b == a + [events[i]];
    forall e | e in Sent(a, verdict)
      ensures e in Sent(b, verdict)
    {
      var j :| 0 <= j < |a| && verdict(a[j]).Delivers? && a[j] == e;
      assert b[j] == e;
    }
    assert b[i] == events[i];
  }

  lemma CommitPass(s0: System, s: System, w: WorkerId, events: seq<EventId>, verdict: EventId -> Verdict, maxAttempts: int)
    requires Inv(s) && Settled(s0, s, w, events, |events|, verdict, maxAttempts)
    ensures Enabled(s, CommitCentral(w)) && Inv(Apply(s, CommitCentral(w), maxAttempts))
    ensures var r := s.batches[w].result; r.claimed == |events| == r.delivered + r.quarantined + r.retried
    ensures forall e :: Count(s.target, e) == Count(s0.target, e) + if e in Sent(events, verdict) then 1 else 0
  {
    StepInv(s, CommitCentral(w), maxAttempts);
    ReturnedCountersBalance(s, w, maxAttempts);
    assert events[..|events|] == events;
  }
}
