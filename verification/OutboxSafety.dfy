/** What the delivery protocol guarantees over whole runs, and where it does not deliver exactly once. */
module OutboxSafety {
  import opened Outbox

  // ----------------------------------------------------------------- all runs

  lemma {:induction false} RunInv(s: System, steps: seq<Step>, maxAttempts: int)
    requires Inv(s) && Legal(s, steps, maxAttempts)
    ensures Inv(Run(s, steps, maxAttempts))
    decreases |steps|
  {
    if steps != [] {
      StepInv(s, steps[0], maxAttempts);
      RunInv(Apply(s, steps[0], maxAttempts), steps[1..], maxAttempts);
    }
  }

  /** In every interleaving, whoever dies when: committed central state never shows an event
      in processing; one shown delivered has its fan-out and envelope committed in the target;
      no two workers hold the same event; and an event a batch holds is still claimable in
      committed state, so a death gives it back. */
  lemma ProtocolIsSafe(steps: seq<Step>, maxAttempts: int)
    requires Legal(EMPTY, steps, maxAttempts)
    ensures var s := Run(EMPTY, steps, maxAttempts);
            && (forall e | e in s.outbox :: s.outbox[e].status != Processing)
            && (forall e | e in s.outbox && s.outbox[e].status == Delivered :: Count(s.target, e) >= 1)
            && (forall v, w, e | v in s.batches && w in s.batches && e in s.batches[v].claimed && e in s.batches[w].claimed :: v == w)
            && (forall w, e | w in s.batches && e in s.batches[w].claimed :: e in s.outbox && s.outbox[e].status in {Pending, Retry})
  {
    assert Inv(EMPTY);
    RunInv(EMPTY, steps, maxAttempts);
    var s := Run(EMPTY, steps, maxAttempts);
    forall w, e | w in s.batches && e in s.batches[w].claimed
      ensures e in s.outbox && s.outbox[e].status in {Pending, Retry}
    {
      assert BatchOk(s.outbox, s.batches[w]);
    }
    ExclusiveHolders(s.batches);
  }

  lemma ExclusiveHolders(batches: map<WorkerId, Batch>)
    requires Exclusive(batches)
    ensures forall v, w, e | v in batches && w in batches && e in batches[v].claimed && e in batches[w].claimed :: v == w
  {
  }

  /** No event is ever lost from the outbox. */
  lemma {:induction false} EventsStay(s: System, steps: seq<Step>, maxAttempts: int, e: EventId)
    requires Legal(s, steps, maxAttempts) && e in s.outbox
    ensures e in Run(s, steps, maxAttempts).outbox
    decreases |steps|
  {
    if steps != [] {
      EventsStay(Apply(s, steps[0], maxAttempts), steps[1..], maxAttempts, e);
    }
  }

  /** Exactly once, and exactly when not: the target committed an event's fan-out once for each
      confirmed delivery, once for each batch that died after committing it, and once if it is
      in flight. So without deaths in that window and without a replay there is at most one
      commit, and precisely one once the event shows as delivered. */
  lemma TargetCommitsExplained(steps: seq<Step>, maxAttempts: int, e: EventId)
    requires Legal(EMPTY, steps, maxAttempts)
    ensures var s := Run(EMPTY, steps, maxAttempts);
            && Count(s.target, e) == Count(s.confirmed, e) + Count(s.orphaned, e) + (if InFlight(s, e) then 1 else 0)
            && (Count(s.replays, e) == 0 && !InFlight(s, e) ==>
                  (Count(s.target, e) == Count(s.orphaned, e) + if e in s.outbox && s.outbox[e].status == Delivered then 1 else 0))
  {
    assert Inv(EMPTY);
    RunInv(EMPTY, steps, maxAttempts);
  }

  lemma {:induction false} RunConcat(s: System, a: seq<Step>, b: seq<Step>, maxAttempts: int)
    requires Legal(s, a, maxAttempts) && Legal(Run(s, a, maxAttempts), b, maxAttempts)
    ensures Legal(s, a + b, maxAttempts) && Run(s, a + b, maxAttempts) == Run(Run(s, a, maxAttempts), b, maxAttempts)
    decreases |a|
  {
    if a == [] {
      assert a + b == b;
    } else {
      RunConcat(Apply(s, a[0], maxAttempts), a[1..], b, maxAttempts);
      ConsConcat(a, b);
    }
  }

  lemma ConsConcat<T>(a: seq<T>, b: seq<T>)
    requires a != []
    ensures a + b != [] && (a + b)[0] == a[0] && (a + b)[1..] == a[1..] + b
  {
  }

  function DeliverOne(w: WorkerId, e: EventId): seq<Step>
  {
    [Claim(w, [e]), FanOut(w)] + [CommitTarget(w), MarkDelivered(w)]
  }

  /** An idle worker can take a claimable event up to the point where only the central commit
      is missing: the target has it, the committed outbox does not show it yet. */
  lemma DeliverOneRuns(s: System, w: WorkerId, e: EventId, maxAttempts: int)
    requires w !in s.batches && Claimable(s, e)
    ensures Legal(s, DeliverOne(w, e), maxAttempts)
    ensures var s' := Run(s, DeliverOne(w, e), maxAttempts);
            && s'.target == AddOne(s.target, {e}) && s'.outbox == s.outbox && s'.now == s.now
            && w in s'.batches && s'.batches - {w} == s.batches
            && Enabled(s', CommitCentral(w))
            && s'.batches[w].writes == map[e := Record(Delivered, s.outbox[e].attempts + 1, s.outbox[e].availableAt)]
  {
    OpenedForOne(s, e);
    ClaimAndWrite(s, w, e, maxAttempts);
    var mid := Run(s, [Claim(w, [e]), FanOut(w)], maxAttempts);
    CommitAndMark(mid, w, e, maxAttempts);
    RunConcat(s, [Claim(w, [e]), FanOut(w)], [CommitTarget(w), MarkDelivered(w)], maxAttempts);
  }

  lemma RunTwo(s: System, a: Step, b: Step, maxAttempts: int)
    requires Enabled(s, a) && Enabled(Apply(s, a, maxAttempts), b)
    ensures Legal(s, [a, b], maxAttempts)
    ensures Run(s, [a, b], maxAttempts) == Apply(Apply(s, a, maxAttempts), b, maxAttempts)
  {
    assert [a, b][1..] == [b] && [b][1..] == [];
    var s1 := Apply(s, a, maxAttempts);
    assert Legal(s1, [b], maxAttempts);
    assert Run(s1, [b], maxAttempts) == Apply(s1, b, maxAttempts);
  }

  lemma ClaimAndWrite(s: System, w: WorkerId, e: EventId, maxAttempts: int)
    requires w !in s.batches && Claimable(s, e)
    ensures Legal(s, [Claim(w, [e]), FanOut(w)], maxAttempts)
    ensures Run(s, [Claim(w, [e]), FanOut(w)], maxAttempts)
         == s.(batches := s.batches[w := Opened(s, [e]).(phase := Written)])
  {
    RunTwo(s, Claim(w, [e]), FanOut(w), maxAttempts);
  }

  lemma OpenedForOne(s: System, e: EventId)
    requires e in s.outbox
    ensures Opened(s, [e]).claimed == map[e := s.outbox[e]] && Opened(s, [e]).writes.Keys == {e}
  {
    var events := [e];
    assert events[0] in Opened(s, events).claimed && events[0] in Opened(s, events).writes;
    assert Opened(s, events).claimed.Keys == {e};
  }

  lemma CommitAndMark(s: System, w: WorkerId, e: EventId, maxAttempts: int)
    requires w in s.batches && s.batches[w].events == [e] && s.batches[w].next == 0 && s.batches[w].phase == Written
    requires e in s.batches[w].claimed && s.batches[w].writes.Keys == {e}
    ensures Legal(s, [CommitTarget(w), MarkDelivered(w)], maxAttempts)
    ensures var s' := Run(s, [CommitTarget(w), MarkDelivered(w)], maxAttempts);
            && s'.target == AddOne(s.target, {e}) && s'.outbox == s.outbox && s'.now == s.now
            && w in s'.batches && s'.batches - {w} == s.batches - {w}
            && Enabled(s', CommitCentral(w))
            && s'.batches[w].writes
               == map[e := Record(Delivered, s.batches[w].claimed[e].attempts + 1, s.batches[w].claimed[e].availableAt)]
  {
    RunTwo(s, CommitTarget(w), MarkDelivered(w), maxAttempts);
  }

  // ------------------------------------------------------ nothing is left lying

  /** An event waiting or in retry, due and in no open batch, is delivered by any idle worker that takes
      it up: attempt counted, one target commit more, and it stays delivered. */
  lemma DueIsDelivered(s: System, w: WorkerId, e: EventId, maxAttempts: int)
    requires w !in s.batches && e in s.outbox && (s.outbox[e].status == Pending || s.outbox[e].status == Retry)
    requires s.outbox[e].availableAt <= s.now && forall v | v in s.batches :: e !in s.batches[v].claimed
    ensures var steps := DeliverOne(w, e) + [CommitCentral(w)];
            && Legal(s, steps, maxAttempts)
            && var u := Run(s, steps, maxAttempts);
               && u.outbox == s.outbox[e := Record(Delivered, s.outbox[e].attempts + 1, s.outbox[e].availableAt)]
               && u.target == AddOne(s.target, {e}) && u.batches == s.batches && u.now == s.now
  {
    DeliverOneRuns(s, w, e, maxAttempts);
    LastStep(s, DeliverOne(w, e), CommitCentral(w), maxAttempts);
    var u := Run(s, DeliverOne(w, e), maxAttempts);
    CommittedWrites(u, w, e, Record(Delivered, s.outbox[e].attempts + 1, s.outbox[e].availableAt), maxAttempts);
  }

  lemma CommittedWrites(u: System, w: WorkerId, e: EventId, r: Record, maxAttempts: int)
    requires Enabled(u, CommitCentral(w)) && u.batches[w].writes == map[e := r]
    ensures var v := Apply(u, CommitCentral(w), maxAttempts);
            v.outbox == u.outbox[e := r] && v.target == u.target && v.batches == u.batches - {w} && v.now == u.now
  {
    assert u.outbox + map[e := r] == u.outbox[e := r];
  }

  /** From any reachable state, an event that is enqueued can be delivered at once. */
  lemma EnqueuedIsDelivered(s: System, w: WorkerId, e: EventId, maxAttempts: int)
    requires Inv(s) && w !in s.batches && e !in s.outbox
    ensures var steps := [Enqueue(e)] + (DeliverOne(w, e) + [CommitCentral(w)]);
            && Legal(s, steps, maxAttempts)
            && var u := Run(s, steps, maxAttempts);
               && e in u.outbox && u.outbox[e].status == Delivered && u.outbox[e].attempts == 1
               && Count(u.target, e) == Count(s.target, e) + 1
  {
    forall v | v in s.batches ensures e !in s.batches[v].claimed {
      assert BatchOk(s.outbox, s.batches[v]);
    }
    FirstThenDelivered(s, Enqueue(e), w, e, maxAttempts);
  }

  /** So can one that is replayed, from whatever end it had come to. */
  lemma ReplayedIsDelivered(s: System, w: WorkerId, e: EventId, maxAttempts: int)
    requires Inv(s) && w !in s.batches && e in s.outbox
    requires s.outbox[e].status == Quarantined || s.outbox[e].status == DeadLetter || s.outbox[e].status == Delivered
    ensures var steps := [Replay(e)] + (DeliverOne(w, e) + [CommitCentral(w)]);
            && Legal(s, steps, maxAttempts)
            && var u := Run(s, steps, maxAttempts);
               && e in u.outbox && u.outbox[e].status == Delivered && u.outbox[e].attempts == 1
               && Count(u.target, e) == Count(s.target, e) + 1
  {
    forall v | v in s.batches ensures e !in s.batches[v].claimed {
      assert BatchOk(s.outbox, s.batches[v]);
    }
    FirstThenDelivered(s, Replay(e), w, e, maxAttempts);
  }

  /** And one in retry, once its wait is over. */
  lemma RetriedIsDelivered(s: System, w: WorkerId, e: EventId, wait: nat, maxAttempts: int)
    requires w !in s.batches && e in s.outbox && s.outbox[e].status == Retry && s.outbox[e].availableAt <= s.now + wait
    requires forall v | v in s.batches :: e !in s.batches[v].claimed
    ensures var steps := [Tick(wait)] + (DeliverOne(w, e) + [CommitCentral(w)]);
            && Legal(s, steps, maxAttempts)
            && var u := Run(s, steps, maxAttempts);
               && e in u.outbox && u.outbox[e].status == Delivered && u.outbox[e].attempts == s.outbox[e].attempts + 1
               && Count(u.target, e) == Count(s.target, e) + 1
  {
    FirstThenDelivered(s, Tick(wait), w, e, maxAttempts);
  }

  lemma FirstThenDelivered(s: System, first: Step, w: WorkerId, e: EventId, maxAttempts: int)
    requires Enabled(s, first) && w !in s.batches
    requires var s1 := Apply(s, first, maxAttempts);
             && s1.batches == s.batches && s1.target == s.target && e in s1.outbox
             && (s1.outbox[e].status == Pending || s1.outbox[e].status == Retry) && s1.outbox[e].availableAt <= s1.now
    requires forall v | v in s.batches :: e !in s.batches[v].claimed
    ensures var steps := [first] + (DeliverOne(w, e) + [CommitCentral(w)]);
            && Legal(s, steps, maxAttempts)
            && var u := Run(s, steps, maxAttempts);
               && e in u.outbox && u.outbox[e].status == Delivered
               && u.outbox[e].attempts == Apply(s, first, maxAttempts).outbox[e].attempts + 1
               && Count(u.target, e) == Count(s.target, e) + 1
  {
    var rest := DeliverOne(w, e) + [CommitCentral(w)];
    DueIsDelivered(Apply(s, first, maxAttempts), w, e, maxAttempts);
    assert ([first] + rest)[1..] == rest;
  }

  /** Dying between the two commits delivers twice: from any state in which an event can be
      claimed, a death there and a second pass leave two target commits behind one delivery. */
  lemma DeathBetweenCommitsDuplicates(s: System, w: WorkerId, e: EventId, maxAttempts: int)
    requires w !in s.batches && Claimable(s, e)
    ensures var steps := (DeliverOne(w, e) + [Die(w)]) + (DeliverOne(w, e) + [CommitCentral(w)]);
            && Legal(s, steps, maxAttempts)
            && Count(Run(s, steps, maxAttempts).target, e) == Count(s.target, e) + 2
            && e in Run(s, steps, maxAttempts).outbox && Run(s, steps, maxAttempts).outbox[e].status == Delivered
  {
    DeliverOneRuns(s, w, e, maxAttempts);
    var s1 := Run(s, DeliverOne(w, e), maxAttempts);
    LastStep(s, DeliverOne(w, e), Die(w), maxAttempts);
    var s2 := Apply(s1, Die(w), maxAttempts);
    assert s2.batches == s.batches;
    assert Claimable(s2, e) by {
      assert forall x :: Locked(s2, x) <==> Locked(s, x);
    }
    DueIsDelivered(s2, w, e, maxAttempts);
    RunConcat(s, DeliverOne(w, e) + [Die(w)], DeliverOne(w, e) + [CommitCentral(w)], maxAttempts);
  }

  lemma LastStep(s: System, steps: seq<Step>, last: Step, maxAttempts: int)
    requires Legal(s, steps, maxAttempts) && Enabled(Run(s, steps, maxAttempts), last)
    ensures Legal(s, steps + [last], maxAttempts)
    ensures Run(s, steps + [last], maxAttempts) == Apply(Run(s, steps, maxAttempts), last, maxAttempts)
  {
    var s' := Run(s, steps, maxAttempts);
    assert [last][1..] == [];
    assert Legal(s', [last], maxAttempts);
    RunConcat(s, steps, [last], maxAttempts);
  }

  /** When a batch returns, every claimed event is counted once, as delivered, quarantined
      or retried, and the committed rows say which. */
  lemma ReturnedCountersBalance(s: System, w: WorkerId, maxAttempts: int)
    requires Inv(s) && Enabled(s, CommitCentral(w))
    ensures var b := s.batches[w];
            var s' := Apply(s, CommitCentral(w), maxAttempts);
            && b.result.claimed == |b.events| == b.result.delivered + b.result.quarantined + b.result.retried
            && forall e | e in b.claimed ::
                 && e in s'.outbox && s'.outbox[e] == b.writes[e]
                 && s'.outbox[e].status in {Delivered, Quarantined, Retry, DeadLetter}
  {
    var b := s.batches[w];
    assert BatchOk(s.outbox, b);
    forall e | e in b.claimed
      ensures b.writes[e].status in {Delivered, Quarantined, Retry, DeadLetter}
    {
      var i :| 0 <= i < |b.events| && b.events[i] == e;
      assert i < b.next;
    }
  }
}
