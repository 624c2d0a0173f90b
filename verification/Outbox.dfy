/** The delivery protocol: one central transaction covers a batch, one target transaction
    covers each event, any number of workers run at once, and a process may die between any
    two steps. */
module Outbox {

  type EventId = nat
  type WorkerId = nat

  datatype Status = Pending | Processing | Retry | Delivered | Quarantined | DeadLetter

  datatype Record = Record(status: Status, attempts: nat, availableAt: int)

  /** Where a worker stands with the event at hand: nothing open, fan-out written but not
      committed, or committed in the target and not yet marked. */
  datatype Phase = Ready | Written | Committed

  /** An open batch: the rows locked and read by the claim, how far the loop got, the central
      writes nobody else can see yet, and the counters to return. `sent` keeps track of the
      events whose fan-out this batch has committed in the target. */
  datatype Batch = Batch(
    events: seq<EventId>,
    claimed: map<EventId, Record>,
    next: nat,
    phase: Phase,
    writes: map<EventId, Record>,
    sent: set<EventId>,
    result: Counters)

  datatype Counters = Counters(claimed: nat, delivered: nat, quarantined: nat, retried: nat)

  /** Committed central rows; how often the target committed each event's fan-out and envelope;
      open batches; the clock. The last three are history: deliveries the central database
      committed, target commits whose batch died, and replays. */
  datatype System = System(
    outbox: map<EventId, Record>,
    target: map<EventId, nat>,
    batches: map<WorkerId, Batch>,
    now: int,
    confirmed: map<EventId, nat>,
    orphaned: map<EventId, nat>,
    replays: map<EventId, nat>)

  datatype Step =
    | Enqueue(e: EventId)
    | Tick(seconds: nat)
    | Replay(e: EventId)
    | Claim(w: WorkerId, events: seq<EventId>)
    | FanOut(w: WorkerId)
    | CommitTarget(w: WorkerId)
    | MarkDelivered(w: WorkerId)
    | Quarantine(w: WorkerId)
    | Fail(w: WorkerId)
    | CommitCentral(w: WorkerId)
    | Die(w: WorkerId)

  function Count(m: map<EventId, nat>, e: EventId): nat
  {
    if e in m then m[e] else 0
  }

  function AddOne(m: map<EventId, nat>, es: set<EventId>): map<EventId, nat>
  {
    map e | e in m.Keys + es :: Count(m, e) + if e in es then 1 else 0
  }

  // ------------------------------------------------------------------ retries

  function Pow2(n: nat): nat
  {
    if n == 0 then 1 else 2 * Pow2(n - 1)
  }

  function Min(a: int, b: int): int
  {
    if a < b then a else b
  }

  /** Seconds to wait after the given attempt. */
  function Delay(attempt: nat): int
  {
    Min(3600, Pow2(if attempt < 10 then attempt else 10) * 15)
  }

  function Retried(r: Record, now: int, maxAttempts: int): Record
  {
    var attempt := r.attempts + 1;
    Record(if attempt >= maxAttempts then DeadLetter else Retry, attempt, now + Delay(attempt))
  }

  // ----------------------------------------------------------------- statements

  predicate Locked(s: System, e: EventId)
  {
    exists w | w in s.batches :: e in s.batches[w].claimed
  }

  predicate Claimable(s: System, e: EventId)
  {
    e in s.outbox && s.outbox[e].status in {Pending, Retry} && s.outbox[e].availableAt <= s.now && !Locked(s, e)
  }

  predicate InHand(s: System, w: WorkerId, phase: Phase)
  {
    w in s.batches && s.batches[w].next < |s.batches[w].events| && s.batches[w].phase == phase
  }

  predicate Distinct(es: seq<EventId>)
  {
    forall i, j | 0 <= i < j < |es| :: es[i] != es[j]
  }

  predicate Enabled(s: System, step: Step)
  {
    match step
    case Enqueue(e) => e !in s.outbox
    case Tick(_) => true
    case Replay(e) => e in s.outbox && s.outbox[e].status in {Quarantined, DeadLetter, Delivered}
    case Claim(w, events) => w !in s.batches && Distinct(events) && forall i | 0 <= i < |events| :: Claimable(s, events[i])
    case FanOut(w) => InHand(s, w, Ready)
    case CommitTarget(w) => InHand(s, w, Written)
    case MarkDelivered(w) => InHand(s, w, Committed)
    case Quarantine(w) => InHand(s, w, Ready) || InHand(s, w, Written)
    case Fail(w) => InHand(s, w, Ready) || InHand(s, w, Written)
    case CommitCentral(w) => w in s.batches && s.batches[w].next == |s.batches[w].events| && s.batches[w].phase == Ready
    case Die(w) => w in s.batches
  }

  /** The claim: lock the rows and mark them, unseen by others until the batch commits. */
  function Opened(s: System, events: seq<EventId>): Batch
    requires forall i | 0 <= i < |events| :: events[i] in s.outbox
  {
    Batch(events,
          map i | 0 <= i < |events| :: events[i] := s.outbox[events[i]],
          0, Ready,
          map i | 0 <= i < |events| :: events[i] := s.outbox[events[i]].(status := Processing),
          {}, Counters(|events|, 0, 0, 0))
  }

  function Settle(b: Batch, r: Record, result: Counters): Batch
    requires b.next < |b.events|
  {
    b.(next := b.next + 1, phase := Ready, writes := b.writes[b.events[b.next] := r], result := result)
  }

  function Current(b: Batch): Record
    requires b.next < |b.events|
  {
    if b.events[b.next] in b.claimed then b.claimed[b.events[b.next]] else Record(Pending, 0, 0)
  }

  function Delivering(b: Batch): Batch
    requires b.next < |b.events|
  {
    var r := Current(b);
    Settle(b, Record(Delivered, r.attempts + 1, r.availableAt), b.result.(delivered := b.result.delivered + 1))
  }

  function Quarantining(b: Batch): Batch
    requires b.next < |b.events|
  {
    Settle(b, Current(b).(status := Quarantined), b.result.(quarantined := b.result.quarantined + 1))
  }

  function Failing(b: Batch, now: int, maxAttempts: int): Batch
    requires b.next < |b.events|
  {
    Settle(b, Retried(Current(b), now, maxAttempts), b.result.(retried := b.result.retried + 1))
  }

  function Apply(s: System, step: Step, maxAttempts: int): System
    requires Enabled(s, step)
  {
    match step
    case Enqueue(e) => s.(outbox := s.outbox[e := Record(Pending, 0, s.now)])
    case Tick(seconds) => s.(now := s.now + seconds)
    case Replay(e) => s.(outbox := s.outbox[e := Record(Pending, 0, s.now)], replays := AddOne(s.replays, {e}))
    case Claim(w, events) => s.(batches := s.batches[w := Opened(s, events)])
    case FanOut(w) => s.(batches := s.batches[w := s.batches[w].(phase := Written)])
    case CommitTarget(w) =>
      var b := s.batches[w];
      var e := b.events[b.next];
      s.(batches := s.batches[w := b.(phase := Committed, sent := b.sent + {e})], target := AddOne(s.target, {e}))
    case MarkDelivered(w) => s.(batches := s.batches[w := Delivering(s.batches[w])])
    case Quarantine(w) => s.(batches := s.batches[w := Quarantining(s.batches[w])])
    case Fail(w) => s.(batches := s.batches[w := Failing(s.batches[w], s.now, maxAttempts)])
    case CommitCentral(w) =>
      var b := s.batches[w];
      s.(batches := s.batches - {w}, outbox := s.outbox + b.writes, confirmed := AddOne(s.confirmed, b.sent))
    case Die(w) => s.(batches := s.batches - {w}, orphaned := AddOne(s.orphaned, s.batches[w].sent))
  }

  /** Every step is enabled when it is taken. */
  predicate Legal(s: System, steps: seq<Step>, maxAttempts: int)
    decreases |steps|
  {
    steps == [] || (Enabled(s, steps[0]) && Legal(Apply(s, steps[0], maxAttempts), steps[1..], maxAttempts))
  }

  function Run(s: System, steps: seq<Step>, maxAttempts: int): System
    requires Legal(s, steps, maxAttempts)
    decreases |steps|
  {
    if steps == [] then s else Run(Apply(s, steps[0], maxAttempts), steps[1..], maxAttempts)
  }

  const EMPTY: System := System(map[], map[], map[], 0, map[], map[], map[])

  // ---------------------------------------------------------------- invariant

  /** A batch's view agrees with what is committed, and its writes with how far it got. */
  ghost predicate BatchOk(outbox: map<EventId, Record>, b: Batch)
  {
    && Distinct(b.events) && b.next <= |b.events|
    && b.claimed.Keys == b.writes.Keys == (set i | 0 <= i < |b.events| :: b.events[i])
    && (forall e | e in b.claimed :: e in outbox && outbox[e] == b.claimed[e] && b.claimed[e].status in {Pending, Retry})
    && (forall i | 0 <= i < |b.events| ::
          if i < b.next then b.writes[b.events[i]].status !in {Pending, Processing}
          else b.writes[b.events[i]].status == Processing)
    && (b.phase != Ready ==> b.next < |b.events|)
    && b.sent <= b.claimed.Keys
    && (forall i | 0 <= i < |b.events| ::
          b.events[i] in b.sent <==>
            (i < b.next && b.writes[b.events[i]].status == Delivered) || (i == b.next && b.phase == Committed))
    && b.result.claimed == |b.events|
    && b.result.delivered + b.result.quarantined + b.result.retried == b.next
  }

  /** No event is held twice. */
  ghost predicate Exclusive(batches: map<WorkerId, Batch>)
  {
    forall v, w | v in batches && w in batches && v != w :: batches[v].claimed.Keys !! batches[w].claimed.Keys
  }

  ghost predicate InFlight(s: System, e: EventId)
  {
    exists w :: w in s.batches && e in s.batches[w].sent
  }

  /** Every target commit of an event is confirmed, orphaned by a death, or still in flight. */
  ghost predicate Accounted(s: System)
  {
    forall e :: Count(s.target, e) == Count(s.confirmed, e) + Count(s.orphaned, e) + if InFlight(s, e) then 1 else 0
  }

  /** Committed central rows are never mid-way; a delivered one has been confirmed, and each
      confirmation beyond the first came after a replay. */
  ghost predicate CommittedOk(s: System)
  {
    && (forall e | e in s.outbox :: s.outbox[e].status != Processing)
    && (forall e | e in s.outbox && s.outbox[e].status == Delivered :: Count(s.confirmed, e) >= 1)
    && (forall e :: Count(s.confirmed, e) <= Count(s.replays, e)
                    + if e in s.outbox && s.outbox[e].status == Delivered then 1 else 0)
  }

  ghost predicate Inv(s: System)
  {
    && (forall w | w in s.batches :: BatchOk(s.outbox, s.batches[w]))
    && Exclusive(s.batches) && Accounted(s) && CommittedOk(s)
  }

  // -------------------------------------------------------- a batch on its own

  lemma SettleOk(outbox: map<EventId, Record>, b: Batch, r: Record, result: Counters)
    requires BatchOk(outbox, b) && b.next < |b.events|
    requires r.status !in {Pending, Processing} && (r.status == Delivered <==> b.phase == Committed)
    requires result.claimed == b.result.claimed
    requires result.delivered + result.quarantined + result.retried == b.next + 1
    ensures BatchOk(outbox, Settle(b, r, result))
  {
    var b' := Settle(b, r, result);
    assert forall i | 0 <= i < |b.events| && i != b.next :: b.events[i] != b.events[b.next];
    assert b'.writes.Keys == b.writes.Keys;
  }

  lemma OpenedOk(s: System, events: seq<EventId>)
    requires Distinct(events)
    requires forall i | 0 <= i < |events| :: events[i] in s.outbox && s.outbox[events[i]].status in {Pending, Retry}
    ensures BatchOk(s.outbox, Opened(s, events))
  {
  }

  /** A batch minds only the committed rows it holds. */
  lemma FramedOk(outbox: map<EventId, Record>, outbox': map<EventId, Record>, b: Batch)
    requires BatchOk(outbox, b)
    requires forall e | e in b.claimed :: e in outbox' && outbox'[e] == outbox[e]
    ensures BatchOk(outbox', b)
  {
  }

  // --------------------------------------------------------------- step by step

  /** One worker's batch changes, nothing is sent: accounting and the others stay as they are. */
  lemma ReplaceBatch(s: System, w: WorkerId, b: Batch)
    requires Inv(s) && BatchOk(s.outbox, b)
    requires if w in s.batches then b.claimed == s.batches[w].claimed && b.sent == s.batches[w].sent
             else b.sent == {} && forall e | e in b.claimed :: !Locked(s, e)
    ensures Inv(s.(batches := s.batches[w := b]))
  {
    var s' := s.(batches := s.batches[w := b]);
    SameFlight(s, w, b);
    StaysExclusive(s, w, b);
    assert Accounted(s') by {
      assert forall e :: Count(s'.target, e) == Count(s.target, e);
    }
    assert CommittedOk(s');
  }

  lemma SameFlight(s: System, w: WorkerId, b: Batch)
    requires if w in s.batches then b.sent == s.batches[w].sent else b.sent == {}
    ensures forall e :: InFlight(s.(batches := s.batches[w := b]), e) <==> InFlight(s, e)
  {
    var s' := s.(batches := s.batches[w := b]);
    forall e
      ensures InFlight(s', e) <==> InFlight(s, e)
    {
      if InFlight(s, e) {
        var v :| v in s.batches && e in s.batches[v].sent;
        assert v in s'.batches && e in s'.batches[v].sent;
      }
    }
  }

  lemma StaysExclusive(s: System, w: WorkerId, b: Batch)
    requires Exclusive(s.batches)
    requires if w in s.batches then b.claimed == s.batches[w].claimed
             else forall e | e in b.claimed :: !Locked(s, e)
    ensures Exclusive(s.batches[w := b])
  {
    forall v | v in s.batches && v != w
      ensures s.batches[v].claimed.Keys !! b.claimed.Keys
    {
      if w !in s.batches {
        assert forall e | e in b.claimed :: e !in s.batches[v].claimed;
      }
    }
  }

  lemma SentOk(outbox: map<EventId, Record>, b: Batch)
    requires BatchOk(outbox, b) && b.phase == Written && b.next < |b.events|
    ensures BatchOk(outbox, b.(phase := Committed, sent := b.sent + {b.events[b.next]}))
    ensures b.events[b.next] in b.claimed && b.events[b.next] !in b.sent
  {
    assert forall i | 0 <= i < |b.events| && i != b.next :: b.events[i] != b.events[b.next];
  }

  lemma CommitTargetInv(s: System, w: WorkerId, maxAttempts: int)
    requires Inv(s) && Enabled(s, CommitTarget(w))
    ensures Inv(Apply(s, CommitTarget(w), maxAttempts))
  {
    var b := s.batches[w];
    var b' := b.(phase := Committed, sent := b.sent + {b.events[b.next]});
    assert BatchOk(s.outbox, b);
    SentOk(s.outbox, b);
    StaysExclusive(s, w, b');
    NotYetSent(s, w);
    SentAccounted(s, w, b', b.events[b.next]);
    SentInv(s, w, b', AddOne(s.target, {b.events[b.next]}));
  }

  lemma SentInv(s: System, w: WorkerId, b: Batch, target: map<EventId, nat>)
    requires Inv(s) && BatchOk(s.outbox, b) && Exclusive(s.batches[w := b])
    requires Accounted(s.(batches := s.batches[w := b], target := target))
    ensures Inv(s.(batches := s.batches[w := b], target := target))
  {
  }

  lemma SentAccounted(s: System, w: WorkerId, b: Batch, e: EventId)
    requires Accounted(s) && w in s.batches && !InFlight(s, e) && b.sent == s.batches[w].sent + {e}
    ensures Accounted(s.(batches := s.batches[w := b], target := AddOne(s.target, {e})))
  {
    var s' := s.(batches := s.batches[w := b], target := AddOne(s.target, {e}));
    forall x
      ensures Count(s'.target, x) == Count(s'.confirmed, x) + Count(s'.orphaned, x) + if InFlight(s', x) then 1 else 0
    {
      SendFlight(s, s', w, e, x);
      assert Count(s.target, x) == Count(s.confirmed, x) + Count(s.orphaned, x) + if InFlight(s, x) then 1 else 0;
    }
  }

  /** The event at hand is in flight nowhere before its target commit. */
  lemma NotYetSent(s: System, w: WorkerId)
    requires Inv(s) && InHand(s, w, Written)
    ensures !InFlight(s, s.batches[w].events[s.batches[w].next])
  {
    var e := s.batches[w].events[s.batches[w].next];
    assert BatchOk(s.outbox, s.batches[w]);
    SentOk(s.outbox, s.batches[w]);
    forall v | v in s.batches
      ensures e !in s.batches[v].sent
    {
      assert BatchOk(s.outbox, s.batches[v]);
      assert v != w ==> s.batches[v].claimed.Keys !! s.batches[w].claimed.Keys;
    }
  }

  lemma SendFlight(s: System, s': System, w: WorkerId, e: EventId, x: EventId)
    requires w in s.batches && s'.batches.Keys == s.batches.Keys
    requires forall v | v in s.batches && v != w :: s'.batches[v] == s.batches[v]
    requires s'.batches[w].sent == s.batches[w].sent + {e}
    ensures InFlight(s', x) <==> InFlight(s, x) || x == e
  {
    if InFlight(s, x) {
      var v :| v in s.batches && x in s.batches[v].sent;
      assert v in s'.batches && x in s'.batches[v].sent;
    }
    if x == e {
      assert w in s'.batches && x in s'.batches[w].sent;
    }
  }

  /** What was in flight elsewhere stays in flight when a batch closes. */
  lemma CloseFlight(s: System, s': System, w: WorkerId, e: EventId)
    requires Inv(s) && w in s.batches && s'.batches == s.batches - {w}
    ensures InFlight(s', e) <==> InFlight(s, e) && e !in s.batches[w].sent
  {
    assert BatchOk(s.outbox, s.batches[w]);
    if InFlight(s, e) && e !in s.batches[w].sent {
      var v :| v in s.batches && e in s.batches[v].sent;
      assert v in s'.batches && e in s'.batches[v].sent;
    }
    if InFlight(s', e) {
      var u :| u in s'.batches && e in s'.batches[u].sent;
      assert BatchOk(s.outbox, s.batches[u]);
      assert s.batches[u].claimed.Keys !! s.batches[w].claimed.Keys;
      assert e in s.batches[u].claimed;
    }
  }

  /** A batch closes and what it sent moves to one of the histories: every count still adds up. */
  lemma ClosedAccounted(s: System, s': System, w: WorkerId, e: EventId)
    requires Inv(s) && w in s.batches && s'.batches == s.batches - {w} && s'.target == s.target
    requires Count(s'.confirmed, e) + Count(s'.orphaned, e)
          == Count(s.confirmed, e) + Count(s.orphaned, e) + if e in s.batches[w].sent then 1 else 0
    ensures Count(s'.target, e) == Count(s'.confirmed, e) + Count(s'.orphaned, e) + if InFlight(s', e) then 1 else 0
  {
    CloseFlight(s, s', w, e);
    if e in s.batches[w].sent {
      assert InFlight(s, e);
    }
  }

  lemma CommitCentralAccounted(s: System, w: WorkerId, maxAttempts: int)
    requires Inv(s) && Enabled(s, CommitCentral(w))
    ensures Accounted(Apply(s, CommitCentral(w), maxAttempts))
  {
    var s' := Apply(s, CommitCentral(w), maxAttempts);
    forall e
      ensures Count(s'.target, e) == Count(s'.confirmed, e) + Count(s'.orphaned, e) + if InFlight(s', e) then 1 else 0
    {
      ClosedAccounted(s, s', w, e);
    }
  }

  /** What a finished batch is about to commit for one of its rows. */
  lemma WrittenRow(outbox: map<EventId, Record>, b: Batch, e: EventId)
    requires BatchOk(outbox, b) && b.next == |b.events| && e in b.claimed
    ensures e in b.writes && b.writes[e].status != Processing
    ensures b.writes[e].status == Delivered <==> e in b.sent
    ensures e in outbox && outbox[e].status in {Pending, Retry}
  {
    var i :| 0 <= i < |b.events| && b.events[i] == e;
    assert i < b.next;
  }

  lemma RowCommits(s: System, w: WorkerId, maxAttempts: int, e: EventId)
    requires CommittedOk(s) && Enabled(s, CommitCentral(w)) && BatchOk(s.outbox, s.batches[w])
    ensures var s' := Apply(s, CommitCentral(w), maxAttempts);
            && (e in s'.outbox ==> s'.outbox[e].status != Processing)
            && (e in s'.outbox && s'.outbox[e].status == Delivered ==> Count(s'.confirmed, e) >= 1)
            && Count(s'.confirmed, e) <= Count(s'.replays, e)
                 + if e in s'.outbox && s'.outbox[e].status == Delivered then 1 else 0
  {
    var b := s.batches[w];
    if e in b.claimed {
      WrittenRow(s.outbox, b, e);
    } else {
      assert e !in b.sent && e !in b.writes;
    }
  }

  lemma CommitCentralCommitted(s: System, w: WorkerId, maxAttempts: int)
    requires Inv(s) && Enabled(s, CommitCentral(w))
    ensures CommittedOk(Apply(s, CommitCentral(w), maxAttempts))
  {
    assert BatchOk(s.outbox, s.batches[w]);
    var s' := Apply(s, CommitCentral(w), maxAttempts);
    forall e
      ensures e in s'.outbox ==> s'.outbox[e].status != Processing
      ensures e in s'.outbox && s'.outbox[e].status == Delivered ==> Count(s'.confirmed, e) >= 1
      ensures Count(s'.confirmed, e) <= Count(s'.replays, e)
                + if e in s'.outbox && s'.outbox[e].status == Delivered then 1 else 0
    {
      RowCommits(s, w, maxAttempts, e);
    }
  }

  lemma CommitCentralInv(s: System, w: WorkerId, maxAttempts: int)
    requires Inv(s) && Enabled(s, CommitCentral(w))
    ensures Inv(Apply(s, CommitCentral(w), maxAttempts))
  {
    var s' := Apply(s, CommitCentral(w), maxAttempts);
    CommitCentralAccounted(s, w, maxAttempts);
    CommitCentralCommitted(s, w, maxAttempts);
    forall v | v in s'.batches
      ensures BatchOk(s'.outbox, s'.batches[v])
    {
      assert BatchOk(s.outbox, s.batches[v]) && BatchOk(s.outbox, s.batches[w]);
      assert s.batches[v].claimed.Keys !! s.batches[w].claimed.Keys;
      FramedOk(s.outbox, s'.outbox, s.batches[v]);
    }
  }

  lemma DieAccounted(s: System, w: WorkerId, maxAttempts: int)
    requires Inv(s) && Enabled(s, Die(w))
    ensures Accounted(Apply(s, Die(w), maxAttempts))
  {
    var s' := Apply(s, Die(w), maxAttempts);
    forall e
      ensures Count(s'.target, e) == Count(s'.confirmed, e) + Count(s'.orphaned, e) + if InFlight(s', e) then 1 else 0
    {
      ClosedAccounted(s, s', w, e);
    }
  }

  lemma DieInv(s: System, w: WorkerId, maxAttempts: int)
    requires Inv(s) && Enabled(s, Die(w))
    ensures Inv(Apply(s, Die(w), maxAttempts))
  {
    DieAccounted(s, w, maxAttempts);
    var s' := Apply(s, Die(w), maxAttempts);
    forall v | v in s'.batches
      ensures BatchOk(s'.outbox, s'.batches[v])
    {
      assert BatchOk(s.outbox, s.batches[v]);
    }
  }

  /** New and replayed rows are held by no batch. */
  lemma ResetRowOk(s: System, step: Step, maxAttempts: int, v: WorkerId)
    requires Inv(s) && (step.Enqueue? || step.Replay?) && Enabled(s, step) && v in s.batches
    ensures BatchOk(Apply(s, step, maxAttempts).outbox, s.batches[v])
  {
    assert BatchOk(s.outbox, s.batches[v]);
    FramedOk(s.outbox, Apply(s, step, maxAttempts).outbox, s.batches[v]);
  }

  lemma ResetRowInv(s: System, step: Step, maxAttempts: int)
    requires Inv(s) && (step.Enqueue? || step.Replay?) && Enabled(s, step)
    ensures Inv(Apply(s, step, maxAttempts))
  {
    var s' := Apply(s, step, maxAttempts);
    forall v | v in s.batches
      ensures BatchOk(s'.outbox, s.batches[v])
    {
      ResetRowOk(s, step, maxAttempts, v);
    }
    forall e
      ensures InFlight(s', e) <==> InFlight(s, e)
    {
    }
  }

  lemma TickInv(s: System, seconds: nat)
    requires Inv(s)
    ensures Inv(s.(now := s.now + seconds))
  {
    assert forall e :: InFlight(s.(now := s.now + seconds), e) <==> InFlight(s, e);
  }

  lemma ClaimInv(s: System, w: WorkerId, events: seq<EventId>)
    requires Inv(s) && Enabled(s, Claim(w, events))
    ensures Inv(s.(batches := s.batches[w := Opened(s, events)]))
  {
    OpenedOk(s, events);
    ReplaceBatch(s, w, Opened(s, events));
  }

  lemma FanOutInv(s: System, w: WorkerId)
    requires Inv(s) && Enabled(s, FanOut(w))
    ensures Inv(s.(batches := s.batches[w := s.batches[w].(phase := Written)]))
  {
    assert BatchOk(s.outbox, s.batches[w]);
    ReplaceBatch(s, w, s.batches[w].(phase := Written));
  }

  lemma StepInv(s: System, step: Step, maxAttempts: int)
    requires Inv(s) && Enabled(s, step)
    ensures Inv(Apply(s, step, maxAttempts))
  {
    match step
    case Enqueue(_) => ResetRowInv(s, step, maxAttempts);
    case Replay(_) => ResetRowInv(s, step, maxAttempts);
    case Tick(seconds) => TickInv(s, seconds);
    case Claim(w, events) => ClaimInv(s, w, events);
    case FanOut(w) => FanOutInv(s, w);
    case CommitTarget(w) => CommitTargetInv(s, w, maxAttempts);
    case MarkDelivered(w) => MarkDeliveredInv(s, w);
    case Quarantine(w) => QuarantineInv(s, w);
    case Fail(w) => FailInv(s, w, maxAttempts);
    case CommitCentral(w) => CommitCentralInv(s, w, maxAttempts);
    case Die(w) => DieInv(s, w, maxAttempts);
  }

  lemma MarkDeliveredInv(s: System, w: WorkerId)
    requires Inv(s) && Enabled(s, MarkDelivered(w))
    ensures Inv(s.(batches := s.batches[w := Delivering(s.batches[w])]))
  {
    var b := s.batches[w];
    assert BatchOk(s.outbox, b);
    DeliveringOk(s.outbox, b);
    ReplaceBatch(s, w, Delivering(b));
  }

  lemma DeliveringOk(outbox: map<EventId, Record>, b: Batch)
    requires BatchOk(outbox, b) && b.next < |b.events| && b.phase == Committed
    ensures BatchOk(outbox, Delivering(b))
  {
    SettleOk(outbox, b, Record(Delivered, Current(b).attempts + 1, Current(b).availableAt),
             b.result.(delivered := b.result.delivered + 1));
  }

  lemma QuarantineInv(s: System, w: WorkerId)
    requires Inv(s) && Enabled(s, Quarantine(w))
    ensures Inv(s.(batches := s.batches[w := Quarantining(s.batches[w])]))
  {
    var b := s.batches[w];
    assert BatchOk(s.outbox, b);
    SettleOk(s.outbox, b, Current(b).(status := Quarantined), b.result.(quarantined := b.result.quarantined + 1));
    ReplaceBatch(s, w, Quarantining(b));
  }

  lemma FailInv(s: System, w: WorkerId, maxAttempts: int)
    requires Inv(s) && Enabled(s, Fail(w))
    ensures Inv(s.(batches := s.batches[w := Failing(s.batches[w], s.now, maxAttempts)]))
  {
    var b := s.batches[w];
    assert BatchOk(s.outbox, b);
    SettleOk(s.outbox, b, Retried(Current(b), s.now, maxAttempts), b.result.(retried := b.result.retried + 1));
    ReplaceBatch(s, w, Failing(b, s.now, maxAttempts));
  }
}
