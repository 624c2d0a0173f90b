/** The delivery protocol with the rows it delivers: any number of workers, each event written as the
    writer writes it, and what a committed status says about the committed target. */
module EndToEnd {
  import opened SchemaGraph
  import opened Store
  import opened Writer
  import opened Integrity
  import opened Outbox
  import D = Delivery
  import opened DeliveryIntegrity
  import opened ByTable
  import opened DeployGate

  /** What does not change during a run: the schema, and the content of each event. */
  datatype Setting = Setting(
    reg: Registry,
    codec: D.Codec,
    system: string,
    target: string,
    entity: EventId -> string,
    content: EventId -> D.Event)

  /** What a worker finds when it writes an event: the mappings approved by then, and the central tables
      and target counters as its own transactions see them, behind or ahead of what is committed. */
  datatype View = View(
    mappings: seq<D.Mapping>,
    crosswalk: map<CrossKey, Value>,
    sequence: map<string, int>,
    counters: map<string, int>)

  /** The protocol's state, the committed target, and the ids each committed fan-out landed on. */
  datatype Joint = Joint(s: System, st: State, landed: map<EventId, seq<TargetIds>>)

  /** A step of a worker, or something else that changes the target. */
  datatype Turn = Work(step: Step, view: View) | Elsewhere(after: State)

  function Landings(j: Joint, e: EventId): seq<TargetIds>
  {
    if e in j.landed then j.landed[e] else []
  }

  function Seen(st: State, v: View): State
  {
    st.(crosswalk := v.crosswalk, sequence := v.sequence, nextAuto := v.counters)
  }

  function Attempt(c: Setting, st: State, v: View, e: EventId): Outcome<D.Delivery>
  {
    D.DeliverEvent(c.reg, c.codec, Seen(st, v), c.system, c.entity(e), c.target, c.content(e), v.mappings)
  }

  function AtHand(s: System, w: WorkerId): EventId
    requires w in s.batches && s.batches[w].next < |s.batches[w].events|
  {
    s.batches[w].events[s.batches[w].next]
  }

  /** A target commit is that of a delivery that went through, a quarantine that of one that found nothing
      to write; a failure needs no cause, nor does a death. Others keep the target's references and rows. */
  ghost predicate Possible(c: Setting, j: Joint, turn: Turn)
  {
    match turn
    case Work(step, v) =>
      && Enabled(j.s, step)
      && (step.CommitTarget? ==> var o := Attempt(c, j.st, v, AtHand(j.s, step.w)); o.r.Ok? && o.r.value.Delivered?)
      && (step.Quarantine? ==> v.mappings == [] || var o := Attempt(c, j.st, v, AtHand(j.s, step.w)); o.r.Ok? && o.r.value.Rejected?)
    case Elsewhere(after) =>
      after.audit == j.st.audit && Grows(j.st, after) && (Intact(c.reg, j.st) ==> Intact(c.reg, after))
  }

  /** A delivery reaches the committed target at the worker's commit there, and only then. */
  function Take(c: Setting, j: Joint, turn: Turn, maxAttempts: int): Joint
    requires turn.Work? ==> Enabled(j.s, turn.step)
  {
    match turn
    case Elsewhere(after) => j.(st := after)
    case Work(step, v) =>
      var s := Apply(j.s, step, maxAttempts);
      if step.CommitTarget? then
        var e := AtHand(j.s, step.w);
        var o := Attempt(c, j.st, v, e);
        if o.r.Ok? && o.r.value.Delivered? then Joint(s, o.st, j.landed[e := Landings(j, e) + [o.r.value.ids]])
        else Joint(s, j.st, j.landed)
      else Joint(s, j.st, j.landed)
  }

  ghost predicate JointRun(c: Setting, j: Joint, turns: seq<Turn>, maxAttempts: int, last: Joint)
    decreases |turns|
  {
    if turns == [] then j == last
    else Possible(c, j, turns[0]) && JointRun(c, Take(c, j, turns[0], maxAttempts), turns[1..], maxAttempts, last)
  }

  // ---------------------------------------------------------------- invariant

  ghost predicate DistinctIds(c: Setting)
  {
    forall e, f :: c.content(e).id == c.content(f).id ==> e == f
  }

  function Active(c: Setting, e: EventId): bool
  {
    c.content(e).operation != "deactivate"
  }

  /** Each landing is one target commit, on at least one table, and its rows are there; the envelope
      is there exactly if anything landed. */
  ghost predicate InTarget(c: Setting, j: Joint, e: EventId)
  {
    && |Landings(j, e)| == Count(j.s.target, e)
    && (forall i | 0 <= i < |Landings(j, e)| :: Landings(j, e)[i] != map[] && IdsLive(j.st, Landings(j, e)[i]))
    && (c.content(e).id in j.st.audit <==> Landings(j, e) != [])
    && (c.content(e).id in j.st.audit ==> j.st.audit[c.content(e).id] == Active(c, e))
  }

  ghost predicate Joined(c: Setting, j: Joint)
  {
    Inv(j.s) && Intact(c.reg, j.st) && forall e :: InTarget(c, j, e)
  }

  /** Nothing enqueued or delivered yet; the target may hold any rows with live references. */
  ghost predicate Start(c: Setting, j: Joint)
  {
    j.s == EMPTY && j.landed == map[] && Intact(c.reg, j.st) && j.st.audit == map[]
  }

  // ------------------------------------------------------------- one delivery

  /** A delivery that goes through lands on at least one table, on rows that are there, and files the
      envelope; it removes no row and no other envelope. */
  lemma DeliveryLands(c: Setting, st: State, v: View, e: EventId)
    requires SchemaOk(c.reg) && Intact(c.reg, st)
    requires var o := Attempt(c, st, v, e); o.r.Ok? && o.r.value.Delivered?
    ensures var o := Attempt(c, st, v, e);
            && Intact(c.reg, o.st) && Grows(st, o.st)
            && o.r.value.ids != map[] && IdsLive(o.st, o.r.value.ids)
            && o.st.audit == st.audit[c.content(e).id := Active(c, e)]
  {
    var seen, event := Seen(st, v), c.content(e);
    SameTables(c.reg, st, seen);
    DeliveredIsWritten(c.reg, c.codec, seen, c.system, c.entity(e), c.target, event, v.mappings);
    var fan := Resolved(c.reg, c.codec, seen, c.system, c.target, event.payload, v.mappings).value.0;
    FanoutIsLive(c.reg, c.codec, seen, c.system, c.target, event.payload, v.mappings);
    WriteLands(c.reg, seen, Source(c.system, c.entity(e), event.reference, c.target), fan, event);
    GrowsTransitive(st, seen, Attempt(c, st, v, e).st);
  }

  /** Behind a delivery stands the write of a fan-out that is not empty. */
  lemma DeliveredIsWritten(reg: Registry, codec: D.Codec, st: State, system: string, entity: string, target: string,
                           event: D.Event, mappings: seq<D.Mapping>)
    requires D.DeliverEvent(reg, codec, st, system, entity, target, event, mappings).r.Ok?
    requires D.DeliverEvent(reg, codec, st, system, entity, target, event, mappings).r.value.Delivered?
    ensures Resolved(reg, codec, st, system, target, event.payload, mappings).Ok?
    ensures var fan := Resolved(reg, codec, st, system, target, event.payload, mappings).value.0;
            var o := D.DeliverEvent(reg, codec, st, system, entity, target, event, mappings);
            var w := WriteRow(reg, st, Source(system, entity, event.reference, target), fan);
            fan != map[] && w.r.Ok? && o.r.value.ids == w.r.value && o.st == D.Audited(w.st, event)
  {
    var built := D.BuildValues(reg, codec, event.payload, mappings, map[], []).0;
    ResolvingKeeps(reg, codec, st, system, target, event.payload, mappings, built, []);
  }

  lemma WriteLands(reg: Registry, st: State, src: Source, fan: Fanout, event: D.Event)
    requires SchemaOk(reg) && Intact(reg, st) && FanLive(reg, st, fan) && fan != map[] && WriteRow(reg, st, src, fan).r.Ok?
    ensures var o := WriteRow(reg, st, src, fan);
            var after := D.Audited(o.st, event);
            && Intact(reg, after) && Grows(st, after) && o.r.value != map[] && IdsLive(after, o.r.value)
            && after.audit == st.audit[event.id := event.operation != "deactivate"]
  {
    var o := WriteRow(reg, st, src, fan);
    WriteRowKeepsIntact(reg, st, src, fan);
    SameTables(reg, o.st, D.Audited(o.st, event));
    IdsStayLive(o.st, D.Audited(o.st, event), o.r.value);
    IdsOfFan(reg, st, src, fan);
  }

  lemma IdsOfFan(reg: Registry, st: State, src: Source, fan: Fanout)
    requires WriteRow(reg, st, src, fan).r.Ok?
    ensures WriteRow(reg, st, src, fan).r.value.Keys == fan.Keys && WriteRow(reg, st, src, fan).st.audit == st.audit
  {
    WriteRowByTable(reg, st, src, fan);
  }

  // ------------------------------------------------------------------ the run

  lemma TurnKeepsJoined(c: Setting, j: Joint, turn: Turn, maxAttempts: int)
    requires SchemaOk(c.reg) && DistinctIds(c) && Joined(c, j) && Possible(c, j, turn)
    ensures Joined(c, Take(c, j, turn, maxAttempts))
  {
    match turn
    case Elsewhere(after) =>
      forall e
        ensures InTarget(c, Take(c, j, turn, maxAttempts), e)
      {
        LandingsStay(c, j, Take(c, j, turn, maxAttempts), e);
      }
    case Work(step, v) =>
      StepInv(j.s, step, maxAttempts);
      if step.CommitTarget? {
        CommitKeepsJoined(c, j, step, v, maxAttempts);
      } else {
        forall e
          ensures InTarget(c, Take(c, j, turn, maxAttempts), e)
        {
          LandingsStay(c, j, Take(c, j, turn, maxAttempts), e);
        }
      }
  }

  lemma LandingsStay(c: Setting, j: Joint, k: Joint, e: EventId)
    requires InTarget(c, j, e) && Grows(j.st, k.st) && Landings(k, e) == Landings(j, e)
    requires Count(k.s.target, e) == Count(j.s.target, e)
    requires c.content(e).id in j.st.audit <==> c.content(e).id in k.st.audit
    requires c.content(e).id in j.st.audit ==> k.st.audit[c.content(e).id] == j.st.audit[c.content(e).id]
    ensures InTarget(c, k, e)
  {
    forall i | 0 <= i < |Landings(j, e)|
      ensures IdsLive(k.st, Landings(j, e)[i])
    {
      IdsStayLive(j.st, k.st, Landings(j, e)[i]);
    }
  }

  lemma IdsStayLive(st: State, after: State, ids: TargetIds)
    requires IdsLive(st, ids) && Grows(st, after)
    ensures IdsLive(after, ids)
  {
    forall t | t in ids
      ensures ids[t] in Rows(after, t)
    {
      GrowsRows(st, after, t);
    }
  }

  lemma CommitKeepsJoined(c: Setting, j: Joint, step: Step, v: View, maxAttempts: int)
    requires SchemaOk(c.reg) && DistinctIds(c) && Joined(c, j) && step.CommitTarget? && Possible(c, j, Work(step, v))
    requires Inv(Apply(j.s, step, maxAttempts))
    ensures Joined(c, Take(c, j, Work(step, v), maxAttempts))
  {
    var e := AtHand(j.s, step.w);
    var k := Take(c, j, Work(step, v), maxAttempts);
    DeliveryLands(c, j.st, v, e);
    CommitCounts(j.s, step, maxAttempts);
    var ids := Attempt(c, j.st, v, e).r.value.ids;
    assert k == Joint(Apply(j.s, step, maxAttempts), Attempt(c, j.st, v, e).st, j.landed[e := Landings(j, e) + [ids]]);
    forall f
      ensures InTarget(c, k, f)
    {
      LandingKeeps(c, j, k, e, ids, f);
    }
  }

  /** What is in the target of any event after one more landing of one. */
  lemma LandingKeeps(c: Setting, j: Joint, k: Joint, e: EventId, ids: TargetIds, f: EventId)
    requires DistinctIds(c) && InTarget(c, j, f) && Grows(j.st, k.st) && k.landed == j.landed[e := Landings(j, e) + [ids]]
    requires Count(k.s.target, f) == Count(j.s.target, f) + if f == e then 1 else 0
    requires ids != map[] && IdsLive(k.st, ids) && k.st.audit == j.st.audit[c.content(e).id := Active(c, e)]
    ensures InTarget(c, k, f)
  {
    if f != e {
      LandingsStay(c, j, k, f);
    } else {
      OneMoreLanding(c, j, k, e, ids);
    }
  }

  lemma CommitCounts(s: System, step: Step, maxAttempts: int)
    requires step.CommitTarget? && Enabled(s, step)
    ensures forall e :: Count(Apply(s, step, maxAttempts).target, e) == Count(s.target, e) + if e == AtHand(s, step.w) then 1 else 0
  {
  }

  lemma OneMoreLanding(c: Setting, j: Joint, k: Joint, e: EventId, ids: TargetIds)
    requires InTarget(c, j, e) && Grows(j.st, k.st) && Landings(k, e) == Landings(j, e) + [ids]
    requires Count(k.s.target, e) == Count(j.s.target, e) + 1 && ids != map[] && IdsLive(k.st, ids)
    requires c.content(e).id in k.st.audit && k.st.audit[c.content(e).id] == Active(c, e)
    ensures InTarget(c, k, e)
  {
    forall i | 0 <= i < |Landings(k, e)|
      ensures Landings(k, e)[i] != map[] && IdsLive(k.st, Landings(k, e)[i])
    {
      if i < |Landings(j, e)| {
        assert Landings(k, e)[i] == Landings(j, e)[i];
        IdsStayLive(j.st, k.st, Landings(j, e)[i]);
      }
    }
  }

  lemma {:induction false} RunKeepsJoined(c: Setting, j: Joint, turns: seq<Turn>, maxAttempts: int, last: Joint)
    requires SchemaOk(c.reg) && DistinctIds(c) && Joined(c, j) && JointRun(c, j, turns, maxAttempts, last)
    ensures Joined(c, last)
    decreases |turns|
  {
    if turns != [] {
      TurnKeepsJoined(c, j, turns[0], maxAttempts);
      RunKeepsJoined(c, Take(c, j, turns[0], maxAttempts), turns[1..], maxAttempts, last);
    }
  }

  /** In every interleaving of workers, deaths, replays and changes by others, whatever crosswalk and
      counters each worker sees: the target's references stay live; an event the outbox shows delivered has
      its envelope in the target, marked as its operation says, and every row it was delivered to is
      still there; and for an event never replayed that no batch holds in flight or lost after its target
      commit, envelope and rows are there exactly if it shows delivered, and were written once. */
  lemma StatusMatchesTarget(c: Setting, j: Joint, turns: seq<Turn>, maxAttempts: int, last: Joint, e: EventId)
    requires SchemaOk(c.reg) && DistinctIds(c) && Start(c, j) && JointRun(c, j, turns, maxAttempts, last)
    ensures Intact(c.reg, last.st)
    ensures forall i | 0 <= i < |Landings(last, e)| :: Landings(last, e)[i] != map[] && IdsLive(last.st, Landings(last, e)[i])
    ensures e in last.s.outbox && last.s.outbox[e].status == Delivered ==>
              && Landings(last, e) != [] && c.content(e).id in last.st.audit
              && last.st.audit[c.content(e).id] == (c.content(e).operation != "deactivate")
    ensures !InFlight(last.s, e) && Count(last.s.orphaned, e) == 0 && Count(last.s.replays, e) == 0 ==>
              && |Landings(last, e)| == (if e in last.s.outbox && last.s.outbox[e].status == Delivered then 1 else 0)
              && (c.content(e).id in last.st.audit <==> e in last.s.outbox && last.s.outbox[e].status == Delivered)
  {
    assert Inv(EMPTY);
    RunKeepsJoined(c, j, turns, maxAttempts, last);
    assert InTarget(c, last, e) && Accounted(last.s) && CommittedOk(last.s);
  }
}
