/** The job queue's operations on its table and its dispatcher's memory, each proved to take one step of the protocol. */
module JobRunner {
  import opened Outcomes
  import opened Jobs

  const ADMIN_ONLY_JOBS: set<string> := {"migration_apply", "nightly_refresh"}

  datatype EnqueueResult = UnknownJobType | AdminRequired | Conflict(holder: JobId) | Accepted(id: JobId)

  function QueuedIds(jobs: map<JobId, Job>): set<JobId>
  {
    set id | id in jobs && jobs[id].status == Queued
  }

  lemma {:induction false} OldestAmong(jobs: map<JobId, Job>, ids: set<JobId>) returns (first: JobId)
    requires ids != {} && forall id :: id in ids ==> id in jobs
    ensures first in ids && forall id :: id in ids ==> jobs[first].created <= jobs[id].created
    decreases |ids|
  {
    var id :| id in ids;
    var rest := ids - {id};
    if rest == {} {
      assert ids == {id};
      first := id;
    } else {
      var best := OldestAmong(jobs, rest);
      first := if jobs[best].created <= jobs[id].created then best else id;
    }
  }

  /** The steps one pool thread takes alone, by what succeeds: the first event, the handler, the last event. */
  function ThreadSteps(id: JobId, announces: bool, succeeds: bool, reports: bool): seq<Step>
  {
    if !announces then [AbortStart(id)]
    else if !succeeds then [Start(id), Fail(id), Leave(id)]
    else if !reports then [Start(id), Succeed(id), Fail(id), Leave(id)]
    else [Start(id), Succeed(id), Leave(id)]
  }

  lemma {:induction false} RunThen(w: World, steps: seq<Step>, u: World, s: Step)
    requires Run(w, steps, u) && Enabled(u, s)
    ensures Run(w, steps + [s], Apply(u, s))
    decreases |steps|
  {
    var all := steps + [s];
    if steps == [] {
      assert all[1..] == [];
    } else {
      assert all[1..] == steps[1..] + [s];
      RunThen(Apply(w, steps[0]), steps[1..], u, s);
    }
  }

  class Runner {
    var jobs: map<JobId, Job>
    var now: int
    var active: set<JobId>
    ghost var stage: map<JobId, Stage>
    ghost var started: multiset<JobId>

    ghost function State(): World
      reads this
    {
      World(jobs, now, stage, active, started)
    }

    constructor (rows: map<JobId, Job>, clock: int)
      ensures State() == World(rows, clock, map[], {}, multiset{})
    {
      jobs, now, active, stage, started := rows, clock, {}, map[], multiset{};
    }

    /** Check and insert as one atomic step; the row's identifier is fresh. */
    method EnqueueJob(handlers: set<string>, jobType: string, role: string, id: JobId, scope: Option<string>)
      returns (r: EnqueueResult)
      requires id !in jobs
      modifies this
      ensures r.UnknownJobType? <==> jobType !in handlers
      ensures r.AdminRequired? <==> jobType in handlers && jobType in ADMIN_ONLY_JOBS && role != "admin"
      ensures r.UnknownJobType? || r.AdminRequired? ==> State() == old(State())
      ensures r.Conflict? || r.Accepted? ==> State() == Apply(old(State()), Enqueue(id, scope))
      ensures r.Conflict? ==> State() == old(State()) && r.holder in jobs
      ensures r.Conflict? ==> scope.Some? && jobs[r.holder].scope == scope
      ensures r.Conflict? ==> jobs[r.holder].status == Queued || jobs[r.holder].status == Running
      ensures r.Accepted? ==> r.id == id && jobs == old(jobs)[id := Job(scope, Queued, now, now)]
      ensures r.Accepted? && scope.Some? ==> forall k | k in old(jobs) && old(jobs)[k].scope == scope ::
                old(jobs)[k].status == Succeeded || old(jobs)[k].status == Failed
    {
      if jobType !in handlers {
        return UnknownJobType;
      }
      if jobType in ADMIN_ONLY_JOBS && role != "admin" {
        return AdminRequired;
      }
      if Taken(jobs, scope) {
        var holder :| holder in jobs && Live(jobs[holder]) && jobs[holder].scope == scope;
        return Conflict(holder);
      }
      jobs := jobs[id := Job(scope, Queued, now, now)];
      return Accepted(id);
    }

    /** Takes the oldest queued row, if there is one. */
    method ClaimNext() returns (claimed: Option<JobId>)
      modifies this
      ensures claimed.None? ==> State() == old(State())
      ensures claimed.None? ==> forall k | k in jobs :: jobs[k].status != Queued
      ensures claimed.Some? ==> claimed.value in old(jobs) && old(jobs)[claimed.value].status == Queued
      ensures claimed.Some? ==> forall k | k in old(jobs) && old(jobs)[k].status == Queued ::
                old(jobs)[claimed.value].created <= old(jobs)[k].created
      ensures claimed.Some? ==>
                jobs == old(jobs)[claimed.value := old(jobs)[claimed.value].(status := Running, heartbeat := now)]
      ensures claimed.Some? ==> Oldest(old(jobs), claimed.value) && State() == Apply(old(State()), Claim(claimed.value))
    {
      if QueuedIds(jobs) == {} {
        assert forall k :: k in jobs && jobs[k].status == Queued ==> k in QueuedIds(jobs);
        return None;
      }
      ghost var first := OldestAmong(jobs, QueuedIds(jobs));
      assert Oldest(jobs, first);
      var id :| id in jobs && Oldest(jobs, id);
      assert Oldest(jobs, id);
      assert forall k :: k in jobs && jobs[k].status == Queued ==> jobs[id].created <= jobs[k].created;
      jobs := jobs[id := jobs[id].(status := Running, heartbeat := now)];
      stage := stage[id := InHand];
      return Some(id);
    }

    method ReapStale()
      modifies this
      ensures State() == Apply(old(State()), Reap)
      ensures jobs.Keys == old(jobs).Keys
      ensures forall id | id in jobs && old(jobs)[id].status == Running && old(jobs)[id].heartbeat < now - 60 ::
                jobs[id] == old(jobs)[id].(status := Failed)
      ensures forall id | id in jobs && !(old(jobs)[id].status == Running && old(jobs)[id].heartbeat < now - 60) ::
                jobs[id] == old(jobs)[id]
    {
      jobs := Reaped(jobs, now);
    }

    method Heartbeat()
      modifies this
      ensures State() == Apply(old(State()), Beat(active))
      ensures jobs.Keys == old(jobs).Keys
      ensures forall id | id in jobs && id in active && old(jobs)[id].status == Running ::
                jobs[id] == old(jobs)[id].(heartbeat := now)
      ensures forall id | id in jobs && !(id in active && old(jobs)[id].status == Running) :: jobs[id] == old(jobs)[id]
    {
      jobs := Beaten(jobs, active, now);
    }

    method SubmitClaimed(id: JobId)
      requires At(State(), id, InHand)
      modifies this
      ensures State() == Apply(old(State()), Submit(id))
    {
      active := active + {id};
      stage := stage[id := InPool];
    }

    /** One turn of the dispatcher: reap, then claim and submit until nothing is queued. */
    method Dispatch() returns (ghost steps: seq<Step>)
      modifies this
      ensures Run(old(State()), steps, State())
      ensures forall id | id in jobs :: jobs[id].status != Queued
      ensures forall id | id in old(jobs) && old(jobs)[id].status == Queued ::
                id in jobs && jobs[id].status == Running && id in active && At(State(), id, InPool)
    {
      ghost var w := State();
      ReapStale();
      steps := [Reap];
      TurnStarts(w);
      var claimed := ClaimNext();
      if claimed.Some? {
        TurnClaims(w, steps, Apply(w, Reap), claimed.value);
        steps := steps + [Claim(claimed.value)];
      }
      while claimed.Some?
        invariant claimed.None? ==> forall k | k in jobs :: jobs[k].status != Queued
        invariant Turn(w, steps, State(), claimed)
        decreases if claimed.Some? then |QueuedIds(jobs)| + 1 else 0
      {
        ghost var v := State();
        SubmitClaimed(claimed.value);
        TurnSubmits(w, steps, v, claimed.value);
        steps := steps + [Submit(claimed.value)];
        v := State();
        claimed := ClaimNext();
        if claimed.Some? {
          TurnClaims(w, steps, v, claimed.value);
          steps := steps + [Claim(claimed.value)];
        }
      }
      forall id | id in w.jobs && w.jobs[id].status == Queued
        ensures Submitted(State(), id)
      {
        assert id in QueuedIds(w.jobs) && Dispatched(State(), id, None);
      }
    }

    /** One pool thread, alone; other threads' steps between these are what the protocol's runs add. */
    method RunJob(id: JobId, announces: bool, succeeds: bool, reports: bool)
      requires At(State(), id, InPool) && id in jobs
      modifies this
      ensures State() == ThreadEnd(old(State()), id, announces, succeeds, reports)
      ensures Run(old(State()), ThreadSteps(id, announces, succeeds, reports), State())
    {
      ThreadRuns(State(), id, announces, succeeds, reports);
      if !announces {
        stage := stage - {id};
        return;
      }
      started := started + multiset{id};
      if succeeds {
        jobs := jobs[id := jobs[id].(status := Succeeded)];
      }
      if !succeeds || !reports {
        jobs := jobs[id := jobs[id].(status := Failed)];
      }
      active := active - {id};
      stage := stage - {id};
    }
  }

  predicate Submitted(w: World, id: JobId)
  {
    id in w.jobs && w.jobs[id].status == Running && At(w, id, InPool) && id in w.active
  }

  /** A job queued when the dispatcher woke: still queued, in its hand, or submitted. */
  predicate Dispatched(w: World, id: JobId, claimed: Option<JobId>)
  {
    id in w.jobs && (w.jobs[id].status == Queued || claimed == Some(id) || Submitted(w, id))
  }

  /** The dispatcher's turn so far: a run of the protocol, with at most one claimed job in hand. */
  ghost predicate Turn(w: World, steps: seq<Step>, v: World, claimed: Option<JobId>)
  {
    && Run(w, steps, v)
    && (forall id :: id in QueuedIds(w.jobs) ==> Dispatched(v, id, claimed))
    && (claimed.Some? ==> At(v, claimed.value, InHand) && claimed.value in v.jobs
                          && v.jobs[claimed.value].status == Running)
  }

  lemma TurnStarts(w: World)
    ensures Turn(w, [Reap], Apply(w, Reap), None)
  {
    RunThen(w, [], w, Reap);
    assert [] + [Reap] == [Reap];
  }

  lemma TurnClaims(w: World, steps: seq<Step>, v: World, id: JobId)
    requires Turn(w, steps, v, None) && Oldest(v.jobs, id)
    ensures Turn(w, steps + [Claim(id)], Apply(v, Claim(id)), Some(id))
    ensures |QueuedIds(Apply(v, Claim(id)).jobs)| + 1 == |QueuedIds(v.jobs)|
  {
    RunThen(w, steps, v, Claim(id));
    var u := Apply(v, Claim(id));
    assert QueuedIds(u.jobs) == QueuedIds(v.jobs) - {id};
    forall k | k in QueuedIds(w.jobs) ensures Dispatched(u, k, Some(id)) {
      assert Dispatched(v, k, None);
    }
  }

  lemma TurnSubmits(w: World, steps: seq<Step>, v: World, id: JobId)
    requires Turn(w, steps, v, Some(id))
    ensures Turn(w, steps + [Submit(id)], Apply(v, Submit(id)), None)
  {
    RunThen(w, steps, v, Submit(id));
    var u := Apply(v, Submit(id));
    forall k | k in QueuedIds(w.jobs) ensures Dispatched(u, k, None) {
      assert Dispatched(v, k, Some(id));
    }
  }

  /** What a thread that nobody interleaves with leaves behind. */
  function ThreadEnd(w: World, id: JobId, announces: bool, succeeds: bool, reports: bool): World
  {
    if !announces then w.(stage := w.stage - {id})
    else w.(jobs := Marked(w.jobs, id, if succeeds && reports then Succeeded else Failed),
            stage := w.stage - {id}, active := w.active - {id}, started := w.started + multiset{id})
  }

  lemma ThreadRuns(w: World, id: JobId, announces: bool, succeeds: bool, reports: bool)
    requires At(w, id, InPool) && id in w.jobs
    ensures Run(w, ThreadSteps(id, announces, succeeds, reports), ThreadEnd(w, id, announces, succeeds, reports))
  {
    var v := ThreadEnd(w, id, announces, succeeds, reports);
    if !announces {
      RunStep(w, AbortStart(id), [], v);
      assert [AbortStart(id)] + [] == [AbortStart(id)];
    } else {
      var u := Apply(w, Start(id));
      ThreadFinishes(u, id, succeeds, reports);
      assert u.stage - {id} == w.stage - {id};
      assert ThreadSteps(id, true, succeeds, reports) == [Start(id)] + ThreadSteps(id, true, succeeds, reports)[1..];
      RunStep(w, Start(id), ThreadSteps(id, true, succeeds, reports)[1..], v);
    }
  }

  lemma ThreadFinishes(u: World, id: JobId, succeeds: bool, reports: bool)
    requires At(u, id, Going) && id in u.jobs
    ensures var v := u.(jobs := Marked(u.jobs, id, if succeeds && reports then Succeeded else Failed),
                        stage := u.stage - {id}, active := u.active - {id});
      Run(u, ThreadSteps(id, true, succeeds, reports)[1..], v)
  {
    var v := u.(jobs := Marked(u.jobs, id, if succeeds && reports then Succeeded else Failed),
                stage := u.stage - {id}, active := u.active - {id});
    var steps := ThreadSteps(id, true, succeeds, reports)[1..];
    if succeeds {
      var x := Apply(u, Succeed(id));
      if reports {
        LastLeaves(x, id, v);
        assert steps == [Succeed(id)] + [Leave(id)];
        RunStep(u, Succeed(id), [Leave(id)], v);
      } else {
        FailsAndLeaves(x, id, v);
        assert steps == [Succeed(id)] + [Fail(id), Leave(id)];
        RunStep(u, Succeed(id), [Fail(id), Leave(id)], v);
      }
    } else {
      FailsAndLeaves(u, id, v);
      assert steps == [Fail(id), Leave(id)];
    }
  }

  lemma LastLeaves(x: World, id: JobId, v: World)
    requires Enabled(x, Leave(id)) && v == x.(stage := v.stage, active := x.active - {id})
    requires v.stage == x.stage - {id}
    ensures Run(x, [Leave(id)], v)
  {
    RunStep(x, Leave(id), [], v);
    assert [Leave(id)] + [] == [Leave(id)];
  }

  lemma FailsAndLeaves(x: World, id: JobId, v: World)
    requires Enabled(x, Fail(id)) && id in x.jobs
    requires v.jobs == x.jobs[id := x.jobs[id].(status := Failed)] && v.stage == x.stage - {id}
    requires v == x.(jobs := v.jobs, stage := v.stage, active := x.active - {id})
    ensures Run(x, [Fail(id), Leave(id)], v)
  {
    var y := Apply(x, Fail(id));
    assert y.stage - {id} == v.stage;
    LastLeaves(y, id, v);
    RunStep(x, Fail(id), [Leave(id)], v);
    assert [Fail(id)] + [Leave(id)] == [Fail(id), Leave(id)];
  }
}
