/** The durable job queue: rows in the database, one dispatcher, worker threads, a heartbeat and a reaper. */
module Jobs {
  import opened Outcomes

  type JobId = nat

  /** Seconds without a heartbeat after which a running job is failed. */
  const STALE_SECONDS: nat := 60

  datatype Status = Queued | Running | Succeeded | Failed

  datatype Job = Job(scope: Option<string>, status: Status, created: int, heartbeat: int)

  /**
   * How far the process is with a claimed job: the row is in the dispatcher's hand, submitted to
   * the pool, its handler runs, its success is written, or its failure is written.
   */
  datatype Stage = InHand | InPool | Going | Reported | Closing

  /**
   * The committed rows, the clock, and the memory of the processes: stages of the jobs held, the set the
   * heartbeat covers, and every handler start so far.
   */
  datatype World = World(jobs: map<JobId, Job>, now: int,
                         stage: map<JobId, Stage>, active: set<JobId>, started: multiset<JobId>)

  datatype Step =
    | Enqueue(id: JobId, scope: Option<string>)
    | Claim(id: JobId)
    | Submit(id: JobId)
    | Start(id: JobId)
    | AbortStart(id: JobId)
    | Succeed(id: JobId)
    | Fail(id: JobId)
    | Leave(id: JobId)
    | Beat(ids: set<JobId>)
    | Progress(id: JobId)
    | Reap
    | Tick(seconds: nat)
    | Crash(lost: set<JobId>)

  predicate Live(j: Job)
  {
    j.status == Queued || j.status == Running
  }

  predicate Taken(jobs: map<JobId, Job>, scope: Option<string>)
  {
    scope.Some? && exists id :: id in jobs && Live(jobs[id]) && jobs[id].scope == scope
  }

  predicate Oldest(jobs: map<JobId, Job>, id: JobId)
  {
    && id in jobs && jobs[id].status == Queued
    && forall k :: k in jobs && jobs[k].status == Queued ==> jobs[id].created <= jobs[k].created
  }

  predicate Stale(j: Job, now: int)
  {
    j.status == Running && j.heartbeat < now - STALE_SECONDS
  }

  predicate At(w: World, id: JobId, s: Stage)
  {
    id in w.stage && w.stage[id] == s
  }

  /** When a step can happen. Identifiers of new jobs are fresh; nothing else is asked of the caller. */
  ghost predicate Enabled(w: World, s: Step)
  {
    match s
    case Enqueue(id, scope) => id !in w.jobs
    case Claim(id) => Oldest(w.jobs, id)
    case Submit(id) => At(w, id, InHand)
    case Start(id) => At(w, id, InPool)
    case AbortStart(id) => At(w, id, InPool)
    case Succeed(id) => At(w, id, Going)
    case Fail(id) => At(w, id, Going) || At(w, id, Reported)
    case Leave(id) => At(w, id, Going) || At(w, id, Reported) || At(w, id, Closing)
    case Progress(id) => At(w, id, Going)
    case _ => true
  }

  function Marked(jobs: map<JobId, Job>, id: JobId, status: Status): map<JobId, Job>
  {
    if id in jobs then jobs[id := jobs[id].(status := status)] else jobs
  }

  function Beaten(jobs: map<JobId, Job>, ids: set<JobId>, now: int): (r: map<JobId, Job>)
    ensures r.Keys == jobs.Keys
  {
    map id | id in jobs :: if id in ids && jobs[id].status == Running then jobs[id].(heartbeat := now) else jobs[id]
  }

  function Reaped(jobs: map<JobId, Job>, now: int): (r: map<JobId, Job>)
    ensures r.Keys == jobs.Keys
  {
    map id | id in jobs :: if Stale(jobs[id], now) then jobs[id].(status := Failed) else jobs[id]
  }

  function Apply(w: World, s: Step): World
  {
    match s
    case Enqueue(id, scope) =>
      if Taken(w.jobs, scope) then w else w.(jobs := w.jobs[id := Job(scope, Queued, w.now, w.now)])
    case Claim(id) =>
      if id !in w.jobs then w
      else w.(jobs := w.jobs[id := w.jobs[id].(status := Running, heartbeat := w.now)], stage := w.stage[id := InHand])
    case Submit(id) => w.(stage := w.stage[id := InPool], active := w.active + {id})
    case Start(id) => w.(stage := w.stage[id := Going], started := w.started + multiset{id})
    case AbortStart(id) => w.(stage := w.stage - {id})
    case Succeed(id) => w.(jobs := Marked(w.jobs, id, Succeeded), stage := w.stage[id := Reported])
    case Fail(id) => w.(jobs := Marked(w.jobs, id, Failed), stage := w.stage[id := Closing])
    case Leave(id) => w.(stage := w.stage - {id}, active := w.active - {id})
    case Beat(ids) => w.(jobs := Beaten(w.jobs, ids, w.now))
    case Progress(id) => if id !in w.jobs then w else w.(jobs := w.jobs[id := w.jobs[id].(heartbeat := w.now)])
    case Reap => w.(jobs := Reaped(w.jobs, w.now))
    case Tick(seconds) => w.(now := w.now + seconds)
    case Crash(lost) => w.(stage := w.stage - lost, active := w.active - lost)
  }

  // ----- the invariant -----

  predicate Rivals(a: Job, b: Job)
  {
    Live(a) && Live(b) && a.scope.Some? && a.scope == b.scope
  }

  /** At most one queued or running job for each scope. */
  ghost predicate OnePerScope(jobs: map<JobId, Job>)
  {
    forall a, b :: a in jobs && b in jobs && Rivals(jobs[a], jobs[b]) ==> a == b
  }

  /** Whatever a process holds or has started was claimed. */
  ghost predicate HeldWereClaimed(w: World)
  {
    && (forall id :: id in w.stage ==> id in w.jobs && w.jobs[id].status != Queued)
    && (forall id :: id in w.active ==> id in w.jobs && w.jobs[id].status != Queued)
    && (forall id :: id in w.started ==> id in w.jobs && w.jobs[id].status != Queued)
  }

  ghost predicate StartedOnce(w: World)
  {
    && (forall id :: w.started[id] <= 1)
    && (forall id :: At(w, id, InHand) || At(w, id, InPool) ==> id !in w.started)
  }

  ghost predicate Inv(w: World)
  {
    OnePerScope(w.jobs) && HeldWereClaimed(w) && StartedOnce(w)
  }

  /** Rows only ever move forward: queued, running, finished; and no row disappears or changes scope. */
  function Rank(s: Status): nat
  {
    match s
    case Queued => 0
    case Running => 1
    case _ => 2
  }

  ghost predicate Forward(w: World, v: World)
  {
    forall id :: id in w.jobs ==>
      && id in v.jobs && v.jobs[id].scope == w.jobs[id].scope && v.jobs[id].created == w.jobs[id].created
      && Rank(w.jobs[id].status) <= Rank(v.jobs[id].status)
  }

  lemma StepForward(w: World, s: Step)
    requires Inv(w) && Enabled(w, s)
    ensures Forward(w, Apply(w, s))
  {
  }

  lemma StepOnePerScope(w: World, s: Step)
    requires Inv(w) && Enabled(w, s)
    ensures OnePerScope(Apply(w, s).jobs)
  {
    StepForward(w, s);
    var v := Apply(w, s);
    forall a, b | a in v.jobs && b in v.jobs && Rivals(v.jobs[a], v.jobs[b])
      ensures a == b
    {
      if a in w.jobs && b in w.jobs {
        assert Live(w.jobs[a]) && Live(w.jobs[b]);
      }
    }
  }

  lemma StepStagesWereClaimed(w: World, s: Step, id: JobId)
    requires Inv(w) && Enabled(w, s) && id in Apply(w, s).stage
    ensures id in Apply(w, s).jobs && Apply(w, s).jobs[id].status != Queued
  {
    StepForward(w, s);
  }

  lemma StepActiveWereClaimed(w: World, s: Step, id: JobId)
    requires Inv(w) && Enabled(w, s) && id in Apply(w, s).active
    ensures id in Apply(w, s).jobs && Apply(w, s).jobs[id].status != Queued
  {
    StepForward(w, s);
  }

  lemma StepStartedWereClaimed(w: World, s: Step, id: JobId)
    requires Inv(w) && Enabled(w, s) && id in Apply(w, s).started
    ensures id in Apply(w, s).jobs && Apply(w, s).jobs[id].status != Queued
  {
    StepForward(w, s);
  }

  lemma StepHeldWereClaimed(w: World, s: Step)
    requires Inv(w) && Enabled(w, s)
    ensures HeldWereClaimed(Apply(w, s))
  {
    var v := Apply(w, s);
    forall id | id in v.stage ensures id in v.jobs && v.jobs[id].status != Queued {
      StepStagesWereClaimed(w, s, id);
    }
    forall id | id in v.active ensures id in v.jobs && v.jobs[id].status != Queued {
      StepActiveWereClaimed(w, s, id);
    }
    forall id | id in v.started ensures id in v.jobs && v.jobs[id].status != Queued {
      StepStartedWereClaimed(w, s, id);
    }
  }

  lemma WaitingNotStarted(w: World, s: Step, id: JobId)
    requires Inv(w) && Enabled(w, s) && (At(Apply(w, s), id, InHand) || At(Apply(w, s), id, InPool))
    ensures id !in Apply(w, s).started
  {
    if s.Claim? && s.id == id {
      assert w.jobs[id].status == Queued;
    }
  }

  lemma StepStartedOnce(w: World, s: Step)
    requires Inv(w) && Enabled(w, s)
    ensures StartedOnce(Apply(w, s))
  {
    var v := Apply(w, s);
    forall id ensures v.started[id] <= 1 {
      if s.Start? && id == s.id { assert id !in w.started; }
    }
    forall id | At(v, id, InHand) || At(v, id, InPool) ensures id !in v.started {
      WaitingNotStarted(w, s, id);
    }
  }

  // ----- runs -----

  ghost predicate Run(w: World, steps: seq<Step>, v: World)
    decreases |steps|
  {
    if steps == [] then w == v
    else Enabled(w, steps[0]) && Run(Apply(w, steps[0]), steps[1..], v)
  }

  /** Over every interleaving: one live job per scope, every handler starts at most once, rows only move forward. */
  lemma {:induction false} RunIsSafe(w: World, steps: seq<Step>, v: World)
    requires Inv(w) && Run(w, steps, v)
    ensures Inv(v) && Forward(w, v)
    decreases |steps|
  {
    if steps != [] {
      var u := Apply(w, steps[0]);
      StepOnePerScope(w, steps[0]);
      StepHeldWereClaimed(w, steps[0]);
      StepStartedOnce(w, steps[0]);
      StepForward(w, steps[0]);
      RunIsSafe(u, steps[1..], v);
    }
  }

  /** Before anything ran, any set of rows with one live job per scope will do. */
  ghost predicate Fresh(w: World)
  {
    w.stage == map[] && w.active == {} && w.started == multiset{} && OnePerScope(w.jobs)
  }

  lemma RunFromFreshIsSafe(w: World, steps: seq<Step>, v: World)
    requires Fresh(w) && Run(w, steps, v)
    ensures OnePerScope(v.jobs) && Forward(w, v)
    ensures forall id :: v.started[id] <= 1
  {
    RunIsSafe(w, steps, v);
  }

  // ----- finished jobs -----

  /** Some run of the protocol gives this job another status. */
  ghost predicate CanFlip(w: World, id: JobId)
    requires id in w.jobs
  {
    exists steps: seq<Step>, v: World :: Flips(w, steps, v, id)
  }

  ghost predicate Flips(w: World, steps: seq<Step>, v: World, id: JobId)
    requires id in w.jobs
  {
    Run(w, steps, v) && id in v.jobs && v.jobs[id].status != w.jobs[id].status
  }

  /** A thread may still write this finished job's status: its handler is not done, or has
      succeeded and not yet said so. */
  predicate Unsettled(w: World, id: JobId)
    requires id in w.jobs
  {
    At(w, id, InHand) || At(w, id, InPool) || At(w, id, Going) || (At(w, id, Reported) && w.jobs[id].status == Succeeded)
  }

  /** Once settled, a finished job keeps its status in every later run. */
  lemma {:induction false} SettledForever(w: World, steps: seq<Step>, v: World, id: JobId)
    requires Inv(w) && Run(w, steps, v)
    requires id in w.jobs && !Live(w.jobs[id]) && !Unsettled(w, id)
    ensures id in v.jobs && v.jobs[id].status == w.jobs[id].status && !Unsettled(v, id)
    decreases |steps|
  {
    if steps != [] {
      var u := Apply(w, steps[0]);
      assert Run(w, [steps[0]], u);
      RunIsSafe(w, [steps[0]], u);
      StepKeepsSettled(w, steps[0], id);
      SettledForever(u, steps[1..], v, id);
    }
  }

  lemma StepKeepsSettled(w: World, s: Step, id: JobId)
    requires Enabled(w, s) && id in w.jobs && !Live(w.jobs[id]) && !Unsettled(w, id)
    ensures var u := Apply(w, s); id in u.jobs && u.jobs[id].status == w.jobs[id].status && !Unsettled(u, id)
  {
  }

  /** The finishing updates carry no status guard: a finished job can still change its status, in some
      run, exactly while a thread may still write it; reaped or not, started or not. */
  lemma FinishedFlipsIff(w: World, id: JobId)
    requires Inv(w) && id in w.jobs && !Live(w.jobs[id])
    ensures CanFlip(w, id) <==> Unsettled(w, id)
  {
    if Unsettled(w, id) {
      UnsettledFlips(w, id);
    } else if CanFlip(w, id) {
      var steps, v :| Flips(w, steps, v, id);
      SettledForever(w, steps, v, id);
    }
  }

  lemma UnsettledFlips(w: World, id: JobId)
    requires id in w.jobs && !Live(w.jobs[id]) && Unsettled(w, id)
    ensures CanFlip(w, id)
    decreases if At(w, id, InHand) then 2 else if At(w, id, InPool) then 1 else 0
  {
    if At(w, id, InHand) {
      UnsettledFlips(Apply(w, Submit(id)), id);
      FlipsBefore(w, Submit(id), id);
    } else if At(w, id, InPool) {
      UnsettledFlips(Apply(w, Start(id)), id);
      FlipsBefore(w, Start(id), id);
    } else {
      var s := if w.jobs[id].status == Failed then Succeed(id) else Fail(id);
      RunStep(w, s, [], Apply(w, s));
      assert Flips(w, [s] + [], Apply(w, s), id);
    }
  }

  lemma FlipsBefore(w: World, s: Step, id: JobId)
    requires Enabled(w, s) && Apply(w, s).jobs == w.jobs && id in w.jobs && CanFlip(Apply(w, s), id)
    ensures CanFlip(w, id)
  {
    var steps, v :| Flips(Apply(w, s), steps, v, id);
    RunStep(w, s, steps, v);
    assert Flips(w, [s] + steps, v, id);
  }

  /** A reaped job that was only slow finishes late, and the run shows it succeeded after it failed. */
  lemma LateFinishRevivesReaped(id: JobId, now: int) returns (w: World, steps: seq<Step>, u: World, v: World)
    ensures Fresh(w) && Run(w, steps, u) && id in u.jobs && u.jobs[id].status == Failed
    ensures Run(u, [Succeed(id)], v) && id in v.jobs && v.jobs[id].status == Succeeded
  {
    w := World(map[id := Job(None, Queued, now, now)], now, map[], {}, multiset{});
    steps := SlowRun(id);
    u := SlowWorld(id, now);
    SlowRunRuns(id, now);
    v := Apply(u, Succeed(id));
    RunStep(u, Succeed(id), [], v);
    assert [Succeed(id)] + [] == [Succeed(id)];
  }

  function SlowRun(id: JobId): seq<Step>
  {
    [Claim(id)] + ([Submit(id)] + ([Start(id)] + ([Tick(STALE_SECONDS + 1)] + ([Reap] + []))))
  }

  function SlowWorld(id: JobId, now: int): World
  {
    World(map[id := Job(None, Failed, now, now)], now + STALE_SECONDS + 1, map[id := Going], {id}, multiset{id})
  }

  /** The worlds on the way, `stage` telling how far the job has come. */
  function SlowStage(id: JobId, now: int, later: int, stage: Stage): World
  {
    World(map[id := Job(None, Running, now, now)], later, map[id := stage],
          if stage == InHand then {} else {id}, if stage == Going then multiset{id} else multiset{})
  }

  lemma SlowRunStarts(id: JobId, now: int)
    ensures var w := World(map[id := Job(None, Queued, now, now)], now, map[], {}, multiset{});
            Enabled(w, Claim(id)) && Apply(w, Claim(id)) == SlowStage(id, now, now, InHand)
    ensures Apply(SlowStage(id, now, now, InHand), Submit(id)) == SlowStage(id, now, now, InPool)
    ensures Apply(SlowStage(id, now, now, InPool), Start(id)) == SlowStage(id, now, now, Going)
  {
  }

  lemma SlowRunEnds(id: JobId, now: int)
    ensures var late := now + STALE_SECONDS + 1;
            && Apply(SlowStage(id, now, now, Going), Tick(STALE_SECONDS + 1)) == SlowStage(id, now, late, Going)
            && Apply(SlowStage(id, now, late, Going), Reap) == SlowWorld(id, now)
  {
    var late := SlowStage(id, now, now + STALE_SECONDS + 1, Going);
    assert Reaped(late.jobs, late.now) == map[id := Job(None, Failed, now, now)];
  }

  lemma SlowRunRuns(id: JobId, now: int)
    ensures Run(World(map[id := Job(None, Queued, now, now)], now, map[], {}, multiset{}), SlowRun(id), SlowWorld(id, now))
  {
    var v := SlowWorld(id, now);
    SlowRunStarts(id, now);
    SlowRunEnds(id, now);
    RunStep(SlowStage(id, now, now + STALE_SECONDS + 1, Going), Reap, [], v);
    RunStep(SlowStage(id, now, now, Going), Tick(STALE_SECONDS + 1), [Reap] + [], v);
    RunStep(SlowStage(id, now, now, InPool), Start(id), [Tick(STALE_SECONDS + 1)] + ([Reap] + []), v);
    RunStep(SlowStage(id, now, now, InHand), Submit(id), [Start(id)] + ([Tick(STALE_SECONDS + 1)] + ([Reap] + [])), v);
    RunStep(World(map[id := Job(None, Queued, now, now)], now, map[], {}, multiset{}), Claim(id),
            [Submit(id)] + ([Start(id)] + ([Tick(STALE_SECONDS + 1)] + ([Reap] + []))), v);
  }

  lemma RunStep(w: World, s: Step, rest: seq<Step>, v: World)
    requires Enabled(w, s) && Run(Apply(w, s), rest, v)
    ensures Run(w, [s] + rest, v)
  {
    assert ([s] + rest)[1..] == rest;
  }

  // ----- while the heartbeat keeps up -----

  /** Jobs whose handler may still start or is running. */
  predicate Busy(w: World, id: JobId)
  {
    At(w, id, InHand) || At(w, id, InPool) || At(w, id, Going)
  }

  predicate Beats(w: World, id: JobId)
  {
    (id in w.stage || id in w.active) && id in w.jobs && w.jobs[id].status == Running
  }

  /** Time passes no faster than the heartbeats of the jobs held and of those in the active set. */
  ghost predicate InTime(w: World, s: Step)
  {
    s.Tick? ==>
      forall id :: Beats(w, id) ==> w.now + s.seconds <= w.jobs[id].heartbeat + STALE_SECONDS
  }

  ghost predicate TimelyRun(w: World, steps: seq<Step>, v: World)
    decreases |steps|
  {
    if steps == [] then w == v
    else
      && Enabled(w, steps[0]) && InTime(w, steps[0])
      && TimelyRun(Apply(w, steps[0]), steps[1..], v)
  }

  ghost predicate Kept(w: World, id: JobId)
  {
    id in w.jobs && w.jobs[id].status == Running && w.now <= w.jobs[id].heartbeat + STALE_SECONDS
  }

  ghost predicate BusyAreKept(w: World)
  {
    forall id :: Busy(w, id) ==> Kept(w, id)
  }

  lemma BusyWasBusy(w: World, s: Step, id: JobId)
    requires Enabled(w, s) && Busy(Apply(w, s), id)
    ensures s == Claim(id) || Busy(w, id)
    ensures s != Succeed(id) && s != Fail(id)
  {
  }

  lemma StepKeepsJob(w: World, s: Step, id: JobId)
    requires Kept(w, id) && Enabled(w, s) && s != Succeed(id) && s != Fail(id)
    requires s.Tick? ==> w.now + s.seconds <= w.jobs[id].heartbeat + STALE_SECONDS
    ensures Kept(Apply(w, s), id)
  {
  }

  function Elapsed(steps: seq<Step>): nat
  {
    if steps == [] then 0 else (if steps[0].Tick? then steps[0].seconds else 0) + Elapsed(steps[1..])
  }

  lemma {:induction false} KeptThroughout(w: World, steps: seq<Step>, v: World, id: JobId)
    requires Run(w, steps, v) && Succeed(id) !in steps && Fail(id) !in steps
    requires Kept(w, id) && w.jobs[id].heartbeat <= w.now
    requires w.now + Elapsed(steps) <= w.jobs[id].heartbeat + STALE_SECONDS
    ensures Kept(v, id)
    decreases |steps|
  {
    if steps != [] {
      var s := steps[0];
      assert s in steps && s != Succeed(id) && s != Fail(id);
      StepKeepsJob(w, s, id);
      var u := Apply(w, s);
      assert u.jobs[id].heartbeat in {w.jobs[id].heartbeat, w.now};
      KeptThroughout(u, steps[1..], v, id);
    }
  }

  /** A claim, a report of progress or a heartbeat keeps a job running for the next minute, whatever anyone does
      but its own thread ending it. */
  lemma BeatKeepsRunning(w: World, s: Step, steps: seq<Step>, v: World, id: JobId)
    requires Enabled(w, s) && Run(Apply(w, s), steps, v) && id in w.jobs
    requires s == Claim(id) || (w.jobs[id].status == Running && (s == Progress(id) || (s.Beat? && id in s.ids)))
    requires Succeed(id) !in steps && Fail(id) !in steps && Elapsed(steps) <= STALE_SECONDS
    ensures id in v.jobs && v.jobs[id].status == Running
  {
    KeptThroughout(Apply(w, s), steps, v, id);
  }

  lemma StepKeepsBusy(w: World, s: Step)
    requires BusyAreKept(w) && Enabled(w, s) && InTime(w, s)
    ensures BusyAreKept(Apply(w, s))
  {
    forall id | Busy(Apply(w, s), id) ensures Kept(Apply(w, s), id) {
      BusyWasBusy(w, s, id);
      if s != Claim(id) {
        assert Beats(w, id);
        StepKeepsJob(w, s, id);
      }
    }
  }

  /** In a timely run no two handlers of one scope are ever held at once. */
  lemma {:induction false} HandlersExcludeEachOther(w: World, steps: seq<Step>, v: World, a: JobId, b: JobId)
    requires Inv(w) && BusyAreKept(w) && TimelyRun(w, steps, v)
    requires Busy(v, a) && Busy(v, b) && a in v.jobs && b in v.jobs
    requires v.jobs[a].scope.Some? && v.jobs[a].scope == v.jobs[b].scope
    ensures a == b
    decreases |steps|
  {
    if steps == [] {
      assert Rivals(w.jobs[a], w.jobs[b]);
    } else {
      var u := Apply(w, steps[0]);
      assert Run(w, [steps[0]], u);
      RunIsSafe(w, [steps[0]], u);
      StepKeepsBusy(w, steps[0]);
      HandlersExcludeEachOther(u, steps[1..], v, a, b);
    }
  }

  // ----- a handler that never started -----

  /** The 'started' event failed: no thread holds the job, but the heartbeat still covers it. */
  ghost predicate Orphan(w: World, id: JobId)
  {
    Kept(w, id) && id in w.active && id !in w.stage
  }

  lemma StepKeepsOrphan(w: World, s: Step, id: JobId)
    requires Orphan(w, id) && Enabled(w, s) && InTime(w, s) && !(s.Crash? && id in s.lost)
    ensures Orphan(Apply(w, s), id)
  {
    assert Beats(w, id);
    StepKeepsJob(w, s, id);
  }

  lemma AbortedStartOrphans(w: World, id: JobId)
    requires At(w, id, InPool) && id in w.active && Kept(w, id)
    ensures Enabled(w, AbortStart(id)) && Orphan(Apply(w, AbortStart(id)), id)
  {
  }

  /** Until the process ends, an orphan stays running, is never reaped, and blocks every new job of its scope. */
  lemma {:induction false} OrphanBlocksItsScope(w: World, steps: seq<Step>, v: World, id: JobId)
    requires Orphan(w, id) && TimelyRun(w, steps, v)
    requires forall s :: s in steps ==> !(s.Crash? && id in s.lost)
    ensures Orphan(v, id)
    ensures v.jobs[id].scope.Some? ==> forall other :: Apply(v, Enqueue(other, v.jobs[id].scope)) == v
    decreases |steps|
  {
    if steps != [] {
      StepKeepsOrphan(w, steps[0], id);
      OrphanBlocksItsScope(Apply(w, steps[0]), steps[1..], v, id);
    }
  }

  // ----- which running jobs get free -----

  /** The process that holds the job, or covers it with its heartbeat, does not end. */
  predicate Survives(steps: seq<Step>, id: JobId)
  {
    forall s :: s in steps ==> !(s.Crash? && id in s.lost)
  }

  /** Some timely run in which the process lives gives the job another status. */
  ghost predicate CanGetFree(w: World, id: JobId)
    requires id in w.jobs
  {
    exists steps: seq<Step>, v: World :: GetsFree(w, steps, v, id)
  }

  ghost predicate GetsFree(w: World, steps: seq<Step>, v: World, id: JobId)
    requires id in w.jobs
  {
    TimelyRun(w, steps, v) && Survives(steps, id) && id in v.jobs && v.jobs[id].status != w.jobs[id].status
  }

  lemma FreeBefore(w: World, s: Step, id: JobId)
    requires Enabled(w, s) && InTime(w, s) && !s.Crash? && id in w.jobs && id in Apply(w, s).jobs
    requires Apply(w, s).jobs[id].status == w.jobs[id].status && CanGetFree(Apply(w, s), id)
    ensures CanGetFree(w, id)
  {
    var steps, v :| GetsFree(Apply(w, s), steps, v, id);
    assert ([s] + steps)[1..] == steps;
    assert GetsFree(w, [s] + steps, v, id);
  }

  lemma FreeNow(w: World, s: Step, id: JobId)
    requires Enabled(w, s) && InTime(w, s) && !s.Crash? && id in w.jobs && id in Apply(w, s).jobs
    requires Apply(w, s).jobs[id].status != w.jobs[id].status
    ensures CanGetFree(w, id)
  {
    assert [s][1..] == [];
    assert GetsFree(w, [s], Apply(w, s), id);
  }

  /** Nobody beats for it: while the other jobs beat every second, its heartbeat grows stale and it is reaped. */
  lemma UnwatchedIsReaped(w: World, id: JobId)
    requires id in w.jobs && w.jobs[id].status == Running && id !in w.stage && id !in w.active
    ensures CanGetFree(w, id)
    decreases w.jobs[id].heartbeat + STALE_SECONDS + 1 - w.now
  {
    if Stale(w.jobs[id], w.now) {
      FreeNow(w, Reap, id);
    } else {
      var beat := Beat(w.stage.Keys + w.active);
      var u := Apply(w, beat);
      var v := Apply(u, Tick(1));
      assert forall k :: Beats(u, k) ==> u.jobs[k].heartbeat == u.now;
      UnwatchedIsReaped(v, id);
      FreeBefore(u, Tick(1), id);
      FreeBefore(w, beat, id);
    }
  }

  /** A job some thread holds can be finished, started first if need be. */
  lemma HeldGetsFree(w: World, id: JobId)
    requires id in w.jobs && w.jobs[id].status == Running && id in w.stage
    ensures CanGetFree(w, id)
    decreases if At(w, id, InHand) then 2 else if At(w, id, InPool) then 1 else 0
  {
    match w.stage[id]
    case InHand =>
      HeldGetsFree(Apply(w, Submit(id)), id);
      FreeBefore(w, Submit(id), id);
    case InPool =>
      HeldGetsFree(Apply(w, Start(id)), id);
      FreeBefore(w, Start(id), id);
    case Going => FreeNow(w, Fail(id), id);
    case Reported => FreeNow(w, Fail(id), id);
    case Closing =>
      UnwatchedIsReaped(Apply(w, Leave(id)), id);
      FreeBefore(w, Leave(id), id);
  }

  /** A running job stays running in every timely run of its process exactly when no thread holds it while
      the heartbeat still covers it, in time; any other gets free, by its thread or by the reaper. */
  lemma StuckIffOrphan(w: World, id: JobId)
    requires id in w.jobs && w.jobs[id].status == Running
    ensures !CanGetFree(w, id) <==> Orphan(w, id)
  {
    if Orphan(w, id) {
      forall steps, v | GetsFree(w, steps, v, id)
        ensures false
      {
        OrphanBlocksItsScope(w, steps, v, id);
      }
    } else if id in w.stage {
      HeldGetsFree(w, id);
    } else if id in w.active {
      FreeNow(w, Reap, id);
    } else {
      UnwatchedIsReaped(w, id);
    }
  }
}
