/** A process that dies between the two commits: when it leaves a generated row no entry names, and that
    such a row stays, whatever happens later. */
module Orphans {
  import opened Outcomes
  import opened SchemaGraph
  import opened Store
  import opened Writer
  import opened Integrity
  import opened Deletion
  import opened Delivery
  import opened Ownership
  import opened RefreshOwnership
  import opened CleanRuns

  /** Death after the target's commit and before the central one. */
  ghost function DiesBetweenCommits(reg: Registry, w: World, op: Op): World
  {
    BackToCommitted(Apply(reg, Apply(reg, w, op), CommitTarget))
  }

  /** The source row's entry for this table names a row that is there. */
  predicate EntryLives(st: State, src: Source, t: string)
  {
    CrossKey(src, t) in st.crosswalk && st.crosswalk[CrossKey(src, t)] in Rows(st, t)
  }

  // ---------------------------------------------------------- when it orphans

  /** The target's commit keeps the rows and the ledger the write left; the crosswalk goes back. */
  lemma AfterDeath(reg: Registry, w: World, op: Op)
    ensures var u, v := Apply(reg, w, op), DiesBetweenCommits(reg, w, op);
            && v.ledger == u.ledger && v.tables == u.st.tables && v.crosswalk == u.crosswalk
            && v.st.crosswalk == u.crosswalk && v.st.nextAuto == u.st.nextAuto
    ensures forall t :: Rows(DiesBetweenCommits(reg, w, op).st, t) == Rows(Apply(reg, w, op).st, t)
  {
  }

  lemma NextIdUnused(reg: Registry, w: World, t: string)
    requires CountersAhead(reg, w.st) && Generated(reg, t)
    ensures Num(NextAuto(w.st, t)) !in Rows(w.st, t)
  {
    var id := Num(NextAuto(w.st, t));
    assert id in Rows(w.st, t) ==> BelowCounter(w.st, RowId(t, id));
  }

  /** A write without a live entry, a stale one included, lands on a new row; it belongs to the source row. */
  lemma NewRowLands(reg: Registry, w: World, src: Source, fan: Fanout, t: string)
    requires SchemaOk(reg) && CountersAhead(reg, w.st)
    requires WriteRow(reg, w.st, src, fan).r.Ok? && t in fan && Generated(reg, t) && !EntryLives(w.st, src, t)
    ensures var u := Apply(reg, w, Write(src, fan));
            var id := Num(NextAuto(w.st, t));
            && id in Rows(u.st, t) && BelowCounter(u.st, RowId(t, id))
            && RowId(t, id) in u.ledger && u.ledger[RowId(t, id)] == CrossKey(src, t)
  {
    NextIdUnused(reg, w, t);
    WriteEffect(reg, w.st, src, fan);
    var o := WriteRow(reg, w.st, src, fan);
    assert Landed(reg, w.st, o.st, src, fan, o.r.value, t);
    NewOwner(reg, w, src, fan, t, Num(NextAuto(w.st, t)));
  }

  lemma NextIdUnnamed(reg: Registry, w: World, t: string)
    requires Traced(reg, w) && Generated(reg, t)
    ensures Unnamed(w.st.crosswalk, t, Num(NextAuto(w.st, t))) && Unnamed(w.crosswalk, t, Num(NextAuto(w.st, t)))
  {
    forall k | k in w.st.crosswalk && k.table == t
      ensures w.st.crosswalk[k] != Num(NextAuto(w.st, t))
    {
      assert BelowCounter(w.st, RowId(k.table, w.st.crosswalk[k]));
    }
    forall k | k in w.crosswalk && k.table == t
      ensures w.crosswalk[k] != Num(NextAuto(w.st, t))
    {
      assert BelowCounter(w.st, RowId(k.table, w.crosswalk[k]));
    }
  }

  ghost predicate AllEntriesLive(reg: Registry, st: State, src: Source, fan: Fanout)
  {
    forall t | t in fan && Generated(reg, t) :: EntryLives(st, src, t)
  }

  /** With all entries live the write only updates: no generated row comes or goes and no entry changes. */
  lemma UpdatesOnly(reg: Registry, w: World, src: Source, fan: Fanout, t: string)
    requires SchemaOk(reg) && WriteRow(reg, w.st, src, fan).r.Ok? && AllEntriesLive(reg, w.st, src, fan) && Generated(reg, t)
    ensures Rows(Apply(reg, w, Write(src, fan)).st, t).Keys == Rows(w.st, t).Keys
    ensures NextAuto(Apply(reg, w, Write(src, fan)).st, t) == NextAuto(w.st, t)
  {
    WriteEffect(reg, w.st, src, fan);
    var o := WriteRow(reg, w.st, src, fan);
    if t in fan {
      assert Landed(reg, w.st, o.st, src, fan, o.r.value, t) && EntryLives(w.st, src, t);
    }
  }

  lemma DeathTraced(reg: Registry, w: World, op: Op)
    requires SchemaOk(reg) && Traced(reg, w)
    ensures Traced(reg, DiesBetweenCommits(reg, w, op))
  {
    var a := Apply(reg, w, op);
    var b := Apply(reg, a, CommitTarget);
    StepTraced(reg, w, op);
    StepTraced(reg, a, CommitTarget);
    StepTraced(reg, b, RollbackTarget);
    StepTraced(reg, Apply(reg, b, RollbackTarget), RollbackCentral);
  }

  /** Where the write only updates, dying between the commits is harmless. */
  lemma HarmlessDeath(reg: Registry, w: World, src: Source, fan: Fanout)
    requires SchemaOk(reg) && Sound(reg, w) && w.crosswalk == w.st.crosswalk && WriteRow(reg, w.st, src, fan).r.Ok?
    requires AllEntriesLive(reg, w.st, src, fan)
    ensures Sound(reg, DiesBetweenCommits(reg, w, Write(src, fan)))
  {
    var v := DiesBetweenCommits(reg, w, Write(src, fan));
    DeathTraced(reg, w, Write(src, fan));
    AfterDeath(reg, w, Write(src, fan));
    WriteKeepsPresent(reg, w.st, src, fan);
    forall t ensures Null !in Rows(v.st, t) {
    }
    forall t, id | Generated(reg, t) && id in Rows(v.st, t)
      ensures BelowCounter(v.st, RowId(t, id))
      ensures RowId(t, id) in v.ledger ==> Lookup(v.st, v.ledger[RowId(t, id)]) == Some(id)
    {
      UpdatesOnly(reg, w, src, fan, t);
      assert BelowCounter(w.st, RowId(t, id));
      OldOwner(reg, w, src, fan, t, id);
    }
  }

  /** Dying between the commits of one delivery leaves no orphan exactly when every generated table of its
      fan-out already had a live entry for the source row: only a repeated delivery is safe there. */
  lemma DeathOrphansIff(reg: Registry, w: World, src: Source, fan: Fanout)
    requires SchemaOk(reg) && Sound(reg, w) && w.crosswalk == w.st.crosswalk && WriteRow(reg, w.st, src, fan).r.Ok?
    ensures Sound(reg, DiesBetweenCommits(reg, w, Write(src, fan))) <==> AllEntriesLive(reg, w.st, src, fan)
  {
    if AllEntriesLive(reg, w.st, src, fan) {
      HarmlessDeath(reg, w, src, fan);
    } else {
      var t :| t in fan && Generated(reg, t) && !EntryLives(w.st, src, t);
      DeathLeavesOrphan(reg, w, src, fan, t);
    }
  }

  // ------------------------------------------------- with a whole batch ahead

  /** Death after the target's commits of a whole batch of deliveries and before the central one. */
  ghost function DiesAfterBatch(reg: Registry, w: World, ops: seq<Op>): World
  {
    BackToCommitted(Apply(reg, Run(reg, w, ops), CommitTarget))
  }

  /** The same generated rows and entries, and the same counters. */
  ghost predicate SameGenerated(reg: Registry, a: State, b: State)
  {
    && (forall t | Generated(reg, t) :: Rows(a, t).Keys == Rows(b, t).Keys && NextAuto(a, t) == NextAuto(b, t))
    && forall k: CrossKey | Generated(reg, k.table) :: Lookup(a, k) == Lookup(b, k)
  }

  lemma UpdateKeepsGenerated(reg: Registry, w: World, src: Source, fan: Fanout)
    requires SchemaOk(reg) && WriteRow(reg, w.st, src, fan).r.Ok? && AllEntriesLive(reg, w.st, src, fan)
    ensures SameGenerated(reg, w.st, Apply(reg, w, Write(src, fan)).st)
  {
    var v := Apply(reg, w, Write(src, fan));
    forall t | Generated(reg, t)
      ensures Rows(w.st, t).Keys == Rows(v.st, t).Keys && NextAuto(w.st, t) == NextAuto(v.st, t)
    {
      UpdatesOnly(reg, w, src, fan, t);
    }
    WriteEffect(reg, w.st, src, fan);
    var o := WriteRow(reg, w.st, src, fan);
    forall k: CrossKey | Generated(reg, k.table)
      ensures Lookup(w.st, k) == Lookup(v.st, k)
    {
      if k.source == src && k.table in fan {
        assert k == CrossKey(src, k.table) && EntryLives(w.st, src, k.table);
        assert Landed(reg, w.st, o.st, src, fan, o.r.value, k.table);
      }
    }
  }

  lemma SameLiveEntries(reg: Registry, a: State, b: State, src: Source, fan: Fanout)
    requires SameGenerated(reg, a, b)
    ensures AllEntriesLive(reg, a, src, fan) <==> AllEntriesLive(reg, b, src, fan)
  {
    forall t | t in fan && Generated(reg, t)
      ensures EntryLives(a, src, t) <==> EntryLives(b, src, t)
    {
      assert Lookup(a, CrossKey(src, t)) == Lookup(b, CrossKey(src, t));
      assert Rows(a, t).Keys == Rows(b, t).Keys;
    }
  }

  /** Every delivery of the batch finds live entries in this state. */
  ghost predicate BatchLives(reg: Registry, st: State, ops: seq<Op>)
  {
    forall op | op in ops :: op.Write? && AllEntriesLive(reg, st, op.src, op.fan)
  }

  /** A row made since the central database last committed: its entry is not committed there. */
  ghost predicate Unconfirmed(reg: Registry, w: World, t: string, id: Value)
  {
    && Generated(reg, t) && id in Rows(w.st, t) && RowId(t, id) in w.ledger && Unnamed(w.crosswalk, t, id)
    && BelowCounter(w.st, RowId(t, id))
  }

  lemma {:induction false} UnconfirmedStays(reg: Registry, w: World, ops: seq<Op>, t: string, id: Value)
    requires SchemaOk(reg) && Unconfirmed(reg, w, t, id) && Succeeds(reg, w, ops)
    ensures Unconfirmed(reg, Run(reg, w, ops), t, id)
    decreases |ops|
  {
    if ops != [] {
      var u := Apply(reg, w, ops[0]);
      RowKeepsNamed(reg, w.st, ops[0].src, ops[0].fan);
      WriteRowAdvances(reg, w.st, ops[0].src, ops[0].fan);
      assert NextAuto(w.st, t) <= NextAuto(u.st, t);
      UnconfirmedStays(reg, u, ops[1..], t, id);
    }
  }

  lemma {:induction false} BatchSound(reg: Registry, w: World, ops: seq<Op>)
    requires SchemaOk(reg) && Sound(reg, w) && Succeeds(reg, w, ops)
    ensures Sound(reg, Run(reg, w, ops)) && Run(reg, w, ops).crosswalk == w.crosswalk
    decreases |ops|
  {
    if ops != [] {
      WriteKeepsSound(reg, w, ops[0]);
      BatchSound(reg, Apply(reg, w, ops[0]), ops[1..]);
    }
  }

  lemma {:induction false} BatchUpdates(reg: Registry, w: World, ops: seq<Op>)
    requires SchemaOk(reg) && Sound(reg, w) && Succeeds(reg, w, ops) && BatchLives(reg, w.st, ops)
    ensures SameGenerated(reg, w.st, Run(reg, w, ops).st)
    decreases |ops|
  {
    if ops != [] {
      var u := Apply(reg, w, ops[0]);
      assert ops[0] in ops;
      UpdateKeepsGenerated(reg, w, ops[0].src, ops[0].fan);
      forall op | op in ops[1..]
        ensures op.Write? && AllEntriesLive(reg, u.st, op.src, op.fan)
      {
        assert op in ops;
        SameLiveEntries(reg, w.st, u.st, op.src, op.fan);
      }
      WriteKeepsSound(reg, w, ops[0]);
      BatchUpdates(reg, u, ops[1..]);
    }
  }

  /** The first delivery without a live entry leaves a row whose entry is not committed. */
  lemma {:induction false} BatchUnconfirmed(reg: Registry, w: World, ops: seq<Op>) returns (t: string, id: Value)
    requires SchemaOk(reg) && Sound(reg, w) && Succeeds(reg, w, ops) && !BatchLives(reg, w.st, ops)
    ensures Unconfirmed(reg, Run(reg, w, ops), t, id)
    decreases |ops|
  {
    var op, u := ops[0], Apply(reg, w, ops[0]);
    WriteKeepsSound(reg, w, op);
    if AllEntriesLive(reg, w.st, op.src, op.fan) {
      UpdateKeepsGenerated(reg, w, op.src, op.fan);
      LaterBatch(reg, w.st, u.st, ops);
      t, id := BatchUnconfirmed(reg, u, ops[1..]);
    } else {
      t :| t in op.fan && Generated(reg, t) && !EntryLives(w.st, op.src, t);
      id := Num(NextAuto(w.st, t));
      NewRowLands(reg, w, op.src, op.fan, t);
      NextIdUnnamed(reg, w, t);
      UnconfirmedStays(reg, u, ops[1..], t, id);
    }
  }

  lemma LaterBatch(reg: Registry, a: State, b: State, ops: seq<Op>)
    requires ops != [] && SameGenerated(reg, a, b) && !BatchLives(reg, a, ops)
    requires ops[0].Write? && AllEntriesLive(reg, a, ops[0].src, ops[0].fan)
    ensures !BatchLives(reg, b, ops[1..])
  {
    var op :| op in ops && !(op.Write? && AllEntriesLive(reg, a, op.src, op.fan));
    assert op in ops[1..];
    if op.Write? {
      SameLiveEntries(reg, a, b, op.src, op.fan);
    }
  }

  /** A death with a whole batch ahead in the target is harmless exactly when, before the batch, each of its
      deliveries had live entries for all its generated tables. */
  lemma BatchDeathOrphansIff(reg: Registry, w: World, ops: seq<Op>)
    requires SchemaOk(reg) && Sound(reg, w) && w.crosswalk == w.st.crosswalk && Succeeds(reg, w, ops)
    ensures Sound(reg, DiesAfterBatch(reg, w, ops)) <==> BatchLives(reg, w.st, ops)
  {
    var u := Run(reg, w, ops);
    BatchSound(reg, w, ops);
    if BatchLives(reg, w.st, ops) {
      BatchUpdates(reg, w, ops);
      HarmlessBatch(reg, w, u);
    } else {
      var t, id := BatchUnconfirmed(reg, w, ops);
      UnconfirmedIsUnsound(reg, u, t, id);
    }
  }

  lemma UnconfirmedIsUnsound(reg: Registry, u: World, t: string, id: Value)
    requires Unconfirmed(reg, u, t, id)
    ensures !Sound(reg, BackToCommitted(Apply(reg, u, CommitTarget)))
  {
    OrphanIsUnsound(reg, BackToCommitted(Apply(reg, u, CommitTarget)), t, id);
  }

  lemma HarmlessBatch(reg: Registry, w: World, u: World)
    requires SchemaOk(reg) && Sound(reg, w) && Sound(reg, u) && u.crosswalk == w.crosswalk == w.st.crosswalk
    requires SameGenerated(reg, w.st, u.st)
    ensures Sound(reg, BackToCommitted(Apply(reg, u, CommitTarget)))
  {
    var c := Apply(reg, u, CommitTarget);
    var v := BackToCommitted(c);
    StepTraced(reg, u, CommitTarget);
    StepTraced(reg, c, RollbackTarget);
    StepTraced(reg, Apply(reg, c, RollbackTarget), RollbackCentral);
    forall t ensures Rows(v.st, t) == Rows(u.st, t) {
    }
    forall t, id | Generated(reg, t) && id in Rows(v.st, t)
      ensures BelowCounter(v.st, RowId(t, id))
      ensures RowId(t, id) in v.ledger ==> Lookup(v.st, v.ledger[RowId(t, id)]) == Some(id)
    {
      assert BelowCounter(u.st, RowId(t, id));
      if RowId(t, id) in u.ledger {
        var k := u.ledger[RowId(t, id)];
        assert Lookup(u.st, k) == Some(id) && k.table == t && Lookup(w.st, k) == Lookup(u.st, k);
      }
    }
  }

  // ------------------------------------------------------------- and it stays

  predicate Unnamed(crosswalk: map<CrossKey, Value>, t: string, id: Value)
  {
    forall k | k in crosswalk && k.table == t :: crosswalk[k] != id
  }

  /** A committed generated row no entry names, working or committed, although a write of this world made it. */
  ghost predicate Orphan(reg: Registry, w: World, t: string, id: Value)
  {
    && Generated(reg, t) && id in Rows(w.st, t) && t in w.tables && id in w.tables[t]
    && RowId(t, id) in w.ledger && BelowCounter(w.st, RowId(t, id))
    && Unnamed(w.st.crosswalk, t, id) && Unnamed(w.crosswalk, t, id)
  }

  lemma DeathLeavesOrphan(reg: Registry, w: World, src: Source, fan: Fanout, t: string)
    requires SchemaOk(reg) && Sound(reg, w) && w.crosswalk == w.st.crosswalk && WriteRow(reg, w.st, src, fan).r.Ok?
    requires t in fan && Generated(reg, t) && !EntryLives(w.st, src, t)
    ensures var v := DiesBetweenCommits(reg, w, Write(src, fan));
            var id := Num(NextAuto(w.st, t));
            Orphan(reg, v, t, id) && v.ledger[RowId(t, id)] == CrossKey(src, t) && !Sound(reg, v)
  {
    var v := DiesBetweenCommits(reg, w, Write(src, fan));
    NewRowLands(reg, w, src, fan, t);
    AfterDeath(reg, w, Write(src, fan));
    NextIdUnnamed(reg, w, t);
    OrphanIsUnsound(reg, v, t, Num(NextAuto(w.st, t)));
  }

  lemma OrphanIsUnsound(reg: Registry, w: World, t: string, id: Value)
    requires Generated(reg, t) && id in Rows(w.st, t) && RowId(t, id) in w.ledger && Unnamed(w.st.crosswalk, t, id)
    ensures !Sound(reg, w)
  {
    var k := w.ledger[RowId(t, id)];
    assert k.table == t ==> Lookup(w.st, k) != Some(id);
  }

  /** A write, also one that fails or is stopped part way, keeps every row and records new ids only. */
  lemma WriteSparesOrphan(reg: Registry, w: World, src: Source, fan: Fanout, tables: nat, t: string, id: Value)
    requires SchemaOk(reg) && Orphan(reg, w, t, id)
    ensures Orphan(reg, Apply(reg, w, CutShort(src, fan, tables)), t, id)
  {
    var u := Apply(reg, w, CutShort(src, fan, tables));
    PrefixKeepsNamed(reg, w.st, src, fan, tables);
    PrefixAdvances(reg, w.st, src, fan, tables);
    assert NextAuto(w.st, t) <= NextAuto(u.st, t);
    forall k | k in u.st.crosswalk && k.table == t
      ensures u.st.crosswalk[k] != id
    {
    }
  }

  lemma DeleteSparesOrphan(reg: Registry, w: World, entity: string, target: string, t: string, id: Value)
    requires Orphan(reg, w, t, id)
    ensures Orphan(reg, Apply(reg, w, Delete(entity, target)), t, id)
  {
    DeleteShrinks(reg, w.st, entity, target);
    assert id !in OwnedIds(w.st, entity, target, t);
  }

  lemma StepSparesOrphan(reg: Registry, w: World, op: Op, t: string, id: Value)
    requires SchemaOk(reg) && Orphan(reg, w, t, id)
    ensures Orphan(reg, Apply(reg, w, op), t, id)
  {
    match op
    case Write(src, fan) =>
      WholePrefix(reg, w.st, src, fan);
      WriteSparesOrphan(reg, w, src, fan, |fan|, t, id);
    case CutShort(src, fan, tables) => WriteSparesOrphan(reg, w, src, fan, tables, t, id);
    case Delete(entity, target) => DeleteSparesOrphan(reg, w, entity, target, t, id);
    case _ =>
  }

  /** No write, delete, commit, rollback or foreign row ever removes an orphan or names it again. */
  lemma {:induction false} OrphanStays(reg: Registry, w: World, ops: seq<Op>, t: string, id: Value)
    requires SchemaOk(reg) && Orphan(reg, w, t, id)
    ensures Orphan(reg, Run(reg, w, ops), t, id)
    decreases |ops|
  {
    if ops != [] {
      StepSparesOrphan(reg, w, ops[0], t, id);
      OrphanStays(reg, Apply(reg, w, ops[0]), ops[1..], t, id);
    }
  }

  /** Whatever runs after such a death, the new row stays, committed and named by no entry, and the
      databases are never sound again; no delete removes it. */
  lemma DeathOrphansForever(reg: Registry, w: World, src: Source, fan: Fanout, t: string, ops: seq<Op>, entity: string, target: string)
    requires SchemaOk(reg) && Sound(reg, w) && w.crosswalk == w.st.crosswalk && WriteRow(reg, w.st, src, fan).r.Ok?
    requires t in fan && Generated(reg, t) && !EntryLives(w.st, src, t)
    ensures var u := Run(reg, DiesBetweenCommits(reg, w, Write(src, fan)), ops);
            var id := Num(NextAuto(w.st, t));
            Orphan(reg, u, t, id) && !Sound(reg, u) && id in Rows(DeleteEntity(reg, u.st, entity, target).st, t)
  {
    var v := DiesBetweenCommits(reg, w, Write(src, fan));
    var u := Run(reg, v, ops);
    var id := Num(NextAuto(w.st, t));
    DeathLeavesOrphan(reg, w, src, fan, t);
    OrphanStays(reg, v, ops, t, id);
    OrphanIsUnsound(reg, u, t, id);
    DeleteSparesOrphan(reg, u, entity, target, t, id);
  }

  /** The row loop of a refresh, whether it goes through or fails part way, keeps an orphan. */
  lemma {:induction false} RowsSpareOrphan(reg: Registry, codec: Codec, w: World, system: string, entity: string, target: string,
                                           mappings: seq<Mapping>, rows: seq<SourceRow>, report: Report, t: string, id: Value)
    requires SchemaOk(reg) && Orphan(reg, w, t, id)
    ensures id in Rows(RefreshRows(reg, codec, w.st, system, entity, target, mappings, rows, report).st, t)
    decreases |rows|
  {
    if rows != [] {
      var (built, errors) := BuildValues(reg, codec, rows[0].payload, mappings, map[], []);
      var r := ResolveCross(reg, codec, w.st, system, target, rows[0].payload, mappings, built, []);
      if errors != [] || built == map[] {
        RowsSpareOrphan(reg, codec, w, system, entity, target, mappings, rows[1..],
                        report.(failed := report.failed + [rows[0].reference]), t, id);
      } else if r.Ok? {
        var op := Write(Source(system, entity, rows[0].reference, target), r.value.0);
        WrittenSpares(reg, w, op, t, id);
        RowsSpareOrphan(reg, codec, Apply(reg, w, op), system, entity, target, mappings, rows[1..],
                        report.(written := report.written + 1, unresolved := report.unresolved + |r.value.1|), t, id);
        OneRowSpares(reg, codec, w.st, system, entity, target, mappings, rows, report, t, id);
      }
    }
  }

  lemma OneRowSpares(reg: Registry, codec: Codec, st: State, system: string, entity: string, target: string,
                     mappings: seq<Mapping>, rows: seq<SourceRow>, report: Report, t: string, id: Value)
    requires rows != []
    requires var (built, errors) := BuildValues(reg, codec, rows[0].payload, mappings, map[], []);
             errors == [] && built != map[] && ResolveCross(reg, codec, st, system, target, rows[0].payload, mappings, built, []).Ok?
    requires var built := BuildValues(reg, codec, rows[0].payload, mappings, map[], []).0;
             var (fan, unresolved) := ResolveCross(reg, codec, st, system, target, rows[0].payload, mappings, built, []).value;
             var after := WriteRow(reg, st, Source(system, entity, rows[0].reference, target), fan).st;
             && id in Rows(after, t)
             && id in Rows(RefreshRows(reg, codec, after, system, entity, target, mappings, rows[1..],
                             report.(written := report.written + 1, unresolved := report.unresolved + |unresolved|)).st, t)
    ensures id in Rows(RefreshRows(reg, codec, st, system, entity, target, mappings, rows, report).st, t)
  {
    OneRowWritten(reg, codec, st, system, entity, target, mappings, rows, report);
  }

  lemma OneRowWritten(reg: Registry, codec: Codec, st: State, system: string, entity: string, target: string,
                      mappings: seq<Mapping>, rows: seq<SourceRow>, report: Report)
    requires rows != []
    requires var (built, errors) := BuildValues(reg, codec, rows[0].payload, mappings, map[], []);
             errors == [] && built != map[] && ResolveCross(reg, codec, st, system, target, rows[0].payload, mappings, built, []).Ok?
    ensures var built := BuildValues(reg, codec, rows[0].payload, mappings, map[], []).0;
            var (fan, unresolved) := ResolveCross(reg, codec, st, system, target, rows[0].payload, mappings, built, []).value;
            var o := WriteRow(reg, st, Source(system, entity, rows[0].reference, target), fan);
            RefreshRows(reg, codec, st, system, entity, target, mappings, rows, report).st
              == if o.r.Err? then o.st
                 else RefreshRows(reg, codec, o.st, system, entity, target, mappings, rows[1..],
                                  report.(written := report.written + 1, unresolved := report.unresolved + |unresolved|)).st
  {
  }

  lemma WrittenSpares(reg: Registry, w: World, op: Op, t: string, id: Value)
    requires SchemaOk(reg) && Orphan(reg, w, t, id) && op.Write?
    ensures Orphan(reg, Apply(reg, w, op), t, id) && Apply(reg, w, op).st == WriteRow(reg, w.st, op.src, op.fan).st
    ensures id in Rows(WriteRow(reg, w.st, op.src, op.fan).st, t)
  {
    StepSparesOrphan(reg, w, op, t, id);
  }

  /** No refresh of any entity, at any later time, removes the row, also when it fails part way. */
  lemma RefreshSparesOrphan(reg: Registry, codec: Codec, w: World, ops: seq<Op>, system: string, entity: string, target: string,
                            mappings: seq<Mapping>, rows: seq<SourceRow>, t: string, id: Value)
    requires SchemaOk(reg) && Orphan(reg, w, t, id)
    ensures var u := Run(reg, w, ops);
            id in Rows(RefreshEntity(reg, codec, u.st, system, entity, target, mappings, rows).st, t)
  {
    var u := Run(reg, w, ops);
    OrphanStays(reg, w, ops, t, id);
    DeleteSparesOrphan(reg, u, entity, target, t, id);
    var d := Apply(reg, u, Delete(entity, target));
    if DeleteEntity(reg, u.st, entity, target).r.Ok? {
      RowsSpareOrphan(reg, codec, d, system, entity, target, mappings, rows,
                      Report(DeleteEntity(reg, u.st, entity, target).r.value, 0, [], |rows|, 0), t, id);
    }
  }
}
