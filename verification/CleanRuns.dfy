/** Which runs keep the two databases in step: every generated row keeps its entry. */
module CleanRuns {
  import opened Outcomes
  import opened SchemaGraph
  import opened Store
  import opened Writer
  import opened Integrity
  import opened Deletion
  import opened Ownership
  import opened RefreshOwnership

  /**
   * What happens to the two databases: work that goes through, a commit on either side, an event that
   * failed between two tables of its write or after it, its target part rolled back while the central entries stay,
   * a row from another program, and a process that dies in the middle of some attempt.
   */
  datatype Turn =
    | Does(op: Op)
    | CommitsTarget
    | CommitsCentral
    | FailsEvent(src: Source, fan: Fanout, tables: nat)
    | Foreign(table: string, values: Row)
    | Dies(op: Op)

  /** The databases, and whether the target has committed work the central database has not. */
  datatype Pair = Pair(w: World, exposed: bool)

  ghost predicate GoesThrough(reg: Registry, w: World, op: Op)
  {
    match op
    case Write(src, fan) => WriteRow(reg, w.st, src, fan).r.Ok?
    case Delete(entity, target) => DeleteEntity(reg, w.st, entity, target).r.Ok?
    case _ => false
  }

  /** Nothing is pending in the target. */
  predicate TargetSettled(w: World)
  {
    w.st.tables == w.tables
  }

  ghost predicate Possible(reg: Registry, p: Pair, turn: Turn)
  {
    match turn
    case Does(op) => GoesThrough(reg, p.w, op)
    case CommitsTarget => true
    case CommitsCentral => TargetSettled(p.w)
    case FailsEvent(src, fan, tables) => TargetSettled(p.w)
    case Foreign(t, values) => TargetSettled(p.w) && Generated(reg, t)
    case Dies(op) => !p.exposed && (op.Write? || op.CutShort? || op.Delete?)
  }

  ghost function Take(reg: Registry, p: Pair, turn: Turn): Pair
  {
    match turn
    case Does(op) => p.(w := Apply(reg, p.w, op))
    case CommitsTarget => Pair(Apply(reg, p.w, CommitTarget), true)
    case CommitsCentral => Pair(Apply(reg, p.w, CommitCentral), false)
    case FailsEvent(src, fan, tables) => p.(w := Failed(reg, p.w, src, fan, tables))
    case Foreign(t, values) => p.(w := Apply(reg, Apply(reg, p.w, ForeignInsert(t, values)), CommitTarget))
    case Dies(op) => p.(w := BackToCommitted(Apply(reg, p.w, op)))
  }

  /** Both rollbacks: counters stay where they are. */
  ghost function BackToCommitted(w: World): (v: World)
    ensures forall reg :: v == Apply(reg, Apply(reg, w, RollbackTarget), RollbackCentral)
  {
    w.(st := w.st.(tables := w.tables, crosswalk := w.crosswalk, sequence := w.sequence))
  }

  /** Sound now, and sound again after a death while nothing is exposed. */
  ghost predicate InStep(reg: Registry, p: Pair)
  {
    Sound(reg, p.w) && (!p.exposed ==> Sound(reg, BackToCommitted(p.w)))
  }

  /** A step that only advances counters and files new ids leaves the committed pair sound. */
  lemma CommittedStaysSound(reg: Registry, w: World, v: World)
    requires Sound(reg, BackToCommitted(w)) && Traced(reg, v)
    requires v.tables == w.tables && v.crosswalk == w.crosswalk && v.sequence == w.sequence
    requires forall t :: NextAuto(w.st, t) <= NextAuto(v.st, t)
    requires forall r | r in v.ledger && BelowCounter(w.st, r) :: r in w.ledger && v.ledger[r] == w.ledger[r]
    ensures Sound(reg, BackToCommitted(v))
  {
    var a, b := BackToCommitted(w), BackToCommitted(v);
    CountersKept(v.st, b.st);
    forall t ensures Rows(b.st, t) == Rows(a.st, t) {
    }
    forall t, id | Generated(reg, t) && id in Rows(b.st, t)
      ensures BelowCounter(b.st, RowId(t, id))
      ensures RowId(t, id) in b.ledger ==> Lookup(b.st, b.ledger[RowId(t, id)]) == Some(id)
    {
      assert BelowCounter(a.st, RowId(t, id));
      assert NextAuto(w.st, t) <= NextAuto(v.st, t);
      if RowId(t, id) in b.ledger {
        assert RowId(t, id) in w.ledger;
        assert Lookup(a.st, a.ledger[RowId(t, id)]) == Some(id);
      }
    }
  }

  lemma WriteSparesCommitted(reg: Registry, w: World, src: Source, fan: Fanout)
    requires SchemaOk(reg) && Traced(reg, w) && Sound(reg, BackToCommitted(w))
    ensures Sound(reg, BackToCommitted(Apply(reg, w, Write(src, fan))))
  {
    var v := Apply(reg, w, Write(src, fan));
    StepTraced(reg, w, Write(src, fan));
    WriteRowAdvances(reg, w.st, src, fan);
    LedgerGrows(reg, w, v.st, src);
    CommittedStaysSound(reg, w, v);
  }

  lemma CutShortSparesCommitted(reg: Registry, w: World, src: Source, fan: Fanout, tables: nat)
    requires SchemaOk(reg) && Traced(reg, w) && Sound(reg, BackToCommitted(w))
    ensures Sound(reg, BackToCommitted(Apply(reg, w, CutShort(src, fan, tables))))
  {
    var v := Apply(reg, w, CutShort(src, fan, tables));
    StepTraced(reg, w, CutShort(src, fan, tables));
    PrefixAdvances(reg, w.st, src, fan, tables);
    LedgerGrows(reg, w, v.st, src);
    CommittedStaysSound(reg, w, v);
  }

  lemma DeleteSparesCommitted(reg: Registry, w: World, entity: string, target: string)
    requires SchemaOk(reg) && Traced(reg, w) && Sound(reg, BackToCommitted(w))
    ensures Sound(reg, BackToCommitted(Apply(reg, w, Delete(entity, target))))
  {
    StepTraced(reg, w, Delete(entity, target));
    DeleteShrinks(reg, w.st, entity, target);
    CommittedStaysSound(reg, w, Apply(reg, w, Delete(entity, target)));
  }

  lemma ForeignKeepsSound(reg: Registry, w: World, t: string, values: Row)
    requires SchemaOk(reg) && Sound(reg, w)
    ensures Sound(reg, Apply(reg, w, ForeignInsert(t, values)))
  {
    ForeignTraced(reg, w, t, values);
    if Generated(reg, t) {
      var v := Apply(reg, w, ForeignInsert(t, values));
      forall u ensures Null !in Rows(v.st, u) {
        assert Null !in Rows(w.st, u);
      }
      forall u, id | Generated(reg, u) && id in Rows(v.st, u)
        ensures BelowCounter(v.st, RowId(u, id))
        ensures RowId(u, id) in v.ledger ==> Lookup(v.st, v.ledger[RowId(u, id)]) == Some(id)
      {
        if u == t && id == Num(NextAuto(w.st, t)) {
          assert !BelowCounter(w.st, RowId(u, id));
        } else {
          assert id in Rows(w.st, u) && BelowCounter(w.st, RowId(u, id));
        }
      }
    }
  }

  /** Rows stay, and so do the entries that name a live generated row: even when a write fails part way. */
  ghost predicate KeepsNamed(reg: Registry, a: State, b: State)
  {
    && (forall t, id | id in Rows(a, t) :: id in Rows(b, t))
    && forall k: CrossKey | Generated(reg, k.table) && k in a.crosswalk && a.crosswalk[k] in Rows(a, k.table) ::
         k in b.crosswalk && b.crosswalk[k] == a.crosswalk[k]
  }

  lemma KeepsNamedTransitive(reg: Registry, a: State, b: State, c: State)
    requires KeepsNamed(reg, a, b) && KeepsNamed(reg, b, c)
    ensures KeepsNamed(reg, a, c)
  {
  }

  lemma GeneratedKeepsNamed(reg: Registry, st: State, src: Source, t: string, values: Row)
    requires KeysOk(reg) && t in reg && Auto(reg, t).Some?
    ensures KeepsNamed(reg, st, WriteGenerated(reg, st, src, t, values).st)
  {
  }

  lemma CreatedKeepsNamed(reg: Registry, st: State, k: CrossKey, pk: string, start: int, values: Row)
    requires !Generated(reg, k.table)
    ensures KeepsNamed(reg, st, CreateAssigned(st, k, pk, start, values).st)
  {
  }

  lemma UpdatedKeepsNamed(reg: Registry, st: State, t: string, pk: string, key: Value, values: Row)
    ensures KeepsNamed(reg, st, UpdateRow(st, t, pk, key, values))
  {
  }

  lemma AssignedKeepsNamed(reg: Registry, st: State, src: Source, t: string, values: Row)
    requires t in reg && IsReference(reg, t)
    ensures KeepsNamed(reg, st, WriteAppAssigned(reg, st, src, t, values).st)
  {
    var k := CrossKey(src, t);
    if Pk(reg, t).Some? {
      CreatedKeepsNamed(reg, st, k, Pk(reg, t).value, ID_SEQUENCE_START, values);
      if k in st.crosswalk {
        UpdatedKeepsNamed(reg, st, t, Pk(reg, t).value, st.crosswalk[k], values);
      }
    }
  }

  lemma OneKeepsNamed(reg: Registry, st: State, src: Source, t: string, values: Row)
    requires SchemaOk(reg) && t in reg
    ensures KeepsNamed(reg, st, WriteOne(reg, st, src, t, values).st)
  {
    if t in APP_ASSIGNED {
      AssignedKeepsNamed(reg, st, src, t, values);
    } else if !IsReference(reg, t) {
      GeneratedKeepsNamed(reg, st, src, t, values);
    }
  }

  lemma {:induction false} TablesKeepNamed(reg: Registry, st: State, src: Source, order: seq<string>, fan: Fanout, ids: TargetIds)
    requires SchemaOk(reg) && forall t | t in order :: t in reg && t in fan
    ensures KeepsNamed(reg, st, WriteTables(reg, st, src, order, fan, ids).st)
    decreases |order|
  {
    if order != [] {
      var t := order[0];
      var values := ApplyForeignKeys(reg[t].foreignKeys, t, fan[t], ids);
      var o := WriteOne(reg, st, src, t, values);
      OneKeepsNamed(reg, st, src, t, values);
      if o.r.Ok? {
        TablesKeepNamed(reg, o.st, src, order[1..], fan, ids[t := o.r.value]);
        KeepsNamedTransitive(reg, st, o.st, WriteTables(reg, o.st, src, order[1..], fan, ids[t := o.r.value]).st);
      }
    }
  }

  /** Also when the target stops it between two tables. */
  lemma PrefixKeepsNamed(reg: Registry, st: State, src: Source, fan: Fanout, tables: nat)
    requires SchemaOk(reg)
    ensures KeepsNamed(reg, st, WritePrefix(reg, st, src, fan, tables))
  {
    if Unknown(reg, fan) == {} && Order(reg, fan.Keys).Ok? {
      OrderInside(reg, fan.Keys);
      assert forall t | t in fan :: t !in Unknown(reg, fan);
      TablesKeepNamed(reg, st, src, Upto(Order(reg, fan.Keys).value, tables), fan, map[]);
    }
  }

  lemma RowKeepsNamed(reg: Registry, st: State, src: Source, fan: Fanout)
    requires SchemaOk(reg)
    ensures KeepsNamed(reg, st, WriteRow(reg, st, src, fan).st)
  {
    PrefixKeepsNamed(reg, st, src, fan, |fan|);
    WholePrefix(reg, st, src, fan);
  }

  ghost function Failed(reg: Registry, w: World, src: Source, fan: Fanout, tables: nat): World
  {
    Apply(reg, Apply(reg, w, CutShort(src, fan, tables)), RollbackTarget)
  }

  lemma FailedWriteTraced(reg: Registry, w: World, src: Source, fan: Fanout, tables: nat)
    requires SchemaOk(reg) && Traced(reg, w)
    ensures Traced(reg, Failed(reg, w, src, fan, tables))
  {
    StepTraced(reg, w, CutShort(src, fan, tables));
    StepTraced(reg, Apply(reg, w, CutShort(src, fan, tables)), RollbackTarget);
  }

  lemma FailedWriteRows(reg: Registry, w: World, src: Source, fan: Fanout, tables: nat, t: string)
    requires TargetSettled(w)
    ensures var u, v := Apply(reg, w, CutShort(src, fan, tables)), Failed(reg, w, src, fan, tables);
            Rows(v.st, t) == Rows(w.st, t) && v.ledger == u.ledger
            && v.st.crosswalk == u.st.crosswalk && v.st.nextAuto == u.st.nextAuto
  {
  }

  /** An event that failed, its target part rolled back: entries for rows that are gone may stay, no row loses its own. */
  lemma FailedWriteKeepsSound(reg: Registry, w: World, src: Source, fan: Fanout, tables: nat)
    requires SchemaOk(reg) && Sound(reg, w) && TargetSettled(w)
    ensures Sound(reg, Failed(reg, w, src, fan, tables))
  {
    var v := Failed(reg, w, src, fan, tables);
    FailedWriteTraced(reg, w, src, fan, tables);
    forall t
      ensures Null !in Rows(v.st, t)
    {
      FailedWriteRows(reg, w, src, fan, tables, t);
    }
    forall t, id | Generated(reg, t) && id in Rows(v.st, t)
      ensures BelowCounter(v.st, RowId(t, id))
      ensures RowId(t, id) in v.ledger ==> Lookup(v.st, v.ledger[RowId(t, id)]) == Some(id)
    {
      FailedWriteRows(reg, w, src, fan, tables, t);
      NamedStaysNamed(reg, w, src, fan, tables, t, id);
    }
  }

  lemma NamedStaysNamed(reg: Registry, w: World, src: Source, fan: Fanout, tables: nat, t: string, id: Value)
    requires SchemaOk(reg) && Sound(reg, w) && Generated(reg, t) && id in Rows(w.st, t)
    ensures var u := Apply(reg, w, CutShort(src, fan, tables));
            && BelowCounter(u.st, RowId(t, id))
            && (RowId(t, id) in u.ledger ==> Lookup(u.st, u.ledger[RowId(t, id)]) == Some(id))
  {
    var u := Apply(reg, w, CutShort(src, fan, tables));
    PrefixAdvances(reg, w.st, src, fan, tables);
    assert BelowCounter(w.st, RowId(t, id)) && NextAuto(w.st, t) <= NextAuto(u.st, t);
    LedgerGrows(reg, w, u.st, src);
    assert RowId(t, id) !in NewIds(reg, w.st, u.st, src);
    PrefixKeepsNamed(reg, w.st, src, fan, tables);
    if RowId(t, id) in w.ledger {
      var k := w.ledger[RowId(t, id)];
      assert Lookup(w.st, k) == Some(id) && k.table == t;
    }
  }

  /** Soundness is about the working state and the committed entries, not about which rows are committed. */
  lemma SoundWithTables(reg: Registry, w: World, tables: map<string, map<Value, Row>>)
    requires Sound(reg, w)
    ensures Sound(reg, w.(tables := tables))
  {
  }

  lemma ForeignWorking(reg: Registry, w: World, t: string, values: Row)
    requires SchemaOk(reg) && Sound(reg, w)
    ensures Sound(reg, Apply(reg, Apply(reg, w, ForeignInsert(t, values)), CommitTarget))
  {
    var u := Apply(reg, w, ForeignInsert(t, values));
    ForeignKeepsSound(reg, w, t, values);
    SoundWithTables(reg, u, u.st.tables);
  }

  lemma ForeignCommutes(reg: Registry, w: World, t: string, values: Row)
    requires TargetSettled(w) && Generated(reg, t)
    ensures BackToCommitted(Apply(reg, Apply(reg, w, ForeignInsert(t, values)), CommitTarget))
         == Apply(reg, Apply(reg, BackToCommitted(w), ForeignInsert(t, values)), CommitTarget)
  {
  }

  lemma ForeignTurn(reg: Registry, p: Pair, t: string, values: Row)
    requires SchemaOk(reg) && InStep(reg, p) && TargetSettled(p.w) && Generated(reg, t)
    ensures InStep(reg, Take(reg, p, Foreign(t, values)))
  {
    ForeignWorking(reg, p.w, t, values);
    if !p.exposed {
      ForeignWorking(reg, BackToCommitted(p.w), t, values);
      ForeignCommutes(reg, p.w, t, values);
    }
  }

  lemma WorkKeepsInStep(reg: Registry, p: Pair, op: Op)
    requires SchemaOk(reg) && InStep(reg, p) && GoesThrough(reg, p.w, op)
    ensures InStep(reg, Take(reg, p, Does(op)))
  {
    if op.Write? {
      WriteKeepsSound(reg, p.w, op);
      if !p.exposed { WriteSparesCommitted(reg, p.w, op.src, op.fan); }
    } else {
      DeleteClears(reg, p.w, op.entity, op.target);
      if !p.exposed { DeleteSparesCommitted(reg, p.w, op.entity, op.target); }
    }
  }

  lemma FailureKeepsInStep(reg: Registry, p: Pair, src: Source, fan: Fanout, tables: nat)
    requires SchemaOk(reg) && InStep(reg, p) && TargetSettled(p.w)
    ensures InStep(reg, Take(reg, p, FailsEvent(src, fan, tables)))
  {
    FailedWriteKeepsSound(reg, p.w, src, fan, tables);
    if !p.exposed {
      var u := Apply(reg, p.w, CutShort(src, fan, tables));
      CutShortSparesCommitted(reg, p.w, src, fan, tables);
      assert BackToCommitted(Apply(reg, u, RollbackTarget)) == BackToCommitted(u);
    }
  }

  lemma DeathKeepsInStep(reg: Registry, p: Pair, op: Op)
    requires SchemaOk(reg) && InStep(reg, p) && !p.exposed && (op.Write? || op.CutShort? || op.Delete?)
    ensures InStep(reg, Take(reg, p, Dies(op)))
  {
    var u := Apply(reg, p.w, op);
    if op.Write? {
      WriteSparesCommitted(reg, p.w, op.src, op.fan);
    } else if op.CutShort? {
      CutShortSparesCommitted(reg, p.w, op.src, op.fan, op.tables);
    } else {
      DeleteSparesCommitted(reg, p.w, op.entity, op.target);
    }
    assert BackToCommitted(BackToCommitted(u)) == BackToCommitted(u);
  }

  lemma CommitsKeepInStep(reg: Registry, p: Pair)
    requires SchemaOk(reg) && InStep(reg, p)
    ensures InStep(reg, Take(reg, p, CommitsTarget))
    ensures TargetSettled(p.w) ==> InStep(reg, Take(reg, p, CommitsCentral))
  {
    StepTraced(reg, p.w, CommitTarget);
    StepTraced(reg, p.w, CommitCentral);
    if TargetSettled(p.w) {
      var v := Apply(reg, p.w, CommitCentral);
      assert BackToCommitted(v) == v;
    }
  }

  lemma TurnKeepsInStep(reg: Registry, p: Pair, turn: Turn)
    requires SchemaOk(reg) && InStep(reg, p) && Possible(reg, p, turn)
    ensures InStep(reg, Take(reg, p, turn))
  {
    match turn
    case Does(op) => WorkKeepsInStep(reg, p, op);
    case CommitsTarget => CommitsKeepInStep(reg, p);
    case CommitsCentral => CommitsKeepInStep(reg, p);
    case FailsEvent(src, fan, tables) => FailureKeepsInStep(reg, p, src, fan, tables);
    case Foreign(t, values) => ForeignTurn(reg, p, t, values);
    case Dies(op) => DeathKeepsInStep(reg, p, op);
  }

  ghost predicate CleanRun(reg: Registry, p: Pair, turns: seq<Turn>, q: Pair)
    decreases |turns|
  {
    if turns == [] then p == q
    else Possible(reg, p, turns[0]) && CleanRun(reg, Take(reg, p, turns[0]), turns[1..], q)
  }

  /** No orphan appears, and the next refresh owns exactly its rows, after every run in which no process
      dies while the target has committed work the central database has not. */
  lemma {:induction false} CleanRunsStayInStep(reg: Registry, p: Pair, turns: seq<Turn>, q: Pair)
    requires SchemaOk(reg) && InStep(reg, p) && CleanRun(reg, p, turns, q)
    ensures InStep(reg, q)
    decreases |turns|
  {
    if turns != [] {
      TurnKeepsInStep(reg, p, turns[0]);
      CleanRunsStayInStep(reg, Take(reg, p, turns[0]), turns[1..], q);
    }
  }

  lemma FreshIsInStep(reg: Registry, w: World)
    requires Fresh(reg, w) && KeysPresent(w.st)
    ensures InStep(reg, Pair(w, false))
  {
    var c := BackToCommitted(w);
    forall t, id | Generated(reg, t) && id in Rows(w.st, t)
      ensures BelowCounter(w.st, RowId(t, id))
    {
      assert RowId(t, id) in w.foreignRows;
    }
    assert forall t :: Rows(c.st, t) == Rows(w.st, t);
    assert forall r :: BelowCounter(c.st, r) <==> BelowCounter(w.st, r);
  }
}
