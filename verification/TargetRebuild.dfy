/** A rebuilt target: its tables start over and so do the ids it generates, while the crosswalk stays. */
module TargetRebuild {
  import opened Dag
  import opened SchemaGraph
  import opened Store
  import opened Integrity
  import opened Deletion
  import opened Ownership
  import opened RefreshOwnership

  /** What the rebuild fills in: the rows of the lookup tables, and their counters where they have one. */
  datatype Seeds = Seeds(rows: map<string, map<Value, Row>>, counters: map<string, int>)

  /** The world after a rebuild: the seeded rows, nobody's in particular, and nothing else; every other
      counter starts over. The crosswalk is not touched. */
  ghost function Restarted(w: World, seeds: Seeds): World
  {
    w.(st := w.st.(tables := seeds.rows, nextAuto := seeds.counters), tables := seeds.rows, ledger := map[],
       foreignRows := set t, id | t in seeds.rows && id in seeds.rows[t] :: RowId(t, id))
  }

  /** Seeded are other tables than those the bridge has generated rows in; their references are live and
      their counters ahead. */
  ghost predicate SeedsOk(reg: Registry, w: World, seeds: Seeds)
  {
    && (forall k | (k in w.st.crosswalk || k in w.crosswalk) && Generated(reg, k.table) ::
          k.table !in seeds.rows && k.table !in seeds.counters)
    && Intact(reg, Restarted(w, seeds).st)
    && forall t, id | t in seeds.rows && Generated(reg, t) && id in seeds.rows[t] :: BelowCounter(Restarted(w, seeds).st, RowId(t, id))
  }

  /** Entries for generated tables name ids as the engine generates them. */
  predicate Numbered(reg: Registry, crosswalk: map<CrossKey, Value>)
  {
    forall k | k in crosswalk && Generated(reg, k.table) :: crosswalk[k].Num? && crosswalk[k].n >= 1
  }

  predicate NoGeneratedEntries(reg: Registry, crosswalk: map<CrossKey, Value>)
  {
    forall k | k in crosswalk :: !Generated(reg, k.table)
  }

  /** The row was generated by a write of that entity. */
  ghost predicate OwnRow(reg: Registry, w: World, entity: string, target: string, r: RowId)
  {
    && Generated(reg, r.table) && r in w.ledger && r !in w.foreignRows
    && w.ledger[r].table == r.table && Of(w.ledger[r], entity, target)
  }

  ghost predicate Deleted(reg: Registry, w: World, entity: string, target: string, r: RowId)
  {
    r.id in Rows(w.st, r.table) && r.id !in Rows(DeleteEntity(reg, w.st, entity, target).st, r.table)
  }

  /** In every later run a delete removes only rows that a write of that same entity generated. */
  ghost predicate OwnershipHolds(reg: Registry, w: World)
  {
    forall ops: seq<Op>, entity, target, r ::
      Deleted(reg, Run(reg, w, ops), entity, target, r) ==> OwnRow(reg, Run(reg, w, ops), entity, target, r)
  }

  // ----------------------------------------------- ids the engine generated

  /** Counters start at one or later, and so do the ids drawn. */
  ghost predicate Positive(w: World)
  {
    (forall t :: NextAuto(w.st, t) >= 1) && forall r | r in w.ledger :: r.id.Num? && r.id.n >= 1
  }

  lemma StepPositive(reg: Registry, w: World, op: Op)
    requires SchemaOk(reg) && Positive(w)
    ensures Positive(Apply(reg, w, op))
  {
    var v := Apply(reg, w, op);
    match op {
      case Write(src, fan) => WriteRowAdvances(reg, w.st, src, fan);
      case CutShort(src, fan, tables) => PrefixAdvances(reg, w.st, src, fan, tables);
      case Delete(entity, target) => DeleteShrinks(reg, w.st, entity, target);
      case _ =>
    }
    forall t
      ensures NextAuto(v.st, t) >= 1
    {
      assert NextAuto(w.st, t) >= 1;
    }
  }

  /** Every run leaves entries that name ids as the engine generates them. */
  lemma {:induction false} RunNumbered(reg: Registry, w: World, ops: seq<Op>)
    requires SchemaOk(reg) && Traced(reg, w) && Positive(w)
    ensures Numbered(reg, Run(reg, w, ops).st.crosswalk) && Numbered(reg, Run(reg, w, ops).crosswalk)
    decreases |ops|
  {
    if ops != [] {
      StepTraced(reg, w, ops[0]);
      StepPositive(reg, w, ops[0]);
      RunNumbered(reg, Apply(reg, w, ops[0]), ops[1..]);
    } else {
      TracedNumbered(reg, w.st.crosswalk, w);
      TracedNumbered(reg, w.crosswalk, w);
    }
  }

  lemma TracedNumbered(reg: Registry, crosswalk: map<CrossKey, Value>, w: World)
    requires CrosswalkTraced(reg, crosswalk, w.ledger) && Positive(w)
    ensures Numbered(reg, crosswalk)
  {
    forall k | k in crosswalk && Generated(reg, k.table)
      ensures crosswalk[k].Num? && crosswalk[k].n >= 1
    {
      assert RowId(k.table, crosswalk[k]) in w.ledger;
    }
  }

  // ------------------------------------------------- an entry that was left

  /** So many rows from elsewhere, nothing given in them. */
  function Inserts(t: string, n: nat): seq<Op>
  {
    if n == 0 then [] else Inserts(t, n - 1) + [ForeignInsert(t, map[])]
  }

  lemma {:induction false} RunAppend(reg: Registry, w: World, ops: seq<Op>, last: Op)
    ensures Run(reg, w, ops + [last]) == Apply(reg, Run(reg, w, ops), last)
    decreases |ops|
  {
    if ops == [] {
      assert [] + [last] == [last] && [last][1..] == [];
    } else {
      assert (ops + [last])[1..] == ops[1..] + [last];
      RunAppend(reg, Apply(reg, w, ops[0]), ops[1..], last);
    }
  }

  /** After n rows from elsewhere: they are there, nobody else's, and refer to nothing. */
  ghost predicate Inserted(reg: Registry, w: World, v: World, t: string, n: nat)
    requires Generated(reg, t)
  {
    && NextAuto(v.st, t) == n + 1 && v.ledger == map[] && v.st.crosswalk == w.st.crosswalk
    && (forall u | u != t :: Rows(v.st, u) == Rows(w.st, u))
    && (forall id | id in Rows(v.st, t) :: Rows(v.st, t)[id] == map[Auto(reg, t).value := id])
    && (n >= 1 ==> Num(n) in Rows(v.st, t))
  }

  lemma {:induction false} InsertsRun(reg: Registry, w: World, t: string, n: nat)
    requires Generated(reg, t) && Rows(w.st, t) == map[] && NextAuto(w.st, t) == 1 && w.ledger == map[]
    ensures Inserted(reg, w, Run(reg, w, Inserts(t, n)), t, n)
    decreases n
  {
    if n > 0 {
      InsertsRun(reg, w, t, n - 1);
      RunAppend(reg, w, Inserts(t, n - 1), ForeignInsert(t, map[]));
    }
  }

  /** In such a world a row refers to nothing in a table that was empty. */
  lemma PointsNowhere(reg: Registry, w: World, v: World, t: string, n: nat, u: string, k: Value, f: ForeignKey)
    requires SchemaOk(reg) && Intact(reg, w.st) && Generated(reg, t) && Inserted(reg, w, v, t, n)
    requires u in reg && f in reg[u].foreignKeys && k in Rows(v.st, u) && Rows(w.st, f.refTable) == map[]
    ensures Get(Rows(v.st, u)[k], f.column) == Null
  {
    if u != t {
      assert Rows(v.st, u) == Rows(w.st, u) && RowLive(reg, w.st, u, Rows(w.st, u)[k]);
    }
  }

  /** A schema without cycles, which the rebuild itself insists on, has none among fewer tables. */
  lemma OwnedAcyclic(reg: Registry, st: State, entity: string, target: string)
    requires Order(reg, reg.Keys).Ok?
    ensures !HasCycle(GraphOf(reg), OwnedTables(reg, st, entity, target))
  {
    OrderIsLeastParentsFirst(reg, reg.Keys);
    forall walk | Cycle(GraphOf(reg), OwnedTables(reg, st, entity, target), walk)
      ensures Cycle(GraphOf(reg), reg.Keys, walk)
    {
    }
  }

  /** So a delete of any entity goes through. */
  lemma NothingInTheWay(reg: Registry, w: World, v: World, t: string, n: nat, entity: string, target: string)
    requires SchemaOk(reg) && Order(reg, reg.Keys).Ok? && Generated(reg, t) && Inserted(reg, w, v, t, n)
    requires Intact(reg, w.st) && Numbered(reg, w.st.crosswalk)
    requires forall k | k in w.st.crosswalk && Generated(reg, k.table) :: Rows(w.st, k.table) == map[]
    ensures DeleteEntity(reg, v.st, entity, target).r.Ok?
  {
    var ids := ByOwnedTable(reg, v.st, entity, target);
    forall u, f, k | u in reg && f in reg[u].foreignKeys && k in Rows(v.st, u) && f.refTable in ids
      ensures Get(Rows(v.st, u)[k], f.column) !in ids[f.refTable]
    {
      OwnedNotNull(reg, v.st, entity, target, f.refTable);
      var e :| e in v.st.crosswalk && Of(e, entity, target) && e.table in reg && !IsReference(reg, e.table) && e.table == f.refTable;
      PointsNowhere(reg, w, v, t, n, u, k, f);
    }
    OwnedAcyclic(reg, v.st, entity, target);
    DeleteEntityNeverRefused(reg, v.st, entity, target);
  }

  lemma OwnedNotNull(reg: Registry, st: State, entity: string, target: string, t: string)
    requires Numbered(reg, st.crosswalk) && Generated(reg, t)
    ensures Null !in OwnedIds(st, entity, target, t)
  {
  }

  /** An entry left for a generated table comes to name a row from elsewhere, and the entity's delete takes it. */
  lemma EntryTakesForeignRow(reg: Registry, w: World, seeds: Seeds, k: CrossKey)
    requires SchemaOk(reg) && Order(reg, reg.Keys).Ok? && SeedsOk(reg, w, seeds) && Numbered(reg, w.st.crosswalk)
    requires k in w.st.crosswalk && Generated(reg, k.table)
    ensures !OwnershipHolds(reg, Restarted(w, seeds))
  {
    var w0 := Restarted(w, seeds);
    var id := w.st.crosswalk[k];
    var ops := Inserts(k.table, id.n);
    var v := Run(reg, w0, ops);
    InsertsRun(reg, w0, k.table, id.n);
    NothingInTheWay(reg, w0, v, k.table, id.n, k.source.entity, k.source.target);
    GeneratedHasKey(reg, k.table);
    NamedRowGoes(reg, v.st, k.source.entity, k.source.target, k, id);
    assert Deleted(reg, Run(reg, w0, ops), k.source.entity, k.source.target, RowId(k.table, id));
    assert !OwnRow(reg, Run(reg, w0, ops), k.source.entity, k.source.target, RowId(k.table, id));
  }

  /** The same for an entry that only the central database's committed state still has. */
  lemma CommittedEntryTakesForeignRow(reg: Registry, w: World, seeds: Seeds, k: CrossKey)
    requires SchemaOk(reg) && Order(reg, reg.Keys).Ok? && SeedsOk(reg, w, seeds) && Numbered(reg, w.crosswalk)
    requires k in w.crosswalk && Generated(reg, k.table)
    ensures !OwnershipHolds(reg, Restarted(w, seeds))
  {
    var w0 := Restarted(w, seeds);
    var back := Apply(reg, w, RollbackCentral);
    SameTables(reg, w0.st, Restarted(back, seeds).st);
    assert Restarted(back, seeds) == Apply(reg, w0, RollbackCentral);
    EntryTakesForeignRow(reg, back, seeds, k);
    OwnershipHoldsLater(reg, w0, RollbackCentral);
  }

  lemma OwnershipHoldsLater(reg: Registry, w: World, op: Op)
    ensures OwnershipHolds(reg, w) ==> OwnershipHolds(reg, Apply(reg, w, op))
  {
    if OwnershipHolds(reg, w) {
      forall ops: seq<Op>, entity, target, r | Deleted(reg, Run(reg, Apply(reg, w, op), ops), entity, target, r)
        ensures OwnRow(reg, Run(reg, Apply(reg, w, op), ops), entity, target, r)
      {
        assert ([op] + ops)[1..] == ops;
        assert Run(reg, w, [op] + ops) == Run(reg, Apply(reg, w, op), ops);
      }
    }
  }

  // ------------------------------------------------------------- none was left

  lemma TracedDeletesOwn(reg: Registry, w: World, entity: string, target: string, r: RowId)
    requires Traced(reg, w) && Deleted(reg, w, entity, target, r)
    ensures OwnRow(reg, w, entity, target, r)
  {
    DeleteShrinks(reg, w.st, entity, target);
    var k :| k in w.st.crosswalk && Of(k, entity, target) && k.table == r.table && w.st.crosswalk[k] == r.id;
    assert RowId(k.table, w.st.crosswalk[k]) in w.ledger;
  }

  lemma NoEntriesHarmless(reg: Registry, w: World, seeds: Seeds)
    requires SchemaOk(reg) && SeedsOk(reg, w, seeds)
    requires NoGeneratedEntries(reg, w.st.crosswalk) && NoGeneratedEntries(reg, w.crosswalk)
    ensures OwnershipHolds(reg, Restarted(w, seeds))
  {
    var w0 := Restarted(w, seeds);
    forall ops: seq<Op>, entity, target, r | Deleted(reg, Run(reg, w0, ops), entity, target, r)
      ensures OwnRow(reg, Run(reg, w0, ops), entity, target, r)
    {
      RunTraced(reg, w0, ops);
      TracedDeletesOwn(reg, Run(reg, w0, ops), entity, target, r);
    }
  }

  /** After a rebuild, deletes keep to the entity's own rows in every run exactly when the crosswalk,
      working and committed, had no entry for a table with generated keys: the rebuild is harmless
      only on a bridge that delivered nothing, or whose entries someone cleared. */
  lemma RebuildHarmlessIff(reg: Registry, w: World, seeds: Seeds)
    requires SchemaOk(reg) && Order(reg, reg.Keys).Ok? && SeedsOk(reg, w, seeds)
    requires Numbered(reg, w.st.crosswalk) && Numbered(reg, w.crosswalk)
    ensures OwnershipHolds(reg, Restarted(w, seeds))
       <==> NoGeneratedEntries(reg, w.st.crosswalk) && NoGeneratedEntries(reg, w.crosswalk)
  {
    if NoGeneratedEntries(reg, w.st.crosswalk) && NoGeneratedEntries(reg, w.crosswalk) {
      NoEntriesHarmless(reg, w, seeds);
    } else if !NoGeneratedEntries(reg, w.st.crosswalk) {
      var k :| k in w.st.crosswalk && Generated(reg, k.table);
      EntryTakesForeignRow(reg, w, seeds, k);
    } else {
      var k :| k in w.crosswalk && Generated(reg, k.table);
      CommittedEntryTakesForeignRow(reg, w, seeds, k);
    }
  }

  /** So it is after whatever a bridge did since it was set up. */
  lemma RebuildAfterRun(reg: Registry, w: World, ops: seq<Op>, seeds: Seeds)
    requires SchemaOk(reg) && Order(reg, reg.Keys).Ok? && Fresh(reg, w) && forall t :: NextAuto(w.st, t) >= 1
    requires SeedsOk(reg, Run(reg, w, ops), seeds)
    ensures var v := Run(reg, w, ops);
            OwnershipHolds(reg, Restarted(v, seeds))
            <==> NoGeneratedEntries(reg, v.st.crosswalk) && NoGeneratedEntries(reg, v.crosswalk)
  {
    RunNumbered(reg, w, ops);
    RebuildHarmlessIff(reg, Run(reg, w, ops), seeds);
  }
}
