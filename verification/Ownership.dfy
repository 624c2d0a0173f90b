/** Over whole runs of writes, rollbacks, deletes and foreign inserts, the crosswalk names for
    each source row only rows generated for it, so a delete never reaches anyone else's row. */
module Ownership {
  import opened Ordering
  import opened SchemaGraph
  import opened Store
  import opened Writer
  import opened Integrity
  import opened Deletion

  datatype RowId = RowId(table: string, id: Value)

  /** The working state of both connections, what each database has committed, the ledger of
      generated ids and the rows other programs own. The ledger is bookkeeping of this model:
      it files each generated id under the write that was running, not under the crosswalk. */
  datatype World = World(
    st: State,
    tables: map<string, map<Value, Row>>,
    crosswalk: map<CrossKey, Value>,
    sequence: map<string, int>,
    ledger: map<RowId, CrossKey>,
    foreignRows: set<RowId>)

  datatype Op =
    | Write(src: Source, fan: Fanout)
    | CutShort(src: Source, fan: Fanout, tables: nat)
    | Delete(entity: string, target: string)
    | CommitTarget
    | RollbackTarget
    | CommitCentral
    | RollbackCentral
    | ForeignInsert(table: string, values: Row)

  /** The first so many, or all. */
  function Upto(order: seq<string>, n: nat): (first: seq<string>)
    ensures forall t | t in first :: t in order
  {
    if n < |order| then order[..n] else order
  }

  /** A write that the target stops after so many tables of the order; all of them, if there are no more. */
  function WritePrefix(reg: Registry, st: State, src: Source, fan: Fanout, tables: nat): State
  {
    if Unknown(reg, fan) != {} then st
    else
      OrderInside(reg, fan.Keys);
      assert forall t | t in fan :: t !in Unknown(reg, fan);
      match Order(reg, fan.Keys)
      case Err(_) => st
      case Ok(order) => WriteTables(reg, st, src, Upto(order, tables), fan, map[]).st
  }

  predicate Generated(reg: Registry, t: string)
  {
    t in reg && !IsReference(reg, t)
  }

  /** The ids generated between two states, filed under `src`. */
  ghost function NewIds(reg: Registry, a: State, b: State, src: Source): map<RowId, CrossKey>
  {
    map t, n | t in reg && NextAuto(a, t) <= n < NextAuto(b, t) :: RowId(t, Num(n)) := CrossKey(src, t)
  }

  ghost function Apply(reg: Registry, w: World, op: Op): World
  {
    match op
    case Write(src, fan) =>
      var st' := WriteRow(reg, w.st, src, fan).st;
      w.(st := st', ledger := w.ledger + NewIds(reg, w.st, st', src))
    case CutShort(src, fan, tables) =>
      var st' := WritePrefix(reg, w.st, src, fan, tables);
      w.(st := st', ledger := w.ledger + NewIds(reg, w.st, st', src))
    case Delete(entity, target) => w.(st := DeleteEntity(reg, w.st, entity, target).st)
    case CommitTarget => w.(tables := w.st.tables)
    case RollbackTarget => w.(st := w.st.(tables := w.tables))
    case CommitCentral => w.(crosswalk := w.st.crosswalk, sequence := w.st.sequence)
    case RollbackCentral => w.(st := w.st.(crosswalk := w.crosswalk, sequence := w.sequence))
    case ForeignInsert(t, values) =>
      if Generated(reg, t) then
        w.(st := InsertGenerated(w.st, t, Auto(reg, t).value, values),
           foreignRows := w.foreignRows + {RowId(t, Num(NextAuto(w.st, t)))})
      else w
  }

  ghost function Run(reg: Registry, w: World, ops: seq<Op>): World
    decreases |ops|
  {
    if ops == [] then w else Run(reg, Apply(reg, w, ops[0]), ops[1..])
  }

  // ------------------------------------------------------------- transactions

  /** Nothing is committed on either side. */
  predicate CommitsNothing(ops: seq<Op>)
  {
    forall op | op in ops :: !op.CommitTarget? && !op.CommitCentral?
  }

  lemma CommittedStaysOnce(reg: Registry, w: World, op: Op)
    requires !op.CommitTarget? && !op.CommitCentral?
    ensures var v := Apply(reg, w, op);
            v.tables == w.tables && v.crosswalk == w.crosswalk && v.sequence == w.sequence
  {
  }

  lemma {:induction false} CommittedStays(reg: Registry, w: World, ops: seq<Op>)
    requires CommitsNothing(ops)
    ensures var v := Run(reg, w, ops);
            v.tables == w.tables && v.crosswalk == w.crosswalk && v.sequence == w.sequence
    decreases |ops|
  {
    if ops != [] {
      assert ops[0] in ops;
      CommittedStaysOnce(reg, w, ops[0]);
      CommittedStays(reg, Apply(reg, w, ops[0]), ops[1..]);
    }
  }

  /** A rollback undoes everything since the last commit of its side, the target's counters excepted, and
      leaves the other side as it is. */
  lemma RollbackUndoes(reg: Registry, w: World, ops: seq<Op>)
    requires CommitsNothing(ops)
    ensures var v := Run(reg, w, ops);
            var t, c := Apply(reg, v, RollbackTarget), Apply(reg, v, RollbackCentral);
            && t.st.tables == w.tables && t.st.crosswalk == v.st.crosswalk && t.st.sequence == v.st.sequence && t.st.nextAuto == v.st.nextAuto
            && c.st.crosswalk == w.crosswalk && c.st.sequence == w.sequence && c.st.tables == v.st.tables && c.st.nextAuto == v.st.nextAuto
  {
    CommittedStays(reg, w, ops);
  }

  /** After a commit, a rollback of that side brings back what was committed, whatever was done in between. */
  lemma CommitLasts(reg: Registry, w: World, ops: seq<Op>)
    requires CommitsNothing(ops)
    ensures Apply(reg, Run(reg, Apply(reg, w, CommitTarget), ops), RollbackTarget).st.tables == w.st.tables
    ensures var c := Apply(reg, Run(reg, Apply(reg, w, CommitCentral), ops), RollbackCentral);
            c.st.crosswalk == w.st.crosswalk && c.st.sequence == w.st.sequence
  {
    RollbackUndoes(reg, Apply(reg, w, CommitTarget), ops);
    RollbackUndoes(reg, Apply(reg, w, CommitCentral), ops);
  }

  // ---------------------------------------------------------------- invariant

  ghost predicate BelowCounter(st: State, r: RowId)
  {
    r.id.Num? && r.id.n < NextAuto(st, r.table)
  }

  ghost predicate CrosswalkTraced(reg: Registry, crosswalk: map<CrossKey, Value>, ledger: map<RowId, CrossKey>)
  {
    forall k | k in crosswalk && Generated(reg, k.table) ::
      RowId(k.table, crosswalk[k]) in ledger && ledger[RowId(k.table, crosswalk[k])] == k
  }

  ghost predicate Traced(reg: Registry, w: World)
  {
    && CrosswalkTraced(reg, w.st.crosswalk, w.ledger)
    && CrosswalkTraced(reg, w.crosswalk, w.ledger)
    && (forall r | r in w.ledger :: BelowCounter(w.st, r) && w.ledger[r].table == r.table)
    && (forall r | r in w.foreignRows && Generated(reg, r.table) :: BelowCounter(w.st, r) && r !in w.ledger)
  }

  /** What a write does to counters and crosswalk, whether it succeeds or fails part way. */
  ghost predicate Advances(reg: Registry, a: State, b: State, src: Source)
  {
    && (forall t :: NextAuto(a, t) <= NextAuto(b, t))
    && forall k | k in b.crosswalk && Generated(reg, k.table) ::
         || (k in a.crosswalk && b.crosswalk[k] == a.crosswalk[k])
         || (k.source == src && b.crosswalk[k].Num? && NextAuto(a, k.table) <= b.crosswalk[k].n < NextAuto(b, k.table))
  }

  lemma AdvancesTransitive(reg: Registry, a: State, b: State, c: State, src: Source)
    requires Advances(reg, a, b, src) && Advances(reg, b, c, src)
    ensures Advances(reg, a, c, src)
  {
    forall k | k in c.crosswalk && Generated(reg, k.table)
      ensures || (k in a.crosswalk && c.crosswalk[k] == a.crosswalk[k])
              || (k.source == src && c.crosswalk[k].Num? && NextAuto(a, k.table) <= c.crosswalk[k].n < NextAuto(c, k.table))
    {
      assert NextAuto(a, k.table) <= NextAuto(b, k.table) <= NextAuto(c, k.table);
    }
  }

  lemma GeneratedAdvances(reg: Registry, st: State, src: Source, t: string, values: Row)
    requires t in reg && Auto(reg, t).Some?
    ensures Advances(reg, st, WriteGenerated(reg, st, src, t, values).st, src)
  {
  }

  /** No id is generated and nothing is recorded but under the key `k`. */
  ghost predicate RecordsAt(a: State, b: State, k: CrossKey)
  {
    && b.nextAuto == a.nextAuto
    && forall c: CrossKey | c != k && c in b.crosswalk :: c in a.crosswalk && b.crosswalk[c] == a.crosswalk[c]
  }

  lemma CreateRecordsAt(st: State, k: CrossKey, pk: string, start: int, values: Row)
    ensures RecordsAt(st, CreateAssigned(st, k, pk, start, values).st, k)
  {
  }

  lemma UpdateRecordsAt(st: State, k: CrossKey, pk: string, key: Value, values: Row)
    ensures RecordsAt(st, UpdateRow(st, k.table, pk, key, values), k)
  {
  }

  lemma AssignedRecordsAt(reg: Registry, st: State, src: Source, t: string, values: Row)
    requires t in reg
    ensures RecordsAt(st, WriteAppAssigned(reg, st, src, t, values).st, CrossKey(src, t))
  {
    var k := CrossKey(src, t);
    if Pk(reg, t).Some? {
      CreateRecordsAt(st, k, Pk(reg, t).value, ID_SEQUENCE_START, values);
      if k in st.crosswalk {
        UpdateRecordsAt(st, k, Pk(reg, t).value, st.crosswalk[k], values);
      }
    }
  }

  lemma AssignedAdvances(reg: Registry, st: State, src: Source, t: string, values: Row)
    requires t in reg && IsReference(reg, t)
    ensures Advances(reg, st, WriteAppAssigned(reg, st, src, t, values).st, src)
  {
    AssignedRecordsAt(reg, st, src, t, values);
    SameCountersAdvance(reg, st, WriteAppAssigned(reg, st, src, t, values).st, src);
  }

  lemma SameCountersAdvance(reg: Registry, a: State, b: State, src: Source)
    requires b.nextAuto == a.nextAuto
    requires forall k | k in b.crosswalk && Generated(reg, k.table) :: k in a.crosswalk && b.crosswalk[k] == a.crosswalk[k]
    ensures Advances(reg, a, b, src)
  {
  }

  lemma {:induction false} WriteTablesAdvances(reg: Registry, st: State, src: Source, order: seq<string>, fan: Fanout, ids: TargetIds)
    requires forall t | t in order :: t in reg && t in fan
    requires forall t | t in reg && t in APP_ASSIGNED :: IsReference(reg, t)
    ensures Advances(reg, st, WriteTables(reg, st, src, order, fan, ids).st, src)
    decreases |order|
  {
    if order != [] {
      var t := order[0];
      var values := ApplyForeignKeys(reg[t].foreignKeys, t, fan[t], ids);
      var o := WriteOne(reg, st, src, t, values);
      if t in APP_ASSIGNED {
        AssignedAdvances(reg, st, src, t, values);
      } else if !IsReference(reg, t) {
        GeneratedAdvances(reg, st, src, t, values);
      }
      if o.r.Ok? {
        WriteTablesAdvances(reg, o.st, src, order[1..], fan, ids[t := o.r.value]);
        AdvancesTransitive(reg, st, o.st, WriteTables(reg, o.st, src, order[1..], fan, ids[t := o.r.value]).st, src);
      }
    }
  }

  lemma WriteRowAdvances(reg: Registry, st: State, src: Source, fan: Fanout)
    requires SchemaOk(reg)
    ensures Advances(reg, st, WriteRow(reg, st, src, fan).st, src)
  {
    if Unknown(reg, fan) == {} && Order(reg, fan.Keys).Ok? {
      OrderInside(reg, fan.Keys);
      assert forall t | t in fan :: t !in Unknown(reg, fan);
      WriteTablesAdvances(reg, st, src, Order(reg, fan.Keys).value, fan, map[]);
    }
  }

  lemma PrefixAdvances(reg: Registry, st: State, src: Source, fan: Fanout, tables: nat)
    requires SchemaOk(reg)
    ensures Advances(reg, st, WritePrefix(reg, st, src, fan, tables), src)
  {
    if Unknown(reg, fan) == {} && Order(reg, fan.Keys).Ok? {
      OrderInside(reg, fan.Keys);
      assert forall t | t in fan :: t !in Unknown(reg, fan);
      WriteTablesAdvances(reg, st, src, Upto(Order(reg, fan.Keys).value, tables), fan, map[]);
    }
  }

  /** Cut short after the last table is not cut short. */
  lemma WholePrefix(reg: Registry, st: State, src: Source, fan: Fanout)
    ensures WritePrefix(reg, st, src, fan, |fan|) == WriteRow(reg, st, src, fan).st
  {
    if Unknown(reg, fan) == {} && Order(reg, fan.Keys).Ok? {
      OrderInside(reg, fan.Keys);
      var order := Order(reg, fan.Keys).value;
      NoDupLength(order);
    }
  }

  lemma LedgerGrows(reg: Registry, w: World, b: State, src: Source)
    requires Traced(reg, w) && Advances(reg, w.st, b, src)
    ensures forall r | r in w.ledger :: r !in NewIds(reg, w.st, b, src)
    ensures forall r | r in w.foreignRows && Generated(reg, r.table) :: r !in NewIds(reg, w.st, b, src)
    ensures forall r | r in NewIds(reg, w.st, b, src) :: BelowCounter(b, r)
    ensures forall r | r in NewIds(reg, w.st, b, src) :: NewIds(reg, w.st, b, src)[r] == CrossKey(src, r.table)
  {
  }

  lemma WriteTraced(reg: Registry, w: World, b: State, src: Source)
    requires Traced(reg, w) && Advances(reg, w.st, b, src)
    ensures Traced(reg, w.(st := b, ledger := w.ledger + NewIds(reg, w.st, b, src)))
  {
    LedgerGrows(reg, w, b, src);
    var added := NewIds(reg, w.st, b, src);
    var ledger := w.ledger + added;
    CrosswalkFollows(reg, w, b, src);
    forall r | r in ledger
      ensures BelowCounter(b, r) && ledger[r].table == r.table
    {
      if r !in added {
        assert NextAuto(w.st, r.table) <= NextAuto(b, r.table);
      }
    }
    forall r | r in w.foreignRows && Generated(reg, r.table)
      ensures BelowCounter(b, r) && r !in ledger
    {
      assert NextAuto(w.st, r.table) <= NextAuto(b, r.table);
    }
  }

  lemma CrosswalkFollows(reg: Registry, w: World, b: State, src: Source)
    requires Traced(reg, w) && Advances(reg, w.st, b, src)
    ensures CrosswalkTraced(reg, b.crosswalk, w.ledger + NewIds(reg, w.st, b, src))
    ensures CrosswalkTraced(reg, w.crosswalk, w.ledger + NewIds(reg, w.st, b, src))
  {
    LedgerGrows(reg, w, b, src);
    var added := NewIds(reg, w.st, b, src);
    forall k | k in b.crosswalk && Generated(reg, k.table)
      ensures RowId(k.table, b.crosswalk[k]) in w.ledger + added && (w.ledger + added)[RowId(k.table, b.crosswalk[k])] == k
    {
      if k in w.st.crosswalk && b.crosswalk[k] == w.st.crosswalk[k] {
        assert RowId(k.table, w.st.crosswalk[k]) !in added;
      } else {
        assert RowId(k.table, Num(b.crosswalk[k].n)) in added;
        assert k == CrossKey(src, k.table);
      }
    }
  }

  lemma DeleteTraced(reg: Registry, w: World, entity: string, target: string)
    requires Traced(reg, w)
    ensures Traced(reg, Apply(reg, w, Delete(entity, target)))
  {
    var o := DeleteEntity(reg, w.st, entity, target).st;
    DeleteShrinks(reg, w.st, entity, target);
    forall k | k in o.crosswalk && Generated(reg, k.table)
      ensures RowId(k.table, o.crosswalk[k]) in w.ledger && w.ledger[RowId(k.table, o.crosswalk[k])] == k
    {
      assert k in w.st.crosswalk && o.crosswalk[k] == w.st.crosswalk[k];
    }
    forall t
      ensures NextAuto(o, t) == NextAuto(w.st, t)
    {
    }
  }

  /** A delete, refused part way or not, only removes rows the entity's entries name, and
      only forgets entries. */
  lemma DeleteShrinks(reg: Registry, st: State, entity: string, target: string)
    ensures var o := DeleteEntity(reg, st, entity, target).st;
            && o.nextAuto == st.nextAuto
            && (forall k | k in o.crosswalk :: k in st.crosswalk && o.crosswalk[k] == st.crosswalk[k])
            && (forall u, id | id in Rows(st, u) && id !in Rows(o, u) ::
                  Generated(reg, u) && id in OwnedIds(st, entity, target, u))
  {
    var ids := ByOwnedTable(reg, st, entity, target);
    OwnedKnown(reg, st, entity, target);
    OrderInside(reg, ids.Keys);
    if HasEntries(st, entity, target) && Order(reg, ids.Keys).Ok? {
      var order := Order(reg, ids.Keys).value;
      ListedShrink(reg, st, entity, target, order);
      TablesOnly(reg, st, ids, order, map[]);
    }
  }

  lemma ListedShrink(reg: Registry, st: State, entity: string, target: string, order: seq<string>)
    requires forall t | t in order :: t in reg && t in ByOwnedTable(reg, st, entity, target)
    ensures var o := DeleteTables(reg, st, ByOwnedTable(reg, st, entity, target), order, map[]).st;
            forall u, id | id in Rows(st, u) && id !in Rows(o, u) :: Generated(reg, u) && id in OwnedIds(st, entity, target, u)
  {
    var ids := ByOwnedTable(reg, st, entity, target);
    forall u, id | id in Rows(st, u) && id !in Rows(DeleteTables(reg, st, ids, order, map[]).st, u)
      ensures Generated(reg, u) && id in OwnedIds(st, entity, target, u)
    {
      TablesShrink(reg, st, ids, order, map[], u, id);
      ListedIsOwned(reg, st, entity, target, u, id);
    }
  }

  lemma ListedIsOwned(reg: Registry, st: State, entity: string, target: string, u: string, id: Value)
    requires var ids := ByOwnedTable(reg, st, entity, target); u in ids && id in ids[u]
    ensures Generated(reg, u) && id in OwnedIds(st, entity, target, u)
  {
  }

  lemma {:induction false} TablesShrink(reg: Registry, st: State, ids: map<string, set<Value>>, order: seq<string>,
                                        counts: map<string, int>, u: string, id: Value)
    requires forall t | t in order :: t in reg && t in ids
    requires id in Rows(st, u) && id !in Rows(DeleteTables(reg, st, ids, order, counts).st, u)
    ensures u in ids && u in order && id in ids[u]
    decreases |order|
  {
    if order != [] {
      var t := order[|order| - 1];
      var rest := order[..|order| - 1];
      if Pk(reg, t).None? {
        TablesShrink(reg, st, ids, rest, counts, u, id);
      } else {
        var o := DeleteRows(reg, st, t, ids[t]);
        if o.r.Ok? && id in Rows(o.st, u) {
          TablesShrink(reg, o.st, ids, rest, counts[t := o.r.value], u, id);
        }
      }
    }
  }

  lemma {:induction false} TablesOnly(reg: Registry, st: State, ids: map<string, set<Value>>, order: seq<string>,
                                      counts: map<string, int>)
    requires forall t | t in order :: t in reg && t in ids
    ensures var o := DeleteTables(reg, st, ids, order, counts).st; o == st.(tables := o.tables)
    decreases |order|
  {
    if order != [] {
      var t := order[|order| - 1];
      var rest := order[..|order| - 1];
      if Pk(reg, t).None? {
        TablesOnly(reg, st, ids, rest, counts);
      } else {
        var o := DeleteRows(reg, st, t, ids[t]);
        if o.r.Ok? {
          TablesOnly(reg, o.st, ids, rest, counts[t := o.r.value]);
        }
      }
    }
  }

  lemma StepTraced(reg: Registry, w: World, op: Op)
    requires SchemaOk(reg) && Traced(reg, w)
    ensures Traced(reg, Apply(reg, w, op))
  {
    match op
    case Write(src, fan) =>
      WriteRowAdvances(reg, w.st, src, fan);
      WriteTraced(reg, w, WriteRow(reg, w.st, src, fan).st, src);
    case CutShort(src, fan, tables) =>
      PrefixAdvances(reg, w.st, src, fan, tables);
      WriteTraced(reg, w, WritePrefix(reg, w.st, src, fan, tables), src);
    case Delete(entity, target) => DeleteTraced(reg, w, entity, target);
    case CommitTarget =>
    case RollbackTarget => CountersKept(w.st, w.st.(tables := w.tables));
    case CommitCentral =>
    case RollbackCentral => CountersKept(w.st, w.st.(crosswalk := w.crosswalk, sequence := w.sequence));
    case ForeignInsert(t, values) => ForeignTraced(reg, w, t, values);
  }

  lemma CountersKept(a: State, b: State)
    requires a.nextAuto == b.nextAuto
    ensures forall r :: BelowCounter(a, r) <==> BelowCounter(b, r)
  {
  }

  lemma ForeignTraced(reg: Registry, w: World, t: string, values: Row)
    requires Traced(reg, w)
    ensures Traced(reg, Apply(reg, w, ForeignInsert(t, values)))
  {
    if Generated(reg, t) {
      var b := InsertGenerated(w.st, t, Auto(reg, t).value, values);
      assert forall u :: NextAuto(w.st, u) <= NextAuto(b, u);
      assert forall r :: BelowCounter(w.st, r) ==> BelowCounter(b, r);
      assert RowId(t, Num(NextAuto(w.st, t))) !in w.ledger;
    }
  }

  /** Every crosswalk entry of an auto-increment table, working or committed, names an id that
      was generated by a write of that very source row, whatever happened in between. */
  lemma {:induction false} RunTraced(reg: Registry, w: World, ops: seq<Op>)
    requires SchemaOk(reg) && Traced(reg, w)
    ensures Traced(reg, Run(reg, w, ops))
    decreases |ops|
  {
    if ops != [] {
      StepTraced(reg, w, ops[0]);
      RunTraced(reg, Apply(reg, w, ops[0]), ops[1..]);
    }
  }

  /** A world before anything was delivered: no entries, no ledger, whatever rows the target
      already holds counted as someone else's and below the counters. */
  ghost predicate Fresh(reg: Registry, w: World)
  {
    && w.st.crosswalk == map[] && w.crosswalk == map[] && w.ledger == map[] && w.tables == w.st.tables
    && (forall t, id | id in Rows(w.st, t) :: RowId(t, id) in w.foreignRows)
    && (forall r | r in w.foreignRows && Generated(reg, r.table) :: BelowCounter(w.st, r))
  }

  /** After any run from a fresh world, a delete for an entity, even one that fails part way,
      removes only rows that a write of that same entity generated: no row of another entity,
      none that was there before or came from elsewhere, none of a reference table. */
  lemma DeleteReachesOwnRowsOnly(reg: Registry, w: World, ops: seq<Op>, entity: string, target: string, t: string, id: Value)
    requires SchemaOk(reg) && Fresh(reg, w)
    requires var now := Run(reg, w, ops);
             id in Rows(now.st, t) && id !in Rows(DeleteEntity(reg, now.st, entity, target).st, t)
    ensures var now := Run(reg, w, ops);
            && Generated(reg, t)
            && RowId(t, id) in now.ledger && Of(now.ledger[RowId(t, id)], entity, target)
            && now.ledger[RowId(t, id)].table == t
            && RowId(t, id) !in now.foreignRows
  {
    RunTraced(reg, w, ops);
    var now := Run(reg, w, ops);
    DeleteShrinks(reg, now.st, entity, target);
    var k :| k in now.st.crosswalk && Of(k, entity, target) && k.table == t && now.st.crosswalk[k] == id;
    assert RowId(k.table, now.st.crosswalk[k]) in now.ledger;
  }
}
