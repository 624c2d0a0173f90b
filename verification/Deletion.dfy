/** Delete what an entity wrote: rows named by its crosswalk entries, children first. */
module Deletion {
  import opened Ordering
  import opened Outcomes
  import opened Dag
  import opened SchemaGraph
  import opened Store
  import opened Writer
  import opened Integrity

  // ------------------------------------------------------------ specification

  predicate Of(k: CrossKey, entity: string, target: string)
  {
    k.source.entity == entity && k.source.target == target
  }

  /** Tables the entity has crosswalk entries for, unknown and reference tables skipped. */
  function OwnedTables(reg: Registry, st: State, entity: string, target: string): set<string>
  {
    set k | k in st.crosswalk && Of(k, entity, target) && k.table in reg && !IsReference(reg, k.table) :: k.table
  }

  function OwnedIds(st: State, entity: string, target: string, t: string): set<Value>
  {
    set k | k in st.crosswalk && Of(k, entity, target) && k.table == t :: st.crosswalk[k]
  }

  /** Some remaining row still points at one of `gone`. */
  predicate StillReferenced(reg: Registry, st: State, t: string, gone: set<Value>)
  {
    exists u | u in reg :: exists f | f in reg[u].foreignKeys :: exists k | k in Rows(st, u) ::
      f.refTable == t && Get(Rows(st, u)[k], f.column) in gone
  }

  function WithoutRows(st: State, t: string, ids: set<Value>): State
  {
    st.(tables := st.tables[t := Rows(st, t) - ids])
  }

  /** DELETE .. WHERE pk IN ids; the engine refuses to leave a reference dangling. */
  function DeleteRows(reg: Registry, st: State, t: string, ids: set<Value>): Outcome<int>
  {
    var gone := Rows(st, t).Keys * ids;
    if StillReferenced(reg, WithoutRows(st, t, ids), t, gone) then Outcome(st, Err(ForeignKeyViolation(t)))
    else Outcome(WithoutRows(st, t, ids), Ok(|gone|))
  }

  /** The tables of `order` from last to first; a table without a primary key is passed over. */
  function DeleteTables(reg: Registry, st: State, ids: map<string, set<Value>>, order: seq<string>,
                        counts: map<string, int>): Outcome<map<string, int>>
    requires forall t | t in order :: t in reg && t in ids
    decreases |order|
  {
    if order == [] then Outcome(st, Ok(counts))
    else
      var t := order[|order| - 1];
      var rest := order[..|order| - 1];
      if Pk(reg, t).None? then DeleteTables(reg, st, ids, rest, counts)
      else
        var o := DeleteRows(reg, st, t, ids[t]);
        match o.r
        case Err(e) => Outcome(o.st, Err(e))
        case Ok(n) => DeleteTables(reg, o.st, ids, rest, counts[t := n])
  }

  function ByOwnedTable(reg: Registry, st: State, entity: string, target: string): map<string, set<Value>>
  {
    map t | t in OwnedTables(reg, st, entity, target) :: OwnedIds(st, entity, target, t)
  }

  function Forget(st: State, entity: string, target: string, tables: set<string>): State
  {
    st.(crosswalk := map k | k in st.crosswalk && !(Of(k, entity, target) && k.table in tables) :: st.crosswalk[k])
  }

  predicate HasEntries(st: State, entity: string, target: string)
  {
    exists k | k in st.crosswalk :: Of(k, entity, target)
  }

  lemma OwnedKnown(reg: Registry, st: State, entity: string, target: string)
    ensures forall t | t in OwnedTables(reg, st, entity, target) :: t in reg && !IsReference(reg, t)
  {
  }

  function DeleteEntity(reg: Registry, st: State, entity: string, target: string): Outcome<map<string, int>>
  {
    if !HasEntries(st, entity, target) then Outcome(st, Ok(map[]))
    else
      var ids := ByOwnedTable(reg, st, entity, target);
      OwnedKnown(reg, st, entity, target);
      OrderInside(reg, ids.Keys);
      match Order(reg, ids.Keys)
      case Err(e) => Outcome(st, Err(e))
      case Ok(order) =>
        var o := DeleteTables(reg, st, ids, order, map[]);
        match o.r
        case Err(e) => o
        case Ok(counts) => Outcome(Forget(o.st, entity, target, ids.Keys), Ok(counts))
  }

  // ----------------------------------------------------------------- deleting

  method DeleteFrom(db: Connections, reg: Registry, t: string, ids: set<Value>) returns (r: Result<int>)
    modifies db
    ensures Outcome(db.Snapshot(), r) == DeleteRows(reg, old(db.Snapshot()), t, ids)
  {
    var rows := if t in db.tables then db.tables[t] else map[];
    var gone := rows.Keys * ids;
    if StillReferenced(reg, WithoutRows(db.Snapshot(), t, ids), t, gone) {
      return Err(ForeignKeyViolation(t));
    }
    db.tables := db.tables[t := rows - ids];
    return Ok(|gone|);
  }

  method DeleteEntityRows(db: Connections, reg: Registry, entity: string, target: string)
    returns (r: Result<map<string, int>>)
    modifies db
    ensures Outcome(db.Snapshot(), r) == DeleteEntity(reg, old(db.Snapshot()), entity, target)
  {
    if !HasEntries(db.Snapshot(), entity, target) {
      return Ok(map[]);
    }
    var ids := ByOwnedTable(reg, db.Snapshot(), entity, target);
    OwnedKnown(reg, db.Snapshot(), entity, target);
    OrderInside(reg, ids.Keys);
    var names := SortNames(ids.Keys);
    SortedNoDup(names, ids.Keys);
    assert forall n | n in names :: n in Elements(names);
    var order := TopologicalOrder(reg, names);
    if order.Err? {
      return Err(order.error);
    }
    r := DeleteInOrder(db, reg, ids, order.value);
    if r.Ok? {
      db.crosswalk := map k | k in db.crosswalk && !(Of(k, entity, target) && k.table in ids) :: db.crosswalk[k];
    }
  }

  /** Children first: the parents-first order taken from its end. */
  method DeleteInOrder(db: Connections, reg: Registry, ids: map<string, set<Value>>, order: seq<string>)
    returns (r: Result<map<string, int>>)
    requires forall t | t in order :: t in reg && t in ids
    modifies db
    ensures Outcome(db.Snapshot(), r) == DeleteTables(reg, old(db.Snapshot()), ids, order, map[])
  {
    var counts: map<string, int> := map[];
    var i := |order|;
    assert order[..i] == order;
    while i > 0
      invariant 0 <= i <= |order|
      invariant DeleteTables(reg, db.Snapshot(), ids, order[..i], counts)
             == DeleteTables(reg, old(db.Snapshot()), ids, order, map[])
    {
      i := i - 1;
      var t := order[i];
      assert order[..i + 1][..i] == order[..i];
      if Pk(reg, t).Some? {
        var n := DeleteFrom(db, reg, t, ids[t]);
        if n.Err? {
          return Err(n.error);
        }
        counts := counts[t := n.value];
      }
    }
    return Ok(counts);
  }

  // ------------------------------------------------------- what is left behind

  /** Integrity survives a delete, refused or not. */
  lemma DeleteRowsKeepsIntact(reg: Registry, st: State, t: string, ids: set<Value>)
    requires Intact(reg, st)
    ensures Intact(reg, DeleteRows(reg, st, t, ids).st)
  {
    var st' := WithoutRows(st, t, ids);
    var gone := Rows(st, t).Keys * ids;
    if !StillReferenced(reg, st', t, gone) {
      forall u, k | u in reg && k in Rows(st', u)
        ensures RowLive(reg, st', u, Rows(st', u)[k])
      {
        assert Rows(st', u)[k] == Rows(st, u)[k];
        assert RowLive(reg, st, u, Rows(st, u)[k]);
        forall f | f in reg[u].foreignKeys
          ensures Get(Rows(st', u)[k], f.column) == Null || Get(Rows(st', u)[k], f.column) in Rows(st', f.refTable)
        {
          assert f.refTable == t ==> Get(Rows(st', u)[k], f.column) !in gone;
        }
      }
    }
  }

  lemma {:induction false} DeleteTablesKeepsIntact(reg: Registry, st: State, ids: map<string, set<Value>>,
                                                   order: seq<string>, counts: map<string, int>)
    requires Intact(reg, st) && forall t | t in order :: t in reg && t in ids
    ensures Intact(reg, DeleteTables(reg, st, ids, order, counts).st)
    decreases |order|
  {
    if order != [] {
      var t := order[|order| - 1];
      var rest := order[..|order| - 1];
      if Pk(reg, t).None? {
        DeleteTablesKeepsIntact(reg, st, ids, rest, counts);
      } else {
        DeleteRowsKeepsIntact(reg, st, t, ids[t]);
        var o := DeleteRows(reg, st, t, ids[t]);
        if o.r.Ok? {
          DeleteTablesKeepsIntact(reg, o.st, ids, rest, counts[t := o.r.value]);
        }
      }
    }
  }

  lemma DeleteEntityKeepsIntact(reg: Registry, st: State, entity: string, target: string)
    requires Intact(reg, st)
    ensures Intact(reg, DeleteEntity(reg, st, entity, target).st)
  {
    var ids := ByOwnedTable(reg, st, entity, target);
    OwnedKnown(reg, st, entity, target);
    OrderInside(reg, ids.Keys);
    if HasEntries(st, entity, target) && Order(reg, ids.Keys).Ok? {
      DeleteTablesKeepsIntact(reg, st, ids, Order(reg, ids.Keys).value, map[]);
      var o := DeleteTables(reg, st, ids, Order(reg, ids.Keys).value, map[]);
      SameTables(reg, o.st, Forget(o.st, entity, target, ids.Keys));
    }
  }

  /** The rows of each listed table with a primary key lose exactly the listed ids. */
  lemma {:induction false} DeleteTablesExactly(reg: Registry, st: State, ids: map<string, set<Value>>,
                                               order: seq<string>, counts: map<string, int>, u: string)
    requires NoDup(order) && forall t | t in order :: t in reg && t in ids
    requires DeleteTables(reg, st, ids, order, counts).r.Ok?
    ensures var o := DeleteTables(reg, st, ids, order, counts);
            && Rows(o.st, u) == (if u in order && Pk(reg, u).Some? then Rows(st, u) - ids[u] else Rows(st, u))
            && o.st == st.(tables := o.st.tables)
    decreases |order|
  {
    if order != [] {
      var t := order[|order| - 1];
      var rest := order[..|order| - 1];
      NoDupLast(order);
      if Pk(reg, t).None? {
        DeleteTablesExactly(reg, st, ids, rest, counts, u);
      } else {
        var o := DeleteRows(reg, st, t, ids[t]);
        DeleteRowsExactly(reg, st, t, ids[t], u);
        DeleteTablesExactly(reg, o.st, ids, rest, counts[t := o.r.value], u);
      }
    }
  }

  lemma DeleteRowsExactly(reg: Registry, st: State, t: string, ids: set<Value>, u: string)
    requires DeleteRows(reg, st, t, ids).r.Ok?
    ensures var o := DeleteRows(reg, st, t, ids);
            && Rows(o.st, u) == (if u == t then Rows(st, t) - ids else Rows(st, u))
            && o.st == st.(tables := o.st.tables)
  {
  }

  /** A delete that goes through removes from every table exactly the rows the entity's own
      crosswalk entries name there, touches no reference table, forgets exactly those entries
      and changes nothing else. */
  lemma DeletesExactlyOwned(reg: Registry, st: State, entity: string, target: string, u: string)
    requires DeleteEntity(reg, st, entity, target).r.Ok?
    ensures var o := DeleteEntity(reg, st, entity, target).st;
            var owned := OwnedTables(reg, st, entity, target);
            && Rows(o, u) == (if u in owned && Pk(reg, u).Some? then Rows(st, u) - OwnedIds(st, entity, target, u) else Rows(st, u))
            && (u in owned ==> !IsReference(reg, u))
            && (forall k :: Lookup(o, k) == if Of(k, entity, target) && k.table in owned then None else Lookup(st, k))
            && o.nextAuto == st.nextAuto && o.sequence == st.sequence && o.audit == st.audit
  {
    var ids := ByOwnedTable(reg, st, entity, target);
    OwnedKnown(reg, st, entity, target);
    OrderInside(reg, ids.Keys);
    if HasEntries(st, entity, target) {
      var order := Order(reg, ids.Keys).value;
      assert u in order <==> u in Elements(order);
      DeleteTablesExactly(reg, st, ids, order, map[], u);
    } else {
      NothingOwned(reg, st, entity, target);
    }
  }

  // ------------------------------------------- the same, entry by entry and counted

  /** An entry of this entity, towards this target, names this row; the table generates its keys. */
  ghost predicate Named(reg: Registry, st: State, entity: string, target: string, t: string, id: Value)
  {
    && t in reg && (exists c :: c in reg[t].columns && c.autoIncrement)
    && exists k :: k in st.crosswalk && k.source.entity == entity && k.source.target == target && k.table == t && st.crosswalk[k] == id
  }

  lemma {:induction false} GeneratesKeys(columns: seq<Column>)
    ensures AutoColumn(columns).Some? <==> exists c :: c in columns && c.autoIncrement
    decreases |columns|
  {
    if columns != [] {
      GeneratesKeys(columns[1..]);
      assert forall c :: c in columns <==> c == columns[0] || c in columns[1..];
    }
  }

  lemma NamedIff(reg: Registry, st: State, entity: string, target: string, t: string, id: Value)
    ensures Named(reg, st, entity, target, t, id) <==> t in OwnedTables(reg, st, entity, target) && id in OwnedIds(st, entity, target, t)
  {
    if t in reg {
      GeneratesKeys(reg[t].columns);
    }
  }

  lemma {:induction false} TablesCount(reg: Registry, st: State, ids: map<string, set<Value>>, order: seq<string>, counts: map<string, int>)
    requires NoDup(order) && (forall t | t in order :: t in reg && t in ids) && DeleteTables(reg, st, ids, order, counts).r.Ok?
    ensures var n := DeleteTables(reg, st, ids, order, counts).r.value;
            && (forall t :: t in n <==> t in counts || (t in order && Pk(reg, t).Some?))
            && (forall t | t in n :: n[t] == if t in order && Pk(reg, t).Some? then |Rows(st, t).Keys * ids[t]| else counts[t])
    decreases |order|
  {
    if order != [] {
      var t, rest := order[|order| - 1], order[..|order| - 1];
      NoDupLast(order);
      assert forall u :: u in order <==> u in rest || u == t;
      if Pk(reg, t).None? {
        TablesCount(reg, st, ids, rest, counts);
      } else {
        var o := DeleteRows(reg, st, t, ids[t]);
        forall u | u in rest ensures Rows(o.st, u) == Rows(st, u) {
          DeleteRowsExactly(reg, st, t, ids[t], u);
        }
        TablesCount(reg, o.st, ids, rest, counts[t := o.r.value]);
      }
    }
  }

  /** A delete that goes through takes exactly the rows some entry of the entity names, in tables with generated
      keys, and leaves the others as they were. */
  lemma DeletesExactlyNamed(reg: Registry, st: State, entity: string, target: string, t: string)
    requires KeysOk(reg) && DeleteEntity(reg, st, entity, target).r.Ok?
    ensures var o := DeleteEntity(reg, st, entity, target);
            && (forall id | id in Rows(st, t) :: id in Rows(o.st, t) <==> !Named(reg, st, entity, target, t, id))
            && (forall id | id in Rows(o.st, t) :: id in Rows(st, t) && Rows(o.st, t)[id] == Rows(st, t)[id])
  {
    DeletesExactlyOwned(reg, st, entity, target, t);
    forall id ensures Named(reg, st, entity, target, t, id) <==> t in OwnedTables(reg, st, entity, target) && id in OwnedIds(st, entity, target, t) {
      NamedIff(reg, st, entity, target, t, id);
    }
    OwnedKnown(reg, st, entity, target);
  }

  /** It reports each table in which the entity has entries, and how many rows went there. */
  lemma DeleteReports(reg: Registry, st: State, entity: string, target: string, t: string)
    requires KeysOk(reg) && DeleteEntity(reg, st, entity, target).r.Ok?
    ensures var o := DeleteEntity(reg, st, entity, target);
            && (t in o.r.value <==> exists id :: Named(reg, st, entity, target, t, id))
            && (t in o.r.value ==> o.r.value[t] == |Rows(st, t)| - |Rows(o.st, t)|)
  {
    var o := DeleteEntity(reg, st, entity, target);
    DeletesExactlyOwned(reg, st, entity, target, t);
    ReportedOwned(reg, st, entity, target, t);
    OwnedHasId(reg, st, entity, target, t);
    forall id ensures Named(reg, st, entity, target, t, id) <==> t in OwnedTables(reg, st, entity, target) && id in OwnedIds(st, entity, target, t) {
      NamedIff(reg, st, entity, target, t, id);
    }
    CountGone(Rows(st, t), OwnedIds(st, entity, target, t));
  }

  lemma ReportedOwned(reg: Registry, st: State, entity: string, target: string, t: string)
    requires KeysOk(reg) && DeleteEntity(reg, st, entity, target).r.Ok?
    ensures var n := DeleteEntity(reg, st, entity, target).r.value;
            && (t in n <==> t in OwnedTables(reg, st, entity, target))
            && (t in n ==> Pk(reg, t).Some? && n[t] == |Rows(st, t).Keys * OwnedIds(st, entity, target, t)|)
  {
    OwnedKnown(reg, st, entity, target);
    if HasEntries(st, entity, target) {
      var ids := ByOwnedTable(reg, st, entity, target);
      OrderInside(reg, ids.Keys);
      var order := Order(reg, ids.Keys).value;
      assert forall u :: u in order <==> u in Elements(order);
      TablesCount(reg, st, ids, order, map[]);
    } else {
      NothingOwned(reg, st, entity, target);
    }
  }

  lemma OwnedHasId(reg: Registry, st: State, entity: string, target: string, t: string)
    ensures t in OwnedTables(reg, st, entity, target) ==> exists id :: id in OwnedIds(st, entity, target, t)
  {
    if t in OwnedTables(reg, st, entity, target) {
      var k :| k in st.crosswalk && Of(k, entity, target) && k.table in reg && !IsReference(reg, k.table) && k.table == t;
      assert st.crosswalk[k] in OwnedIds(st, entity, target, t);
    }
  }

  lemma CountGone(rows: map<Value, Row>, ids: set<Value>)
    ensures |rows| - |rows - ids| == |rows.Keys * ids|
  {
    assert rows.Keys == (rows - ids).Keys + rows.Keys * ids;
    assert |rows| == |rows.Keys| && |rows - ids| == |(rows - ids).Keys|;
  }

  lemma NothingOwned(reg: Registry, st: State, entity: string, target: string)
    requires !HasEntries(st, entity, target)
    ensures OwnedTables(reg, st, entity, target) == {}
    ensures forall k | k in st.crosswalk :: !Of(k, entity, target)
  {
  }

  lemma OwnedRowGoes(reg: Registry, st: State, entity: string, target: string, u: string, id: Value)
    requires DeleteEntity(reg, st, entity, target).r.Ok?
    requires u in OwnedTables(reg, st, entity, target) && Pk(reg, u).Some? && id in OwnedIds(st, entity, target, u)
    ensures id !in Rows(DeleteEntity(reg, st, entity, target).st, u)
  {
    DeletesExactlyOwned(reg, st, entity, target, u);
  }

  // --------------------------------------------------------- never in the way

  /** Rows listed for deletion are pointed at by rows listed for deletion only. */
  ghost predicate ClosedBelow(reg: Registry, st: State, ids: map<string, set<Value>>)
  {
    forall u, f, k | u in reg && f in reg[u].foreignKeys && k in Rows(st, u)
                     && f.refTable in ids && Get(Rows(st, u)[k], f.column) in ids[f.refTable] ::
      u in ids && k in ids[u]
  }

  lemma DeleteStepFree(reg: Registry, st: State, ids: map<string, set<Value>>, t: string)
    requires t in ids && ClosedBelow(reg, st, ids)
    requires forall u | u in ids && u in reg && t in RefTables(reg[u].foreignKeys) && u != t :: Rows(st, u).Keys !! ids[u]
    ensures DeleteRows(reg, st, t, ids[t]).r.Ok?
    ensures ClosedBelow(reg, WithoutRows(st, t, ids[t]), ids)
  {
    var st' := WithoutRows(st, t, ids[t]);
    forall u, f, k | u in reg && f in reg[u].foreignKeys && k in Rows(st', u)
                     && f.refTable in ids && Get(Rows(st', u)[k], f.column) in ids[f.refTable]
      ensures u in ids && k in ids[u] && f.refTable != t
    {
      assert Rows(st', u)[k] == Rows(st, u)[k];
      assert u in ids && k in ids[u];
      RefTablesMember(reg[u].foreignKeys, f.refTable);
    }
  }

  /** Everything from position `i` on is deleted; what is left still points downwards only. */
  ghost predicate DeletedFrom(reg: Registry, order: seq<string>, i: nat, st: State, ids: map<string, set<Value>>)
  {
    && ids.Keys == Elements(order) && ClosedBelow(reg, st, ids)
    && forall j | i <= j < |order| :: Rows(st, order[j]).Keys !! ids[order[j]]
  }

  lemma DeletedStep(reg: Registry, order: seq<string>, i: nat, st: State, ids: map<string, set<Value>>)
    requires ParentsFirst(GraphOf(reg), Elements(order), order) && 0 < i <= |order|
    requires DeletedFrom(reg, order, i, st, ids)
    ensures DeleteRows(reg, st, order[i - 1], ids[order[i - 1]]).r.Ok?
    ensures DeletedFrom(reg, order, i - 1, DeleteRows(reg, st, order[i - 1], ids[order[i - 1]]).st, ids)
  {
    var t := order[i - 1];
    forall u | u in ids && u in reg && t in RefTables(reg[u].foreignKeys) && u != t
      ensures Rows(st, u).Keys !! ids[u]
    {
      assert t in Up(GraphOf(reg), u);
      var j :| 0 <= j < |order| && order[j] == u;
      assert j >= i;
    }
    DeleteStepFree(reg, st, ids, t);
    forall j | i - 1 <= j < |order|
      ensures Rows(WithoutRows(st, t, ids[t]), order[j]).Keys !! ids[order[j]]
    {
    }
  }

  lemma {:induction false} DeleteTablesFree(reg: Registry, order: seq<string>, i: nat, st: State,
                                            ids: map<string, set<Value>>, counts: map<string, int>)
    requires ParentsFirst(GraphOf(reg), Elements(order), order) && i <= |order|
    requires DeletedFrom(reg, order, i, st, ids)
    requires forall t | t in order :: t in reg && t in ids && Pk(reg, t).Some?
    ensures DeleteTables(reg, st, ids, order[..i], counts).r.Ok?
    decreases i
  {
    if i > 0 {
      var t := order[i - 1];
      assert order[..i][..i - 1] == order[..i - 1];
      DeletedStep(reg, order, i, st, ids);
      var o := DeleteRows(reg, st, t, ids[t]);
      DeleteTablesFree(reg, order, i - 1, o.st, ids, counts[t := o.r.value]);
    } else {
      assert order[..0] == [];
    }
  }

  /** Children go before parents: when only the entity's own rows point at the entity's rows,
      no delete is refused, whatever foreign keys run between its tables. */
  lemma DeleteEntityNeverRefused(reg: Registry, st: State, entity: string, target: string)
    requires SchemaOk(reg) && !HasCycle(GraphOf(reg), OwnedTables(reg, st, entity, target))
    requires ClosedBelow(reg, st, ByOwnedTable(reg, st, entity, target))
    ensures DeleteEntity(reg, st, entity, target).r.Ok?
  {
    var ids := ByOwnedTable(reg, st, entity, target);
    OwnedKnown(reg, st, entity, target);
    OrderInside(reg, ids.Keys);
    assert ids.Keys == OwnedTables(reg, st, entity, target);
    OrderIsLeastParentsFirst(reg, ids.Keys);
    OrderedNeverRefused(reg, st, ids, Order(reg, ids.Keys).value);
  }

  lemma OrderedNeverRefused(reg: Registry, st: State, ids: map<string, set<Value>>, order: seq<string>)
    requires SchemaOk(reg) && ParentsFirst(GraphOf(reg), Elements(order), order) && ids.Keys == Elements(order)
    requires ClosedBelow(reg, st, ids) && forall t | t in order :: t in reg && t in ids && !IsReference(reg, t)
    ensures DeleteTables(reg, st, ids, order, map[]).r.Ok?
  {
    assert order[..|order|] == order;
    DeleteTablesFree(reg, order, |order|, st, ids, map[]);
  }
}
