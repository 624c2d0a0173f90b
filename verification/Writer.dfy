/** Write one source row across the target tables, and delete what an entity wrote. */
module Writer {
  import opened Ordering
  import opened Outcomes
  import opened Dag
  import opened SchemaGraph
  import opened Store

  const APP_ASSIGNED: set<string> := {"station"}
  const ID_SEQUENCE_START: int := 10_000_000

  /** Columns to write, per target table. */
  type Fanout = map<string, Row>

  /** The ids of the rows a source row landed on, per target table. */
  type TargetIds = map<string, Value>

  /** Where a statement or a whole write left the databases, and what it returned or raised. */
  datatype Outcome<+T> = Outcome(st: State, r: Result<T>)

  // ------------------------------------------------------------ specification

  /** Fill the foreign keys still null from the parents written so far, self-references excepted. */
  function ApplyForeignKeys(fks: seq<ForeignKey>, t: string, values: Row, ids: TargetIds): Row
  {
    if fks == [] then values
    else ApplyForeignKeys(fks[1..], t, FillForeignKey(fks[0], t, values, ids), ids)
  }

  function FillForeignKey(fk: ForeignKey, t: string, values: Row, ids: TargetIds): Row
  {
    if fk.refTable != t && fk.refTable in ids && ids[fk.refTable] != Null && Get(values, fk.column) == Null
    then values[fk.column := ids[fk.refTable]]
    else values
  }

  /** The key of an existing row; nothing is ever inserted. */
  function ResolveReference(reg: Registry, rows: map<Value, Row>, t: string, values: Row): Result<Value>
    requires t in reg
  {
    match Pk(reg, t)
    case None => Err(ReferenceRowNotFound(t))
    case Some(pk) =>
      if Get(values, pk) != Null then
        if values[pk] in rows then Ok(values[pk]) else Err(ReferenceRowNotFound(t))
      else if Criteria(values, pk) == map[] then Err(ReferenceRowNotFound(t))
      else if Matching(rows, Criteria(values, pk)) == {} then Err(ReferenceRowNotFound(t))
      else Ok(First(Matching(rows, Criteria(values, pk))))
  }

  /** A live crosswalk row is updated; else an existing row is matched; else one is created
      under an id from the reserved range. */
  function WriteAppAssigned(reg: Registry, st: State, src: Source, t: string, values: Row): Outcome<Value>
    requires t in reg
  {
    match Pk(reg, t)
    case None => Outcome(st, Err(NoPrimaryKey(t)))
    case Some(pk) =>
      var k := CrossKey(src, t);
      if k in st.crosswalk && st.crosswalk[k] in Rows(st, t) then
        Outcome(UpdateRow(st, t, pk, st.crosswalk[k], values), Ok(st.crosswalk[k]))
      else
        match ResolveReference(reg, Rows(st, t), t, values)
        case Ok(matched) => Outcome(Record(st, k, matched), Ok(matched))
        case Err(_) => CreateAssigned(st, k, pk, ID_SEQUENCE_START, values)
  }

  function CreateAssigned(st: State, k: CrossKey, pk: string, start: int, values: Row): Outcome<Value>
  {
    var id := Num(NextAssigned(st, k.table, start));
    var st1 := Allocate(st, k.table, start);
    if id in Rows(st, k.table) then Outcome(st1, Err(DuplicateKey(k.table)))
    else Outcome(Record(PutRow(st1, k.table, id, values[pk := id]), k, id), Ok(id))
  }

  /** A live crosswalk row is updated; anything else, a stale entry included, is inserted anew. */
  function WriteGenerated(reg: Registry, st: State, src: Source, t: string, values: Row): Outcome<Value>
    requires t in reg && Auto(reg, t).Some?
  {
    var k := CrossKey(src, t);
    if k in st.crosswalk && Pk(reg, t).Some? && st.crosswalk[k] in Rows(st, t) then
      Outcome(UpdateRow(st, t, Pk(reg, t).value, st.crosswalk[k], values), Ok(st.crosswalk[k]))
    else
      var id := Num(NextAuto(st, t));
      Outcome(Record(InsertGenerated(st, t, Auto(reg, t).value, values), k, id), Ok(id))
  }

  function WriteOne(reg: Registry, st: State, src: Source, t: string, values: Row): Outcome<Value>
    requires t in reg
  {
    if t in APP_ASSIGNED then WriteAppAssigned(reg, st, src, t, values)
    else if IsReference(reg, t) then Outcome(st, ResolveReference(reg, Rows(st, t), t, values))
    else WriteGenerated(reg, st, src, t, values)
  }

  /** The tables in the given order, each filled from those before it; the first failure stops. */
  function WriteTables(reg: Registry, st: State, src: Source, order: seq<string>, fan: Fanout, ids: TargetIds): Outcome<TargetIds>
    requires forall t | t in order :: t in reg && t in fan
    decreases |order|
  {
    if order == [] then Outcome(st, Ok(ids))
    else
      var t := order[0];
      var o := WriteOne(reg, st, src, t, ApplyForeignKeys(reg[t].foreignKeys, t, fan[t], ids));
      match o.r
      case Err(e) => Outcome(o.st, Err(e))
      case Ok(id) => WriteTables(reg, o.st, src, order[1..], fan, ids[t := id])
  }

  function Unknown(reg: Registry, fan: Fanout): set<string>
  {
    set t | t in fan && t !in reg
  }

  lemma OrderInside(reg: Registry, s: set<string>)
    ensures Order(reg, s).Ok? ==> forall t | t in Order(reg, s).value :: t in s
    ensures Order(reg, s).Ok? ==> NoDup(Order(reg, s).value) && Elements(Order(reg, s).value) == s
  {
    PeelLists(GraphOf(reg), s);
    var order := Peel(GraphOf(reg), s);
    assert forall t | t in order :: t in Elements(order);
  }

  function WriteRow(reg: Registry, st: State, src: Source, fan: Fanout): Outcome<TargetIds>
  {
    if Unknown(reg, fan) != {} then Outcome(st, Err(UnknownTable(Least(Unknown(reg, fan)))))
    else
      OrderInside(reg, fan.Keys);
      assert forall t | t in fan :: t !in Unknown(reg, fan);
      match Order(reg, fan.Keys)
      case Err(e) => Outcome(st, Err(e))
      case Ok(order) => WriteTables(reg, st, src, order, fan, map[])
  }

  // ----------------------------------------------------------------- writing

  method FillForeignKeys(reg: Registry, t: string, values: Row, ids: TargetIds) returns (resolved: Row)
    requires t in reg
    ensures resolved == ApplyForeignKeys(reg[t].foreignKeys, t, values, ids)
  {
    resolved := values;
    var fks := reg[t].foreignKeys;
    var i := 0;
    while i < |fks|
      invariant 0 <= i <= |fks|
      invariant ApplyForeignKeys(fks[i..], t, resolved, ids) == ApplyForeignKeys(fks, t, values, ids)
    {
      var fk := fks[i];
      if fk.refTable != t {
        if fk.refTable in ids && ids[fk.refTable] != Null && Get(resolved, fk.column) == Null {
          resolved := resolved[fk.column := ids[fk.refTable]];
        }
      }
      i := i + 1;
    }
  }

  /** When a lookup succeeds and with what, column by column. A key in the payload decides alone; without one
      some other column must have a value, and the row found agrees with the payload wherever it has one. */
  lemma ResolvesIff(reg: Registry, rows: map<Value, Row>, t: string, values: Row)
    requires t in reg && Pk(reg, t).Some?
    ensures var pk := Pk(reg, t).value;
            var r := ResolveReference(reg, rows, t, values);
            if pk in values && values[pk] != Null then
              (r.Ok? <==> values[pk] in rows) && (r.Ok? ==> r.value == values[pk])
            else
              && (r.Ok? <==> (exists c :: c in values && c != pk && values[c] != Null)
                             && exists k :: k in rows && FitsPayload(rows[k], values, pk))
              && (r.Ok? ==> r.value in rows && FitsPayload(rows[r.value], values, pk)
                            && forall k | k in rows && FitsPayload(rows[k], values, pk) :: k == r.value || ValueLess(r.value, k))
  {
    var pk := Pk(reg, t).value;
    var criteria := Criteria(values, pk);
    forall k | k in rows
      ensures k in Matching(rows, criteria) <==> FitsPayload(rows[k], values, pk)
    {
      MatchIsAgreement(rows[k], values, pk);
    }
    if c :| c in values && c != pk && values[c] != Null {
      assert c in criteria;
    } else {
      assert criteria == map[];
    }
  }

  /** The row has every value the payload carries, its key excepted; where the payload has none, the row is free. */
  ghost predicate FitsPayload(row: Row, values: Row, pk: string)
  {
    forall c | c in values && c != pk && values[c] != Null :: c in row && row[c] == values[c]
  }

  lemma MatchIsAgreement(row: Row, values: Row, pk: string)
    ensures (forall c | c in Criteria(values, pk) :: Get(row, c) == Criteria(values, pk)[c]) <==> FitsPayload(row, values, pk)
  {
    if forall c | c in Criteria(values, pk) :: Get(row, c) == Criteria(values, pk)[c] {
      forall c | c in values && c != pk && values[c] != Null
        ensures c in row && row[c] == values[c]
      {
        assert c in Criteria(values, pk);
      }
    }
  }

  method ResolveReferenceId(db: Connections, reg: Registry, t: string, values: Row) returns (r: Result<Value>)
    requires t in reg
    ensures r == ResolveReference(reg, Rows(db.Snapshot(), t), t, values)
    ensures Pk(reg, t).None? ==> r.Err?
    ensures Pk(reg, t).Some? ==>
              var pk, rows := Pk(reg, t).value, if t in db.tables then db.tables[t] else map[];
              if pk in values && values[pk] != Null then r == if values[pk] in rows then Ok(values[pk]) else Err(ReferenceRowNotFound(t))
              else
                && (r.Ok? <==> (exists c :: c in values && c != pk && values[c] != Null)
                               && exists k :: k in rows && FitsPayload(rows[k], values, pk))
                && (r.Ok? ==> r.value in rows && FitsPayload(rows[r.value], values, pk))
  {
    ghost var stored: map<Value, Row> := if t in db.tables then db.tables[t] else map[];
    if Pk(reg, t).Some? {
      ResolvesIff(reg, stored, t, values);
    }
    var pk := Pk(reg, t);
    if pk.None? {
      return Err(ReferenceRowNotFound(t));
    }
    if Get(values, pk.value) != Null {
      var found := db.RowExists(t, values[pk.value]);
      return if found then Ok(values[pk.value]) else Err(ReferenceRowNotFound(t));
    }
    var criteria := Criteria(values, pk.value);
    if criteria == map[] {
      return Err(ReferenceRowNotFound(t));
    }
    var matches := Matching(if t in db.tables then db.tables[t] else map[], criteria);
    if matches == {} {
      return Err(ReferenceRowNotFound(t));
    }
    return Ok(First(matches));
  }

  method WriteAppAssignedRow(db: Connections, reg: Registry, src: Source, t: string, values: Row)
    returns (r: Result<Value>)
    requires t in reg
    modifies db
    ensures Outcome(db.Snapshot(), r) == WriteAppAssigned(reg, old(db.Snapshot()), src, t, values)
  {
    var pk := Pk(reg, t);
    if pk.None? {
      return Err(NoPrimaryKey(t));
    }
    var k := CrossKey(src, t);
    var existing := db.CrosswalkLookup(k);
    if existing.Some? {
      var live := db.RowExists(t, existing.value);
      if live {
        db.Update(t, pk.value, existing.value, values);
        return Ok(existing.value);
      }
    }
    var matched := ResolveReferenceId(db, reg, t, values);
    if matched.Ok? {
      db.CrosswalkRecord(k, matched.value);
      return matched;
    }
    var id := db.AllocateId(t, ID_SEQUENCE_START);
    var created := db.InsertExplicit(t, Num(id), values[pk.value := Num(id)]);
    if !created {
      return Err(DuplicateKey(t));
    }
    db.CrosswalkRecord(k, Num(id));
    return Ok(Num(id));
  }

  method WriteGeneratedRow(db: Connections, reg: Registry, src: Source, t: string, values: Row)
    returns (id: Value)
    requires t in reg && Auto(reg, t).Some?
    modifies db
    ensures Outcome(db.Snapshot(), Ok(id)) == WriteGenerated(reg, old(db.Snapshot()), src, t, values)
  {
    var pk := Pk(reg, t);
    var k := CrossKey(src, t);
    var existing := db.CrosswalkLookup(k);
    if existing.Some? && pk.Some? {
      var live := db.RowExists(t, existing.value);
      if live {
        db.Update(t, pk.value, existing.value, values);
        return existing.value;
      }
    }
    id := db.Insert(t, Auto(reg, t).value, values);
    db.CrosswalkRecord(k, id);
  }

  method WriteSourceRow(db: Connections, reg: Registry, src: Source, fan: Fanout) returns (r: Result<TargetIds>)
    modifies db
    ensures Outcome(db.Snapshot(), r) == WriteRow(reg, old(db.Snapshot()), src, fan)
  {
    var unknown := set t | t in fan && t !in reg;
    if unknown != {} {
      return Err(UnknownTable(Least(unknown)));
    }
    OrderInside(reg, fan.Keys);
    assert forall t | t in fan :: t !in unknown;
    var names := SortNames(fan.Keys);
    SortedNoDup(names, fan.Keys);
    assert forall n | n in names :: n in Elements(names);
    var order := TopologicalOrder(reg, names);
    if order.Err? {
      return Err(order.error);
    }
    r := WriteInOrder(db, reg, src, order.value, fan);
  }

  /** The main loop. */
  method WriteInOrder(db: Connections, reg: Registry, src: Source, order: seq<string>, fan: Fanout)
    returns (r: Result<TargetIds>)
    requires forall t | t in order :: t in reg && t in fan
    modifies db
    ensures Outcome(db.Snapshot(), r) == WriteTables(reg, old(db.Snapshot()), src, order, fan, map[])
  {
    var ids: TargetIds := map[];
    var i := 0;
    while i < |order|
      invariant 0 <= i <= |order|
      invariant WriteTables(reg, db.Snapshot(), src, order[i..], fan, ids)
             == WriteTables(reg, old(db.Snapshot()), src, order, fan, map[])
    {
      var t := order[i];
      var rest := order[i..];
      assert rest[0] == t && rest[1..] == order[i + 1..];
      var values := FillForeignKeys(reg, t, fan[t], ids);
      if t in APP_ASSIGNED {
        var w := WriteAppAssignedRow(db, reg, src, t, values);
        if w.Err? {
          return Err(w.error);
        }
        ids := ids[t := w.value];
      } else if IsReference(reg, t) {
        var w := ResolveReferenceId(db, reg, t, values);
        if w.Err? {
          return Err(w.error);
        }
        ids := ids[t := w.value];
      } else {
        var id := WriteGeneratedRow(db, reg, src, t, values);
        ids := ids[t := id];
      }
      i := i + 1;
    }
    return Ok(ids);
  }
}
