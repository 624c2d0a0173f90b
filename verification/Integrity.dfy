/** Writing a source row keeps the target referentially intact. */
module Integrity {
  import opened Outcomes
  import opened SchemaGraph
  import opened Store
  import opened Writer

  /** What is taken from the target schema: a column carries one foreign key at most, a key the
      pipeline assigns is not itself a foreign key, and foreign keys point at primary keys. */
  ghost predicate SchemaOk(reg: Registry)
  {
    && (forall t, f, h | t in reg && f in reg[t].foreignKeys && h in reg[t].foreignKeys ::
          f.column == h.column ==> f == h)
    && (forall t, f | t in reg && f in reg[t].foreignKeys ::
          Some(f.column) != Auto(reg, t) && Some(f.column) != Pk(reg, t))
    && (forall t, f | t in reg && f in reg[t].foreignKeys ::
          f.refTable in reg && Pk(reg, f.refTable) == Some(f.refColumn))
    && KeysOk(reg)
    && (forall t | t in reg && t in APP_ASSIGNED :: IsReference(reg, t))
  }

  /** Every foreign-key value a row carries is null or names a row of the table it points at. */
  ghost predicate RowLive(reg: Registry, st: State, t: string, row: Row)
    requires t in reg
  {
    forall f | f in reg[t].foreignKeys ::
      Get(row, f.column) == Null || Get(row, f.column) in Rows(st, f.refTable)
  }

  ghost predicate Intact(reg: Registry, st: State)
  {
    forall t, k | t in reg && k in Rows(st, t) :: RowLive(reg, st, t, Rows(st, t)[k])
  }

  /** No row is filed under a null key. */
  ghost predicate KeysPresent(st: State)
  {
    forall t :: Null !in Rows(st, t)
  }

  ghost predicate IdsLive(st: State, ids: TargetIds)
  {
    forall p | p in ids :: ids[p] in Rows(st, p)
  }

  ghost predicate FanLive(reg: Registry, st: State, fan: Fanout)
  {
    forall t | t in fan && t in reg :: RowLive(reg, st, t, fan[t])
  }

  /** No row disappears. */
  ghost predicate Grows(st: State, st': State)
  {
    forall t | t in st.tables :: t in st'.tables && st.tables[t].Keys <= st'.tables[t].Keys
  }

  lemma GrowsRows(st: State, st': State, t: string)
    requires Grows(st, st')
    ensures Rows(st, t).Keys <= Rows(st', t).Keys
  {
  }

  lemma GrowsTransitive(a: State, b: State, c: State)
    requires Grows(a, b) && Grows(b, c)
    ensures Grows(a, c)
  {
  }

  lemma RowStaysLive(reg: Registry, st: State, st': State, t: string, row: Row)
    requires t in reg && Grows(st, st') && RowLive(reg, st, t, row)
    ensures RowLive(reg, st', t, row)
  {
    forall f | f in reg[t].foreignKeys
      ensures Get(row, f.column) == Null || Get(row, f.column) in Rows(st', f.refTable)
    {
      GrowsRows(st, st', f.refTable);
    }
  }

  lemma PutKeepsIntact(reg: Registry, st: State, t: string, key: Value, row: Row)
    requires Intact(reg, st) && (t in reg ==> RowLive(reg, st, t, row))
    ensures Intact(reg, PutRow(st, t, key, row)) && Grows(st, PutRow(st, t, key, row))
    ensures key in Rows(PutRow(st, t, key, row), t)
  {
    var st' := PutRow(st, t, key, row);
    assert Grows(st, st');
    forall u, k | u in reg && k in Rows(st', u)
      ensures RowLive(reg, st', u, Rows(st', u)[k])
    {
      if u == t && k == key {
        RowStaysLive(reg, st, st', t, row);
      } else {
        assert Rows(st', u)[k] == Rows(st, u)[k];
        RowStaysLive(reg, st, st', u, Rows(st, u)[k]);
      }
    }
  }

  /** Integrity reads the rows alone. */
  lemma SameTables(reg: Registry, a: State, b: State)
    requires a.tables == b.tables
    ensures Intact(reg, a) ==> Intact(reg, b)
    ensures Grows(a, b)
  {
    if Intact(reg, a) {
      forall t, k | t in reg && k in Rows(b, t)
        ensures RowLive(reg, b, t, Rows(b, t)[k])
      {
        assert RowLive(reg, a, t, Rows(a, t)[k]);
      }
    }
  }

  // ------------------------------------------------------------ foreign keys

  lemma FillKeepsLive(reg: Registry, st: State, t: string, f: ForeignKey, values: Row, ids: TargetIds)
    requires SchemaOk(reg) && t in reg && f in reg[t].foreignKeys
    requires RowLive(reg, st, t, values) && IdsLive(st, ids)
    ensures RowLive(reg, st, t, FillForeignKey(f, t, values, ids))
  {
    forall h | h in reg[t].foreignKeys
      ensures Get(FillForeignKey(f, t, values, ids), h.column) == Null
           || Get(FillForeignKey(f, t, values, ids), h.column) in Rows(st, h.refTable)
    {
      assert Get(values, h.column) == Null || Get(values, h.column) in Rows(st, h.refTable);
      if h.column == f.column {
        assert h == f;
      }
    }
  }

  lemma {:induction false} ApplyKeepsLive(reg: Registry, st: State, t: string, fks: seq<ForeignKey>, values: Row, ids: TargetIds)
    requires SchemaOk(reg) && t in reg && forall f | f in fks :: f in reg[t].foreignKeys
    requires RowLive(reg, st, t, values) && IdsLive(st, ids)
    ensures RowLive(reg, st, t, ApplyForeignKeys(fks, t, values, ids))
    decreases |fks|
  {
    if fks != [] {
      FillKeepsLive(reg, st, t, fks[0], values, ids);
      ApplyKeepsLive(reg, st, t, fks[1..], FillForeignKey(fks[0], t, values, ids), ids);
    }
  }

  // --------------------------------------------------------------- one table

  lemma UpdateKeepsIntact(reg: Registry, st: State, t: string, pk: string, key: Value, values: Row)
    requires t in reg && Intact(reg, st) && RowLive(reg, st, t, values) && key in Rows(st, t)
    ensures Intact(reg, UpdateRow(st, t, pk, key, values)) && Grows(st, UpdateRow(st, t, pk, key, values))
    ensures key in Rows(UpdateRow(st, t, pk, key, values), t)
  {
    var row := Rows(st, t)[key];
    var merged := row + (values - {pk});
    assert RowLive(reg, st, t, row);
    forall f | f in reg[t].foreignKeys
      ensures Get(merged, f.column) == Null || Get(merged, f.column) in Rows(st, f.refTable)
    {
      assert Get(merged, f.column) == Get(row, f.column) || Get(merged, f.column) == Get(values, f.column);
    }
    PutKeepsIntact(reg, st, t, key, merged);
  }

  lemma KeyedRowLive(reg: Registry, st: State, t: string, column: string, id: Value, values: Row)
    requires t in reg && RowLive(reg, st, t, values)
    requires forall f | f in reg[t].foreignKeys :: f.column != column
    ensures RowLive(reg, st, t, values[column := id])
  {
    forall f | f in reg[t].foreignKeys
      ensures Get(values[column := id], f.column) == Get(values, f.column)
    {
    }
  }

  lemma ResolvedExists(reg: Registry, st: State, t: string, values: Row)
    requires t in reg && ResolveReference(reg, Rows(st, t), t, values).Ok?
    ensures ResolveReference(reg, Rows(st, t), t, values).value in Rows(st, t)
  {
  }

  /** What one table's write keeps and delivers. */
  ghost predicate StepSafe(reg: Registry, st: State, t: string, o: Outcome<Value>)
  {
    Intact(reg, o.st) && Grows(st, o.st) && (o.r.Ok? ==> o.r.value in Rows(o.st, t))
  }

  lemma RecordedSafe(reg: Registry, st: State, st1: State, t: string, k: CrossKey, id: Value)
    requires Intact(reg, st1) && Grows(st, st1) && id in Rows(st1, t)
    ensures StepSafe(reg, st, t, Outcome(Record(st1, k, id), Ok(id)))
  {
    SameTables(reg, st1, Record(st1, k, id));
  }

  lemma GeneratedSafe(reg: Registry, st: State, src: Source, t: string, values: Row)
    requires SchemaOk(reg) && t in reg && Auto(reg, t).Some?
    requires Intact(reg, st) && RowLive(reg, st, t, values)
    ensures StepSafe(reg, st, t, WriteGenerated(reg, st, src, t, values))
  {
    var k := CrossKey(src, t);
    if k in st.crosswalk && st.crosswalk[k] in Rows(st, t) {
      UpdateKeepsIntact(reg, st, t, Pk(reg, t).value, st.crosswalk[k], values);
    } else {
      var auto := Auto(reg, t).value;
      var id := Num(NextAuto(st, t));
      KeyedRowLive(reg, st, t, auto, id, values);
      PutKeepsIntact(reg, st, t, id, values[auto := id]);
      var put := PutRow(st, t, id, values[auto := id]);
      var inserted := InsertGenerated(st, t, auto, values);
      SameTables(reg, put, inserted);
      RecordedSafe(reg, st, inserted, t, k, id);
    }
  }

  lemma CreatedSafe(reg: Registry, st: State, k: CrossKey, pk: string, start: int, values: Row)
    requires SchemaOk(reg) && k.table in reg && Pk(reg, k.table) == Some(pk)
    requires Intact(reg, st) && RowLive(reg, st, k.table, values)
    ensures StepSafe(reg, st, k.table, CreateAssigned(st, k, pk, start, values))
  {
    var id := Num(NextAssigned(st, k.table, start));
    var st1 := Allocate(st, k.table, start);
    SameTables(reg, st, st1);
    if id !in Rows(st, k.table) {
      KeyedRowLive(reg, st, k.table, pk, id, values);
      PutKeepsIntact(reg, st1, k.table, id, values[pk := id]);
      RecordedSafe(reg, st, PutRow(st1, k.table, id, values[pk := id]), k.table, k, id);
    }
  }

  lemma AssignedSafe(reg: Registry, st: State, src: Source, t: string, values: Row)
    requires SchemaOk(reg) && t in reg
    requires Intact(reg, st) && RowLive(reg, st, t, values)
    ensures StepSafe(reg, st, t, WriteAppAssigned(reg, st, src, t, values))
  {
    var k := CrossKey(src, t);
    if Pk(reg, t).Some? {
      if k in st.crosswalk && st.crosswalk[k] in Rows(st, t) {
        UpdateKeepsIntact(reg, st, t, Pk(reg, t).value, st.crosswalk[k], values);
      } else if ResolveReference(reg, Rows(st, t), t, values).Ok? {
        RecordedSafe(reg, st, st, t, k, ResolveReference(reg, Rows(st, t), t, values).value);
      } else {
        CreatedSafe(reg, st, k, Pk(reg, t).value, ID_SEQUENCE_START, values);
      }
    }
  }

  lemma WriteOneSafe(reg: Registry, st: State, src: Source, t: string, values: Row)
    requires SchemaOk(reg) && t in reg
    requires Intact(reg, st) && RowLive(reg, st, t, values)
    ensures StepSafe(reg, st, t, WriteOne(reg, st, src, t, values))
  {
    if t in APP_ASSIGNED {
      AssignedSafe(reg, st, src, t, values);
    } else if !IsReference(reg, t) {
      GeneratedSafe(reg, st, src, t, values);
    }
  }

  // ------------------------------------------------------------ the whole row

  lemma {:induction false} WriteTablesSafe(reg: Registry, st: State, src: Source, order: seq<string>, fan: Fanout, ids: TargetIds)
    requires SchemaOk(reg) && forall t | t in order :: t in reg && t in fan
    requires Intact(reg, st) && FanLive(reg, st, fan) && IdsLive(st, ids)
    ensures Intact(reg, WriteTables(reg, st, src, order, fan, ids).st)
    ensures Grows(st, WriteTables(reg, st, src, order, fan, ids).st)
    ensures WriteTables(reg, st, src, order, fan, ids).r.Ok? ==>
              IdsLive(WriteTables(reg, st, src, order, fan, ids).st, WriteTables(reg, st, src, order, fan, ids).r.value)
    decreases |order|
  {
    if order != [] {
      var t := order[0];
      var values := ApplyForeignKeys(reg[t].foreignKeys, t, fan[t], ids);
      ApplyKeepsLive(reg, st, t, reg[t].foreignKeys, fan[t], ids);
      var o := WriteOne(reg, st, src, t, values);
      WriteOneSafe(reg, st, src, t, values);
      if o.r.Ok? {
        StillLive(reg, st, o.st, fan, ids);
        WriteTablesSafe(reg, o.st, src, order[1..], fan, ids[t := o.r.value]);
        GrowsTransitive(st, o.st, WriteTables(reg, o.st, src, order[1..], fan, ids[t := o.r.value]).st);
      }
    }
  }

  lemma StillLive(reg: Registry, st: State, st': State, fan: Fanout, ids: TargetIds)
    requires Grows(st, st') && FanLive(reg, st, fan) && IdsLive(st, ids)
    ensures FanLive(reg, st', fan) && IdsLive(st', ids)
  {
    forall t | t in fan && t in reg
      ensures RowLive(reg, st', t, fan[t])
    {
      RowStaysLive(reg, st, st', t, fan[t]);
    }
    forall p | p in ids
      ensures ids[p] in Rows(st', p)
    {
      GrowsRows(st, st', p);
    }
  }

  /** From an intact target, whatever the crosswalk holds, a write of values whose own foreign
      keys are null or live leaves the target intact, fails or not, loses no row, and the ids it
      returns name rows that exist. */
  lemma WriteRowKeepsIntact(reg: Registry, st: State, src: Source, fan: Fanout)
    requires SchemaOk(reg) && Intact(reg, st) && FanLive(reg, st, fan)
    ensures Intact(reg, WriteRow(reg, st, src, fan).st)
    ensures Grows(st, WriteRow(reg, st, src, fan).st)
    ensures WriteRow(reg, st, src, fan).r.Ok? ==>
              IdsLive(WriteRow(reg, st, src, fan).st, WriteRow(reg, st, src, fan).r.value)
  {
    if Unknown(reg, fan) == {} && Order(reg, fan.Keys).Ok? {
      OrderInside(reg, fan.Keys);
      assert forall t | t in fan :: t !in Unknown(reg, fan);
      WriteTablesSafe(reg, st, src, Order(reg, fan.Keys).value, fan, map[]);
    }
  }
}
