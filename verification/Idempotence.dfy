/** Delivering the same source row twice. */
module Idempotence {
  import opened Outcomes
  import opened SchemaGraph
  import opened Store
  import opened Writer
  import opened ByTable

  /** The first write took an existing row it had no live crosswalk entry for. */
  predicate Matched(reg: Registry, sl: Slice, t: string, values: Row)
    requires t in reg
  {
    && t in APP_ASSIGNED && Pk(reg, t).Some?
    && !(sl.cross.Some? && sl.cross.value in sl.rows)
    && ResolveReference(reg, sl.rows, t, values).Ok?
  }

  lemma GeneratedAgain(reg: Registry, sl: Slice, t: string, values: Row)
    requires KeysOk(reg) && t in reg && Auto(reg, t).Some?
    ensures var (sl1, r) := SliceGenerated(reg, sl, t, values);
            SliceGenerated(reg, sl1, t, values) == (sl1, r)
  {
    var (sl1, r) := SliceGenerated(reg, sl, t, values);
    var id := r.value;
    var pk := Pk(reg, t).value;
    assert sl1.rows[id] + (values - {pk}) == sl1.rows[id];
    assert SliceUpdate(sl1, pk, id, values) == sl1;
  }

  /** After one write, a second of the same values only re-applies them to the same row. */
  lemma AssignedAgain(reg: Registry, sl: Slice, t: string, values: Row)
    requires t in reg && Pk(reg, t).Some? && SliceAssigned(reg, sl, t, values).1.Ok?
    ensures var (sl1, r) := SliceAssigned(reg, sl, t, values);
            && r.value in sl1.rows
            && SliceAssigned(reg, sl1, t, values) == (SliceUpdate(sl1, Pk(reg, t).value, r.value, values), r)
  {
  }

  lemma AssignedSettles(reg: Registry, sl: Slice, t: string, values: Row)
    requires t in reg && t in APP_ASSIGNED && Pk(reg, t).Some? && SliceAssigned(reg, sl, t, values).1.Ok?
    requires !Matched(reg, sl, t, values)
    ensures var (sl1, r) := SliceAssigned(reg, sl, t, values);
            && r.value in sl1.rows && SliceUpdate(sl1, Pk(reg, t).value, r.value, values) == sl1
  {
    var (sl1, r) := SliceAssigned(reg, sl, t, values);
    var pk := Pk(reg, t).value;
    assert sl1.rows[r.value] + (values - {pk}) == sl1.rows[r.value];
  }

  /** What the second write of one table does to its slice. */
  function Again(reg: Registry, sl1: Slice, t: string, id: Value, values: Row): Slice
    requires t in reg
  {
    if t in APP_ASSIGNED && Pk(reg, t).Some? && id in sl1.rows
    then SliceUpdate(sl1, Pk(reg, t).value, id, values) else sl1
  }

  lemma SliceAgain(reg: Registry, sl: Slice, t: string, values: Row)
    requires KeysOk(reg) && t in reg && SliceWrite(reg, sl, t, values).1.Ok?
    ensures var (sl1, r) := SliceWrite(reg, sl, t, values);
            && SliceWrite(reg, sl1, t, values) == (Again(reg, sl1, t, r.value, values), r)
            && (!Matched(reg, sl, t, values) ==> Again(reg, sl1, t, r.value, values) == sl1)
  {
    if t in APP_ASSIGNED {
      AssignedAgain(reg, sl, t, values);
      if !Matched(reg, sl, t, values) {
        AssignedSettles(reg, sl, t, values);
      }
    } else if !IsReference(reg, t) {
      GeneratedAgain(reg, sl, t, values);
    }
  }

  /** A second delivery of the same row returns the same ids, allocates and inserts nothing,
      keeps the crosswalk, and leaves every table as it was, except that a row which the first
      delivery matched rather than inserted now takes the payload. */
  lemma RedeliveryIsIdempotent(reg: Registry, st: State, src: Source, fan: Fanout)
    requires KeysOk(reg) && WriteRow(reg, st, src, fan).r.Ok?
    ensures var first := WriteRow(reg, st, src, fan);
            var second := WriteRow(reg, first.st, src, fan);
            var ids := first.r.value;
            && second.r == Ok(ids) && ids.Keys == fan.Keys
            && second.st.audit == first.st.audit
            && (forall k :: Lookup(second.st, k) == Lookup(first.st, k))
            && (forall s, t | t !in fan || t !in APP_ASSIGNED :: SliceOf(second.st, s, t) == SliceOf(first.st, s, t))
            && (forall t | t in fan :: t in reg &&
                  SliceOf(second.st, src, t) == Again(reg, SliceOf(first.st, src, t), t, ids[t], Filled(reg, fan, ids, t)))
            && (forall t | t in fan && t in reg && !Matched(reg, SliceOf(st, src, t), t, Filled(reg, fan, ids, t)) ::
                  SliceOf(second.st, src, t) == SliceOf(first.st, src, t))
  {
    var first := WriteRow(reg, st, src, fan);
    var ids := first.r.value;
    WriteRowByTable(reg, st, src, fan);
    forall t | t in fan
      ensures SliceWrite(reg, SliceOf(first.st, src, t), t, Filled(reg, fan, ids, t))
           == (Again(reg, SliceOf(first.st, src, t), t, ids[t], Filled(reg, fan, ids, t)), Ok(ids[t]))
      ensures !Matched(reg, SliceOf(st, src, t), t, Filled(reg, fan, ids, t)) ==>
                Again(reg, SliceOf(first.st, src, t), t, ids[t], Filled(reg, fan, ids, t)) == SliceOf(first.st, src, t)
    {
      SliceAgain(reg, SliceOf(st, src, t), t, Filled(reg, fan, ids, t));
    }
    assert Consistent(reg, first.st, src, fan, ids);
    WriteRowByTable(reg, first.st, src, fan);
    CrosswalkKept(reg, first.st, WriteRow(reg, first.st, src, fan).st, src, fan);
    forall s, t | t !in fan || t !in APP_ASSIGNED
      ensures SliceOf(WriteRow(reg, first.st, src, fan).st, s, t) == SliceOf(first.st, s, t)
    {
      if t in fan {
        AnySource(first.st, WriteRow(reg, first.st, src, fan).st, src, s, t);
      }
    }
  }

  lemma AnySource(a: State, b: State, src: Source, s: Source, t: string)
    requires SliceOf(a, src, t) == SliceOf(b, src, t)
    requires forall k :: Lookup(a, k) == Lookup(b, k)
    ensures SliceOf(a, s, t) == SliceOf(b, s, t)
  {
  }

  lemma CrosswalkKept(reg: Registry, a: State, b: State, src: Source, fan: Fanout)
    requires forall t | t in fan :: SliceOf(b, src, t).cross == SliceOf(a, src, t).cross
    requires forall k: CrossKey | k.source != src || k.table !in fan :: Lookup(b, k) == Lookup(a, k)
    ensures forall k :: Lookup(b, k) == Lookup(a, k)
  {
    forall k: CrossKey
      ensures Lookup(b, k) == Lookup(a, k)
    {
      if k.source == src && k.table in fan {
        assert k == CrossKey(src, k.table);
        assert SliceOf(b, src, k.table).cross == SliceOf(a, src, k.table).cross;
      }
    }
  }

  // ------------------------------------------------ the row that was matched

  lemma MatchedSlice(reg: Registry, sl: Slice, t: string, values: Row)
    requires t in reg && Matched(reg, sl, t, values)
    ensures var m := ResolveReference(reg, sl.rows, t, values).value;
            && SliceAssigned(reg, sl, t, values) == (sl.(cross := Some(m)), Ok(m))
            && m in sl.rows
            && (Get(values, Pk(reg, t).value) == Null ==>
                  m in Matching(sl.rows, Criteria(values, Pk(reg, t).value)))
  {
  }

  /** A row matched by its natural key already has the payload's non-null values, so the second
      delivery changes exactly the columns the payload carries as null: it clears them. */
  lemma MatchedRowLosesNullColumns(reg: Registry, sl: Slice, t: string, values: Row, c: string)
    requires t in reg && Matched(reg, sl, t, values)
    requires Get(values, Pk(reg, t).value) == Null
    ensures var (sl1, r) := SliceAssigned(reg, sl, t, values);
            && r.Ok? && r.value in sl1.rows && sl1.rows == sl.rows
            && Get(Again(reg, sl1, t, r.value, values).rows[r.value], c)
               == if c != Pk(reg, t).value && c in values && values[c] == Null then Null
                  else Get(sl.rows[r.value], c)
  {
    MatchedSlice(reg, sl, t, values);
    var pk := Pk(reg, t).value;
    var (sl1, r) := SliceAssigned(reg, sl, t, values);
    var m := r.value;
    if c in values && c != pk && values[c] != Null {
      assert c in Criteria(values, pk) && Criteria(values, pk)[c] == values[c];
      assert Get(sl.rows[m], c) == Criteria(values, pk)[c];
    }
    assert Again(reg, sl1, t, m, values) == SliceUpdate(sl1, pk, m, values);
  }

  /** A row matched because the payload names its key takes every other column of the payload. */
  lemma MatchedByKeyTakesPayload(reg: Registry, sl: Slice, t: string, values: Row, c: string)
    requires t in reg && Matched(reg, sl, t, values)
    requires Get(values, Pk(reg, t).value) != Null
    ensures var (sl1, r) := SliceAssigned(reg, sl, t, values);
            && r == Ok(Get(values, Pk(reg, t).value)) && r.value in sl1.rows && sl1.rows == sl.rows
            && Get(Again(reg, sl1, t, r.value, values).rows[r.value], c)
               == if c != Pk(reg, t).value && c in values then values[c] else Get(sl.rows[r.value], c)
  {
    MatchedSlice(reg, sl, t, values);
  }
}
