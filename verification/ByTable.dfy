/** A write across many tables, taken apart: each table's part depends on that table alone
    and on the ids of its parents, and no part disturbs another. */
module ByTable {
  import opened Ordering
  import opened Outcomes
  import opened Dag
  import opened SchemaGraph
  import opened Store
  import opened Writer

  /** What a write of `src` into `t` reads and changes. */
  datatype Slice = Slice(rows: map<Value, Row>, next: int, handedOut: Option<int>, cross: Option<Value>)

  function SliceOf(st: State, src: Source, t: string): Slice
  {
    Slice(Rows(st, t), NextAuto(st, t),
          if t in st.sequence then Some(st.sequence[t]) else None,
          Lookup(st, CrossKey(src, t)))
  }

  /** One table's part, on its slice. */
  function SliceWrite(reg: Registry, sl: Slice, t: string, values: Row): (Slice, Result<Value>)
    requires t in reg
  {
    if t in APP_ASSIGNED then SliceAssigned(reg, sl, t, values)
    else if IsReference(reg, t) then (sl, ResolveReference(reg, sl.rows, t, values))
    else SliceGenerated(reg, sl, t, values)
  }

  function SliceUpdate(sl: Slice, pk: string, key: Value, values: Row): Slice
    requires key in sl.rows
  {
    sl.(rows := sl.rows[key := sl.rows[key] + (values - {pk})])
  }

  function SliceGenerated(reg: Registry, sl: Slice, t: string, values: Row): (Slice, Result<Value>)
    requires t in reg && Auto(reg, t).Some?
  {
    if sl.cross.Some? && Pk(reg, t).Some? && sl.cross.value in sl.rows then
      (SliceUpdate(sl, Pk(reg, t).value, sl.cross.value, values), Ok(sl.cross.value))
    else
      var id := Num(sl.next);
      (Slice(sl.rows[id := values[Auto(reg, t).value := id]], sl.next + 1, sl.handedOut, Some(id)), Ok(id))
  }

  function SliceAssigned(reg: Registry, sl: Slice, t: string, values: Row): (Slice, Result<Value>)
    requires t in reg
  {
    match Pk(reg, t)
    case None => (sl, Err(NoPrimaryKey(t)))
    case Some(pk) =>
      if sl.cross.Some? && sl.cross.value in sl.rows then
        (SliceUpdate(sl, pk, sl.cross.value, values), Ok(sl.cross.value))
      else
        match ResolveReference(reg, sl.rows, t, values)
        case Ok(matched) => (sl.(cross := Some(matched)), Ok(matched))
        case Err(_) => SliceCreate(sl, t, pk, ID_SEQUENCE_START, values)
  }

  function SliceCreate(sl: Slice, t: string, pk: string, start: int, values: Row): (Slice, Result<Value>)
  {
    var n := if sl.handedOut.Some? then sl.handedOut.value + 1 else start;
    if Num(n) in sl.rows then (sl.(handedOut := Some(n)), Err(DuplicateKey(t)))
    else (Slice(sl.rows[Num(n) := values[pk := Num(n)]], sl.next, Some(n), Some(Num(n))), Ok(Num(n)))
  }

  /** `o` is what writing the slice of `st` gives, and nothing else changed. */
  ghost predicate Local(st: State, o: Outcome<Value>, src: Source, t: string, w: (Slice, Result<Value>))
  {
    SliceOf(o.st, src, t) == w.0 && o.r == w.1 && OnlyTable(st, o.st, src, t)
  }

  /** Nothing but table `t` and its crosswalk entry differs. */
  ghost predicate OnlyTable(a: State, b: State, src: Source, t: string)
  {
    && (forall u, s | u != t :: SliceOf(a, s, u) == SliceOf(b, s, u))
    && (forall k | k != CrossKey(src, t) :: Lookup(a, k) == Lookup(b, k))
    && a.audit == b.audit
  }

  lemma UpdateLocal(st: State, src: Source, t: string, pk: string, key: Value, values: Row)
    requires key in Rows(st, t)
    ensures Local(st, Outcome(UpdateRow(st, t, pk, key, values), Ok(key)), src, t,
                  (SliceUpdate(SliceOf(st, src, t), pk, key, values), Ok(key)))
  {
  }

  lemma GeneratedLocal(reg: Registry, st: State, src: Source, t: string, values: Row)
    requires t in reg && Auto(reg, t).Some?
    ensures Local(st, WriteGenerated(reg, st, src, t, values), src, t, SliceGenerated(reg, SliceOf(st, src, t), t, values))
  {
    var k := CrossKey(src, t);
    if k in st.crosswalk && Pk(reg, t).Some? && st.crosswalk[k] in Rows(st, t) {
      UpdateLocal(st, src, t, Pk(reg, t).value, st.crosswalk[k], values);
    } else {
      InsertLocal(st, src, t, Auto(reg, t).value, values);
    }
  }

  lemma InsertLocal(st: State, src: Source, t: string, auto: string, values: Row)
    ensures var id := Num(NextAuto(st, t));
            Local(st, Outcome(Record(InsertGenerated(st, t, auto, values), CrossKey(src, t), id), Ok(id)), src, t,
                  (Slice(Rows(st, t)[id := values[auto := id]], NextAuto(st, t) + 1,
                         SliceOf(st, src, t).handedOut, Some(id)), Ok(id)))
  {
  }

  lemma RecordLocal(st: State, src: Source, t: string, id: Value)
    ensures Local(st, Outcome(Record(st, CrossKey(src, t), id), Ok(id)), src, t,
                  (SliceOf(st, src, t).(cross := Some(id)), Ok(id)))
  {
  }

  lemma CreateLocal(st: State, src: Source, t: string, pk: string, start: int, values: Row)
    ensures Local(st, CreateAssigned(st, CrossKey(src, t), pk, start, values), src, t,
                  SliceCreate(SliceOf(st, src, t), t, pk, start, values))
  {
    AllocateLocal(st, src, t, start);
    var id := Num(NextAssigned(st, t, start));
    PutRecordLocal(Allocate(st, t, start), src, t, id, values[pk := id]);
  }

  lemma AllocateLocal(st: State, src: Source, t: string, start: int)
    ensures SliceOf(Allocate(st, t, start), src, t)
         == SliceOf(st, src, t).(handedOut := Some(NextAssigned(st, t, start)))
    ensures OnlyTable(st, Allocate(st, t, start), src, t)
  {
  }

  lemma PutRecordLocal(st: State, src: Source, t: string, id: Value, row: Row)
    ensures var o := Record(PutRow(st, t, id, row), CrossKey(src, t), id);
            && SliceOf(o, src, t) == SliceOf(st, src, t).(rows := Rows(st, t)[id := row], cross := Some(id))
            && OnlyTable(st, o, src, t)
  {
  }

  lemma AssignedLocal(reg: Registry, st: State, src: Source, t: string, values: Row)
    requires t in reg
    ensures Local(st, WriteAppAssigned(reg, st, src, t, values), src, t, SliceAssigned(reg, SliceOf(st, src, t), t, values))
  {
    if Pk(reg, t).Some? {
      var pk := Pk(reg, t).value;
      var k := CrossKey(src, t);
      if k in st.crosswalk && st.crosswalk[k] in Rows(st, t) {
        UpdateLocal(st, src, t, pk, st.crosswalk[k], values);
      } else if ResolveReference(reg, Rows(st, t), t, values).Ok? {
        RecordLocal(st, src, t, ResolveReference(reg, Rows(st, t), t, values).value);
      } else {
        CreateLocal(st, src, t, pk, ID_SEQUENCE_START, values);
      }
    }
  }

  /** The part of one table is determined by its slice and disturbs no other. */
  lemma WriteOneLocal(reg: Registry, st: State, src: Source, t: string, values: Row)
    requires t in reg
    ensures Local(st, WriteOne(reg, st, src, t, values), src, t, SliceWrite(reg, SliceOf(st, src, t), t, values))
  {
    if t in APP_ASSIGNED {
      AssignedLocal(reg, st, src, t, values);
    } else if !IsReference(reg, t) {
      GeneratedLocal(reg, st, src, t, values);
    }
  }

  // ----------------------------------------------------- which parents feed whom

  /** Each table's parents within `all` come before it. */
  ghost predicate Feeds(g: Graph, all: set<string>, done: set<string>, order: seq<string>)
    decreases |order|
  {
    order == [] || (Up(g, order[0]) * all <= done && Feeds(g, all, done + {order[0]}, order[1..]))
  }

  lemma {:induction false} PeelFeeds(g: Graph, all: set<string>, left: set<string>)
    requires left <= all && Stuck(g, left) == {}
    ensures Feeds(g, all, all - left, Peel(g, left))
    decreases |left|
  {
    if Ready(g, left) != {} {
      var n := Least(Ready(g, left));
      PeelFeeds(g, all, left - {n});
      assert all - (left - {n}) == (all - left) + {n};
      assert Up(g, n) * left == {};
      assert Peel(g, left) == [n] + Peel(g, left - {n});
      assert Peel(g, left)[1..] == Peel(g, left - {n});
    }
  }

  /** The values a table is written with: its own, foreign keys filled from the row's ids. */
  function Filled(reg: Registry, fan: Fanout, ids: TargetIds, t: string): Row
    requires t in reg && t in fan
  {
    ApplyForeignKeys(reg[t].foreignKeys, t, fan[t], ids)
  }

  /** The same ids for the parents of `t`. */
  ghost predicate SameParents(reg: Registry, t: string, a: TargetIds, b: TargetIds)
  {
    forall p | p in Up(GraphOf(reg), t) :: (p in a <==> p in b) && (p in a ==> a[p] == b[p])
  }

  lemma {:induction false} SameParentsSameValues(reg: Registry, t: string, fks: seq<ForeignKey>, values: Row, a: TargetIds, b: TargetIds)
    requires t in reg && SameParents(reg, t, a, b)
    requires forall f | f in fks :: f in reg[t].foreignKeys
    ensures ApplyForeignKeys(fks, t, values, a) == ApplyForeignKeys(fks, t, values, b)
    decreases |fks|
  {
    if fks != [] {
      assert fks[0] in reg[t].foreignKeys;
      RefTablesMember(reg[t].foreignKeys, fks[0].refTable);
      assert fks[0].refTable != t ==> fks[0].refTable in Up(GraphOf(reg), t);
      assert FillForeignKey(fks[0], t, values, a) == FillForeignKey(fks[0], t, values, b);
      SameParentsSameValues(reg, t, fks[1..], FillForeignKey(fks[0], t, values, a), a, b);
    }
  }

  // -------------------------------------------------------------- taking apart

  /** `ids` is what each table, written from `st` with its payload under `ids`, returns. */
  ghost predicate Consistent(reg: Registry, st: State, src: Source, fan: Fanout, ids: TargetIds)
  {
    && ids.Keys == fan.Keys
    && forall t | t in fan ::
         t in reg && SliceWrite(reg, SliceOf(st, src, t), t, Filled(reg, fan, ids, t)).1 == Ok(ids[t])
  }

  ghost predicate Agrees(small: TargetIds, big: TargetIds, keys: set<string>)
  {
    small.Keys == keys && keys <= big.Keys && forall p | p in keys :: small[p] == big[p]
  }

  lemma FilledNow(reg: Registry, fan: Fanout, ids: TargetIds, final: TargetIds, done: set<string>, t: string)
    requires t in reg && t in fan && final.Keys == fan.Keys
    requires Agrees(ids, final, done) && Up(GraphOf(reg), t) * fan.Keys <= done
    ensures ApplyForeignKeys(reg[t].foreignKeys, t, fan[t], ids) == Filled(reg, fan, final, t)
  {
    forall p | p in Up(GraphOf(reg), t)
      ensures (p in ids <==> p in final) && (p in ids ==> ids[p] == final[p])
    {
      assert p in fan ==> p in Up(GraphOf(reg), t) * fan.Keys;
    }
    SameParentsSameValues(reg, t, reg[t].foreignKeys, fan[t], ids, final);
  }

  /** Tables not yet written still have the slices they had at the start. */
  ghost predicate Untouched(a: State, b: State, src: Source, order: seq<string>)
  {
    forall t | t in order :: SliceOf(a, src, t) == SliceOf(b, src, t)
  }

  lemma StepUntouched(reg: Registry, st: State, now: State, src: Source, order: seq<string>, values: Row)
    requires order != [] && NoDup(order) && order[0] in reg && Untouched(st, now, src, order)
    ensures Untouched(st, WriteOne(reg, now, src, order[0], values).st, src, order[1..])
  {
    WriteOneLocal(reg, now, src, order[0], values);
    forall t | t in order[1..]
      ensures SliceOf(st, src, t) == SliceOf(WriteOne(reg, now, src, order[0], values).st, src, t)
    {
      assert t in order && t != order[0];
    }
  }

  /** Later tables leave an earlier one alone. */
  lemma {:induction false} WriteTablesTouchesOnly(reg: Registry, st: State, src: Source, order: seq<string>, fan: Fanout, ids: TargetIds)
    requires forall t | t in order :: t in reg && t in fan
    ensures forall u, s | u !in order :: SliceOf(WriteTables(reg, st, src, order, fan, ids).st, s, u) == SliceOf(st, s, u)
    ensures forall k: CrossKey | k.source != src || k.table !in order ::
              Lookup(WriteTables(reg, st, src, order, fan, ids).st, k) == Lookup(st, k)
    ensures WriteTables(reg, st, src, order, fan, ids).st.audit == st.audit
    decreases |order|
  {
    if order != [] {
      var t := order[0];
      var values := ApplyForeignKeys(reg[t].foreignKeys, t, fan[t], ids);
      var o := WriteOne(reg, st, src, t, values);
      WriteOneLocal(reg, st, src, t, values);
      if o.r.Ok? {
        WriteTablesTouchesOnly(reg, o.st, src, order[1..], fan, ids[t := o.r.value]);
      }
    }
  }

  /** What is known half way: the tables still to write, and the ids so far. */
  ghost predicate Midway(reg: Registry, order: seq<string>, fan: Fanout, done: set<string>)
  {
    && (forall u | u in order :: u in reg && u in fan)
    && NoDup(order) && done !! Elements(order) && done + Elements(order) == fan.Keys
    && Feeds(GraphOf(reg), fan.Keys, done, order)
  }

  lemma MidwayStep(reg: Registry, order: seq<string>, fan: Fanout, done: set<string>)
    requires Midway(reg, order, fan, done) && order != []
    ensures Midway(reg, order[1..], fan, done + {order[0]})
    ensures order[0] !in done && Up(GraphOf(reg), order[0]) * fan.Keys <= done && done <= fan.Keys
  {
    assert order == [order[0]] + order[1..];
    ElementsCons(order[0], order[1..]);
    assert order[0] in Elements(order);
  }

  /** A successful run returns ids consistent with every table's own part. */
  lemma {:induction false} RunIsConsistent(reg: Registry, st: State, now: State, src: Source, order: seq<string>,
                                           fan: Fanout, ids: TargetIds, done: set<string>, t: string)
    requires Midway(reg, order, fan, done) && Untouched(st, now, src, order)
    requires ids.Keys == done && WriteTables(reg, now, src, order, fan, ids).r.Ok?
    requires t in order
    ensures var o := WriteTables(reg, now, src, order, fan, ids);
            && o.r.value.Keys == fan.Keys && Agrees(ids, o.r.value, done)
            && (SliceOf(o.st, src, t), Ok(o.r.value[t]))
               == SliceWrite(reg, SliceOf(st, src, t), t, Filled(reg, fan, o.r.value, t))
    decreases |order|
  {
    var u := order[0];
    var rest := order[1..];
    var values := ApplyForeignKeys(reg[u].foreignKeys, u, fan[u], ids);
    var o := WriteOne(reg, now, src, u, values);
    MidwayStep(reg, order, fan, done);
    StepUntouched(reg, st, now, src, order, values);
    var ids' := ids[u := o.r.value];
    IdsKept(reg, o.st, src, rest, fan, ids', done + {u});
    var final := WriteTables(reg, o.st, src, rest, fan, ids').r.value;
    if t == u {
      FilledNow(reg, fan, ids, final, done, u);
      WriteOneLocal(reg, now, src, u, values);
      WriteTablesTouchesOnly(reg, o.st, src, rest, fan, ids');
    } else {
      RunIsConsistent(reg, st, o.st, src, rest, fan, ids', done + {u}, t);
    }
  }

  lemma {:induction false} IdsKept(reg: Registry, now: State, src: Source, order: seq<string>, fan: Fanout, ids: TargetIds, done: set<string>)
    requires Midway(reg, order, fan, done)
    requires ids.Keys == done && WriteTables(reg, now, src, order, fan, ids).r.Ok?
    ensures WriteTables(reg, now, src, order, fan, ids).r.value.Keys == fan.Keys
    ensures Agrees(ids, WriteTables(reg, now, src, order, fan, ids).r.value, done)
    decreases |order|
  {
    if order == [] {
      assert Elements(order) == {};
    } else {
      var u := order[0];
      var rest := order[1..];
      MidwayStep(reg, order, fan, done);
      var o := WriteOne(reg, now, src, u, ApplyForeignKeys(reg[u].foreignKeys, u, fan[u], ids));
      IdsKept(reg, o.st, src, rest, fan, ids[u := o.r.value], done + {u});
    }
  }

  /** Ids consistent with every table's own part are what a run returns. */
  lemma {:induction false} ConsistentRuns(reg: Registry, st: State, now: State, src: Source, order: seq<string>,
                                          fan: Fanout, ids: TargetIds, done: set<string>, final: TargetIds)
    requires Midway(reg, order, fan, done) && Untouched(st, now, src, order)
    requires Consistent(reg, st, src, fan, final) && Agrees(ids, final, done)
    ensures WriteTables(reg, now, src, order, fan, ids).r == Ok(final)
    decreases |order|
  {
    if order == [] {
      assert Elements(order) == {};
      assert ids == final;
    } else {
      var u := order[0];
      MidwayStep(reg, order, fan, done);
      var values := ApplyForeignKeys(reg[u].foreignKeys, u, fan[u], ids);
      ConsistentStep(reg, st, now, src, u, fan, ids, done, final);
      StepUntouched(reg, st, now, src, order, values);
      AgreesGrow(ids, final, done, u);
      ConsistentRuns(reg, st, WriteOne(reg, now, src, u, values).st, src, order[1..], fan,
                     ids[u := final[u]], done + {u}, final);
    }
  }

  lemma AgreesGrow(ids: TargetIds, final: TargetIds, done: set<string>, u: string)
    requires Agrees(ids, final, done) && u in final
    ensures Agrees(ids[u := final[u]], final, done + {u})
  {
  }

  lemma ConsistentStep(reg: Registry, st: State, now: State, src: Source, u: string,
                       fan: Fanout, ids: TargetIds, done: set<string>, final: TargetIds)
    requires u in reg && u in fan && u !in done && SliceOf(st, src, u) == SliceOf(now, src, u)
    requires Up(GraphOf(reg), u) * fan.Keys <= done && done <= fan.Keys
    requires Consistent(reg, st, src, fan, final) && Agrees(ids, final, done)
    ensures WriteOne(reg, now, src, u, ApplyForeignKeys(reg[u].foreignKeys, u, fan[u], ids)).r == Ok(final[u])
  {
    FilledNow(reg, fan, ids, final, done, u);
    WriteOneLocal(reg, now, src, u, Filled(reg, fan, final, u));
    assert u in final;
  }

  /** The facts about a known, acyclic fan-out that the lemmas above start from. */
  lemma StartOrder(reg: Registry, fan: Fanout)
    requires Unknown(reg, fan) == {} && Order(reg, fan.Keys).Ok?
    ensures Midway(reg, Order(reg, fan.Keys).value, fan, {})
    ensures forall t :: t in Order(reg, fan.Keys).value <==> t in fan
  {
    OrderInside(reg, fan.Keys);
    PeelFeeds(GraphOf(reg), fan.Keys, fan.Keys);
    assert fan.Keys - fan.Keys == {};
    forall t | t in Order(reg, fan.Keys).value
      ensures t in reg
    {
      assert t !in Unknown(reg, fan);
    }
    assert {} + Elements(Order(reg, fan.Keys).value) == fan.Keys;
    assert forall t :: t in Order(reg, fan.Keys).value <==> t in Elements(Order(reg, fan.Keys).value);
  }

  /** A write succeeds exactly when its tables' own parts, each taken from the state before
      the write, do; then it returns their ids, leaves each table as its own part leaves it
      and everything else as it was. */
  lemma WriteRowByTable(reg: Registry, st: State, src: Source, fan: Fanout)
    requires Unknown(reg, fan) == {} && Order(reg, fan.Keys).Ok?
    ensures var o := WriteRow(reg, st, src, fan);
            o.r.Ok? ==>
              && Consistent(reg, st, src, fan, o.r.value)
              && forall t | t in fan ::
                   SliceOf(o.st, src, t) == SliceWrite(reg, SliceOf(st, src, t), t, Filled(reg, fan, o.r.value, t)).0
    ensures forall ids | Consistent(reg, st, src, fan, ids) :: WriteRow(reg, st, src, fan).r == Ok(ids)
    ensures var o := WriteRow(reg, st, src, fan);
            && (forall u, s | u !in fan :: SliceOf(o.st, s, u) == SliceOf(st, s, u))
            && (forall k: CrossKey | k.source != src || k.table !in fan :: Lookup(o.st, k) == Lookup(st, k))
            && o.st.audit == st.audit
  {
    StartOrder(reg, fan);
    var order := Order(reg, fan.Keys).value;
    WriteTablesTouchesOnly(reg, st, src, order, fan, map[]);
    if WriteRow(reg, st, src, fan).r.Ok? {
      IdsKept(reg, st, src, order, fan, map[], {});
      forall t | t in fan
        ensures (SliceOf(WriteRow(reg, st, src, fan).st, src, t), Ok(WriteRow(reg, st, src, fan).r.value[t]))
             == SliceWrite(reg, SliceOf(st, src, t), t, Filled(reg, fan, WriteRow(reg, st, src, fan).r.value, t))
      {
        RunIsConsistent(reg, st, st, src, order, fan, map[], {}, t);
      }
    }
    forall ids | Consistent(reg, st, src, fan, ids)
      ensures WriteRow(reg, st, src, fan).r == Ok(ids)
    {
      ConsistentRuns(reg, st, st, src, order, fan, map[], {}, ids);
    }
  }
}
