/** When the generic writer and the first writer do the same to a whole source row. */
module GenericAgreement {
  import opened Outcomes
  import opened SchemaGraph
  import opened Store
  import opened Writer
  import opened Integrity
  import opened ByTable
  import opened GenericWriter

  /** The condition, table by table: a lookup always; a carried key only for a recorded app-assigned row or
      one that has nothing left to take; else no stale entry, which does not matter for a reference table. */
  predicate Agreeing(reg: Registry, st: State, src: Source, t: string, values: Row)
    requires t in reg
  {
    if t in LRMIS.referenceOnly then true
    else if !CarriesKey(reg, t, values) then EntryLive(st, src, t) || (t !in APP_ASSIGNED && IsReference(reg, t))
    else if t in APP_ASSIGNED then CrossKey(src, t) in st.crosswalk && EntryLive(st, src, t)
    else Settled(st, src, t, Pk(reg, t).value, values)
  }

  lemma OneAgreesIff(reg: Registry, st: State, src: Source, t: string, values: Row)
    requires SchemaOk(reg) && LookupsAreReferences(reg) && t in reg && (t in APP_ASSIGNED ==> Pk(reg, t).Some?)
    ensures GenericOne(reg, LRMIS, st, src, t, values) == WriteOne(reg, st, src, t, values) <==> Agreeing(reg, st, src, t, values)
  {
    assert APP_ASSIGNED == LRMIS.appAssigned && APP_ASSIGNED !! LRMIS.referenceOnly;
    if CarriesKey(reg, t, values) {
      CarriedKeysAgreeIff(reg, st, src, t, values);
    } else {
      TablesAgreeIffEntryLive(reg, st, src, t, values);
    }
  }

  // ------------------------------------------------------- one table at a time

  /** A table's part of the generic writer leaves every other table alone, too. */
  lemma GenericLocal(reg: Registry, st: State, src: Source, t: string, values: Row)
    requires t in reg
    ensures OnlyTable(st, GenericOne(reg, LRMIS, st, src, t, values).st, src, t)
  {
    if t !in LRMIS.referenceOnly {
      if CarriesKey(reg, t, values) {
        CarriedLocal(st, src, t, Pk(reg, t).value, values);
      } else if IsAppAssigned(reg, LRMIS, t) {
        AllocatedLocal(reg, st, src, t, values);
      } else if !IsReference(reg, t) {
        TrustingLocal(reg, st, src, t, values);
      }
    }
  }

  lemma UpdatedLocal(st: State, src: Source, t: string, pk: string, key: Value, values: Row)
    ensures OnlyTable(st, UpdateRow(st, t, pk, key, values), src, t)
  {
    if key in Rows(st, t) {
      UpdateLocal(st, src, t, pk, key, values);
    }
  }

  lemma CarriedLocal(st: State, src: Source, t: string, pk: string, values: Row)
    requires pk in values
    ensures OnlyTable(st, WriteCarried(st, src, t, pk, values).st, src, t)
  {
    var k := CrossKey(src, t);
    if k in st.crosswalk {
      UpdatedLocal(st, src, t, pk, st.crosswalk[k], values);
    } else {
      PutRecordLocal(st, src, t, values[pk], values);
    }
  }

  lemma AllocatedLocal(reg: Registry, st: State, src: Source, t: string, values: Row)
    requires t in reg
    ensures OnlyTable(st, WriteAllocated(reg, LRMIS, st, src, t, values).st, src, t)
  {
    var k := CrossKey(src, t);
    if Pk(reg, t).None? {
      AllocateLocal(st, src, t, LRMIS.idStart);
    } else if k in st.crosswalk {
      UpdatedLocal(st, src, t, Pk(reg, t).value, st.crosswalk[k], values);
    } else if ResolveReference(reg, Rows(st, t), t, values).Ok? {
      RecordLocal(st, src, t, ResolveReference(reg, Rows(st, t), t, values).value);
    } else {
      CreateLocal(st, src, t, Pk(reg, t).value, LRMIS.idStart, values);
    }
  }

  lemma TrustingLocal(reg: Registry, st: State, src: Source, t: string, values: Row)
    requires t in reg && Auto(reg, t).Some?
    ensures OnlyTable(st, WriteTrusting(reg, st, src, t, values).st, src, t)
  {
    var k := CrossKey(src, t);
    if k in st.crosswalk && Pk(reg, t).Some? {
      UpdatedLocal(st, src, t, Pk(reg, t).value, st.crosswalk[k], values);
    } else {
      InsertLocal(st, src, t, Auto(reg, t).value, values);
    }
  }

  /** The same slice, the same verdict. */
  lemma AgreeingBySlice(reg: Registry, a: State, b: State, src: Source, t: string, values: Row)
    requires t in reg && SliceOf(a, src, t) == SliceOf(b, src, t)
    ensures Agreeing(reg, a, src, t, values) <==> Agreeing(reg, b, src, t, values)
  {
    assert Rows(a, t) == SliceOf(a, src, t).rows && Rows(b, t) == SliceOf(b, src, t).rows;
    assert Lookup(a, CrossKey(src, t)) == SliceOf(a, src, t).cross && Lookup(b, CrossKey(src, t)) == SliceOf(b, src, t).cross;
  }

  /** Where the two differ on a table, they differ in what they return or in that table's own slice. */
  ghost predicate Parted(st: State, src: Source, t: string, g: Outcome<Value>, f: Outcome<Value>)
  {
    g.r != f.r || SliceOf(g.st, src, t) != SliceOf(f.st, src, t)
  }

  lemma DisagreementShows(reg: Registry, st: State, src: Source, t: string, values: Row)
    requires SchemaOk(reg) && LookupsAreReferences(reg) && t in reg && (t in APP_ASSIGNED ==> Pk(reg, t).Some?)
    requires !Agreeing(reg, st, src, t, values)
    ensures Parted(st, src, t, GenericOne(reg, LRMIS, st, src, t, values), WriteOne(reg, st, src, t, values))
  {
    assert APP_ASSIGNED == LRMIS.appAssigned && APP_ASSIGNED !! LRMIS.referenceOnly;
    WriteOneLocal(reg, st, src, t, values);
    if CarriesKey(reg, t, values) {
      CarriedShows(reg, st, src, t, Pk(reg, t).value, values);
    } else if t in APP_ASSIGNED {
      AllocatedShows(reg, st, src, t, values);
    }
  }

  lemma AllocatedShows(reg: Registry, st: State, src: Source, t: string, values: Row)
    requires t in reg && Pk(reg, t).Some? && !EntryLive(st, src, t)
    ensures Parted(st, src, t, WriteAllocated(reg, LRMIS, st, src, t, values), WriteAppAssigned(reg, st, src, t, values))
  {
    AssignedLocal(reg, st, src, t, values);
    assert WriteAllocated(reg, LRMIS, st, src, t, values) == Outcome(st, Ok(st.crosswalk[CrossKey(src, t)]));
    if ResolveReference(reg, Rows(st, t), t, values).Ok? {
      ResolvedExists(reg, st, t, values);
    }
  }

  lemma CarriedShows(reg: Registry, st: State, src: Source, t: string, pk: string, values: Row)
    requires t in reg && Pk(reg, t) == Some(pk) && CarriesKey(reg, t, values) && t !in LRMIS.referenceOnly
    requires !Agreeing(reg, st, src, t, values)
    ensures Parted(st, src, t, WriteCarried(st, src, t, pk, values), WriteOne(reg, st, src, t, values))
  {
    WriteOneLocal(reg, st, src, t, values);
    var k := CrossKey(src, t);
    if t !in APP_ASSIGNED && Lookup(st, k) == Some(values[pk]) && values[pk] in Rows(st, t) {
      var row := Rows(st, t)[values[pk]];
      var c :| c in values && c != pk && !(c in row && row[c] == values[c]);
      assert (row + (values - {pk}))[c] == values[c];
      assert SliceOf(WriteCarried(st, src, t, pk, values).st, src, t).rows[values[pk]] == row + (values - {pk});
    }
  }

  // -------------------------------------------------------------- a whole write

  /** What the generic writer is done with it leaves alone: slices and ids. */
  lemma {:induction false} GenericKeeps(reg: Registry, st: State, src: Source, order: seq<string>, fan: Fanout, ids: TargetIds, t: string)
    requires (forall u | u in order :: u in reg && u in fan) && t !in order && t in ids
    ensures var o := GenericTables(reg, LRMIS, st, src, order, fan, ids);
            SliceOf(o.st, src, t) == SliceOf(st, src, t) && (o.r.Ok? ==> t in o.r.value && o.r.value[t] == ids[t])
    decreases |order|
  {
    if order != [] {
      var u := order[0];
      var values := ApplyForeignKeys(reg[u].foreignKeys, u, fan[u], ids);
      var o := GenericOne(reg, LRMIS, st, src, u, values);
      GenericLocal(reg, st, src, u, values);
      if o.r.Ok? {
        GenericKeeps(reg, o.st, src, order[1..], fan, ids[u := o.r.value], t);
      }
    }
  }

  /** A table on which they part, parts the whole. */
  lemma PartedStays(reg: Registry, st: State, src: Source, order: seq<string>, fan: Fanout, ids: TargetIds, done: set<string>, values: Row)
    requires Midway(reg, order, fan, done) && order != [] && ids.Keys == done && WriteTables(reg, st, src, order, fan, ids).r.Ok?
    requires values == ApplyForeignKeys(reg[order[0]].foreignKeys, order[0], fan[order[0]], ids)
    requires Parted(st, src, order[0], GenericOne(reg, LRMIS, st, src, order[0], values), WriteOne(reg, st, src, order[0], values))
    ensures GenericTables(reg, LRMIS, st, src, order, fan, ids) != WriteTables(reg, st, src, order, fan, ids)
  {
    var t, rest := order[0], order[1..];
    var g, f := GenericOne(reg, LRMIS, st, src, t, values), WriteOne(reg, st, src, t, values);
    MidwayStep(reg, order, fan, done);
    assert t !in rest;
    IdsKept(reg, f.st, src, rest, fan, ids[t := f.r.value], done + {t});
    WriteTablesTouchesOnly(reg, f.st, src, rest, fan, ids[t := f.r.value]);
    if g.r.Ok? {
      GenericKeeps(reg, g.st, src, rest, fan, ids[t := g.r.value], t);
    }
  }

  ghost predicate AllAgreeing(reg: Registry, st: State, src: Source, order: seq<string>, fan: Fanout, ids: TargetIds)
    requires forall t | t in order :: t in reg && t in fan
  {
    forall t | t in order :: Agreeing(reg, st, src, t, Filled(reg, fan, ids, t))
  }

  lemma AllAgreeingCons(reg: Registry, st: State, src: Source, order: seq<string>, fan: Fanout, ids: TargetIds)
    requires order != [] && forall t | t in order :: t in reg && t in fan
    ensures AllAgreeing(reg, st, src, order, fan, ids)
       <==> Agreeing(reg, st, src, order[0], Filled(reg, fan, ids, order[0])) && AllAgreeing(reg, st, src, order[1..], fan, ids)
  {
    assert forall t | t in order :: t == order[0] || t in order[1..];
  }

  /** The schema as both writers suppose it. */
  ghost predicate Comparable(reg: Registry)
  {
    SchemaOk(reg) && LookupsAreReferences(reg) && forall t | t in APP_ASSIGNED && t in reg :: Pk(reg, t).Some?
  }

  /** Both writers are at the same point, and the first goes through from here. */
  ghost predicate Halfway(reg: Registry, st0: State, st: State, src: Source, order: seq<string>, fan: Fanout, ids: TargetIds, done: set<string>)
  {
    && Midway(reg, order, fan, done) && Untouched(st0, st, src, order) && ids.Keys == done
    && WriteTables(reg, st, src, order, fan, ids).r.Ok?
  }

  /** From here they do the same exactly if the rest agrees, with the ids the first writer ends with. */
  ghost predicate SameIffAgreeing(reg: Registry, st0: State, st: State, src: Source, order: seq<string>, fan: Fanout, ids: TargetIds)
    requires (forall t | t in order :: t in reg && t in fan) && WriteTables(reg, st, src, order, fan, ids).r.Ok?
  {
    GenericTables(reg, LRMIS, st, src, order, fan, ids) == WriteTables(reg, st, src, order, fan, ids)
    <==> AllAgreeing(reg, st0, src, order, fan, WriteTables(reg, st, src, order, fan, ids).r.value)
  }

  lemma HeadAgrees(reg: Registry, st0: State, st: State, src: Source, order: seq<string>, fan: Fanout, ids: TargetIds, done: set<string>)
    requires Halfway(reg, st0, st, src, order, fan, ids, done) && order != []
    ensures var final := WriteTables(reg, st, src, order, fan, ids).r.value;
            var values := ApplyForeignKeys(reg[order[0]].foreignKeys, order[0], fan[order[0]], ids);
            AllAgreeing(reg, st0, src, order, fan, final)
            <==> Agreeing(reg, st, src, order[0], values) && AllAgreeing(reg, st0, src, order[1..], fan, final)
  {
    var t := order[0];
    var final := WriteTables(reg, st, src, order, fan, ids).r.value;
    MidwayStep(reg, order, fan, done);
    IdsKept(reg, st, src, order, fan, ids, done);
    FilledNow(reg, fan, ids, final, done, t);
    AgreeingBySlice(reg, st0, st, src, t, Filled(reg, fan, final, t));
    AllAgreeingCons(reg, st0, src, order, fan, final);
  }

  /** Agreement on the head leads both writers to the same next point. */
  lemma AgreeingStep(reg: Registry, st0: State, st: State, src: Source, order: seq<string>, fan: Fanout, ids: TargetIds, done: set<string>, values: Row)
    requires Comparable(reg) && Halfway(reg, st0, st, src, order, fan, ids, done) && order != []
    requires values == ApplyForeignKeys(reg[order[0]].foreignKeys, order[0], fan[order[0]], ids)
    requires Agreeing(reg, st, src, order[0], values)
    ensures var f := WriteOne(reg, st, src, order[0], values);
            && f.r.Ok? && Halfway(reg, st0, f.st, src, order[1..], fan, ids[order[0] := f.r.value], done + {order[0]})
            && WriteTables(reg, st, src, order, fan, ids) == WriteTables(reg, f.st, src, order[1..], fan, ids[order[0] := f.r.value])
            && GenericTables(reg, LRMIS, st, src, order, fan, ids)
               == GenericTables(reg, LRMIS, f.st, src, order[1..], fan, ids[order[0] := f.r.value])
  {
    OneAgreesIff(reg, st, src, order[0], values);
    MidwayStep(reg, order, fan, done);
    StepUntouched(reg, st0, st, src, order, values);
    AgreedHead(reg, st, src, order, fan, ids, values);
  }

  lemma AgreedHead(reg: Registry, st: State, src: Source, order: seq<string>, fan: Fanout, ids: TargetIds, values: Row)
    requires order != [] && forall u | u in order :: u in reg && u in fan
    requires values == ApplyForeignKeys(reg[order[0]].foreignKeys, order[0], fan[order[0]], ids)
    requires GenericOne(reg, LRMIS, st, src, order[0], values) == WriteOne(reg, st, src, order[0], values)
    requires WriteTables(reg, st, src, order, fan, ids).r.Ok?
    ensures var f := WriteOne(reg, st, src, order[0], values);
            && f.r.Ok?
            && WriteTables(reg, st, src, order, fan, ids) == WriteTables(reg, f.st, src, order[1..], fan, ids[order[0] := f.r.value])
            && GenericTables(reg, LRMIS, st, src, order, fan, ids)
               == GenericTables(reg, LRMIS, f.st, src, order[1..], fan, ids[order[0] := f.r.value])
  {
  }

  lemma DisagreeingStep(reg: Registry, st0: State, st: State, src: Source, order: seq<string>, fan: Fanout, ids: TargetIds, done: set<string>, values: Row)
    requires Comparable(reg) && Halfway(reg, st0, st, src, order, fan, ids, done) && order != []
    requires values == ApplyForeignKeys(reg[order[0]].foreignKeys, order[0], fan[order[0]], ids)
    requires !Agreeing(reg, st, src, order[0], values)
    ensures SameIffAgreeing(reg, st0, st, src, order, fan, ids)
  {
    HeadAgrees(reg, st0, st, src, order, fan, ids, done);
    DisagreementShows(reg, st, src, order[0], values);
    PartedStays(reg, st, src, order, fan, ids, done, values);
  }

  lemma {:induction false} TablesAgreeIff(reg: Registry, st0: State, st: State, src: Source, order: seq<string>, fan: Fanout, ids: TargetIds, done: set<string>)
    requires Comparable(reg) && Halfway(reg, st0, st, src, order, fan, ids, done)
    ensures SameIffAgreeing(reg, st0, st, src, order, fan, ids)
    decreases |order|
  {
    if order != [] {
      var t := order[0];
      var values := ApplyForeignKeys(reg[t].foreignKeys, t, fan[t], ids);
      if Agreeing(reg, st, src, t, values) {
        var f := WriteOne(reg, st, src, t, values);
        AgreeingStep(reg, st0, st, src, order, fan, ids, done, values);
        HeadAgrees(reg, st0, st, src, order, fan, ids, done);
        TablesAgreeIff(reg, st0, f.st, src, order[1..], fan, ids[t := f.r.value], done + {t});
      } else {
        DisagreeingStep(reg, st0, st, src, order, fan, ids, done, values);
      }
    }
  }

  /** Where the first writer goes through, the generic writer under the LRMIS configuration gives the same
      target, crosswalk, id sequence and ids exactly when, for each table with the values it is written
      with, the state before the write meets the table's condition. */
  lemma RowsAgreeIff(reg: Registry, st: State, src: Source, fan: Fanout)
    requires Comparable(reg) && WriteRow(reg, st, src, fan).r.Ok?
    ensures (forall t | t in fan :: t in reg)
    ensures GenericRow(reg, LRMIS, st, src, fan) == WriteRow(reg, st, src, fan)
       <==> forall t | t in fan :: Agreeing(reg, st, src, t, Filled(reg, fan, WriteRow(reg, st, src, fan).r.value, t))
  {
    StartOrder(reg, fan);
    assert forall t | t in fan :: t !in Unknown(reg, fan);
    var order := Order(reg, fan.Keys).value;
    TablesAgreeIff(reg, st, st, src, order, fan, map[], {});
  }
}
