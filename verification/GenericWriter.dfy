/** The dialect-independent writer, and when it does exactly what the first writer does. */
module GenericWriter {
  import opened Ordering
  import opened Outcomes
  import opened SchemaGraph
  import opened Store
  import opened Writer
  import opened Integrity
  import opened Deletion
  import opened ByTable

  /** Domain configuration of a target. */
  datatype Plugin = Plugin(appAssigned: set<string>, idStart: int, appAssignNonAuto: bool, referenceOnly: set<string>)

  const LRMIS: Plugin := Plugin({"station"}, 10_000_000, false, {"psgc"})

  predicate IsAppAssigned(reg: Registry, p: Plugin, t: string)
    requires t in reg
  {
    t in p.appAssigned || (p.appAssignNonAuto && t !in p.referenceOnly && IsReference(reg, t))
  }

  // ------------------------------------------------------------ specification

  /** The source carries the key: the row goes in under it, or its recorded row is updated. */
  function WriteCarried(st: State, src: Source, t: string, pk: string, values: Row): Outcome<Value>
    requires pk in values
  {
    var k := CrossKey(src, t);
    if k in st.crosswalk then Outcome(UpdateRow(st, t, pk, st.crosswalk[k], values), Ok(st.crosswalk[k]))
    else if values[pk] in Rows(st, t) then Outcome(st, Err(DuplicateKey(t)))
    else Outcome(Record(PutRow(st, t, values[pk], values), k, values[pk]), Ok(values[pk]))
  }

  function WriteAllocated(reg: Registry, p: Plugin, st: State, src: Source, t: string, values: Row): Outcome<Value>
    requires t in reg
  {
    var k := CrossKey(src, t);
    match Pk(reg, t)
    case None =>
      Outcome(if k in st.crosswalk then st else Allocate(st, t, p.idStart), Err(NoPrimaryKey(t)))
    case Some(pk) =>
      if k in st.crosswalk then Outcome(UpdateRow(st, t, pk, st.crosswalk[k], values), Ok(st.crosswalk[k]))
      else
        match ResolveReference(reg, Rows(st, t), t, values)
        case Ok(matched) => Outcome(Record(st, k, matched), Ok(matched))
        case Err(_) => CreateAssigned(st, k, pk, p.idStart, values)
  }

  /** As for a generated key, but a recorded id is trusted without looking for its row. */
  function WriteTrusting(reg: Registry, st: State, src: Source, t: string, values: Row): Outcome<Value>
    requires t in reg && Auto(reg, t).Some?
  {
    var k := CrossKey(src, t);
    if k in st.crosswalk && Pk(reg, t).Some? then
      Outcome(UpdateRow(st, t, Pk(reg, t).value, st.crosswalk[k], values), Ok(st.crosswalk[k]))
    else
      var id := Num(NextAuto(st, t));
      Outcome(Record(InsertGenerated(st, t, Auto(reg, t).value, values), k, id), Ok(id))
  }

  predicate CarriesKey(reg: Registry, t: string, values: Row)
    requires t in reg
  {
    Pk(reg, t).Some? && Get(values, Pk(reg, t).value) != Null && Auto(reg, t).None?
  }

  function GenericOne(reg: Registry, p: Plugin, st: State, src: Source, t: string, values: Row): Outcome<Value>
    requires t in reg
  {
    if t in p.referenceOnly then Outcome(st, ResolveReference(reg, Rows(st, t), t, values))
    else if CarriesKey(reg, t, values) then WriteCarried(st, src, t, Pk(reg, t).value, values)
    else if IsAppAssigned(reg, p, t) then WriteAllocated(reg, p, st, src, t, values)
    else if IsReference(reg, t) then Outcome(st, ResolveReference(reg, Rows(st, t), t, values))
    else WriteTrusting(reg, st, src, t, values)
  }

  function GenericTables(reg: Registry, p: Plugin, st: State, src: Source, order: seq<string>, fan: Fanout, ids: TargetIds): Outcome<TargetIds>
    requires forall t | t in order :: t in reg && t in fan
    decreases |order|
  {
    if order == [] then Outcome(st, Ok(ids))
    else
      var t := order[0];
      var o := GenericOne(reg, p, st, src, t, ApplyForeignKeys(reg[t].foreignKeys, t, fan[t], ids));
      match o.r
      case Err(e) => Outcome(o.st, Err(e))
      case Ok(id) => GenericTables(reg, p, o.st, src, order[1..], fan, ids[t := id])
  }

  function GenericRow(reg: Registry, p: Plugin, st: State, src: Source, fan: Fanout): Outcome<TargetIds>
  {
    if Unknown(reg, fan) != {} then Outcome(st, Err(UnknownTable(Least(Unknown(reg, fan)))))
    else
      OrderInside(reg, fan.Keys);
      assert forall t | t in fan :: t !in Unknown(reg, fan);
      match Order(reg, fan.Keys)
      case Err(e) => Outcome(st, Err(e))
      case Ok(order) => GenericTables(reg, p, st, src, order, fan, map[])
  }

  /** Whether a table's rows may be created under allocated ids: named so in the configuration, or, where that
      allocates for every table without generated keys, such a table that is not a lookup. */
  lemma AppAssignedIff(reg: Registry, p: Plugin, t: string)
    requires t in reg
    ensures IsAppAssigned(reg, p, t) <==>
            t in p.appAssigned || (p.appAssignNonAuto && t !in p.referenceOnly && forall c | c in reg[t].columns :: !c.autoIncrement)
  {
    GeneratesKeys(reg[t].columns);
  }

  /** Under such a configuration a row nothing matches is created, where without it the write fails. */
  lemma NonAutoIsCreated(reg: Registry, p: Plugin, st: State, src: Source, t: string, values: Row)
    requires t in reg && Pk(reg, t).Some? && (forall c | c in reg[t].columns :: !c.autoIncrement)
    requires t !in p.appAssigned && t !in p.referenceOnly && !CarriesKey(reg, t, values)
    requires CrossKey(src, t) !in st.crosswalk && ResolveReference(reg, Rows(st, t), t, values).Err?
    requires Num(if t in st.sequence then st.sequence[t] + 1 else p.idStart) !in Rows(st, t)
    ensures var id := Num(if t in st.sequence then st.sequence[t] + 1 else p.idStart);
            var o := GenericOne(reg, p, st, src, t, values);
            if p.appAssignNonAuto then o.r == Ok(id) && Rows(o.st, t) == Rows(st, t)[id := values[Pk(reg, t).value := id]]
            else o.r.Err? && o.st == st
  {
    AppAssignedIff(reg, p, t);
    GeneratesKeys(reg[t].columns);
  }

  // ------------------------------------------------------------------- writer

  class Writing {
    const reg: Registry
    const plugin: Plugin

    constructor (reg: Registry, plugin: Plugin)
      ensures this.reg == reg && this.plugin == plugin
    {
      this.reg, this.plugin := reg, plugin;
    }

    method WriteAppAssignedRow(db: Connections, src: Source, t: string, values: Row) returns (r: Result<Value>)
      requires t in reg
      modifies db
      ensures Outcome(db.Snapshot(), r) == WriteAllocated(reg, plugin, old(db.Snapshot()), src, t, values)
    {
      var pk := Pk(reg, t);
      var k := CrossKey(src, t);
      var existing := db.CrosswalkLookup(k);
      if existing.Some? {
        if pk.None? {
          return Err(NoPrimaryKey(t));
        }
        db.Update(t, pk.value, existing.value, values);
        return Ok(existing.value);
      }
      var matched := ResolveReferenceId(db, reg, t, values);
      if matched.Ok? {
        db.CrosswalkRecord(k, matched.value);
        return matched;
      }
      var id := db.AllocateId(t, plugin.idStart);
      if pk.None? {
        return Err(NoPrimaryKey(t));
      }
      var created := db.InsertExplicit(t, Num(id), values[pk.value := Num(id)]);
      if !created {
        return Err(DuplicateKey(t));
      }
      db.CrosswalkRecord(k, Num(id));
      return Ok(Num(id));
    }

    method WriteCarriedRow(db: Connections, src: Source, t: string, pk: string, values: Row) returns (r: Result<Value>)
      requires pk in values
      modifies db
      ensures Outcome(db.Snapshot(), r) == WriteCarried(old(db.Snapshot()), src, t, pk, values)
    {
      var k := CrossKey(src, t);
      var existing := db.CrosswalkLookup(k);
      if existing.Some? {
        db.Update(t, pk, existing.value, values);
        return Ok(existing.value);
      }
      var created := db.InsertExplicit(t, values[pk], values);
      if !created {
        return Err(DuplicateKey(t));
      }
      db.CrosswalkRecord(k, values[pk]);
      return Ok(values[pk]);
    }

    method WriteTable(db: Connections, src: Source, t: string, values: Row) returns (r: Result<Value>)
      requires t in reg
      modifies db
      ensures Outcome(db.Snapshot(), r) == GenericOne(reg, plugin, old(db.Snapshot()), src, t, values)
    {
      if t in plugin.referenceOnly {
        r := ResolveReferenceId(db, reg, t, values);
        return;
      }
      var pk := Pk(reg, t);
      if pk.Some? && Get(values, pk.value) != Null && Auto(reg, t).None? {
        r := WriteCarriedRow(db, src, t, pk.value, values);
        return;
      }
      if IsAppAssigned(reg, plugin, t) {
        r := WriteAppAssignedRow(db, src, t, values);
        return;
      }
      if IsReference(reg, t) {
        r := ResolveReferenceId(db, reg, t, values);
        return;
      }
      var k := CrossKey(src, t);
      var existing := db.CrosswalkLookup(k);
      if existing.Some? && pk.Some? {
        db.Update(t, pk.value, existing.value, values);
        return Ok(existing.value);
      }
      var id := db.Insert(t, Auto(reg, t).value, values);
      db.CrosswalkRecord(k, id);
      return Ok(id);
    }

    method WriteRow(db: Connections, src: Source, fan: Fanout) returns (r: Result<TargetIds>)
      modifies db
      ensures Outcome(db.Snapshot(), r) == GenericRow(reg, plugin, old(db.Snapshot()), src, fan)
    {
      var unknown := set t | t in fan && t !in reg;
      if unknown != {} {
        return Err(UnknownTable(Least(unknown)));
      }
      OrderInside(reg, fan.Keys);
      assert forall t | t in fan :: t !in unknown;
      var names := SortNames(fan.Keys);
      SortedNoDup(names, fan.Keys);
      assert forall n | n in names :: n in Elements(names);
      var order := TopologicalOrder(reg, names);
      if order.Err? {
        return Err(order.error);
      }
      r := WriteInOrder(db, src, order.value, fan);
    }

    method WriteInOrder(db: Connections, src: Source, order: seq<string>, fan: Fanout) returns (r: Result<TargetIds>)
      requires forall t | t in order :: t in reg && t in fan
      modifies db
      ensures Outcome(db.Snapshot(), r) == GenericTables(reg, plugin, old(db.Snapshot()), src, order, fan, map[])
    {
      var ids: TargetIds := map[];
      var i := 0;
      while i < |order|
        invariant 0 <= i <= |order|
        invariant GenericTables(reg, plugin, db.Snapshot(), src, order[i..], fan, ids)
               == GenericTables(reg, plugin, old(db.Snapshot()), src, order, fan, map[])
      {
        var t := order[i];
        assert order[i..][0] == t && order[i..][1..] == order[i + 1..];
        var values := FillForeignKeys(reg, t, fan[t], ids);
        var w := WriteTable(db, src, t, values);
        if w.Err? {
          return Err(w.error);
        }
        ids := ids[t := w.value];
        i := i + 1;
      }
      return Ok(ids);
    }
  }

  // --------------------------------------------------------------- refinement

  /** The row's entry for this table, if any, names a row that is still there. */
  predicate EntryLive(st: State, src: Source, t: string)
  {
    CrossKey(src, t) in st.crosswalk ==> st.crosswalk[CrossKey(src, t)] in Rows(st, t)
  }

  /** The configured lookups really are reference tables of the schema. */
  predicate LookupsAreReferences(reg: Registry)
  {
    forall t | t in LRMIS.referenceOnly :: t in reg ==> IsReference(reg, t)
  }

  /** Without a carried key, the two writers do the same to a table the pipeline writes exactly
      when no stale crosswalk entry is in the way; a lookup table they always treat alike. */
  lemma TablesAgreeIffEntryLive(reg: Registry, st: State, src: Source, t: string, values: Row)
    requires SchemaOk(reg) && LookupsAreReferences(reg) && t in reg && !CarriesKey(reg, t, values)
    requires t in APP_ASSIGNED ==> Pk(reg, t).Some?
    ensures GenericOne(reg, LRMIS, st, src, t, values) == WriteOne(reg, st, src, t, values)
       <==> EntryLive(st, src, t) || (t !in APP_ASSIGNED && IsReference(reg, t))
  {
    assert APP_ASSIGNED == LRMIS.appAssigned && APP_ASSIGNED !! LRMIS.referenceOnly;
    if t in APP_ASSIGNED {
      AllocatedAgree(reg, st, src, t, values);
    } else if !IsReference(reg, t) {
      GeneratedAgree(reg, st, src, t, values);
    }
  }

  lemma GeneratedAgree(reg: Registry, st: State, src: Source, t: string, values: Row)
    requires t in reg && Auto(reg, t).Some? && Pk(reg, t).Some?
    ensures WriteTrusting(reg, st, src, t, values) == WriteGenerated(reg, st, src, t, values) <==> EntryLive(st, src, t)
  {
    var k := CrossKey(src, t);
    if k in st.crosswalk && st.crosswalk[k] !in Rows(st, t) {
      assert WriteTrusting(reg, st, src, t, values).st == st;
      assert NextAuto(WriteGenerated(reg, st, src, t, values).st, t) == NextAuto(st, t) + 1;
    }
  }

  lemma AllocatedAgree(reg: Registry, st: State, src: Source, t: string, values: Row)
    requires t in reg && Pk(reg, t).Some?
    ensures WriteAllocated(reg, LRMIS, st, src, t, values) == WriteAppAssigned(reg, st, src, t, values) <==> EntryLive(st, src, t)
  {
    var k := CrossKey(src, t);
    if k in st.crosswalk && st.crosswalk[k] !in Rows(st, t) {
      assert WriteAllocated(reg, LRMIS, st, src, t, values).r == Ok(st.crosswalk[k]);
      var o := WriteAppAssigned(reg, st, src, t, values);
      if ResolveReference(reg, Rows(st, t), t, values).Ok? {
        ResolvedExists(reg, st, t, values);
      } else {
        assert o.st.sequence[t] == NextAssigned(st, t, ID_SEQUENCE_START);
        assert t in st.sequence ==> o.st.sequence[t] != st.sequence[t];
      }
    }
  }

  /** The row the entry names is there and already holds what the payload carries. */
  predicate Settled(st: State, src: Source, t: string, pk: string, values: Row)
    requires pk in values
  {
    && Lookup(st, CrossKey(src, t)) == Some(values[pk]) && values[pk] in Rows(st, t)
    && forall c | c in values && c != pk :: c in Rows(st, t)[values[pk]] && Rows(st, t)[values[pk]][c] == values[c]
  }

  /** With a carried key the two writers do the same to a lookup table always; to an app-assigned
      table exactly when a live entry is recorded; to any other table exactly when the entry names
      the carried key and that row has nothing left to take. */
  lemma CarriedKeysAgreeIff(reg: Registry, st: State, src: Source, t: string, values: Row)
    requires LookupsAreReferences(reg) && t in reg && CarriesKey(reg, t, values)
    ensures GenericOne(reg, LRMIS, st, src, t, values) == WriteOne(reg, st, src, t, values)
       <==> || t in LRMIS.referenceOnly
            || (t in APP_ASSIGNED && CrossKey(src, t) in st.crosswalk && EntryLive(st, src, t))
            || (t !in APP_ASSIGNED && Settled(st, src, t, Pk(reg, t).value, values))
  {
    assert APP_ASSIGNED == LRMIS.appAssigned && APP_ASSIGNED !! LRMIS.referenceOnly;
    var pk := Pk(reg, t).value;
    if t in APP_ASSIGNED {
      CarriedAssignedAgree(reg, st, src, t, pk, values);
    } else if t !in LRMIS.referenceOnly {
      CarriedReferenceAgree(reg, st, src, t, pk, values);
    }
  }

  lemma CarriedAssignedAgree(reg: Registry, st: State, src: Source, t: string, pk: string, values: Row)
    requires t in reg && Pk(reg, t) == Some(pk) && Get(values, pk) != Null
    ensures WriteCarried(st, src, t, pk, values) == WriteAppAssigned(reg, st, src, t, values)
       <==> CrossKey(src, t) in st.crosswalk && EntryLive(st, src, t)
  {
    var k := CrossKey(src, t);
    var second, first := WriteCarried(st, src, t, pk, values), WriteAppAssigned(reg, st, src, t, values);
    if k !in st.crosswalk || st.crosswalk[k] !in Rows(st, t) {
      assert second.st.sequence == st.sequence;
      if values[pk] in Rows(st, t) {
        assert first.r == Ok(values[pk]) && second.r != Ok(values[pk]);
      } else {
        assert first.st.sequence[t] == NextAssigned(st, t, ID_SEQUENCE_START);
        assert t in st.sequence ==> first.st.sequence[t] != st.sequence[t];
      }
    }
  }

  lemma CarriedReferenceAgree(reg: Registry, st: State, src: Source, t: string, pk: string, values: Row)
    requires t in reg && Pk(reg, t) == Some(pk) && Get(values, pk) != Null
    ensures WriteCarried(st, src, t, pk, values) == Outcome(st, ResolveReference(reg, Rows(st, t), t, values))
       <==> Settled(st, src, t, pk, values)
  {
    var k := CrossKey(src, t);
    if k in st.crosswalk && st.crosswalk[k] == values[pk] && values[pk] in Rows(st, t) {
      UpdateIsIdleIff(st, t, pk, values);
    }
  }

  lemma UpdateIsIdleIff(st: State, t: string, pk: string, values: Row)
    requires pk in values && values[pk] in Rows(st, t)
    ensures UpdateRow(st, t, pk, values[pk], values) == st
       <==> forall c | c in values && c != pk :: c in Rows(st, t)[values[pk]] && Rows(st, t)[values[pk]][c] == values[c]
  {
    var row := Rows(st, t)[values[pk]];
    var taken := row + (values - {pk});
    assert Rows(UpdateRow(st, t, pk, values[pk], values), t)[values[pk]] == taken;
    assert forall c | c in values && c != pk :: taken[c] == values[c];
    if forall c | c in values && c != pk :: c in row && row[c] == values[c] {
      assert taken == row;
      assert Rows(st, t)[values[pk] := row] == Rows(st, t) && st.tables[t := Rows(st, t)] == st.tables;
    }
  }

  /** A stale entry makes the generic writer return the dead id and write nothing. */
  lemma StaleEntryDiverges(reg: Registry, st: State, src: Source, t: string, values: Row)
    requires KeysOk(reg) && t in reg && Auto(reg, t).Some? && t !in LRMIS.referenceOnly && t !in APP_ASSIGNED
    requires !EntryLive(st, src, t)
    ensures var dead := st.crosswalk[CrossKey(src, t)];
            && GenericOne(reg, LRMIS, st, src, t, values) == Outcome(st, Ok(dead)) && dead !in Rows(st, t)
            && WriteOne(reg, st, src, t, values).r.Ok?
            && WriteOne(reg, st, src, t, values).r.value in Rows(WriteOne(reg, st, src, t, values).st, t)
  {
    assert Pk(reg, t).Some?;
  }

  lemma {:induction false} KeyStaysUnset(t: string, fks: seq<ForeignKey>, values: Row, ids: TargetIds, c: string)
    requires forall f | f in fks :: f.column != c
    ensures Get(ApplyForeignKeys(fks, t, values, ids), c) == Get(values, c)
    decreases |fks|
  {
    if fks != [] {
      assert fks[0] in fks;
      KeyStaysUnset(t, fks[1..], FillForeignKey(fks[0], t, values, ids), ids, c);
    }
  }

  /** A key carried for a table without generated keys is that of a lookup, or of an app-assigned
      row already recorded. */
  predicate CarriedKeysRecorded(reg: Registry, st: State, src: Source, fan: Fanout)
  {
    forall t | t in fan && t in reg && CarriesKey(reg, t, fan[t]) ::
      t in LRMIS.referenceOnly || (t in APP_ASSIGNED && CrossKey(src, t) in st.crosswalk)
  }

  ghost predicate EntriesLive(st: State, src: Source, order: seq<string>)
  {
    forall t | t in order :: EntryLive(st, src, t)
  }

  lemma {:induction false} TablesRefine(reg: Registry, st: State, src: Source, order: seq<string>, fan: Fanout, ids: TargetIds)
    requires SchemaOk(reg) && LookupsAreReferences(reg) && CarriedKeysRecorded(reg, st, src, fan) && NoDup(order)
    requires forall t | t in APP_ASSIGNED && t in reg :: Pk(reg, t).Some?
    requires forall t | t in order :: t in reg && t in fan
    requires EntriesLive(st, src, order)
    ensures GenericTables(reg, LRMIS, st, src, order, fan, ids) == WriteTables(reg, st, src, order, fan, ids)
    decreases |order|
  {
    if order != [] {
      var t := order[0];
      var values := ApplyForeignKeys(reg[t].foreignKeys, t, fan[t], ids);
      if Pk(reg, t).Some? {
        KeyStaysUnset(t, reg[t].foreignKeys, fan[t], ids, Pk(reg, t).value);
      }
      if CarriesKey(reg, t, values) {
        CarriedKeysAgreeIff(reg, st, src, t, values);
      } else {
        TablesAgreeIffEntryLive(reg, st, src, t, values);
      }
      var o := WriteOne(reg, st, src, t, values);
      if o.r.Ok? {
        StillEntriesLive(reg, st, src, order, values);
        StillRecorded(reg, st, src, t, values, fan);
        TablesRefine(reg, o.st, src, order[1..], fan, ids[t := o.r.value]);
      }
    }
  }

  lemma StillEntriesLive(reg: Registry, st: State, src: Source, order: seq<string>, values: Row)
    requires order != [] && NoDup(order) && order[0] in reg && EntriesLive(st, src, order)
    ensures EntriesLive(WriteOne(reg, st, src, order[0], values).st, src, order[1..])
  {
    WriteOneLocal(reg, st, src, order[0], values);
    var st' := WriteOne(reg, st, src, order[0], values).st;
    forall u | u in order[1..]
      ensures EntryLive(st', src, u)
    {
      assert u in order && u != order[0];
      assert SliceOf(st', src, u) == SliceOf(st, src, u);
      assert Lookup(st', CrossKey(src, u)) == Lookup(st, CrossKey(src, u));
      assert EntryLive(st, src, u);
    }
  }

  lemma StillRecorded(reg: Registry, st: State, src: Source, t: string, values: Row, fan: Fanout)
    requires t in reg && WriteOne(reg, st, src, t, values).r.Ok? && CarriedKeysRecorded(reg, st, src, fan)
    ensures CarriedKeysRecorded(reg, WriteOne(reg, st, src, t, values).st, src, fan)
  {
  }

  /** With live crosswalk entries, and no carried key but those of lookups and of recorded rows, the
      generic writer under the LRMIS configuration is the first writer: same target, crosswalk, id
      sequence, ids and errors. */
  lemma GenericRefinesFirst(reg: Registry, st: State, src: Source, fan: Fanout)
    requires SchemaOk(reg) && LookupsAreReferences(reg) && CarriedKeysRecorded(reg, st, src, fan)
    requires forall t | t in APP_ASSIGNED && t in reg :: Pk(reg, t).Some?
    requires forall t | t in fan :: EntryLive(st, src, t)
    ensures GenericRow(reg, LRMIS, st, src, fan) == WriteRow(reg, st, src, fan)
  {
    if Unknown(reg, fan) == {} && Order(reg, fan.Keys).Ok? {
      OrderInside(reg, fan.Keys);
      assert forall t | t in fan :: t !in Unknown(reg, fan);
      TablesRefine(reg, st, src, Order(reg, fan.Keys).value, fan, map[]);
    }
  }
}
