/** What an entity owns after a refresh: one row per generated table per written source row,
    with contents fixed by the source values and the ids handed out. */
module RefreshOwnership {
  import opened Ordering
  import opened Outcomes
  import opened SchemaGraph
  import opened Store
  import opened Writer
  import opened Integrity
  import opened ByTable
  import opened Deletion
  import opened Delivery
  import opened Ownership

  // ------------------------------------------------------- a refresh as a run

  /** The writes a refresh performs after its delete. */
  ghost function WritesOf(reg: Registry, codec: Codec, st: State, system: string, entity: string, target: string,
                          mappings: seq<Mapping>, rows: seq<SourceRow>): seq<Op>
    decreases |rows|
  {
    if rows == [] then []
    else
      var row := rows[0];
      var (built, errors) := BuildValues(reg, codec, row.payload, mappings, map[], []);
      if errors != [] || built == map[] then
        WritesOf(reg, codec, st, system, entity, target, mappings, rows[1..])
      else
        match ResolveCross(reg, codec, st, system, target, row.payload, mappings, built, [])
        case Err(_) => []
        case Ok((fan, _)) =>
          var src := Source(system, entity, row.reference, target);
          [Write(src, fan)]
          + WritesOf(reg, codec, WriteRow(reg, st, src, fan).st, system, entity, target, mappings, rows[1..])
  }

  /** All writes of a run go through. */
  ghost predicate Succeeds(reg: Registry, w: World, ops: seq<Op>)
    decreases |ops|
  {
    ops == [] || (ops[0].Write? && WriteRow(reg, w.st, ops[0].src, ops[0].fan).r.Ok? && Succeeds(reg, Apply(reg, w, ops[0]), ops[1..]))
  }

  /** From `w`, the writes all go through and lead to `st`. */
  ghost predicate Performs(reg: Registry, w: World, ops: seq<Op>, st: State)
  {
    Run(reg, w, ops).st == st && Succeeds(reg, w, ops)
  }

  lemma {:induction false} RefreshIsARun(reg: Registry, codec: Codec, w: World, system: string, entity: string, target: string,
                                         mappings: seq<Mapping>, rows: seq<SourceRow>, report: Report)
    requires RefreshRows(reg, codec, w.st, system, entity, target, mappings, rows, report).r.Ok?
    ensures var o := RefreshRows(reg, codec, w.st, system, entity, target, mappings, rows, report);
            var ops := WritesOf(reg, codec, w.st, system, entity, target, mappings, rows);
            Performs(reg, w, ops, o.st) && o.r.value.written == report.written + |ops|
    decreases |rows|
  {
    if rows != [] {
      var row := rows[0];
      var (built, errors) := BuildValues(reg, codec, row.payload, mappings, map[], []);
      if errors != [] || built == map[] {
        RefreshIsARun(reg, codec, w, system, entity, target, mappings, rows[1..],
                      report.(failed := report.failed + [row.reference]));
      } else {
        var r := ResolveCross(reg, codec, w.st, system, target, row.payload, mappings, built, []);
        var (fan, unresolved) := r.value;
        var op := Write(Source(system, entity, row.reference, target), fan);
        var next := report.(written := report.written + 1, unresolved := report.unresolved + |unresolved|);
        RefreshIsARun(reg, codec, Apply(reg, w, op), system, entity, target, mappings, rows[1..], next);
        RunCons(reg, w, op, WritesOf(reg, codec, Apply(reg, w, op).st, system, entity, target, mappings, rows[1..]),
                RefreshRows(reg, codec, Apply(reg, w, op).st, system, entity, target, mappings, rows[1..], next).st);
      }
    }
  }

  lemma RunCons(reg: Registry, w: World, op: Op, rest: seq<Op>, st: State)
    requires op.Write? && WriteRow(reg, w.st, op.src, op.fan).r.Ok? && Performs(reg, Apply(reg, w, op), rest, st)
    ensures Performs(reg, w, [op] + rest, st)
  {
    assert ([op] + rest)[1..] == rest;
  }

  /** The references written are among those of the source rows, in their order. */
  ghost predicate WritesFor(entity: string, target: string, ops: seq<Op>, references: seq<string>)
    decreases |references|
  {
    if ops == [] then true
    else if references == [] then false
    else if ops[0].Write? && ops[0].src.entity == entity && ops[0].src.target == target
            && ops[0].src.reference == references[0] && WritesFor(entity, target, ops[1..], references[1..]) then true
    else WritesFor(entity, target, ops, references[1..])
  }

  function References(rows: seq<SourceRow>): seq<string>
  {
    if rows == [] then [] else [rows[0].reference] + References(rows[1..])
  }

  lemma {:induction false} WritesAreFor(reg: Registry, codec: Codec, st: State, system: string, entity: string, target: string,
                                        mappings: seq<Mapping>, rows: seq<SourceRow>)
    ensures WritesFor(entity, target, WritesOf(reg, codec, st, system, entity, target, mappings, rows), References(rows))
    decreases |rows|
  {
    if rows != [] {
      var row := rows[0];
      assert References(rows)[1..] == References(rows[1..]);
      var (built, errors) := BuildValues(reg, codec, row.payload, mappings, map[], []);
      var r := ResolveCross(reg, codec, st, system, target, row.payload, mappings, built, []);
      if errors != [] || built == map[] {
        WritesAreFor(reg, codec, st, system, entity, target, mappings, rows[1..]);
      } else if r.Ok? {
        var src := Source(system, entity, row.reference, target);
        var rest := WritesOf(reg, codec, WriteRow(reg, st, src, r.value.0).st, system, entity, target, mappings, rows[1..]);
        WritesAreFor(reg, codec, WriteRow(reg, st, src, r.value.0).st, system, entity, target, mappings, rows[1..]);
        assert ([Write(src, r.value.0)] + rest)[1..] == rest;
      }
    }
  }

  /** Distinct source references give distinct written references. */
  lemma {:induction false} WritesDistinct(entity: string, target: string, ops: seq<Op>, references: seq<string>)
    requires WritesFor(entity, target, ops, references) && NoDup(references)
    ensures forall i | 0 <= i < |ops| ::
              ops[i].Write? && ops[i].src.entity == entity && ops[i].src.target == target && ops[i].src.reference in references
    ensures forall i, j | 0 <= i < j < |ops| :: ops[i].src != ops[j].src
    decreases |references|
  {
    if ops != [] {
      if ops[0].Write? && ops[0].src.entity == entity && ops[0].src.target == target
         && ops[0].src.reference == references[0] && WritesFor(entity, target, ops[1..], references[1..]) {
        WritesDistinct(entity, target, ops[1..], references[1..]);
        assert references == [references[0]] + references[1..];
        forall i | 0 < i < |ops|
          ensures ops[i] == ops[1..][i - 1]
        {
        }
      } else {
        WritesDistinct(entity, target, ops, references[1..]);
      }
    }
  }

  // -------------------------------------------------- one write, table by table

  /** `t` holds one more row, the payload of this write under the id just generated, or an
      existing row of this source row was updated in place. */
  ghost predicate Landed(reg: Registry, st: State, st': State, src: Source, fan: Fanout, ids: TargetIds, t: string)
    requires Generated(reg, t) && t in fan && t in ids
  {
    var k := CrossKey(src, t);
    && Lookup(st', k) == Some(ids[t]) && ids[t] in Rows(st', t)
    && if k in st.crosswalk && st.crosswalk[k] in Rows(st, t)
       then ids[t] == st.crosswalk[k] && Rows(st', t).Keys == Rows(st, t).Keys && NextAuto(st', t) == NextAuto(st, t)
       else ids[t] == Num(NextAuto(st, t))
            && NextAuto(st', t) == NextAuto(st, t) + 1
            && Rows(st', t) == Rows(st, t)[ids[t] := Filled(reg, fan, ids, t)[Auto(reg, t).value := ids[t]]]
  }

  /** What a successful write does to the generated tables. */
  lemma WriteEffect(reg: Registry, st: State, src: Source, fan: Fanout)
    requires SchemaOk(reg) && WriteRow(reg, st, src, fan).r.Ok?
    ensures var st' := WriteRow(reg, st, src, fan).st;
            var ids := WriteRow(reg, st, src, fan).r.value;
            && ids.Keys == fan.Keys
            && (forall t | t !in fan :: Rows(st', t) == Rows(st, t) && NextAuto(st', t) == NextAuto(st, t))
            && (forall t | Generated(reg, t) && t in fan :: Landed(reg, st, st', src, fan, ids, t))
            && (forall c: CrossKey | c.source != src || c.table !in fan :: Lookup(st', c) == Lookup(st, c))
  {
    WriteRowByTable(reg, st, src, fan);
    var st' := WriteRow(reg, st, src, fan).st;
    var ids := WriteRow(reg, st, src, fan).r.value;
    forall t | Generated(reg, t) && t in fan
      ensures Landed(reg, st, st', src, fan, ids, t)
    {
      LandedSlice(reg, st, st', src, fan, ids, t);
    }
    forall t | t !in fan
      ensures Rows(st', t) == Rows(st, t) && NextAuto(st', t) == NextAuto(st, t)
    {
      assert SliceOf(st', src, t) == SliceOf(st, src, t);
    }
  }

  lemma LandedSlice(reg: Registry, st: State, st': State, src: Source, fan: Fanout, ids: TargetIds, t: string)
    requires SchemaOk(reg) && Generated(reg, t) && t in fan && t in ids
    requires (SliceOf(st', src, t), Ok(ids[t])) == SliceWrite(reg, SliceOf(st, src, t), t, Filled(reg, fan, ids, t))
    ensures Landed(reg, st, st', src, fan, ids, t)
  {
    assert t !in APP_ASSIGNED;
    var sl := SliceOf(st, src, t);
    assert (SliceOf(st', src, t), Ok(ids[t])) == SliceGenerated(reg, sl, t, Filled(reg, fan, ids, t));
    assert Pk(reg, t).Some?;
  }

  // ------------------------------------------------------------------ tightness

  /** Every generated row that is live is the one its source row's crosswalk entry names: no
      orphan has been left behind. Rolling one database back without the other can break this. */
  ghost predicate Tight(reg: Registry, w: World)
  {
    forall t, id | Generated(reg, t) && id in Rows(w.st, t) && RowId(t, id) in w.ledger ::
      Lookup(w.st, w.ledger[RowId(t, id)]) == Some(id)
  }

  /** The engine's counters are ahead of every key in use. */
  ghost predicate CountersAhead(reg: Registry, st: State)
  {
    forall t, id | Generated(reg, t) && id in Rows(st, t) :: BelowCounter(st, RowId(t, id))
  }

  lemma WriteKeepsAhead(reg: Registry, st: State, src: Source, fan: Fanout)
    requires SchemaOk(reg) && WriteRow(reg, st, src, fan).r.Ok? && CountersAhead(reg, st)
    ensures CountersAhead(reg, WriteRow(reg, st, src, fan).st)
  {
    WriteEffect(reg, st, src, fan);
    var st' := WriteRow(reg, st, src, fan).st;
    forall t, id | Generated(reg, t) && id in Rows(st', t)
      ensures BelowCounter(st', RowId(t, id))
    {
      if t in fan {
        assert Landed(reg, st, st', src, fan, WriteRow(reg, st, src, fan).r.value, t);
        if id in Rows(st, t) {
          assert BelowCounter(st, RowId(t, id));
        }
      } else {
        assert BelowCounter(st, RowId(t, id));
      }
    }
  }

  /** A live row keeps the owner it had. */
  lemma OldOwner(reg: Registry, w: World, src: Source, fan: Fanout, t: string, id: Value)
    requires SchemaOk(reg) && Traced(reg, w) && CountersAhead(reg, w.st) && Generated(reg, t)
    requires id in Rows(w.st, t)
    ensures var w' := Apply(reg, w, Write(src, fan));
            && (RowId(t, id) in w'.ledger <==> RowId(t, id) in w.ledger)
            && (RowId(t, id) in w.ledger ==> w'.ledger[RowId(t, id)] == w.ledger[RowId(t, id)])
  {
    WriteRowAdvances(reg, w.st, src, fan);
    LedgerGrows(reg, w, WriteRow(reg, w.st, src, fan).st, src);
    assert BelowCounter(w.st, RowId(t, id));
    assert RowId(t, id) !in NewIds(reg, w.st, WriteRow(reg, w.st, src, fan).st, src);
  }

  /** The row just generated belongs to this write. */
  lemma NewOwner(reg: Registry, w: World, src: Source, fan: Fanout, t: string, id: Value)
    requires SchemaOk(reg) && Generated(reg, t) && WriteRow(reg, w.st, src, fan).r.Ok?
    requires id in Rows(WriteRow(reg, w.st, src, fan).st, t) && id !in Rows(w.st, t)
    ensures var w' := Apply(reg, w, Write(src, fan));
            && t in fan && WriteRow(reg, w.st, src, fan).r.value.Keys == fan.Keys
            && id == WriteRow(reg, w.st, src, fan).r.value[t]
            && RowId(t, id) in w'.ledger && w'.ledger[RowId(t, id)] == CrossKey(src, t)
            && Lookup(w'.st, CrossKey(src, t)) == Some(id)
  {
    WriteEffect(reg, w.st, src, fan);
    var st' := WriteRow(reg, w.st, src, fan).st;
    assert t in fan;
    assert Landed(reg, w.st, st', src, fan, WriteRow(reg, w.st, src, fan).r.value, t);
    assert RowId(t, Num(NextAuto(w.st, t))) in NewIds(reg, w.st, st', src);
  }

  lemma WriteKeepsTight(reg: Registry, w: World, src: Source, fan: Fanout)
    requires SchemaOk(reg) && Traced(reg, w) && CountersAhead(reg, w.st) && Tight(reg, w)
    requires WriteRow(reg, w.st, src, fan).r.Ok?
    ensures Tight(reg, Apply(reg, w, Write(src, fan)))
  {
    var w' := Apply(reg, w, Write(src, fan));
    forall t, id | Generated(reg, t) && id in Rows(w'.st, t) && RowId(t, id) in w'.ledger
      ensures Lookup(w'.st, w'.ledger[RowId(t, id)]) == Some(id)
    {
      RowStaysTight(reg, w, src, fan, t, id);
    }
  }

  lemma RowStaysTight(reg: Registry, w: World, src: Source, fan: Fanout, t: string, id: Value)
    requires SchemaOk(reg) && Traced(reg, w) && CountersAhead(reg, w.st) && Tight(reg, w)
    requires WriteRow(reg, w.st, src, fan).r.Ok? && Generated(reg, t)
    requires var w' := Apply(reg, w, Write(src, fan)); id in Rows(w'.st, t) && RowId(t, id) in w'.ledger
    ensures var w' := Apply(reg, w, Write(src, fan)); Lookup(w'.st, w'.ledger[RowId(t, id)]) == Some(id)
  {
    if id in Rows(w.st, t) {
      OldOwner(reg, w, src, fan, t, id);
      var k := w.ledger[RowId(t, id)];
      assert Lookup(w.st, k) == Some(id) && k.table == t;
      EntryKept(reg, w.st, src, fan, k, id);
    } else {
      NewOwner(reg, w, src, fan, t, id);
    }
  }

  /** An entry naming a live row is left as it is. */
  lemma EntryKept(reg: Registry, st: State, src: Source, fan: Fanout, k: CrossKey, id: Value)
    requires SchemaOk(reg) && WriteRow(reg, st, src, fan).r.Ok? && Generated(reg, k.table)
    requires Lookup(st, k) == Some(id) && id in Rows(st, k.table)
    ensures Lookup(WriteRow(reg, st, src, fan).st, k) == Some(id)
  {
    WriteEffect(reg, st, src, fan);
    if k.source == src && k.table in fan {
      assert k == CrossKey(src, k.table);
      assert Landed(reg, st, WriteRow(reg, st, src, fan).st, src, fan, WriteRow(reg, st, src, fan).r.value, k.table);
    }
  }

  // --------------------------------------------------------------- the refresh

  lemma SlicePresent(reg: Registry, sl: Slice, t: string, values: Row)
    requires t in reg && Null !in sl.rows && SliceWrite(reg, sl, t, values).1.Ok?
    ensures var (sl', r) := SliceWrite(reg, sl, t, values);
            Null !in sl'.rows && r.value != Null
  {
  }

  lemma WriteKeepsPresent(reg: Registry, st: State, src: Source, fan: Fanout)
    requires SchemaOk(reg) && KeysPresent(st) && WriteRow(reg, st, src, fan).r.Ok?
    ensures KeysPresent(WriteRow(reg, st, src, fan).st)
    ensures var ids := WriteRow(reg, st, src, fan).r.value;
            ids.Keys == fan.Keys && forall p | p in fan :: ids[p] != Null
  {
    WriteRowByTable(reg, st, src, fan);
    WriteEffect(reg, st, src, fan);
    var o := WriteRow(reg, st, src, fan);
    forall t
      ensures Null !in Rows(o.st, t)
      ensures t in fan ==> o.r.value[t] != Null
    {
      if t in fan {
        assert t !in Unknown(reg, fan);
        assert SliceWrite(reg, SliceOf(st, src, t), t, Filled(reg, fan, o.r.value, t)).1 == Ok(o.r.value[t]);
        SlicePresent(reg, SliceOf(st, src, t), t, Filled(reg, fan, o.r.value, t));
        assert Rows(o.st, t) == SliceOf(o.st, src, t).rows;
      }
    }
  }

  /** A world in which nothing has been lost between the two databases. */
  ghost predicate Sound(reg: Registry, w: World)
  {
    Traced(reg, w) && CountersAhead(reg, w.st) && KeysPresent(w.st) && Tight(reg, w)
  }

  /** The entity's entries for generated tables all stem from these writes. */
  ghost predicate EntriesFrom(reg: Registry, st: State, entity: string, target: string, ops: seq<Op>)
  {
    forall k | k in st.crosswalk && Generated(reg, k.table) && Of(k, entity, target) ::
      exists i :: 0 <= i < |ops| && ops[i].Write? && ops[i].src == k.source && k.table in ops[i].fan
  }

  /** Each generated table of the fan-out holds one row for the source row, the one its entry
      names; it holds the row's values, foreign keys filled from `ids`, under its generated key. */
  ghost predicate PlacedUnder(reg: Registry, st: State, src: Source, fan: Fanout, ids: TargetIds)
  {
    && ids.Keys == fan.Keys && (forall p | p in fan :: ids[p] != Null)
    && forall t | t in fan && Generated(reg, t) ::
         && Lookup(st, CrossKey(src, t)) == Some(ids[t]) && ids[t] in Rows(st, t)
         && Rows(st, t)[ids[t]] == Filled(reg, fan, ids, t)[Auto(reg, t).value := ids[t]]
  }

  ghost predicate Placed(reg: Registry, st: State, op: Op)
  {
    op.Write? && exists ids :: PlacedUnder(reg, st, op.src, op.fan, ids)
  }

  lemma DeleteClears(reg: Registry, w: World, entity: string, target: string)
    requires SchemaOk(reg) && Sound(reg, w) && DeleteEntity(reg, w.st, entity, target).r.Ok?
    ensures var w' := Apply(reg, w, Delete(entity, target));
            Sound(reg, w') && EntriesFrom(reg, w'.st, entity, target, [])
  {
    DeleteTraced(reg, w, entity, target);
    DeleteForgets(reg, w.st, entity, target);
    var w' := Apply(reg, w, Delete(entity, target));
    forall t
      ensures Null !in Rows(w'.st, t)
    {
      DeletesExactlyOwned(reg, w.st, entity, target, t);
    }
    forall t, id | Generated(reg, t) && id in Rows(w'.st, t)
      ensures BelowCounter(w'.st, RowId(t, id))
      ensures RowId(t, id) in w'.ledger ==> Lookup(w'.st, w'.ledger[RowId(t, id)]) == Some(id)
    {
      DeleteSpares(reg, w, entity, target, t, id);
    }
  }

  lemma DeleteForgets(reg: Registry, st: State, entity: string, target: string)
    requires DeleteEntity(reg, st, entity, target).r.Ok?
    ensures EntriesFrom(reg, DeleteEntity(reg, st, entity, target).st, entity, target, [])
  {
    var st' := DeleteEntity(reg, st, entity, target).st;
    forall k: CrossKey | Generated(reg, k.table) && Of(k, entity, target)
      ensures k !in st'.crosswalk
    {
      DeletesExactlyOwned(reg, st, entity, target, k.table);
      assert Lookup(st', k) == if k.table in OwnedTables(reg, st, entity, target) then None else Lookup(st, k);
      assert k in st.crosswalk ==> k.table in OwnedTables(reg, st, entity, target);
    }
  }

  /** A generated row that outlives the delete still has its entry. */
  lemma DeleteSpares(reg: Registry, w: World, entity: string, target: string, t: string, id: Value)
    requires SchemaOk(reg) && Sound(reg, w) && DeleteEntity(reg, w.st, entity, target).r.Ok?
    requires Generated(reg, t) && id in Rows(DeleteEntity(reg, w.st, entity, target).st, t)
    ensures var st' := DeleteEntity(reg, w.st, entity, target).st;
            && BelowCounter(st', RowId(t, id))
            && (RowId(t, id) in w.ledger ==> Lookup(st', w.ledger[RowId(t, id)]) == Some(id))
  {
    DeletesExactlyOwned(reg, w.st, entity, target, t);
    assert id in Rows(w.st, t);
    assert BelowCounter(w.st, RowId(t, id));
    if RowId(t, id) in w.ledger {
      var k := w.ledger[RowId(t, id)];
      assert Lookup(w.st, k) == Some(id) && k.table == t;
      if Of(k, entity, target) {
        GeneratedHasKey(reg, t);
        NamedRowGoes(reg, w.st, entity, target, k, id);
      }
    }
  }

  lemma NamedIsOwned(reg: Registry, st: State, entity: string, target: string, k: CrossKey, id: Value)
    requires Generated(reg, k.table) && Lookup(st, k) == Some(id) && Of(k, entity, target)
    ensures k.table in OwnedTables(reg, st, entity, target) && id in OwnedIds(st, entity, target, k.table)
  {
  }

  lemma GeneratedHasKey(reg: Registry, t: string)
    requires SchemaOk(reg) && Generated(reg, t)
    ensures Pk(reg, t).Some?
  {
  }

  lemma NamedRowGoes(reg: Registry, st: State, entity: string, target: string, k: CrossKey, id: Value)
    requires k.table in reg && Pk(reg, k.table).Some? && DeleteEntity(reg, st, entity, target).r.Ok?
    requires Generated(reg, k.table) && Lookup(st, k) == Some(id) && Of(k, entity, target)
    ensures id !in Rows(DeleteEntity(reg, st, entity, target).st, k.table)
  {
    NamedIsOwned(reg, st, entity, target, k, id);
    OwnedRowGoes(reg, st, entity, target, k.table, id);
  }

  lemma WriteKeepsSound(reg: Registry, w: World, op: Op)
    requires SchemaOk(reg) && Sound(reg, w) && op.Write? && WriteRow(reg, w.st, op.src, op.fan).r.Ok?
    ensures Sound(reg, Apply(reg, w, op))
  {
    StepTraced(reg, w, op);
    WriteKeepsAhead(reg, w.st, op.src, op.fan);
    WriteKeepsPresent(reg, w.st, op.src, op.fan);
    WriteKeepsTight(reg, w, op.src, op.fan);
  }

  lemma WriteExtendsEntries(reg: Registry, st: State, entity: string, target: string, ops: seq<Op>, op: Op)
    requires SchemaOk(reg) && op.Write? && WriteRow(reg, st, op.src, op.fan).r.Ok?
    requires EntriesFrom(reg, st, entity, target, ops)
    ensures EntriesFrom(reg, WriteRow(reg, st, op.src, op.fan).st, entity, target, ops + [op])
  {
    WriteEffect(reg, st, op.src, op.fan);
    var st' := WriteRow(reg, st, op.src, op.fan).st;
    forall k | k in st'.crosswalk && Generated(reg, k.table) && Of(k, entity, target)
      ensures exists i :: 0 <= i < |ops + [op]| && (ops + [op])[i].Write? && (ops + [op])[i].src == k.source && k.table in (ops + [op])[i].fan
    {
      if k.source == op.src && k.table in op.fan {
        assert (ops + [op])[|ops|] == op;
      } else {
        assert Lookup(st', k) == Lookup(st, k);
        var i :| 0 <= i < |ops| && ops[i].Write? && ops[i].src == k.source && k.table in ops[i].fan;
        assert (ops + [op])[i] == ops[i];
      }
    }
  }

  /** Without an entry of its own, a row is inserted, not updated, and others keep theirs. */
  lemma WritePlaces(reg: Registry, st: State, src: Source, fan: Fanout)
    requires SchemaOk(reg) && WriteRow(reg, st, src, fan).r.Ok?
    requires KeysPresent(st) && forall t | Generated(reg, t) :: CrossKey(src, t) !in st.crosswalk
    ensures PlacedUnder(reg, WriteRow(reg, st, src, fan).st, src, fan, WriteRow(reg, st, src, fan).r.value)
  {
    WriteEffect(reg, st, src, fan);
    WriteKeepsPresent(reg, st, src, fan);
    var ids := WriteRow(reg, st, src, fan).r.value;
    forall t | t in fan && Generated(reg, t)
      ensures Landed(reg, st, WriteRow(reg, st, src, fan).st, src, fan, ids, t)
    {
    }
  }

  lemma WriteSparesPlaced(reg: Registry, st: State, src: Source, fan: Fanout, op: Op)
    requires SchemaOk(reg) && WriteRow(reg, st, src, fan).r.Ok? && CountersAhead(reg, st)
    requires forall t | Generated(reg, t) :: CrossKey(src, t) !in st.crosswalk
    requires Placed(reg, st, op) && op.src != src
    ensures Placed(reg, WriteRow(reg, st, src, fan).st, op)
  {
    WriteEffect(reg, st, src, fan);
    var st' := WriteRow(reg, st, src, fan).st;
    var ids :| PlacedUnder(reg, st, op.src, op.fan, ids);
    forall t | t in op.fan && Generated(reg, t)
      ensures Lookup(st', CrossKey(op.src, t)) == Some(ids[t]) && ids[t] in Rows(st', t)
      ensures Rows(st', t)[ids[t]] == Rows(st, t)[ids[t]]
    {
      if t in fan {
        assert Landed(reg, st, st', src, fan, WriteRow(reg, st, src, fan).r.value, t);
        assert BelowCounter(st, RowId(t, ids[t]));
      }
    }
    assert PlacedUnder(reg, st', op.src, op.fan, ids);
  }

  /** Progress of a refresh after the writes `done`. */
  ghost predicate Refreshed(reg: Registry, w: World, entity: string, target: string, done: seq<Op>)
  {
    && Sound(reg, w) && EntriesFrom(reg, w.st, entity, target, done)
    && forall i | 0 <= i < |done| :: Placed(reg, w.st, done[i])
  }

  ghost predicate DistinctWrites(entity: string, target: string, ops: seq<Op>)
  {
    && (forall i | 0 <= i < |ops| :: ops[i].Write? && ops[i].src.entity == entity && ops[i].src.target == target)
    && forall i, j | 0 <= i < j < |ops| :: ops[i].src != ops[j].src
  }

  lemma RefreshedStep(reg: Registry, w: World, entity: string, target: string, done: seq<Op>, op: Op)
    requires SchemaOk(reg) && Refreshed(reg, w, entity, target, done)
    requires DistinctWrites(entity, target, done + [op])
    requires op.Write? && WriteRow(reg, w.st, op.src, op.fan).r.Ok?
    ensures Refreshed(reg, Apply(reg, w, op), entity, target, done + [op])
  {
    LastIsNew(entity, target, done, op);
    NoEntryYet(reg, w.st, entity, target, done, op.src);
    WriteKeepsSound(reg, w, op);
    WriteExtendsEntries(reg, w.st, entity, target, done, op);
    WritePlaces(reg, w.st, op.src, op.fan);
    forall i | 0 <= i < |done + [op]|
      ensures Placed(reg, Apply(reg, w, op).st, (done + [op])[i])
    {
      if i < |done| {
        assert (done + [op])[i] == done[i];
        WriteSparesPlaced(reg, w.st, op.src, op.fan, done[i]);
      }
    }
  }

  lemma LastIsNew(entity: string, target: string, done: seq<Op>, op: Op)
    requires DistinctWrites(entity, target, done + [op])
    ensures op.Write? && op.src.entity == entity && op.src.target == target
    ensures forall i | 0 <= i < |done| :: done[i].Write? && done[i].src != op.src
  {
    assert (done + [op])[|done|] == op;
    forall i | 0 <= i < |done|
      ensures done[i].Write? && done[i].src != op.src
    {
      assert (done + [op])[i] == done[i];
    }
  }

  lemma NoEntryYet(reg: Registry, st: State, entity: string, target: string, done: seq<Op>, src: Source)
    requires EntriesFrom(reg, st, entity, target, done) && src.entity == entity && src.target == target
    requires forall i | 0 <= i < |done| :: done[i].Write? && done[i].src != src
    ensures forall t | Generated(reg, t) :: CrossKey(src, t) !in st.crosswalk
  {
  }

  lemma {:induction false} RefreshedRun(reg: Registry, w: World, entity: string, target: string, done: seq<Op>, ops: seq<Op>)
    requires SchemaOk(reg) && Refreshed(reg, w, entity, target, done)
    requires DistinctWrites(entity, target, done + ops) && Succeeds(reg, w, ops)
    ensures Refreshed(reg, Run(reg, w, ops), entity, target, done + ops)
    decreases |ops|
  {
    if ops == [] {
      assert done + ops == done;
    } else {
      var op, rest := ops[0], ops[1..];
      Regroup(done, ops);
      DistinctPrefix(entity, target, done + [op], rest);
      LastIsNew(entity, target, done, op);
      RefreshedStep(reg, w, entity, target, done, op);
      RefreshedRun(reg, Apply(reg, w, op), entity, target, done + [op], rest);
    }
  }

  lemma Regroup<T>(a: seq<T>, b: seq<T>)
    requires b != []
    ensures (a + [b[0]]) + b[1..] == a + b
  {
  }

  lemma DistinctPrefix(entity: string, target: string, a: seq<Op>, b: seq<Op>)
    requires DistinctWrites(entity, target, a + b)
    ensures DistinctWrites(entity, target, a)
  {
    assert forall i | 0 <= i < |a| :: (a + b)[i] == a[i];
  }

  /** A refresh is its delete and then a run of writes, each placed. */
  lemma RefreshPlaces(reg: Registry, codec: Codec, w: World, system: string, entity: string, target: string,
                      mappings: seq<Mapping>, rows: seq<SourceRow>)
    requires SchemaOk(reg) && Sound(reg, w) && NoDup(References(rows))
    requires RefreshEntity(reg, codec, w.st, system, entity, target, mappings, rows).r.Ok?
    ensures var o := RefreshEntity(reg, codec, w.st, system, entity, target, mappings, rows);
            var w1 := Apply(reg, w, Delete(entity, target));
            var ops := WritesOf(reg, codec, w1.st, system, entity, target, mappings, rows);
            var now := Run(reg, w1, ops);
            && now.st == o.st && o.r.value.written == |ops|
            && DistinctWrites(entity, target, ops) && Refreshed(reg, now, entity, target, ops)
  {
    var w1 := Apply(reg, w, Delete(entity, target));
    var ops := WritesOf(reg, codec, w1.st, system, entity, target, mappings, rows);
    DeleteClears(reg, w, entity, target);
    var deleted := DeleteEntity(reg, w.st, entity, target).r.value;
    RefreshIsARun(reg, codec, w1, system, entity, target, mappings, rows, Report(deleted, 0, [], |rows|, 0));
    WritesAreFor(reg, codec, w1.st, system, entity, target, mappings, rows);
    WritesDistinct(entity, target, ops, References(rows));
    assert [] + ops == ops;
    RefreshedRun(reg, w1, entity, target, [], ops);
  }

  /** Each generated row of the entity that is still live is one of those the writes placed. */
  ghost predicate NoOthers(reg: Registry, w: World, entity: string, target: string, ops: seq<Op>)
    requires DistinctWrites(entity, target, ops)
  {
    forall t, id | Generated(reg, t) && id in Rows(w.st, t) && RowId(t, id) in w.ledger && Of(w.ledger[RowId(t, id)], entity, target) ::
      exists i :: 0 <= i < |ops| && w.ledger[RowId(t, id)] == CrossKey(ops[i].src, t) && t in ops[i].fan
                  && Lookup(w.st, CrossKey(ops[i].src, t)) == Some(id)
  }

  lemma RefreshedHasNoOthers(reg: Registry, w: World, entity: string, target: string, ops: seq<Op>)
    requires Refreshed(reg, w, entity, target, ops) && DistinctWrites(entity, target, ops)
    ensures NoOthers(reg, w, entity, target, ops)
  {
    forall t, id | Generated(reg, t) && id in Rows(w.st, t) && RowId(t, id) in w.ledger && Of(w.ledger[RowId(t, id)], entity, target)
      ensures exists i :: 0 <= i < |ops| && w.ledger[RowId(t, id)] == CrossKey(ops[i].src, t) && t in ops[i].fan
                          && Lookup(w.st, CrossKey(ops[i].src, t)) == Some(id)
    {
      OwnedStemsFrom(reg, w, entity, target, ops, t, id);
    }
  }

  /** Refresh an entity whose source rows have distinct references, from a world in which nothing
      was lost: as many writes go through as the report counts, each with its own source row;
      every write has exactly one live row in each generated table it fans out to, with the
      values its source row fixes; the entity's entries name exactly those rows, and every
      generated row of the entity that is still live is one of them. */
  lemma RefreshOwnsExactly(reg: Registry, codec: Codec, w: World, system: string, entity: string, target: string,
                           mappings: seq<Mapping>, rows: seq<SourceRow>)
    requires SchemaOk(reg) && Sound(reg, w) && NoDup(References(rows))
    requires RefreshEntity(reg, codec, w.st, system, entity, target, mappings, rows).r.Ok?
    ensures var o := RefreshEntity(reg, codec, w.st, system, entity, target, mappings, rows);
            var w1 := Apply(reg, w, Delete(entity, target));
            var ops := WritesOf(reg, codec, w1.st, system, entity, target, mappings, rows);
            var now := Run(reg, w1, ops);
            && now.st == o.st && o.r.value.written == |ops|
            && DistinctWrites(entity, target, ops)
            && Refreshed(reg, now, entity, target, ops) && NoOthers(reg, now, entity, target, ops)
  {
    RefreshPlaces(reg, codec, w, system, entity, target, mappings, rows);
    var w1 := Apply(reg, w, Delete(entity, target));
    var ops := WritesOf(reg, codec, w1.st, system, entity, target, mappings, rows);
    RefreshedHasNoOthers(reg, Run(reg, w1, ops), entity, target, ops);
  }

  lemma OwnedStemsFrom(reg: Registry, w: World, entity: string, target: string, ops: seq<Op>, t: string, id: Value)
    requires Sound(reg, w) && EntriesFrom(reg, w.st, entity, target, ops) && DistinctWrites(entity, target, ops)
    requires Generated(reg, t) && id in Rows(w.st, t) && RowId(t, id) in w.ledger
    requires Of(w.ledger[RowId(t, id)], entity, target)
    ensures exists i :: 0 <= i < |ops| && w.ledger[RowId(t, id)] == CrossKey(ops[i].src, t) && t in ops[i].fan
                        && Lookup(w.st, CrossKey(ops[i].src, t)) == Some(id)
  {
    var k := w.ledger[RowId(t, id)];
    assert Lookup(w.st, k) == Some(id) && k.table == t;
    var i :| 0 <= i < |ops| && ops[i].Write? && ops[i].src == k.source && k.table in ops[i].fan;
    assert k == CrossKey(ops[i].src, t);
  }

  // ------------------------------------------------------- contents up to ids

  /** What a filled column holds: its own value if it has one, else the id of a parent some
      foreign key on the column names, else null. */
  lemma {:induction false} FilledColumn(reg: Registry, t: string, fks: seq<ForeignKey>, values: Row, ids: TargetIds, c: string)
    requires SchemaOk(reg) && t in reg && forall f | f in fks :: f in reg[t].foreignKeys
    ensures var v := Get(ApplyForeignKeys(fks, t, values, ids), c);
            || v == Get(values, c)
            || (Get(values, c) == Null
                && exists f :: f in fks && f.column == c && f.refTable != t && f.refTable in ids && v == ids[f.refTable])
    decreases |fks|
  {
    if fks != [] {
      FilledColumn(reg, t, fks[1..], FillForeignKey(fks[0], t, values, ids), ids, c);
      assert fks[0] in fks;
    }
  }

  /** Equal, or the generated keys of the two rows, or the ids of one parent in the two states. */
  ghost predicate SameCell(reg: Registry, fan: Fanout, ids: TargetIds, ids': TargetIds, t: string, c: string, row: Row, row': Row)
    requires t in reg && t in fan && ids.Keys == fan.Keys && ids'.Keys == fan.Keys
  {
    || Get(row', c) == Get(row, c)
    || (Some(c) == Auto(reg, t) && Get(row, c) == ids[t] && Get(row', c) == ids'[t])
    || exists p :: p in fan && p != t && Get(row, c) == ids[p] && Get(row', c) == ids'[p]
  }

  /** Two placements of the same values hold the same rows up to a renaming of ids: a column
      differs only where it is the generated key itself or the id of a parent of the row. */
  lemma SameUpToIds(reg: Registry, a: State, b: State, src: Source, fan: Fanout, ids: TargetIds, ids': TargetIds, t: string, c: string)
    requires SchemaOk(reg) && t in fan && Generated(reg, t)
    requires PlacedUnder(reg, a, src, fan, ids) && PlacedUnder(reg, b, src, fan, ids')
    ensures SameCell(reg, fan, ids, ids', t, c, Rows(a, t)[ids[t]], Rows(b, t)[ids'[t]])
  {
    if Some(c) != Auto(reg, t) {
      SameFilling(reg, t, reg[t].foreignKeys, fan[t], fan[t], ids, ids', c);
    }
  }

  lemma {:induction false} SameFilling(reg: Registry, t: string, fks: seq<ForeignKey>, values: Row, values': Row,
                                       ids: TargetIds, ids': TargetIds, c: string)
    requires ids.Keys == ids'.Keys && forall p | p in ids :: ids[p] != Null && ids'[p] != Null
    requires || Get(values', c) == Get(values, c)
             || exists p :: p in ids && p != t && Get(values, c) == ids[p] && Get(values', c) == ids'[p]
    ensures var v, v' := Get(ApplyForeignKeys(fks, t, values, ids), c), Get(ApplyForeignKeys(fks, t, values', ids'), c);
            || v' == v
            || exists p :: p in ids && p != t && v == ids[p] && v' == ids'[p]
    decreases |fks|
  {
    if fks != [] {
      SameFilling(reg, t, fks[1..], FillForeignKey(fks[0], t, values, ids), FillForeignKey(fks[0], t, values', ids'), ids, ids', c);
    }
  }

  /** One write's rows in two states, under a renaming of ids. */
  ghost predicate SameRows(reg: Registry, a: State, b: State, op: Op)
    requires op.Write?
  {
    exists ids, ids' :: PlacedUnder(reg, a, op.src, op.fan, ids) && PlacedUnder(reg, b, op.src, op.fan, ids')
      && forall t, c | t in op.fan && Generated(reg, t) ::
           SameCell(reg, op.fan, ids, ids', t, c, Rows(a, t)[ids[t]], Rows(b, t)[ids'[t]])
  }

  lemma PlacedTwice(reg: Registry, a: State, b: State, op: Op)
    requires SchemaOk(reg) && Placed(reg, a, op) && Placed(reg, b, op)
    ensures SameRows(reg, a, b, op)
  {
    var ids :| PlacedUnder(reg, a, op.src, op.fan, ids);
    var ids' :| PlacedUnder(reg, b, op.src, op.fan, ids');
    forall t, c | t in op.fan && Generated(reg, t)
      ensures SameCell(reg, op.fan, ids, ids', t, c, Rows(a, t)[ids[t]], Rows(b, t)[ids'[t]])
    {
      SameUpToIds(reg, a, b, op.src, op.fan, ids, ids', t, c);
    }
  }

  /** Refresh twice, the cross-entity references resolving alike: the second refresh leaves, for
      each source row written, the rows of the first up to a renaming of generated ids, and
      again no other generated rows of the entity. */
  lemma RefreshTwiceSame(reg: Registry, codec: Codec, w: World, system: string, entity: string, target: string,
                         mappings: seq<Mapping>, rows: seq<SourceRow>)
    requires SchemaOk(reg) && Sound(reg, w) && NoDup(References(rows))
    requires RefreshEntity(reg, codec, w.st, system, entity, target, mappings, rows).r.Ok?
    requires var a := After(reg, codec, w, system, entity, target, mappings, rows);
             && RefreshEntity(reg, codec, a.0.st, system, entity, target, mappings, rows).r.Ok?
             && After(reg, codec, a.0, system, entity, target, mappings, rows).1 == a.1
    ensures var a := After(reg, codec, w, system, entity, target, mappings, rows);
            var b := After(reg, codec, a.0, system, entity, target, mappings, rows);
            && (forall i | 0 <= i < |a.1| :: a.1[i].Write? && SameRows(reg, a.0.st, b.0.st, a.1[i]))
            && EntriesFrom(reg, a.0.st, entity, target, a.1) && EntriesFrom(reg, b.0.st, entity, target, a.1)
  {
    var a := After(reg, codec, w, system, entity, target, mappings, rows);
    RefreshOwnsExactly(reg, codec, w, system, entity, target, mappings, rows);
    RefreshOwnsExactly(reg, codec, a.0, system, entity, target, mappings, rows);
    var b := After(reg, codec, a.0, system, entity, target, mappings, rows);
    forall i | 0 <= i < |a.1|
      ensures a.1[i].Write? && SameRows(reg, a.0.st, b.0.st, a.1[i])
    {
      PlacedTwice(reg, a.0.st, b.0.st, a.1[i]);
    }
  }

  /** The world a refresh leaves, and the writes it performed. */
  ghost function After(reg: Registry, codec: Codec, w: World, system: string, entity: string, target: string,
                       mappings: seq<Mapping>, rows: seq<SourceRow>): (World, seq<Op>)
  {
    var w1 := Apply(reg, w, Delete(entity, target));
    var ops := WritesOf(reg, codec, w1.st, system, entity, target, mappings, rows);
    (Run(reg, w1, ops), ops)
  }
}
