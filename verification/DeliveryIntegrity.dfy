/** Whatever a payload, its mappings and the crosswalk hold, delivery and refresh leave the
    target referentially intact. */
module DeliveryIntegrity {
  import opened Ordering
  import opened Outcomes
  import opened SchemaGraph
  import opened Store
  import opened Writer
  import opened Integrity
  import opened Deletion
  import opened Delivery

  // ---------------------------------------------------- what building produces

  /** The value mapping `m` gives, when it is applied and its transform succeeds. */
  function ValueOf(reg: Registry, codec: Codec, payload: Payload, m: Mapping): Option<Value>
  {
    if Skipped(reg, payload, m) then None
    else
      match codec.transform(m.transform, payload[m.sourceColumn])
      case None => None
      case Some(v) => Some(Fit(reg, codec, m.targetTable, m.targetColumn, v))
  }

  predicate Holds(fan: Fanout, t: string, c: string)
  {
    t in fan && c in fan[t]
  }

  /** Every value in the fan-out is what one of the applied mappings onto that column gives. */
  lemma {:induction false} BuiltFromMappings(reg: Registry, codec: Codec, payload: Payload, mappings: seq<Mapping>,
                                             fan: Fanout, errors: seq<Mapping>, t: string, c: string)
    requires var built := BuildValues(reg, codec, payload, mappings, fan, errors).0; Holds(built, t, c)
    ensures var built := BuildValues(reg, codec, payload, mappings, fan, errors).0;
            || (Holds(fan, t, c) && built[t][c] == fan[t][c])
            || exists m :: m in mappings && m.targetTable == t && m.targetColumn == c
                           && ValueOf(reg, codec, payload, m) == Some(built[t][c])
    decreases |mappings|
  {
    if mappings != [] {
      var m := mappings[0];
      var rest := mappings[1..];
      if Skipped(reg, payload, m) {
        BuiltFromMappings(reg, codec, payload, rest, fan, errors, t, c);
      } else {
        match codec.transform(m.transform, payload[m.sourceColumn])
        case None => BuiltFromMappings(reg, codec, payload, rest, fan, errors + [m], t, c);
        case Some(v) =>
          var extended := SetColumn(fan, m.targetTable, m.targetColumn, Fit(reg, codec, m.targetTable, m.targetColumn, v));
          BuiltFromMappings(reg, codec, payload, rest, extended, errors, t, c);
      }
    }
  }

  /** Every applied mapping whose transform succeeds has its column in the fan-out, and an
      error is listed exactly when some applied transform fails. */
  lemma {:induction false} BuiltCoversMappings(reg: Registry, codec: Codec, payload: Payload, mappings: seq<Mapping>,
                                               fan: Fanout, errors: seq<Mapping>)
    ensures var (built, errs) := BuildValues(reg, codec, payload, mappings, fan, errors);
            && (forall t, c | Holds(fan, t, c) :: Holds(built, t, c))
            && (forall t | t in fan :: t in built)
            && (forall m | m in mappings && ValueOf(reg, codec, payload, m).Some? :: Holds(built, m.targetTable, m.targetColumn))
            && (errs == [] <==> errors == [] && forall m | m in mappings :: Skipped(reg, payload, m) || ValueOf(reg, codec, payload, m).Some?)
    decreases |mappings|
  {
    if mappings != [] {
      var m := mappings[0];
      var rest := mappings[1..];
      assert mappings == [m] + rest;
      if Skipped(reg, payload, m) {
        BuiltCoversMappings(reg, codec, payload, rest, fan, errors);
      } else {
        match codec.transform(m.transform, payload[m.sourceColumn])
        case None => BuiltCoversMappings(reg, codec, payload, rest, fan, errors + [m]);
        case Some(v) =>
          var extended := SetColumn(fan, m.targetTable, m.targetColumn, Fit(reg, codec, m.targetTable, m.targetColumn, v));
          assert forall t, c | Holds(fan, t, c) :: Holds(extended, t, c);
          assert Holds(extended, m.targetTable, m.targetColumn);
          BuiltCoversMappings(reg, codec, payload, rest, extended, errors);
      }
    }
  }

  // ------------------------------------------------ the same, mapping by mapping

  /** A mapping is applied: both its target names are given, the payload has its column, and the target column,
      where the table is known, is neither a foreign key nor the generated key. */
  ghost predicate Applies(reg: Registry, payload: Payload, m: Mapping)
  {
    && m.targetTable != "" && m.targetColumn != "" && m.sourceColumn in payload
    && (m.targetTable in reg ==>
          && (forall f | f in reg[m.targetTable].foreignKeys :: f.column != m.targetColumn)
          && Auto(reg, m.targetTable) != Some(m.targetColumn))
  }

  lemma AppliesIff(reg: Registry, payload: Payload, m: Mapping)
    ensures Applies(reg, payload, m) <==> !Skipped(reg, payload, m)
  {
    if m.targetTable in reg {
      assert m.targetColumn in FkColumns(reg, m.targetTable) <==> exists f :: f in reg[m.targetTable].foreignKeys && f.column == m.targetColumn;
    }
  }

  /** What a column takes of a value: text of a column with a width is cut behind that many characters, and
      nothing else is changed. */
  lemma FitIs(reg: Registry, codec: Codec, t: string, c: string, v: Value)
    ensures var r := Fit(reg, codec, t, c, v);
            && (!v.Text? ==> r == v) && (v.Text? ==> r.Text? && r.s <= v.s)
            && (t !in reg || (forall col | col in reg[t].columns :: col.name != c) ==> r == v)
            && (t in reg && v.Text? ==> forall i | 0 <= i < |reg[t].columns| && reg[t].columns[i].name == c
                                                   && forall j | 0 <= j < i :: reg[t].columns[j].name != c ::
                  var width := codec.width(reg[t].columns[i].dataType);
                  |r.s| == if width.Some? && |v.s| > width.value then width.value else |v.s|)
  {
    if t in reg {
      TypeOf(reg[t].columns, c);
    }
  }

  lemma {:induction false} TypeOf(columns: seq<Column>, c: string)
    ensures ColumnType(columns, c).None? <==> forall col | col in columns :: col.name != c
    ensures forall i | 0 <= i < |columns| && columns[i].name == c && (forall j | 0 <= j < i :: columns[j].name != c) ::
              ColumnType(columns, c) == Some(columns[i].dataType)
    decreases |columns|
  {
    if columns != [] {
      var tail := columns[1..];
      TypeOf(tail, c);
      assert forall col :: col in columns <==> col == columns[0] || col in tail;
      forall i | 0 <= i < |columns| && columns[i].name == c && forall j | 0 <= j < i :: columns[j].name != c
        ensures ColumnType(columns, c) == Some(columns[i].dataType)
      {
        if i > 0 {
          assert columns[0].name != c && tail[i - 1] == columns[i];
          assert forall j | 0 <= j < i - 1 :: tail[j] == columns[j + 1];
        }
      }
    }
  }

  /** The mapping gives this column a value: it is applied and its transform succeeds. */
  ghost predicate Gives(reg: Registry, codec: Codec, payload: Payload, m: Mapping, t: string, c: string)
  {
    && m.targetTable == t && m.targetColumn == c && Applies(reg, payload, m)
    && codec.transform(m.transform, payload[m.sourceColumn]).Some?
  }

  /** The last of the mappings that give this column a value. */
  ghost predicate LastGiving(reg: Registry, codec: Codec, payload: Payload, mappings: seq<Mapping>, t: string, c: string, i: int)
  {
    && 0 <= i < |mappings| && Gives(reg, codec, payload, mappings[i], t, c)
    && forall j | i < j < |mappings| :: !Gives(reg, codec, payload, mappings[j], t, c)
  }

  lemma {:induction false} BuiltOn(reg: Registry, codec: Codec, payload: Payload, front: seq<Mapping>, m: Mapping,
                                   fan: Fanout, errors: seq<Mapping>)
    ensures var (built, errs) := BuildValues(reg, codec, payload, front, fan, errors);
            BuildValues(reg, codec, payload, front + [m], fan, errors) == BuildValues(reg, codec, payload, [m], built, errs)
    decreases |front|
  {
    var mappings := front + [m];
    if front == [] {
      assert mappings == [m];
    } else {
      assert mappings[0] == front[0] && mappings[1..] == front[1..] + [m];
      var h := front[0];
      if Skipped(reg, payload, h) {
        BuiltOn(reg, codec, payload, front[1..], m, fan, errors);
      } else {
        match codec.transform(h.transform, payload[h.sourceColumn])
        case None => BuiltOn(reg, codec, payload, front[1..], m, fan, errors + [h]);
        case Some(v) =>
          BuiltOn(reg, codec, payload, front[1..], m,
                  SetColumn(fan, h.targetTable, h.targetColumn, Fit(reg, codec, h.targetTable, h.targetColumn, v)), errors);
      }
    }
  }

  lemma OneMapping(reg: Registry, codec: Codec, payload: Payload, m: Mapping, fan: Fanout, errors: seq<Mapping>, t: string, c: string)
    ensures var built := BuildValues(reg, codec, payload, [m], fan, errors).0;
            if Gives(reg, codec, payload, m, t, c) then
              Holds(built, t, c) && built[t][c] == Fit(reg, codec, t, c, codec.transform(m.transform, payload[m.sourceColumn]).value)
            else (Holds(built, t, c) <==> Holds(fan, t, c)) && (Holds(fan, t, c) ==> built[t][c] == fan[t][c])
  {
    AppliesIff(reg, payload, m);
    assert [m][1..] == [];
  }

  lemma {:induction false} BuiltFrom(reg: Registry, codec: Codec, payload: Payload, mappings: seq<Mapping>, t: string, c: string)
    ensures var built := BuildValues(reg, codec, payload, mappings, map[], []).0;
            && (Holds(built, t, c) <==> exists i :: 0 <= i < |mappings| && Gives(reg, codec, payload, mappings[i], t, c))
            && (forall i | LastGiving(reg, codec, payload, mappings, t, c, i) ::
                  Holds(built, t, c)
                  && built[t][c] == Fit(reg, codec, t, c, codec.transform(mappings[i].transform, payload[mappings[i].sourceColumn]).value))
    decreases |mappings|
  {
    if mappings != [] {
      var n := |mappings| - 1;
      var front, m := mappings[..n], mappings[n];
      assert mappings == front + [m];
      var (built, errors) := BuildValues(reg, codec, payload, front, map[], []);
      BuiltFrom(reg, codec, payload, front, t, c);
      BuiltOn(reg, codec, payload, front, m, map[], []);
      OneMapping(reg, codec, payload, m, built, errors, t, c);
      GivingOn(reg, codec, payload, front, m, t, c);
    }
  }

  lemma GivingOn(reg: Registry, codec: Codec, payload: Payload, front: seq<Mapping>, m: Mapping, t: string, c: string)
    ensures var mappings := front + [m];
            && ((exists i :: 0 <= i < |mappings| && Gives(reg, codec, payload, mappings[i], t, c)) <==>
                  Gives(reg, codec, payload, m, t, c) || exists i :: 0 <= i < |front| && Gives(reg, codec, payload, front[i], t, c))
            && (forall i | LastGiving(reg, codec, payload, mappings, t, c, i) ::
                  if i == |front| then Gives(reg, codec, payload, m, t, c)
                  else !Gives(reg, codec, payload, m, t, c) && LastGiving(reg, codec, payload, front, t, c, i))
  {
    var mappings := front + [m];
    assert mappings[|front|] == m;
    assert forall j | 0 <= j < |front| :: front[j] == mappings[j];
    forall i | LastGiving(reg, codec, payload, mappings, t, c, i)
      ensures if i == |front| then Gives(reg, codec, payload, m, t, c)
              else !Gives(reg, codec, payload, m, t, c) && LastGiving(reg, codec, payload, front, t, c, i)
    {
      if i < |front| {
        assert front[i] == mappings[i];
        forall j | i < j < |front| ensures !Gives(reg, codec, payload, front[j], t, c) {
          assert front[j] == mappings[j];
        }
      }
    }
  }

  /** A column has a value exactly if some mapping gives it one, and then what the last of them gives, cut to the
      column's width. */
  lemma BuiltExactly(reg: Registry, codec: Codec, payload: Payload, mappings: seq<Mapping>, t: string, c: string)
    ensures var built := BuildValues(reg, codec, payload, mappings, map[], []).0;
            && (t in built && c in built[t] <==> exists i :: 0 <= i < |mappings| && Gives(reg, codec, payload, mappings[i], t, c))
            && (forall i | LastGiving(reg, codec, payload, mappings, t, c, i) ::
                  built[t][c] == Fit(reg, codec, t, c, codec.transform(mappings[i].transform, payload[mappings[i].sourceColumn]).value))
  {
    BuiltFrom(reg, codec, payload, mappings, t, c);
  }

  // ------------------------------------------------- what a reference resolves to

  /** An entry records this id for the row another entity keyed so. */
  predicate Records(st: State, k: CrossKey, entity: string, reference: string, target: string, t: string, id: Value)
  {
    && k in st.crosswalk && st.crosswalk[k] == id && id != Null
    && k.source.entity == entity && k.source.reference == reference && k.source.target == target && k.table == t
  }

  /** The id an entity's entries give for that row, the least if they differ, and whether it is still there. */
  ghost predicate Answers(reg: Registry, codec: Codec, st: State, system: string, target: string, t: string, v: Value, entity: string, id: Value)
    requires t in reg
  {
    var reference := codec.reference(system, entity, v);
    && (exists k :: Records(st, k, entity, reference, target, t, id))
    && (forall k, other | Records(st, k, entity, reference, target, t, other) :: other == id || ValueLess(id, other))
    && (Pk(reg, t).Some? ==> id in Rows(st, t))
  }

  lemma RecordedIff(st: State, entity: string, reference: string, target: string, t: string, id: Value)
    ensures id in RecordedIds(st, entity, reference, target, t) <==> exists k :: Records(st, k, entity, reference, target, t, id)
  {
    if k :| Records(st, k, entity, reference, target, t, id) {
      assert Of(k, entity, target);
    }
    if id in RecordedIds(st, entity, reference, target, t) {
      var k :| k in st.crosswalk && Of(k, entity, target) && k.source.reference == reference && k.table == t
               && st.crosswalk[k] != Null && st.crosswalk[k] == id;
      assert Records(st, k, entity, reference, target, t, id);
    }
  }

  /** An entity hits exactly if its entries answer with a row that is there, and the id injected is that one. */
  lemma HitsIff(reg: Registry, codec: Codec, st: State, system: string, target: string, t: string, v: Value, entity: string)
    requires t in reg
    ensures entity in Hits(reg, codec, st, system, target, t, v) <==> exists id :: Answers(reg, codec, st, system, target, t, v, entity, id)
    ensures entity in Hits(reg, codec, st, system, target, t, v) ==>
              Answers(reg, codec, st, system, target, t, v, entity, ProbeId(codec, st, system, target, t, v, entity))
  {
    var reference := codec.reference(system, entity, v);
    var ids := RecordedIds(st, entity, reference, target, t);
    forall id ensures id in ids <==> exists k :: Records(st, k, entity, reference, target, t, id) {
      RecordedIff(st, entity, reference, target, t, id);
    }
    if ids != {} {
      var first := First(ids);
      var k :| Records(st, k, entity, reference, target, t, first);
      assert entity in Candidates(st, t, target);
      forall j, other | Records(st, j, entity, reference, target, t, other)
        ensures other == first || ValueLess(first, other)
      {
        assert other in ids;
      }
      if TargetRowExists(reg, st, t, first) {
        assert Answers(reg, codec, st, system, target, t, v, entity, first);
      }
      if id :| Answers(reg, codec, st, system, target, t, v, entity, id) {
        assert id in ids;
        ValueOrder(id, first, id);
        assert id == first;
        assert TargetRowExists(reg, st, t, ProbeId(codec, st, system, target, t, v, entity));
      }
    }
    if id :| Answers(reg, codec, st, system, target, t, v, entity, id) {
      assert id in ids;
    }
  }

  /** No value lands on a column the writer fills: a foreign key or a generated key. */
  lemma BuiltLeavesManagedAlone(reg: Registry, codec: Codec, payload: Payload, mappings: seq<Mapping>, t: string, c: string)
    requires Holds(BuildValues(reg, codec, payload, mappings, map[], []).0, t, c)
    ensures c !in Managed(reg, t)
  {
    BuiltFromMappings(reg, codec, payload, mappings, map[], [], t, c);
  }

  lemma BuiltIsLive(reg: Registry, codec: Codec, st: State, payload: Payload, mappings: seq<Mapping>)
    ensures FanLive(reg, st, BuildValues(reg, codec, payload, mappings, map[], []).0)
  {
    var built := BuildValues(reg, codec, payload, mappings, map[], []).0;
    forall t, f | t in built && t in reg && f in reg[t].foreignKeys
      ensures Get(built[t], f.column) == Null
    {
      assert f.column in Managed(reg, t);
      if f.column in built[t] {
        BuiltLeavesManagedAlone(reg, codec, payload, mappings, t, f.column);
      }
    }
  }

  // ------------------------------------------------- what resolving injects

  lemma {:induction false} ForeignKeyFound(fks: seq<ForeignKey>, c: string)
    requires ForeignKeyOn(fks, c).Some?
    ensures ForeignKeyOn(fks, c).value in fks && ForeignKeyOn(fks, c).value.column == c
  {
    if fks[0].column != c {
      ForeignKeyFound(fks[1..], c);
    }
  }

  /** It is the first one declared on the column, and none is found only where there is none. */
  lemma {:induction false} ForeignKeyFirst(fks: seq<ForeignKey>, c: string)
    ensures ForeignKeyOn(fks, c).None? <==> forall f | f in fks :: f.column != c
    ensures ForeignKeyOn(fks, c).Some? ==>
              exists i :: 0 <= i < |fks| && fks[i] == ForeignKeyOn(fks, c).value && fks[i].column == c && forall j | 0 <= j < i :: fks[j].column != c
    decreases |fks|
  {
    if fks != [] {
      var tail := fks[1..];
      ForeignKeyFirst(tail, c);
      assert forall f :: f in fks <==> f == fks[0] || f in tail;
      if fks[0].column == c {
        assert fks[0] == ForeignKeyOn(fks, c).value;
      } else if ForeignKeyOn(fks, c).Some? {
        var i :| 0 <= i < |tail| && tail[i] == ForeignKeyOn(tail, c).value && tail[i].column == c && forall j | 0 <= j < i :: tail[j].column != c;
        assert fks[i + 1] == tail[i] && forall j | 0 < j < i + 1 :: fks[j] == tail[j - 1];
      }
    }
  }

  lemma InjectedIsLive(reg: Registry, st: State, fan: Fanout, t: string, f: ForeignKey, id: Value)
    requires SchemaOk(reg) && t in reg && f in reg[t].foreignKeys
    requires FanLive(reg, st, fan) && id in Rows(st, f.refTable)
    ensures FanLive(reg, st, SetColumn(fan, t, f.column, id))
  {
    var fan' := SetColumn(fan, t, f.column, id);
    forall u | u in fan' && u in reg
      ensures RowLive(reg, st, u, fan'[u])
    {
      if u == t {
        var row := if t in fan then fan[t] else map[];
        assert RowLive(reg, st, t, row);
        forall h | h in reg[t].foreignKeys
          ensures Get(fan'[t], h.column) == Null || Get(fan'[t], h.column) in Rows(st, h.refTable)
        {
          if h.column == f.column {
            assert h == f;
          } else {
            assert Get(fan'[t], h.column) == Get(row, h.column);
          }
        }
      }
    }
  }

  lemma HitIsLive(reg: Registry, codec: Codec, st: State, system: string, target: string, t: string, v: Value)
    requires t in reg && Pk(reg, t).Some? && Hits(reg, codec, st, system, target, t, v) != {}
    ensures ProbeId(codec, st, system, target, t, v, Least(Hits(reg, codec, st, system, target, t, v))) in Rows(st, t)
  {
    assert Least(Hits(reg, codec, st, system, target, t, v)) in Hits(reg, codec, st, system, target, t, v);
  }

  /** Every reference injected names a row that exists. */
  lemma {:induction false} ResolvedIsLive(reg: Registry, codec: Codec, st: State, system: string, target: string,
                                          payload: Payload, mappings: seq<Mapping>, fan: Fanout, unresolved: seq<Mapping>)
    requires SchemaOk(reg) && FanLive(reg, st, fan)
    ensures var r := ResolveCross(reg, codec, st, system, target, payload, mappings, fan, unresolved);
            r.Ok? ==> FanLive(reg, st, r.value.0)
    decreases |mappings|
  {
    if mappings != [] {
      var m := mappings[0];
      var rest := mappings[1..];
      if m.targetTable == "" || m.targetColumn == "" || m.sourceColumn !in payload || m.targetTable !in reg
         || ForeignKeyOn(reg[m.targetTable].foreignKeys, m.targetColumn).None? || payload[m.sourceColumn] == Null {
        ResolvedIsLive(reg, codec, st, system, target, payload, rest, fan, unresolved);
      } else {
        ResolvedOneIsLive(reg, codec, st, system, target, payload, m, fan);
        var f := ForeignKeyOn(reg[m.targetTable].foreignKeys, m.targetColumn).value;
        var v := payload[m.sourceColumn];
        if Probed(codec, st, system, target, f.refTable, v) == {} {
          ResolvedIsLive(reg, codec, st, system, target, payload, rest, fan, unresolved + [m]);
        } else if Hits(reg, codec, st, system, target, f.refTable, v) == {} {
          ResolvedIsLive(reg, codec, st, system, target, payload, rest, fan, unresolved + [m]);
        } else {
          var id := ProbeId(codec, st, system, target, f.refTable, v, Least(Hits(reg, codec, st, system, target, f.refTable, v)));
          ResolvedIsLive(reg, codec, st, system, target, payload, rest,
                         SetColumn(fan, m.targetTable, m.targetColumn, id), unresolved);
        }
      }
    }
  }

  lemma ResolvedOneIsLive(reg: Registry, codec: Codec, st: State, system: string, target: string,
                          payload: Payload, m: Mapping, fan: Fanout)
    requires SchemaOk(reg) && FanLive(reg, st, fan)
    requires m.targetTable in reg && m.sourceColumn in payload
    requires ForeignKeyOn(reg[m.targetTable].foreignKeys, m.targetColumn).Some?
    ensures var f := ForeignKeyOn(reg[m.targetTable].foreignKeys, m.targetColumn).value;
            var v := payload[m.sourceColumn];
            && f.refTable in reg
            && (Hits(reg, codec, st, system, target, f.refTable, v) != {} ==>
                  FanLive(reg, st, SetColumn(fan, m.targetTable, m.targetColumn,
                    ProbeId(codec, st, system, target, f.refTable, v, Least(Hits(reg, codec, st, system, target, f.refTable, v))))))
  {
    ForeignKeyFound(reg[m.targetTable].foreignKeys, m.targetColumn);
    var f := ForeignKeyOn(reg[m.targetTable].foreignKeys, m.targetColumn).value;
    var v := payload[m.sourceColumn];
    assert f.refTable in reg;
    if Hits(reg, codec, st, system, target, f.refTable, v) != {} {
      HitIsLive(reg, codec, st, system, target, f.refTable, v);
      InjectedIsLive(reg, st, fan, m.targetTable, f,
                     ProbeId(codec, st, system, target, f.refTable, v, Least(Hits(reg, codec, st, system, target, f.refTable, v))));
    }
  }

  /** The values a row is written with carry null or live foreign keys only. */
  lemma FanoutIsLive(reg: Registry, codec: Codec, st: State, system: string, target: string,
                     payload: Payload, mappings: seq<Mapping>)
    requires SchemaOk(reg)
    ensures var built := BuildValues(reg, codec, payload, mappings, map[], []).0;
            var r := ResolveCross(reg, codec, st, system, target, payload, mappings, built, []);
            r.Ok? ==> FanLive(reg, st, r.value.0)
  {
    BuiltIsLive(reg, codec, st, payload, mappings);
    ResolvedIsLive(reg, codec, st, system, target, payload, mappings,
                   BuildValues(reg, codec, payload, mappings, map[], []).0, []);
  }

  // --------------------------------------------------------------- the theorems

  /** For any payload, mappings and crosswalk, stale entries included, delivering an event keeps
      an intact target intact, succeed or fail, and removes no row. */
  lemma DeliverKeepsIntact(reg: Registry, codec: Codec, st: State, system: string, entity: string, target: string,
                           event: Event, mappings: seq<Mapping>)
    requires SchemaOk(reg) && Intact(reg, st)
    ensures var o := DeliverEvent(reg, codec, st, system, entity, target, event, mappings);
            Intact(reg, o.st) && Grows(st, o.st)
  {
    var (built, errors) := BuildValues(reg, codec, event.payload, mappings, map[], []);
    var r := ResolveCross(reg, codec, st, system, target, event.payload, mappings, built, []);
    if errors == [] && built != map[] && r.Ok? {
      FanoutIsLive(reg, codec, st, system, target, event.payload, mappings);
      var src := Source(system, entity, event.reference, target);
      WriteRowKeepsIntact(reg, st, src, r.value.0);
      var o := WriteRow(reg, st, src, r.value.0);
      SameTables(reg, o.st, Audited(o.st, event));
    }
  }

  /** One source row of a refresh, whether its write goes through or not. */
  lemma RowKeepsIntact(reg: Registry, codec: Codec, st: State, system: string, entity: string, target: string,
                       mappings: seq<Mapping>, row: SourceRow)
    requires SchemaOk(reg) && Intact(reg, st)
    ensures var built := BuildValues(reg, codec, row.payload, mappings, map[], []).0;
            var r := ResolveCross(reg, codec, st, system, target, row.payload, mappings, built, []);
            r.Ok? ==> Intact(reg, WriteRow(reg, st, Source(system, entity, row.reference, target), r.value.0).st)
  {
    var built := BuildValues(reg, codec, row.payload, mappings, map[], []).0;
    var r := ResolveCross(reg, codec, st, system, target, row.payload, mappings, built, []);
    if r.Ok? {
      FanoutIsLive(reg, codec, st, system, target, row.payload, mappings);
      WriteRowKeepsIntact(reg, st, Source(system, entity, row.reference, target), r.value.0);
    }
  }

  lemma {:induction false} RefreshRowsKeepIntact(reg: Registry, codec: Codec, st: State, system: string, entity: string,
                                                 target: string, mappings: seq<Mapping>, rows: seq<SourceRow>, report: Report)
    requires SchemaOk(reg) && Intact(reg, st)
    ensures var o := RefreshRows(reg, codec, st, system, entity, target, mappings, rows, report);
            && Intact(reg, o.st)
            && (o.r.Ok? ==> o.r.value.written + |o.r.value.failed| == report.written + |report.failed| + |rows|
                            && o.r.value.sourceRows == report.sourceRows && o.r.value.deleted == report.deleted)
    decreases |rows|
  {
    if rows != [] {
      var row := rows[0];
      var (built, errors) := BuildValues(reg, codec, row.payload, mappings, map[], []);
      var r := ResolveCross(reg, codec, st, system, target, row.payload, mappings, built, []);
      if errors != [] || built == map[] {
        RefreshRowsKeepIntact(reg, codec, st, system, entity, target, mappings, rows[1..],
                              report.(failed := report.failed + [row.reference]));
      } else if r.Ok? {
        RowKeepsIntact(reg, codec, st, system, entity, target, mappings, row);
        var o := WriteRow(reg, st, Source(system, entity, row.reference, target), r.value.0);
        if o.r.Ok? {
          RefreshRowsKeepIntact(reg, codec, o.st, system, entity, target, mappings, rows[1..],
                                report.(written := report.written + 1, unresolved := report.unresolved + |r.value.1|));
        }
      }
    }
  }

  /** A refresh keeps the target intact and accounts for every source row. */
  lemma RefreshKeepsIntact(reg: Registry, codec: Codec, st: State, system: string, entity: string, target: string,
                           mappings: seq<Mapping>, rows: seq<SourceRow>)
    requires SchemaOk(reg) && Intact(reg, st)
    ensures var o := RefreshEntity(reg, codec, st, system, entity, target, mappings, rows);
            && Intact(reg, o.st)
            && (o.r.Ok? ==> o.r.value.written + |o.r.value.failed| == |rows| == o.r.value.sourceRows)
  {
    DeleteEntityKeepsIntact(reg, st, entity, target);
    var d := DeleteEntity(reg, st, entity, target);
    if d.r.Ok? {
      RefreshRowsKeepIntact(reg, codec, d.st, system, entity, target, mappings, rows, Report(d.r.value, 0, [], |rows|, 0));
    }
  }
}
