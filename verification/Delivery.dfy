/** Turn a source payload into per-table values, resolve references to rows other entities
    wrote, write the row and its envelope; rebuild an entity from its source rows. */
module Delivery {
  import opened Ordering
  import opened Outcomes
  import opened SchemaGraph
  import opened Store
  import opened Writer
  import opened Deletion

  /** A column mapping. An empty table or column stands for a rejected one. */
  datatype Mapping = Mapping(sourceColumn: string, targetTable: string, targetColumn: string, transform: string)

  type Payload = map<string, Value>

  /** Value-level code the model does not look into: a transform by name, which may fail; the
      declared width of a character type; and the deterministic reference of a source row,
      from its system, entity and key value. */
  datatype Codec = Codec(
    transform: (string, Value) -> Option<Value>,
    width: string -> Option<nat>,
    reference: (string, string, Value) -> string)

  // -------------------------------------------------------- values per table

  function ColumnType(columns: seq<Column>, name: string): Option<string>
  {
    if columns == [] then None
    else if columns[0].name == name then Some(columns[0].dataType)
    else ColumnType(columns[1..], name)
  }

  /** Columns the writer fills itself; nothing is known of an unknown table. */
  function Managed(reg: Registry, t: string): set<string>
  {
    if t !in reg then {}
    else FkColumns(reg, t) + (if Auto(reg, t).Some? then {Auto(reg, t).value} else {})
  }

  /** Over-length text is cut to the column's width. */
  function Fit(reg: Registry, codec: Codec, t: string, c: string, v: Value): Value
  {
    if v.Text? && t in reg && ColumnType(reg[t].columns, c).Some? then
      var width := codec.width(ColumnType(reg[t].columns, c).value);
      if width.Some? && |v.s| > width.value then Text(v.s[..width.value]) else v
    else v
  }

  predicate Skipped(reg: Registry, payload: Payload, m: Mapping)
  {
    m.targetTable == "" || m.targetColumn == "" || m.sourceColumn !in payload
    || m.targetColumn in Managed(reg, m.targetTable)
  }

  function SetColumn(fan: Fanout, t: string, c: string, v: Value): Fanout
  {
    fan[t := (if t in fan then fan[t] else map[])[c := v]]
  }

  /** The values so far and the mappings whose transform failed. */
  function BuildValues(reg: Registry, codec: Codec, payload: Payload, mappings: seq<Mapping>,
                       fan: Fanout, errors: seq<Mapping>): (Fanout, seq<Mapping>)
    decreases |mappings|
  {
    if mappings == [] then (fan, errors)
    else
      var m := mappings[0];
      if Skipped(reg, payload, m) then BuildValues(reg, codec, payload, mappings[1..], fan, errors)
      else
        match codec.transform(m.transform, payload[m.sourceColumn])
        case None => BuildValues(reg, codec, payload, mappings[1..], fan, errors + [m])
        case Some(v) =>
          BuildValues(reg, codec, payload, mappings[1..],
                      SetColumn(fan, m.targetTable, m.targetColumn, Fit(reg, codec, m.targetTable, m.targetColumn, v)), errors)
  }

  // ------------------------------------------------- references across entities

  function ForeignKeyOn(fks: seq<ForeignKey>, c: string): Option<ForeignKey>
  {
    if fks == [] then None
    else if fks[0].column == c then Some(fks[0])
    else ForeignKeyOn(fks[1..], c)
  }

  /** Ids some entity's entry for a referenced row records, whichever source system wrote it. */
  function RecordedIds(st: State, entity: string, reference: string, target: string, t: string): set<Value>
  {
    set k | k in st.crosswalk && Of(k, entity, target) && k.source.reference == reference && k.table == t
            && st.crosswalk[k] != Null :: st.crosswalk[k]
  }

  function Candidates(st: State, t: string, target: string): set<string>
  {
    set k | k in st.crosswalk && k.table == t && k.source.target == target && st.crosswalk[k] != Null :: k.source.entity
  }

  predicate TargetRowExists(reg: Registry, st: State, t: string, id: Value)
    requires t in reg
  {
    Pk(reg, t).None? || id in Rows(st, t)
  }

  /** Candidate entities with an entry for the referenced row. */
  function Probed(codec: Codec, st: State, system: string, target: string, t: string, v: Value): set<string>
  {
    set e | e in Candidates(st, t, target) && RecordedIds(st, e, codec.reference(system, e, v), target, t) != {}
  }

  function ProbeId(codec: Codec, st: State, system: string, target: string, t: string, v: Value, entity: string): Value
    requires RecordedIds(st, entity, codec.reference(system, entity, v), target, t) != {}
  {
    First(RecordedIds(st, entity, codec.reference(system, entity, v), target, t))
  }

  /** Those whose recorded row still lives in the target. */
  function Hits(reg: Registry, codec: Codec, st: State, system: string, target: string, t: string, v: Value): set<string>
    requires t in reg
  {
    set e | e in Probed(codec, st, system, target, t, v)
            && TargetRowExists(reg, st, t, ProbeId(codec, st, system, target, t, v, e))
  }

  /** Fill foreign-key columns from the crosswalk of the referenced entity; what names no live
      row stays null and is listed. A reference into an unknown table fails the event. */
  function ResolveCross(reg: Registry, codec: Codec, st: State, system: string, target: string, payload: Payload,
                        mappings: seq<Mapping>, fan: Fanout, unresolved: seq<Mapping>): Result<(Fanout, seq<Mapping>)>
    decreases |mappings|
  {
    if mappings == [] then Ok((fan, unresolved))
    else
      var m := mappings[0];
      var rest := mappings[1..];
      if m.targetTable == "" || m.targetColumn == "" || m.sourceColumn !in payload
         || m.targetTable !in reg
         || ForeignKeyOn(reg[m.targetTable].foreignKeys, m.targetColumn).None?
         || payload[m.sourceColumn] == Null then
        ResolveCross(reg, codec, st, system, target, payload, rest, fan, unresolved)
      else
        var t := ForeignKeyOn(reg[m.targetTable].foreignKeys, m.targetColumn).value.refTable;
        var v := payload[m.sourceColumn];
        if Probed(codec, st, system, target, t, v) == {} then
          ResolveCross(reg, codec, st, system, target, payload, rest, fan, unresolved + [m])
        else if t !in reg then Err(UnknownTable(t))
        else if Hits(reg, codec, st, system, target, t, v) == {} then
          ResolveCross(reg, codec, st, system, target, payload, rest, fan, unresolved + [m])
        else
          var id := ProbeId(codec, st, system, target, t, v, Least(Hits(reg, codec, st, system, target, t, v)));
          ResolveCross(reg, codec, st, system, target, payload, rest,
                       SetColumn(fan, m.targetTable, m.targetColumn, id), unresolved)
  }

  // ------------------------------------------------------------------- events

  datatype Event = Event(id: string, reference: string, operation: string, payload: Payload)

  datatype Delivery =
    | Delivered(ids: TargetIds, active: bool, unresolved: seq<Mapping>)
    | Rejected(errors: seq<Mapping>)

  function Audited(st: State, event: Event): State
  {
    st.(audit := st.audit[event.id := event.operation != "deactivate"])
  }

  function DeliverEvent(reg: Registry, codec: Codec, st: State, system: string, entity: string, target: string,
                        event: Event, mappings: seq<Mapping>): Outcome<Delivery>
  {
    var (built, errors) := BuildValues(reg, codec, event.payload, mappings, map[], []);
    if errors != [] || built == map[] then Outcome(st, Ok(Rejected(errors)))
    else
      match ResolveCross(reg, codec, st, system, target, event.payload, mappings, built, [])
      case Err(e) => Outcome(st, Err(e))
      case Ok((fan, unresolved)) =>
        var o := WriteRow(reg, st, Source(system, entity, event.reference, target), fan);
        match o.r
        case Err(e) => Outcome(o.st, Err(e))
        case Ok(ids) =>
          Outcome(Audited(o.st, event), Ok(Delivered(ids, event.operation != "deactivate", unresolved)))
  }

  // ------------------------------------------------------------------ refresh

  datatype SourceRow = SourceRow(reference: string, payload: Payload)

  datatype Report = Report(deleted: map<string, int>, written: int, failed: seq<string>, sourceRows: int, unresolved: int)

  function RefreshRows(reg: Registry, codec: Codec, st: State, system: string, entity: string, target: string,
                       mappings: seq<Mapping>, rows: seq<SourceRow>, report: Report): Outcome<Report>
    decreases |rows|
  {
    if rows == [] then Outcome(st, Ok(report))
    else
      var row := rows[0];
      var (built, errors) := BuildValues(reg, codec, row.payload, mappings, map[], []);
      if errors != [] || built == map[] then
        RefreshRows(reg, codec, st, system, entity, target, mappings, rows[1..],
                    report.(failed := report.failed + [row.reference]))
      else
        match ResolveCross(reg, codec, st, system, target, row.payload, mappings, built, [])
        case Err(e) => Outcome(st, Err(e))
        case Ok((fan, unresolved)) =>
          var o := WriteRow(reg, st, Source(system, entity, row.reference, target), fan);
          match o.r
          case Err(e) => Outcome(o.st, Err(e))
          case Ok(_) =>
            RefreshRows(reg, codec, o.st, system, entity, target, mappings, rows[1..],
                        report.(written := report.written + 1, unresolved := report.unresolved + |unresolved|))
  }

  function RefreshEntity(reg: Registry, codec: Codec, st: State, system: string, entity: string, target: string,
                         mappings: seq<Mapping>, rows: seq<SourceRow>): Outcome<Report>
  {
    var d := DeleteEntity(reg, st, entity, target);
    match d.r
    case Err(e) => Outcome(d.st, Err(e))
    case Ok(deleted) =>
      RefreshRows(reg, codec, d.st, system, entity, target, mappings, rows, Report(deleted, 0, [], |rows|, 0))
  }

  // -------------------------------------------------------- as it is computed

  method BuildValuesByTable(reg: Registry, codec: Codec, payload: Payload, mappings: seq<Mapping>)
    returns (fan: Fanout, errors: seq<Mapping>)
    ensures (fan, errors) == BuildValues(reg, codec, payload, mappings, map[], [])
  {
    fan, errors := map[], [];
    var managedCache: map<string, set<string>> := map[];
    var i := 0;
    while i < |mappings|
      invariant 0 <= i <= |mappings|
      invariant forall t | t in managedCache :: managedCache[t] == Managed(reg, t)
      invariant BuildValues(reg, codec, payload, mappings[i..], fan, errors)
             == BuildValues(reg, codec, payload, mappings, map[], [])
    {
      var m := mappings[i];
      assert mappings[i..][1..] == mappings[i + 1..];
      i := i + 1;
      if m.targetTable == "" || m.targetColumn == "" {
        continue;
      }
      if m.sourceColumn !in payload {
        continue;
      }
      if m.targetTable !in managedCache {
        managedCache := managedCache[m.targetTable := Managed(reg, m.targetTable)];
      }
      if m.targetColumn in managedCache[m.targetTable] {
        continue;
      }
      var v := codec.transform(m.transform, payload[m.sourceColumn]);
      if v.None? {
        errors := errors + [m];
        continue;
      }
      fan := SetColumn(fan, m.targetTable, m.targetColumn, Fit(reg, codec, m.targetTable, m.targetColumn, v.value));
    }
  }

  method ResolveCrossEntityFks(db: Connections, reg: Registry, codec: Codec, system: string, target: string,
                               payload: Payload, mappings: seq<Mapping>, built: Fanout)
    returns (r: Result<(Fanout, seq<Mapping>)>)
    ensures r == ResolveCross(reg, codec, db.Snapshot(), system, target, payload, mappings, built, [])
  {
    var st := db.Snapshot();
    var fan := built;
    var unresolved: seq<Mapping> := [];
    var i := 0;
    while i < |mappings|
      invariant 0 <= i <= |mappings|
      invariant ResolveCross(reg, codec, st, system, target, payload, mappings[i..], fan, unresolved)
             == ResolveCross(reg, codec, st, system, target, payload, mappings, built, [])
    {
      var m := mappings[i];
      assert mappings[i..][1..] == mappings[i + 1..];
      i := i + 1;
      if m.targetTable == "" || m.targetColumn == "" || m.sourceColumn !in payload || m.targetTable !in reg {
        continue;
      }
      var fk := ForeignKeyOn(reg[m.targetTable].foreignKeys, m.targetColumn);
      if fk.None? || payload[m.sourceColumn] == Null {
        continue;
      }
      var hit := ProbeEntities(db, reg, codec, system, target, fk.value.refTable, payload[m.sourceColumn]);
      match hit
      case Err(e) => return Err(e);
      case Ok(None) => unresolved := unresolved + [m];
      case Ok(Some(id)) => fan := SetColumn(fan, m.targetTable, m.targetColumn, id);
    }
    return Ok((fan, unresolved));
  }

  /** Ask each entity with entries for the table, in turn, until one names a live row. */
  method ProbeEntities(db: Connections, reg: Registry, codec: Codec, system: string, target: string, t: string, v: Value)
    returns (hit: Result<Option<Value>>)
    ensures var st := db.Snapshot();
            var probed := Probed(codec, st, system, target, t, v);
            hit == if probed == {} then Ok(None)
                   else if t !in reg then Err(UnknownTable(t))
                   else var hits := Hits(reg, codec, st, system, target, t, v);
                        if hits == {} then Ok(None) else Ok(Some(ProbeId(codec, st, system, target, t, v, Least(hits))))
  {
    var st := db.Snapshot();
    var entities := SortNames(Candidates(st, t, target));
    var i := 0;
    while i < |entities|
      invariant 0 <= i <= |entities|
      invariant forall j | 0 <= j < i :: entities[j] in Probed(codec, st, system, target, t, v) ==>
          t in reg && entities[j] !in Hits(reg, codec, st, system, target, t, v)
    {
      var e := entities[i];
      assert e in Elements(entities);
      var ids := RecordedIds(st, e, codec.reference(system, e, v), target, t);
      if ids != {} {
        assert e in Probed(codec, st, system, target, t, v);
        if t !in reg {
          return Err(UnknownTable(t));
        }
        if TargetRowExists(reg, st, t, First(ids)) {
          FirstHit(reg, codec, st, system, target, t, v, entities, i);
          return Ok(Some(First(ids)));
        }
      }
      i := i + 1;
    }
    NoHit(reg, codec, st, system, target, t, v, entities);
    return Ok(None);
  }

  lemma FirstHit(reg: Registry, codec: Codec, st: State, system: string, target: string, t: string, v: Value,
                 entities: seq<string>, i: nat)
    requires t in reg && Sorted(entities, Candidates(st, t, target)) && i < |entities|
    requires entities[i] in Hits(reg, codec, st, system, target, t, v)
    requires forall j | 0 <= j < i :: entities[j] in Probed(codec, st, system, target, t, v) ==>
               entities[j] !in Hits(reg, codec, st, system, target, t, v)
    ensures Least(Hits(reg, codec, st, system, target, t, v)) == entities[i]
    ensures Probed(codec, st, system, target, t, v) != {}
  {
    var hits := Hits(reg, codec, st, system, target, t, v);
    forall x | x in hits && x != entities[i]
      ensures Less(entities[i], x)
    {
      assert x in Elements(entities);
      var j :| 0 <= j < |entities| && entities[j] == x;
      assert j > i;
    }
    LeastUnique(hits, Least(hits), entities[i]);
  }

  lemma NoHit(reg: Registry, codec: Codec, st: State, system: string, target: string, t: string, v: Value, entities: seq<string>)
    requires Sorted(entities, Candidates(st, t, target))
    requires forall j | 0 <= j < |entities| :: entities[j] in Probed(codec, st, system, target, t, v) ==>
               t in reg && entities[j] !in Hits(reg, codec, st, system, target, t, v)
    ensures Probed(codec, st, system, target, t, v) == {}
         || (t in reg && Hits(reg, codec, st, system, target, t, v) == {})
  {
    forall x | x in Probed(codec, st, system, target, t, v)
      ensures t in reg && x !in Hits(reg, codec, st, system, target, t, v)
    {
      assert x in Elements(entities);
    }
  }

  method Deliver(db: Connections, reg: Registry, codec: Codec, system: string, entity: string, target: string,
                 event: Event, mappings: seq<Mapping>) returns (r: Result<Delivery>)
    modifies db
    ensures Outcome(db.Snapshot(), r) == DeliverEvent(reg, codec, old(db.Snapshot()), system, entity, target, event, mappings)
  {
    var built, errors := BuildValuesByTable(reg, codec, event.payload, mappings);
    if errors != [] {
      return Ok(Rejected(errors));
    }
    if built == map[] {
      return Ok(Rejected([]));
    }
    var resolved := ResolveCrossEntityFks(db, reg, codec, system, target, event.payload, mappings, built);
    if resolved.Err? {
      return Err(resolved.error);
    }
    var ids := WriteSourceRow(db, reg, Source(system, entity, event.reference, target), resolved.value.0);
    if ids.Err? {
      return Err(ids.error);
    }
    var active := event.operation != "deactivate";
    db.audit := db.audit[event.id := active];
    return Ok(Delivered(ids.value, active, resolved.value.1));
  }

  method Refresh(db: Connections, reg: Registry, codec: Codec, system: string, entity: string, target: string,
                 mappings: seq<Mapping>, rows: seq<SourceRow>) returns (r: Result<Report>)
    modifies db
    ensures Outcome(db.Snapshot(), r) == RefreshEntity(reg, codec, old(db.Snapshot()), system, entity, target, mappings, rows)
  {
    var deleted := DeleteEntityRows(db, reg, entity, target);
    if deleted.Err? {
      return Err(deleted.error);
    }
    var report := Report(deleted.value, 0, [], |rows|, 0);
    var i := 0;
    while i < |rows|
      invariant 0 <= i <= |rows|
      invariant RefreshRows(reg, codec, db.Snapshot(), system, entity, target, mappings, rows[i..], report)
             == RefreshEntity(reg, codec, old(db.Snapshot()), system, entity, target, mappings, rows)
    {
      var row := rows[i];
      assert rows[i..][1..] == rows[i + 1..];
      i := i + 1;
      var built, errors := BuildValuesByTable(reg, codec, row.payload, mappings);
      if errors != [] || built == map[] {
        report := report.(failed := report.failed + [row.reference]);
        continue;
      }
      var resolved := ResolveCrossEntityFks(db, reg, codec, system, target, row.payload, mappings, built);
      if resolved.Err? {
        return Err(resolved.error);
      }
      var ids := WriteSourceRow(db, reg, Source(system, entity, row.reference, target), resolved.value.0);
      if ids.Err? {
        return Err(ids.error);
      }
      report := report.(written := report.written + 1, unresolved := report.unresolved + |resolved.value.1|);
    }
    return Ok(report);
  }
}
