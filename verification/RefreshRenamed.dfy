/** Refreshing twice when the entity refers to rows of its own: once is twice up to one renaming of ids,
    the one that takes what an entry named after the first refresh to what it names after the second. */
module RefreshRenamed {
  import opened Ordering
  import opened Outcomes
  import opened SchemaGraph
  import opened Store
  import opened Writer
  import opened Integrity
  import opened ByTable
  import opened Deletion
  import opened Delivery
  import opened DeliveryIntegrity
  import opened DeployGate
  import opened Ownership
  import opened RefreshOwnership
  import opened RefreshTwice

  /** Whose refresh it is. */
  datatype Scope = Scope(reg: Registry, codec: Codec, system: string, entity: string, target: string, mappings: seq<Mapping>)

  /** No foreign key a mapping fills points at an app-assigned table the mappings write: rows there
      outlive the delete, so a reference to one may resolve only the second time. */
  predicate AvoidsAssigned(reg: Registry, mappings: seq<Mapping>)
  {
    forall m | m in mappings && m.targetTable in reg ::
      var fk := ForeignKeyOn(reg[m.targetTable].foreignKeys, m.targetColumn);
      fk.Some? ==> !(fk.value.refTable in WriteSet(mappings) && fk.value.refTable in APP_ASSIGNED)
  }

  /** An entry of the entity for a table with generated keys. */
  predicate Own(r: Scope, k: CrossKey)
  {
    Of(k, r.entity, r.target) && Generated(r.reg, k.table)
  }

  // -------------------------------------------------------------- the renaming

  /** Equal, or what one of the entity's entries names in the two states. */
  ghost predicate Renamed(r: Scope, a: State, b: State, v: Value, v': Value)
  {
    v == v' || (v != Null && v' != Null && exists k :: Own(r, k) && Lookup(a, k) == Some(v) && Lookup(b, k) == Some(v'))
  }

  ghost predicate RenamedRow(r: Scope, a: State, b: State, row: Row, row': Row)
  {
    row.Keys == row'.Keys && forall c | c in row :: Renamed(r, a, b, row[c], row'[c])
  }

  ghost predicate RenamedFan(r: Scope, a: State, b: State, fan: Fanout, fan': Fanout)
  {
    fan.Keys == fan'.Keys && forall t | t in fan :: RenamedRow(r, a, b, fan[t], fan'[t])
  }

  // ------------------------------------------------------- states that are alike

  /** An entry names an id drawn before. */
  ghost predicate EntriesBelow(reg: Registry, st: State)
  {
    forall k | k in st.crosswalk && Generated(reg, k.table) :: BelowCounter(st, RowId(k.table, st.crosswalk[k]))
  }

  /** The same table for every purpose of resolving a reference. */
  ghost predicate SameTable(a: State, b: State, t: string)
  {
    Rows(a, t) == Rows(b, t) && SameEntries(a, b, t)
  }

  /** An entry of the entity: there in both or in neither, made by this system, naming a row that is there. */
  ghost predicate OwnAlike(r: Scope, a: State, b: State, k: CrossKey)
  {
    && (k in a.crosswalk <==> k in b.crosswalk)
    && (k in a.crosswalk ==>
          && k.source.system == r.system && a.crosswalk[k] != Null && b.crosswalk[k] != Null
          && a.crosswalk[k] in Rows(a, k.table) && b.crosswalk[k] in Rows(b, k.table))
  }

  /** Someone else's entry: the same, naming a row that is there in both or in neither. */
  ghost predicate OtherAlike(a: State, b: State, k: CrossKey)
  {
    && Lookup(a, k) == Lookup(b, k)
    && (k in a.crosswalk ==> (a.crosswalk[k] in Rows(a, k.table) <==> a.crosswalk[k] in Rows(b, k.table)))
  }

  ghost predicate Alike(r: Scope, a: State, b: State)
  {
    && (forall t | t !in WriteSet(r.mappings) || (!Generated(r.reg, t) && t !in APP_ASSIGNED) :: SameTable(a, b, t))
    && (forall k | Own(r, k) :: OwnAlike(r, a, b, k))
    && (forall k: CrossKey | Generated(r.reg, k.table) && !Of(k, r.entity, r.target) :: OtherAlike(a, b, k))
  }

  // ------------------------------------------------------------- the references

  /** The entity's own candidates are its one entry for that reference. */
  lemma OwnRecorded(r: Scope, a: State, b: State, st: State, reference: string, t: string)
    requires Alike(r, a, b) && Generated(r.reg, t) && (st == a || st == b)
    ensures var k := CrossKey(Source(r.system, r.entity, reference, r.target), t);
            RecordedIds(st, r.entity, reference, r.target, t) == if k in st.crosswalk then {st.crosswalk[k]} else {}
  {
    var k := CrossKey(Source(r.system, r.entity, reference, r.target), t);
    assert Own(r, k) && OwnAlike(r, a, b, k);
    forall v | v in RecordedIds(st, r.entity, reference, r.target, t)
      ensures k in st.crosswalk && v == st.crosswalk[k]
    {
      var j :| j in st.crosswalk && Of(j, r.entity, r.target) && j.source.reference == reference && j.table == t
               && st.crosswalk[j] != Null && st.crosswalk[j] == v;
      assert Own(r, j) && OwnAlike(r, a, b, j);
      assert j == k;
    }
  }

  lemma OtherRecordedThere(r: Scope, a: State, b: State, e: string, reference: string, t: string, v: Value)
    requires (forall k: CrossKey | Generated(r.reg, k.table) && !Of(k, r.entity, r.target) :: Lookup(a, k) == Lookup(b, k))
    requires Generated(r.reg, t) && e != r.entity && v in RecordedIds(a, e, reference, r.target, t)
    ensures v in RecordedIds(b, e, reference, r.target, t)
  {
    var k :| k in a.crosswalk && Of(k, e, r.target) && k.source.reference == reference && k.table == t
             && a.crosswalk[k] != Null && a.crosswalk[k] == v;
    assert Lookup(b, k) == Some(v);
  }

  lemma OtherRecorded(r: Scope, a: State, b: State, e: string, reference: string, t: string)
    requires Alike(r, a, b) && Generated(r.reg, t) && e != r.entity
    ensures RecordedIds(a, e, reference, r.target, t) == RecordedIds(b, e, reference, r.target, t)
  {
    assert forall k: CrossKey | Generated(r.reg, k.table) && !Of(k, r.entity, r.target) :: OtherAlike(a, b, k);
    forall v
      ensures v in RecordedIds(a, e, reference, r.target, t) <==> v in RecordedIds(b, e, reference, r.target, t)
    {
      if v in RecordedIds(a, e, reference, r.target, t) {
        OtherRecordedThere(r, a, b, e, reference, t, v);
      }
      if v in RecordedIds(b, e, reference, r.target, t) {
        OtherRecordedThere(r, b, a, e, reference, t, v);
      }
    }
  }

  lemma CandidateAlike(r: Scope, a: State, b: State, t: string, e: string)
    requires Alike(r, a, b) && Generated(r.reg, t)
    ensures e in Candidates(a, t, r.target) <==> e in Candidates(b, t, r.target)
  {
    if e in Candidates(a, t, r.target) {
      var k :| k in a.crosswalk && k.table == t && k.source.target == r.target && a.crosswalk[k] != Null && k.source.entity == e;
      assert if e == r.entity then OwnAlike(r, a, b, k) else OtherAlike(a, b, k);
    }
    if e in Candidates(b, t, r.target) {
      var k :| k in b.crosswalk && k.table == t && k.source.target == r.target && b.crosswalk[k] != Null && k.source.entity == e;
      assert if e == r.entity then OwnAlike(r, a, b, k) else OtherAlike(a, b, k);
    }
  }

  /** One entity asked about one referenced row: the same answer, up to the renaming. */
  ghost predicate ProbeAlike(r: Scope, a: State, b: State, t: string, v: Value, e: string)
    requires t in r.reg
  {
    && (e in Probed(r.codec, a, r.system, r.target, t, v) <==> e in Probed(r.codec, b, r.system, r.target, t, v))
    && (e in Probed(r.codec, a, r.system, r.target, t, v) ==>
          var id, id' := ProbeId(r.codec, a, r.system, r.target, t, v, e), ProbeId(r.codec, b, r.system, r.target, t, v, e);
          Renamed(r, a, b, id, id') && (TargetRowExists(r.reg, a, t, id) <==> TargetRowExists(r.reg, b, t, id')))
  }

  lemma OwnProbe(r: Scope, a: State, b: State, t: string, v: Value)
    requires SchemaOk(r.reg) && Alike(r, a, b) && Generated(r.reg, t)
    ensures ProbeAlike(r, a, b, t, v, r.entity)
  {
    var reference := r.codec.reference(r.system, r.entity, v);
    var k := CrossKey(Source(r.system, r.entity, reference, r.target), t);
    CandidateAlike(r, a, b, t, r.entity);
    OwnRecorded(r, a, b, a, reference, t);
    OwnRecorded(r, a, b, b, reference, t);
    assert Own(r, k) && OwnAlike(r, a, b, k);
    if k in a.crosswalk {
      assert RecordedIds(a, r.entity, reference, r.target, t) == {a.crosswalk[k]};
      assert RecordedIds(b, r.entity, reference, r.target, t) == {b.crosswalk[k]};
      assert Lookup(a, k) == Some(a.crosswalk[k]) && Lookup(b, k) == Some(b.crosswalk[k]);
    }
  }

  lemma OtherProbe(r: Scope, a: State, b: State, t: string, v: Value, e: string)
    requires SchemaOk(r.reg) && Alike(r, a, b) && Generated(r.reg, t) && e != r.entity
    ensures ProbeAlike(r, a, b, t, v, e)
  {
    var reference := r.codec.reference(r.system, e, v);
    CandidateAlike(r, a, b, t, e);
    OtherRecorded(r, a, b, e, reference, t);
    var ids := RecordedIds(a, e, reference, r.target, t);
    if ids != {} {
      var id := First(ids);
      var k :| k in a.crosswalk && Of(k, e, r.target) && k.source.reference == reference && k.table == t
               && a.crosswalk[k] != Null && a.crosswalk[k] == id;
      assert OtherAlike(a, b, k);
    }
  }

  lemma SameAnswers(r: Scope, a: State, b: State, t: string, v: Value)
    requires t in r.reg && forall e :: ProbeAlike(r, a, b, t, v, e)
    ensures Probed(r.codec, a, r.system, r.target, t, v) == Probed(r.codec, b, r.system, r.target, t, v)
    ensures Hits(r.reg, r.codec, a, r.system, r.target, t, v) == Hits(r.reg, r.codec, b, r.system, r.target, t, v)
    ensures forall e | e in Probed(r.codec, a, r.system, r.target, t, v) ::
              Renamed(r, a, b, ProbeId(r.codec, a, r.system, r.target, t, v, e), ProbeId(r.codec, b, r.system, r.target, t, v, e))
  {
    var p, p' := Probed(r.codec, a, r.system, r.target, t, v), Probed(r.codec, b, r.system, r.target, t, v);
    var h, h' := Hits(r.reg, r.codec, a, r.system, r.target, t, v), Hits(r.reg, r.codec, b, r.system, r.target, t, v);
    forall e
      ensures e in p <==> e in p'
      ensures e in h <==> e in h'
    {
      assert ProbeAlike(r, a, b, t, v, e);
    }
    assert p == p' && h == h';
    forall e | e in p
      ensures Renamed(r, a, b, ProbeId(r.codec, a, r.system, r.target, t, v, e), ProbeId(r.codec, b, r.system, r.target, t, v, e))
    {
      assert ProbeAlike(r, a, b, t, v, e);
    }
  }

  /** A reference finds a row in both states or in neither, through the same entity. */
  lemma ProbesAlike(r: Scope, a: State, b: State, t: string, v: Value)
    requires SchemaOk(r.reg) && Alike(r, a, b) && t in r.reg && !(t in WriteSet(r.mappings) && t in APP_ASSIGNED)
    ensures Probed(r.codec, a, r.system, r.target, t, v) == Probed(r.codec, b, r.system, r.target, t, v)
    ensures Hits(r.reg, r.codec, a, r.system, r.target, t, v) == Hits(r.reg, r.codec, b, r.system, r.target, t, v)
    ensures forall e | e in Probed(r.codec, a, r.system, r.target, t, v) ::
              Renamed(r, a, b, ProbeId(r.codec, a, r.system, r.target, t, v, e), ProbeId(r.codec, b, r.system, r.target, t, v, e))
  {
    if t !in WriteSet(r.mappings) || !Generated(r.reg, t) {
      assert SameTable(a, b, t);
      SameProbes(r.reg, r.codec, a, b, r.system, r.target, t, v);
    } else {
      forall e
        ensures ProbeAlike(r, a, b, t, v, e)
      {
        if e == r.entity { OwnProbe(r, a, b, t, v); } else { OtherProbe(r, a, b, t, v, e); }
      }
      SameAnswers(r, a, b, t, v);
    }
  }

  lemma SettingRenamed(r: Scope, a: State, b: State, fan: Fanout, fan': Fanout, t: string, c: string, id: Value, id': Value)
    requires RenamedFan(r, a, b, fan, fan') && Renamed(r, a, b, id, id')
    ensures RenamedFan(r, a, b, SetColumn(fan, t, c, id), SetColumn(fan', t, c, id'))
  {
    var x, y := SetColumn(fan, t, c, id), SetColumn(fan', t, c, id');
    assert x.Keys == y.Keys;
    forall u | u in x
      ensures RenamedRow(r, a, b, x[u], y[u])
    {
      if u in fan { assert RenamedRow(r, a, b, fan[u], fan'[u]); }
    }
  }

  ghost predicate ResolvedAlike(r: Scope, a: State, b: State, x: Result<(Fanout, seq<Mapping>)>, y: Result<(Fanout, seq<Mapping>)>)
  {
    (x.Ok? <==> y.Ok?) && (x.Ok? ==> x.value.1 == y.value.1 && RenamedFan(r, a, b, x.value.0, y.value.0))
  }

  /** In states that are alike the references of a payload resolve alike, up to the renaming. */
  lemma {:induction false} ResolutionAlike(r: Scope, a: State, b: State, payload: Payload, mappings: seq<Mapping>,
                                           fan: Fanout, fan': Fanout, unresolved: seq<Mapping>)
    requires SchemaOk(r.reg) && Alike(r, a, b) && AvoidsAssigned(r.reg, r.mappings)
    requires (forall m | m in mappings :: m in r.mappings) && RenamedFan(r, a, b, fan, fan')
    ensures ResolvedAlike(r, a, b, ResolveCross(r.reg, r.codec, a, r.system, r.target, payload, mappings, fan, unresolved),
                          ResolveCross(r.reg, r.codec, b, r.system, r.target, payload, mappings, fan', unresolved))
    decreases |mappings|
  {
    if mappings != [] {
      var m, rest := mappings[0], mappings[1..];
      assert m in mappings && forall n | n in rest :: n in mappings;
      if m.targetTable == "" || m.targetColumn == "" || m.sourceColumn !in payload || m.targetTable !in r.reg
         || ForeignKeyOn(r.reg[m.targetTable].foreignKeys, m.targetColumn).None? || payload[m.sourceColumn] == Null {
        ResolutionAlike(r, a, b, payload, rest, fan, fan', unresolved);
      } else {
        ReferenceAlike(r, a, b, m, payload[m.sourceColumn]);
        var t := ForeignKeyOn(r.reg[m.targetTable].foreignKeys, m.targetColumn).value.refTable;
        var v := payload[m.sourceColumn];
        var probed, hits := Probed(r.codec, a, r.system, r.target, t, v), Hits(r.reg, r.codec, a, r.system, r.target, t, v);
        if probed == {} || hits == {} {
          ResolutionAlike(r, a, b, payload, rest, fan, fan', unresolved + [m]);
        } else {
          var id, id' := ProbeId(r.codec, a, r.system, r.target, t, v, Least(hits)), ProbeId(r.codec, b, r.system, r.target, t, v, Least(hits));
          SettingRenamed(r, a, b, fan, fan', m.targetTable, m.targetColumn, id, id');
          ResolutionAlike(r, a, b, payload, rest, SetColumn(fan, m.targetTable, m.targetColumn, id),
                          SetColumn(fan', m.targetTable, m.targetColumn, id'), unresolved);
        }
      }
    }
  }

  /** One mapping onto a foreign key. */
  lemma ReferenceAlike(r: Scope, a: State, b: State, m: Mapping, v: Value)
    requires SchemaOk(r.reg) && Alike(r, a, b) && AvoidsAssigned(r.reg, r.mappings) && m in r.mappings && m.targetTable in r.reg
    requires ForeignKeyOn(r.reg[m.targetTable].foreignKeys, m.targetColumn).Some?
    ensures var t := ForeignKeyOn(r.reg[m.targetTable].foreignKeys, m.targetColumn).value.refTable;
            && t in r.reg
            && Probed(r.codec, a, r.system, r.target, t, v) == Probed(r.codec, b, r.system, r.target, t, v)
            && Hits(r.reg, r.codec, a, r.system, r.target, t, v) == Hits(r.reg, r.codec, b, r.system, r.target, t, v)
            && forall e | e in Probed(r.codec, a, r.system, r.target, t, v) ::
                 Renamed(r, a, b, ProbeId(r.codec, a, r.system, r.target, t, v, e), ProbeId(r.codec, b, r.system, r.target, t, v, e))
  {
    ForeignKeyFound(r.reg[m.targetTable].foreignKeys, m.targetColumn);
    var t := ForeignKeyOn(r.reg[m.targetTable].foreignKeys, m.targetColumn).value.refTable;
    ProbesAlike(r, a, b, t, v);
  }

  // ---------------------------------------------------------------- one write

  /** The entity's entries stay as they are. */
  ghost predicate Persists(r: Scope, a: State, b: State)
  {
    forall k | Own(r, k) && k in a.crosswalk :: Lookup(b, k) == Lookup(a, k)
  }

  ghost predicate FirstWrite(r: Scope, st: State, src: Source, fan: Fanout)
  {
    && src.system == r.system && src.entity == r.entity && src.target == r.target && fan.Keys <= WriteSet(r.mappings)
    && WriteRow(r.reg, st, src, fan).r.Ok? && forall t | Generated(r.reg, t) :: CrossKey(src, t) !in st.crosswalk
  }

  /** A first write of a source row, seen from one generated table: a row under the next id and its entry. */
  ghost predicate TableAfter(r: Scope, st: State, st': State, src: Source, fan: Fanout, t: string)
  {
    var id := Num(NextAuto(st, t));
    && (forall v | v != id :: v in Rows(st', t) <==> v in Rows(st, t))
    && (forall v | v in Rows(st, t) :: v in Rows(st', t))
    && NextAuto(st, t) <= NextAuto(st', t)
    && (t in fan ==> Lookup(st', CrossKey(src, t)) == Some(id) && id in Rows(st', t) && NextAuto(st', t) > NextAuto(st, t))
    && forall k: CrossKey | k.table == t && (k.source != src || t !in fan) :: Lookup(st', k) == Lookup(st, k)
  }

  lemma GeneratedAfter(r: Scope, st: State, src: Source, fan: Fanout, t: string)
    requires SchemaOk(r.reg) && FirstWrite(r, st, src, fan) && Generated(r.reg, t)
    ensures TableAfter(r, st, WriteRow(r.reg, st, src, fan).st, src, fan, t)
  {
    WriteEffect(r.reg, st, src, fan);
    var o := WriteRow(r.reg, st, src, fan);
    if t in fan {
      assert Landed(r.reg, st, o.st, src, fan, o.r.value, t);
    }
  }

  /** A table that is only looked up, or not written at all, stays as it was. */
  lemma LookupAfter(r: Scope, st: State, src: Source, fan: Fanout, t: string)
    requires SchemaOk(r.reg) && FirstWrite(r, st, src, fan)
    requires t !in WriteSet(r.mappings) || (!Generated(r.reg, t) && t !in APP_ASSIGNED)
    ensures SameTable(st, WriteRow(r.reg, st, src, fan).st, t)
  {
    WriteEffect(r.reg, st, src, fan);
    WriteRowByTable(r.reg, st, src, fan);
    var o := WriteRow(r.reg, st, src, fan);
    if t in fan {
      assert t !in Unknown(r.reg, fan);
      assert SliceOf(o.st, src, t) == SliceOf(st, src, t);
      assert Rows(o.st, t) == SliceOf(o.st, src, t).rows && Rows(st, t) == SliceOf(st, src, t).rows;
      assert Lookup(o.st, CrossKey(src, t)) == SliceOf(o.st, src, t).cross;
    }
  }

  lemma OwnAfter(r: Scope, a: State, b: State, a': State, b': State, src: Source, fan: Fanout, fan': Fanout, k: CrossKey)
    requires Own(r, k) && OwnAlike(r, a, b, k) && fan.Keys == fan'.Keys && src.system == r.system
    requires TableAfter(r, a, a', src, fan, k.table) && TableAfter(r, b, b', src, fan', k.table)
    ensures OwnAlike(r, a', b', k)
  {
    if k.source == src && k.table in fan {
      assert k == CrossKey(src, k.table);
    } else {
      assert Lookup(a', k) == Lookup(a, k) && Lookup(b', k) == Lookup(b, k);
    }
  }

  lemma OtherAfter(r: Scope, a: State, b: State, a': State, b': State, src: Source, fan: Fanout, fan': Fanout, k: CrossKey)
    requires Generated(r.reg, k.table) && !Of(k, r.entity, r.target) && OtherAlike(a, b, k) && Of(CrossKey(src, k.table), r.entity, r.target)
    requires TableAfter(r, a, a', src, fan, k.table) && TableAfter(r, b, b', src, fan', k.table)
    requires EntriesBelow(r.reg, a) && EntriesBelow(r.reg, b)
    ensures OtherAlike(a', b', k)
  {
    assert Lookup(a', k) == Lookup(a, k) && Lookup(b', k) == Lookup(b, k);
    if k in a.crosswalk {
      assert BelowCounter(a, RowId(k.table, a.crosswalk[k])) && BelowCounter(b, RowId(k.table, b.crosswalk[k]));
    }
  }

  lemma BelowAfter(r: Scope, st: State, src: Source, fan: Fanout)
    requires SchemaOk(r.reg) && FirstWrite(r, st, src, fan) && EntriesBelow(r.reg, st)
    ensures EntriesBelow(r.reg, WriteRow(r.reg, st, src, fan).st) && Persists(r, st, WriteRow(r.reg, st, src, fan).st)
  {
    var st' := WriteRow(r.reg, st, src, fan).st;
    forall k: CrossKey | Generated(r.reg, k.table)
      ensures k in st'.crosswalk ==> BelowCounter(st', RowId(k.table, st'.crosswalk[k]))
      ensures k in st.crosswalk ==> Lookup(st', k) == Lookup(st, k)
    {
      GeneratedAfter(r, st, src, fan, k.table);
      if k.source == src {
        assert k == CrossKey(src, k.table);
      }
      if !(k.source == src && k.table in fan) {
        assert Lookup(st', k) == Lookup(st, k);
        if k in st.crosswalk { assert BelowCounter(st, RowId(k.table, st.crosswalk[k])); }
      }
    }
  }

  /** The same source row written first in both: alike again. */
  lemma WriteAlike(r: Scope, a: State, b: State, src: Source, fan: Fanout, fan': Fanout)
    requires SchemaOk(r.reg) && Alike(r, a, b) && EntriesBelow(r.reg, a) && EntriesBelow(r.reg, b) && fan.Keys == fan'.Keys
    requires FirstWrite(r, a, src, fan) && FirstWrite(r, b, src, fan')
    ensures Alike(r, WriteRow(r.reg, a, src, fan).st, WriteRow(r.reg, b, src, fan').st)
  {
    var a', b' := WriteRow(r.reg, a, src, fan).st, WriteRow(r.reg, b, src, fan').st;
    forall t | t !in WriteSet(r.mappings) || (!Generated(r.reg, t) && t !in APP_ASSIGNED)
      ensures SameTable(a', b', t)
    {
      LookupAfter(r, a, src, fan, t);
      LookupAfter(r, b, src, fan', t);
      assert SameTable(a, b, t);
    }
    forall k | Own(r, k)
      ensures OwnAlike(r, a', b', k)
    {
      GeneratedAfter(r, a, src, fan, k.table);
      GeneratedAfter(r, b, src, fan', k.table);
      OwnAfter(r, a, b, a', b', src, fan, fan', k);
    }
    forall k: CrossKey | Generated(r.reg, k.table) && !Of(k, r.entity, r.target)
      ensures OtherAlike(a', b', k)
    {
      GeneratedAfter(r, a, src, fan, k.table);
      GeneratedAfter(r, b, src, fan', k.table);
      OtherAfter(r, a, b, a', b', src, fan, fan', k);
    }
  }

  // ------------------------------------------------------------- all the writes

  function SourceOf(r: Scope, row: SourceRow): Source
  {
    Source(r.system, r.entity, row.reference, r.target)
  }

  /** None of these source rows has an entry for a generated table yet. */
  ghost predicate Unwritten(r: Scope, st: State, rows: seq<SourceRow>)
  {
    forall row, t | row in rows && Generated(r.reg, t) :: CrossKey(SourceOf(r, row), t) !in st.crosswalk
  }

  /** The same source rows in the same order, each with values that differ by the renaming. */
  ghost predicate WritesRenamed(r: Scope, a: State, b: State, ops: seq<Op>, ops': seq<Op>)
  {
    && |ops| == |ops'|
    && forall i | 0 <= i < |ops| ::
         ops[i].Write? && ops'[i].Write? && ops[i].src == ops'[i].src && RenamedFan(r, a, b, ops[i].fan, ops'[i].fan)
  }

  /** Entries stay, and so does what they rename. */
  lemma RenamedStays(r: Scope, a: State, b: State, a': State, b': State, fan: Fanout, fan': Fanout)
    requires RenamedFan(r, a, b, fan, fan') && Persists(r, a, a') && Persists(r, b, b')
    ensures RenamedFan(r, a', b', fan, fan')
  {
    forall t | t in fan
      ensures RenamedRow(r, a', b', fan[t], fan'[t])
    {
      assert RenamedRow(r, a, b, fan[t], fan'[t]);
      forall c | c in fan[t]
        ensures Renamed(r, a', b', fan[t][c], fan'[t][c])
      {
        ValueStays(r, a, b, a', b', fan[t][c], fan'[t][c]);
      }
    }
  }

  lemma ValueStays(r: Scope, a: State, b: State, a': State, b': State, v: Value, v': Value)
    requires Renamed(r, a, b, v, v') && Persists(r, a, a') && Persists(r, b, b')
    ensures Renamed(r, a', b', v, v')
  {
    if v != v' {
      var k :| Own(r, k) && Lookup(a, k) == Some(v) && Lookup(b, k) == Some(v');
      assert Lookup(a', k) == Some(v) && Lookup(b', k) == Some(v');
    }
  }

  /** Two refreshes at the same source row. */
  ghost predicate Abreast(r: Scope, a: State, b: State, rows: seq<SourceRow>)
  {
    && Alike(r, a, b) && EntriesBelow(r.reg, a) && EntriesBelow(r.reg, b)
    && NoDup(References(rows)) && Unwritten(r, a, rows)
  }

  /** One source row in both refreshes: what it is written with, and that both are alike after it. */
  lemma RowAlike(r: Scope, a: State, b: State, rows: seq<SourceRow>) returns (fan: Fanout, fan': Fanout)
    requires SchemaOk(r.reg) && AvoidsAssigned(r.reg, r.mappings) && rows != [] && Abreast(r, a, b, rows)
    requires var x := Resolved(r.reg, r.codec, a, r.system, r.target, rows[0].payload, r.mappings);
             x.Ok? && WriteRow(r.reg, a, SourceOf(r, rows[0]), x.value.0).r.Ok?
    requires var y := Resolved(r.reg, r.codec, b, r.system, r.target, rows[0].payload, r.mappings);
             y.Ok? && WriteRow(r.reg, b, SourceOf(r, rows[0]), y.value.0).r.Ok?
    ensures Resolved(r.reg, r.codec, a, r.system, r.target, rows[0].payload, r.mappings).value.0 == fan
    ensures Resolved(r.reg, r.codec, b, r.system, r.target, rows[0].payload, r.mappings).value.0 == fan'
    ensures Resolved(r.reg, r.codec, a, r.system, r.target, rows[0].payload, r.mappings).value.1
         == Resolved(r.reg, r.codec, b, r.system, r.target, rows[0].payload, r.mappings).value.1
    ensures RenamedFan(r, a, b, fan, fan')
    ensures var a', b' := WriteRow(r.reg, a, SourceOf(r, rows[0]), fan).st, WriteRow(r.reg, b, SourceOf(r, rows[0]), fan').st;
            Abreast(r, a', b', rows[1..]) && Persists(r, a, a') && Persists(r, b, b')
  {
    var payload, src := rows[0].payload, SourceOf(r, rows[0]);
    var built := BuildValues(r.reg, r.codec, payload, r.mappings, map[], []).0;
    fan := Resolved(r.reg, r.codec, a, r.system, r.target, payload, r.mappings).value.0;
    fan' := Resolved(r.reg, r.codec, b, r.system, r.target, payload, r.mappings).value.0;
    ResolutionAlike(r, a, b, payload, r.mappings, built, built, []);
    FanInside(r, a, payload);
    FirstInBoth(r, a, b, rows[0]);
    BelowAfter(r, a, src, fan);
    BelowAfter(r, b, src, fan');
    WriteAlike(r, a, b, src, fan, fan');
    OthersUnwritten(r, a, rows, fan);
    TailDistinct(rows);
  }

  lemma FanInside(r: Scope, st: State, payload: Payload)
    requires Resolved(r.reg, r.codec, st, r.system, r.target, payload, r.mappings).Ok?
    ensures Resolved(r.reg, r.codec, st, r.system, r.target, payload, r.mappings).value.0.Keys <= WriteSet(r.mappings)
  {
    BuiltTables(r.reg, r.codec, payload, r.mappings, map[], []);
    ResolvingKeeps(r.reg, r.codec, st, r.system, r.target, payload, r.mappings,
                   BuildValues(r.reg, r.codec, payload, r.mappings, map[], []).0, []);
  }

  lemma FirstInBoth(r: Scope, a: State, b: State, row: SourceRow)
    requires Alike(r, a, b) && forall t | Generated(r.reg, t) :: CrossKey(SourceOf(r, row), t) !in a.crosswalk
    ensures forall t | Generated(r.reg, t) :: CrossKey(SourceOf(r, row), t) !in b.crosswalk
  {
    forall t | Generated(r.reg, t)
      ensures CrossKey(SourceOf(r, row), t) !in b.crosswalk
    {
      assert Own(r, CrossKey(SourceOf(r, row), t)) && OwnAlike(r, a, b, CrossKey(SourceOf(r, row), t));
    }
  }

  lemma {:induction false} ReferencesAt(rows: seq<SourceRow>, i: nat)
    requires i < |rows|
    ensures |References(rows)| == |rows| && References(rows)[i] == rows[i].reference
    decreases |rows|
  {
    if |rows| > 1 {
      ReferencesAt(rows[1..], if i > 0 then i - 1 else 0);
    }
  }

  lemma {:induction false} OthersUnwritten(r: Scope, st: State, rows: seq<SourceRow>, fan: Fanout)
    requires SchemaOk(r.reg) && rows != [] && NoDup(References(rows)) && Unwritten(r, st, rows)
    requires FirstWrite(r, st, SourceOf(r, rows[0]), fan)
    ensures Unwritten(r, WriteRow(r.reg, st, SourceOf(r, rows[0]), fan).st, rows[1..])
  {
    var st' := WriteRow(r.reg, st, SourceOf(r, rows[0]), fan).st;
    forall row, t | row in rows[1..] && Generated(r.reg, t)
      ensures CrossKey(SourceOf(r, row), t) !in st'.crosswalk
    {
      var i :| 1 <= i < |rows| && rows[i] == row;
      ReferencesAt(rows, 0);
      ReferencesAt(rows, i);
      GeneratedAfter(r, st, SourceOf(r, rows[0]), fan, t);
      assert Lookup(st', CrossKey(SourceOf(r, row), t)) == Lookup(st, CrossKey(SourceOf(r, row), t));
    }
  }

  ghost predicate RefreshedAlike(r: Scope, a: State, b: State, x: State, y: State, ops: seq<Op>, ops': seq<Op>)
  {
    Alike(r, x, y) && Persists(r, a, x) && Persists(r, b, y) && WritesRenamed(r, x, y, ops, ops')
  }

  lemma ConsAlike(r: Scope, a: State, b: State, a': State, b': State, x: State, y: State, op: Op, op': Op, ops: seq<Op>, ops': seq<Op>)
    requires Persists(r, a, a') && Persists(r, b, b') && RefreshedAlike(r, a', b', x, y, ops, ops')
    requires op.Write? && op'.Write? && op.src == op'.src && RenamedFan(r, a, b, op.fan, op'.fan)
    ensures RefreshedAlike(r, a, b, x, y, [op] + ops, [op'] + ops')
  {
    PersistsOn(r, a, a', x);
    PersistsOn(r, b, b', y);
    RenamedStays(r, a, b, x, y, op.fan, op'.fan);
    forall i | 0 <= i < |[op] + ops|
      ensures var p, q := ([op] + ops)[i], ([op'] + ops')[i];
              p.Write? && q.Write? && p.src == q.src && RenamedFan(r, x, y, p.fan, q.fan)
    {
      if i > 0 { assert ([op] + ops)[i] == ops[i - 1] && ([op'] + ops')[i] == ops'[i - 1]; }
    }
  }

  lemma PersistsOn(r: Scope, a: State, b: State, c: State)
    requires Persists(r, a, b) && Persists(r, b, c)
    ensures Persists(r, a, c)
  {
    forall k | Own(r, k) && k in a.crosswalk
      ensures Lookup(c, k) == Lookup(a, k)
    {
      assert Lookup(b, k) == Lookup(a, k);
    }
  }

  function RowsOf(r: Scope, st: State, rows: seq<SourceRow>, report: Report): Outcome<Report>
  {
    RefreshRows(r.reg, r.codec, st, r.system, r.entity, r.target, r.mappings, rows, report)
  }

  ghost function OpsOf(r: Scope, st: State, rows: seq<SourceRow>): seq<Op>
  {
    WritesOf(r.reg, r.codec, st, r.system, r.entity, r.target, r.mappings, rows)
  }

  /** What a refresh does with its first source row when it goes through. */
  lemma RowsStep(r: Scope, st: State, rows: seq<SourceRow>, report: Report)
    requires rows != [] && RowsOf(r, st, rows, report).r.Ok?
    ensures var (built, errors) := BuildValues(r.reg, r.codec, rows[0].payload, r.mappings, map[], []);
            var x := Resolved(r.reg, r.codec, st, r.system, r.target, rows[0].payload, r.mappings);
            if errors != [] || built == map[] then
              && RowsOf(r, st, rows, report) == RowsOf(r, st, rows[1..], report.(failed := report.failed + [rows[0].reference]))
              && OpsOf(r, st, rows) == OpsOf(r, st, rows[1..])
            else
              && x.Ok? && WriteRow(r.reg, st, SourceOf(r, rows[0]), x.value.0).r.Ok?
              && RowsOf(r, st, rows, report)
                 == RowsOf(r, WriteRow(r.reg, st, SourceOf(r, rows[0]), x.value.0).st, rows[1..],
                           report.(written := report.written + 1, unresolved := report.unresolved + |x.value.1|))
              && OpsOf(r, st, rows)
                 == [Write(SourceOf(r, rows[0]), x.value.0)] + OpsOf(r, WriteRow(r.reg, st, SourceOf(r, rows[0]), x.value.0).st, rows[1..])
  {
  }

  /** The next point both refreshes come to, and what they wrote on the way. */
  lemma RowWritten(r: Scope, a: State, b: State, rows: seq<SourceRow>, ra: Report, rb: Report)
    returns (a': State, b': State, na: Report, nb: Report, op: Op, op': Op)
    requires SchemaOk(r.reg) && AvoidsAssigned(r.reg, r.mappings) && Abreast(r, a, b, rows) && rows != []
    requires RowsOf(r, a, rows, ra).r.Ok? && RowsOf(r, b, rows, rb).r.Ok?
    requires var (built, errors) := BuildValues(r.reg, r.codec, rows[0].payload, r.mappings, map[], []); errors == [] && built != map[]
    ensures Abreast(r, a', b', rows[1..]) && Persists(r, a, a') && Persists(r, b, b')
    ensures op.Write? && op'.Write? && op.src == op'.src && RenamedFan(r, a, b, op.fan, op'.fan)
    ensures RowsOf(r, a, rows, ra) == RowsOf(r, a', rows[1..], na) && RowsOf(r, b, rows, rb) == RowsOf(r, b', rows[1..], nb)
    ensures OpsOf(r, a, rows) == [op] + OpsOf(r, a', rows[1..]) && OpsOf(r, b, rows) == [op'] + OpsOf(r, b', rows[1..])
  {
    RowsStep(r, a, rows, ra);
    RowsStep(r, b, rows, rb);
    var fan, fan' := RowAlike(r, a, b, rows);
    var n := |Resolved(r.reg, r.codec, a, r.system, r.target, rows[0].payload, r.mappings).value.1|;
    var src := SourceOf(r, rows[0]);
    a', b' := WriteRow(r.reg, a, src, fan).st, WriteRow(r.reg, b, src, fan').st;
    na := ra.(written := ra.written + 1, unresolved := ra.unresolved + n);
    nb := rb.(written := rb.written + 1, unresolved := rb.unresolved + n);
    op, op' := Write(src, fan), Write(src, fan');
  }

  /** Two refreshes from states that are alike write the same source rows with values that differ by the
      renaming, and end alike. */
  lemma {:induction false} RowsAlike(r: Scope, a: State, b: State, rows: seq<SourceRow>, ra: Report, rb: Report)
    requires SchemaOk(r.reg) && AvoidsAssigned(r.reg, r.mappings) && Abreast(r, a, b, rows)
    requires RowsOf(r, a, rows, ra).r.Ok? && RowsOf(r, b, rows, rb).r.Ok?
    ensures RefreshedAlike(r, a, b, RowsOf(r, a, rows, ra).st, RowsOf(r, b, rows, rb).st, OpsOf(r, a, rows), OpsOf(r, b, rows))
    decreases |rows|
  {
    if rows != [] {
      var (built, errors) := BuildValues(r.reg, r.codec, rows[0].payload, r.mappings, map[], []);
      if errors != [] || built == map[] {
        RowsStep(r, a, rows, ra);
        RowsStep(r, b, rows, rb);
        TailAbreast(r, a, b, rows);
        RowsAlike(r, a, b, rows[1..], ra.(failed := ra.failed + [rows[0].reference]), rb.(failed := rb.failed + [rows[0].reference]));
      } else {
        var a', b', na, nb, op, op' := RowWritten(r, a, b, rows, ra, rb);
        RowsAlike(r, a', b', rows[1..], na, nb);
        ConsAlike(r, a, b, a', b', RowsOf(r, a', rows[1..], na).st, RowsOf(r, b', rows[1..], nb).st,
                  op, op', OpsOf(r, a', rows[1..]), OpsOf(r, b', rows[1..]));
      }
    }
  }

  lemma TailAbreast(r: Scope, a: State, b: State, rows: seq<SourceRow>)
    requires rows != [] && Abreast(r, a, b, rows)
    ensures Abreast(r, a, b, rows[1..])
  {
    TailDistinct(rows);
  }

  lemma TailDistinct(rows: seq<SourceRow>)
    requires rows != [] && NoDup(References(rows))
    ensures NoDup(References(rows[1..]))
  {
    var all, tail := References(rows), References(rows[1..]);
    assert all == [rows[0].reference] + tail;
    forall i, j | 0 <= i < j < |tail|
      ensures tail[i] != tail[j]
    {
      assert all[i + 1] == tail[i] && all[j + 1] == tail[j];
    }
  }

  // ----------------------------------------------- where the second refresh starts

  /** How the first refresh changes a state: rows under new ids in generated tables, entries of the entity that
      name them, and nothing else a reference could see. */
  ghost predicate Evolves(r: Scope, x: State, y: State)
  {
    && (forall t | t !in WriteSet(r.mappings) || (!Generated(r.reg, t) && t !in APP_ASSIGNED) :: SameTable(x, y, t))
    && (forall t | Generated(r.reg, t) :: TableEvolves(x, y, t))
    && (forall k: CrossKey | Generated(r.reg, k.table) && !Of(k, r.entity, r.target) :: Lookup(x, k) == Lookup(y, k))
    && forall k | Own(r, k) && k in y.crosswalk :: Lookup(x, k) == Lookup(y, k) || IsNew(x, k.table, y.crosswalk[k])
  }

  predicate IsNew(st: State, t: string, id: Value)
  {
    id.Num? && id.n >= NextAuto(st, t)
  }

  ghost predicate TableEvolves(x: State, y: State, t: string)
  {
    && NextAuto(x, t) <= NextAuto(y, t)
    && forall id | BelowCounter(x, RowId(t, id)) :: id in Rows(x, t) <==> id in Rows(y, t)
  }

  lemma EvolvesTransitive(r: Scope, x: State, y: State, z: State)
    requires Evolves(r, x, y) && Evolves(r, y, z)
    ensures Evolves(r, x, z)
  {
    forall t | Generated(r.reg, t)
      ensures TableEvolves(x, z, t)
    {
      assert TableEvolves(x, y, t) && TableEvolves(y, z, t);
    }
    forall k | Own(r, k) && k in z.crosswalk
      ensures Lookup(x, k) == Lookup(z, k) || IsNew(x, k.table, z.crosswalk[k])
    {
      assert TableEvolves(x, y, k.table);
      assert Lookup(y, k) == Lookup(z, k) || IsNew(y, k.table, z.crosswalk[k]);
    }
    forall t | t !in WriteSet(r.mappings) || (!Generated(r.reg, t) && t !in APP_ASSIGNED)
      ensures SameTable(x, z, t)
    {
      assert SameTable(x, y, t) && SameTable(y, z, t);
    }
  }

  lemma WriteEvolves(r: Scope, st: State, src: Source, fan: Fanout)
    requires SchemaOk(r.reg) && FirstWrite(r, st, src, fan)
    ensures Evolves(r, st, WriteRow(r.reg, st, src, fan).st)
  {
    var st' := WriteRow(r.reg, st, src, fan).st;
    forall t | t !in WriteSet(r.mappings) || (!Generated(r.reg, t) && t !in APP_ASSIGNED)
      ensures SameTable(st, st', t)
    {
      LookupAfter(r, st, src, fan, t);
    }
    forall t | Generated(r.reg, t)
      ensures TableEvolves(st, st', t)
    {
      GeneratedAfter(r, st, src, fan, t);
    }
    forall k: CrossKey | Generated(r.reg, k.table)
      ensures Lookup(st, k) == Lookup(st', k) || (Own(r, k) && k in st'.crosswalk && IsNew(st, k.table, st'.crosswalk[k]))
    {
      GeneratedAfter(r, st, src, fan, k.table);
      if k.source == src { assert k == CrossKey(src, k.table); }
    }
  }

  lemma RowEvolves(r: Scope, st: State, rows: seq<SourceRow>)
    requires SchemaOk(r.reg) && rows != [] && NoDup(References(rows)) && Unwritten(r, st, rows)
    requires var x := Resolved(r.reg, r.codec, st, r.system, r.target, rows[0].payload, r.mappings);
             x.Ok? && WriteRow(r.reg, st, SourceOf(r, rows[0]), x.value.0).r.Ok?
    ensures var fan := Resolved(r.reg, r.codec, st, r.system, r.target, rows[0].payload, r.mappings).value.0;
            var st' := WriteRow(r.reg, st, SourceOf(r, rows[0]), fan).st;
            Evolves(r, st, st') && Unwritten(r, st', rows[1..])
  {
    var fan := Resolved(r.reg, r.codec, st, r.system, r.target, rows[0].payload, r.mappings).value.0;
    FanInside(r, st, rows[0].payload);
    WriteEvolves(r, st, SourceOf(r, rows[0]), fan);
    OthersUnwritten(r, st, rows, fan);
  }

  lemma {:induction false} RowsEvolve(r: Scope, st: State, rows: seq<SourceRow>, report: Report)
    requires SchemaOk(r.reg) && NoDup(References(rows)) && Unwritten(r, st, rows) && RowsOf(r, st, rows, report).r.Ok?
    ensures Evolves(r, st, RowsOf(r, st, rows, report).st)
    decreases |rows|
  {
    if rows != [] {
      var (built, errors) := BuildValues(r.reg, r.codec, rows[0].payload, r.mappings, map[], []);
      RowsStep(r, st, rows, report);
      TailDistinct(rows);
      if errors != [] || built == map[] {
        RowsEvolve(r, st, rows[1..], report.(failed := report.failed + [rows[0].reference]));
      } else {
        var (fan, unresolved) := Resolved(r.reg, r.codec, st, r.system, r.target, rows[0].payload, r.mappings).value;
        var src := SourceOf(r, rows[0]);
        var st' := WriteRow(r.reg, st, src, fan).st;
        var next := report.(written := report.written + 1, unresolved := report.unresolved + |unresolved|);
        RowEvolves(r, st, rows);
        RowsEvolve(r, st', rows[1..], next);
        EvolvesTransitive(r, st, st', RowsOf(r, st', rows[1..], next).st);
      }
    } else {
      assert forall t | Generated(r.reg, t) :: TableEvolves(st, st, t);
    }
  }

  ghost predicate NoOwn(r: Scope, st: State)
  {
    forall k | Own(r, k) :: k !in st.crosswalk
  }

  lemma OwnedIdsAreNew(r: Scope, x: State, y: State, t: string, id: Value)
    requires Evolves(r, x, y) && NoOwn(r, x) && Generated(r.reg, t) && id in OwnedIds(y, r.entity, r.target, t)
    ensures IsNew(x, t, id)
  {
    var k :| k in y.crosswalk && Of(k, r.entity, r.target) && k.table == t && y.crosswalk[k] == id;
    assert Own(r, k);
  }

  lemma DeletedTable(r: Scope, x: State, y: State, t: string)
    requires Evolves(r, x, y) && NoOwn(r, x) && DeleteEntity(r.reg, y, r.entity, r.target).r.Ok?
    requires t !in WriteSet(r.mappings) || (!Generated(r.reg, t) && t !in APP_ASSIGNED)
    ensures SameTable(x, DeleteEntity(r.reg, y, r.entity, r.target).st, t)
  {
    DeletesExactlyOwned(r.reg, y, r.entity, r.target, t);
    assert SameTable(x, y, t);
    forall k: CrossKey | k in y.crosswalk && k.table == t && Generated(r.reg, t)
      ensures !Of(k, r.entity, r.target)
    {
      assert Lookup(x, k) == Lookup(y, k);
      assert Own(r, k) ==> k !in x.crosswalk;
    }
  }

  lemma DeletedOther(r: Scope, x: State, y: State, k: CrossKey)
    requires SchemaOk(r.reg) && Evolves(r, x, y) && NoOwn(r, x) && EntriesBelow(r.reg, x) && DeleteEntity(r.reg, y, r.entity, r.target).r.Ok?
    requires Generated(r.reg, k.table) && !Of(k, r.entity, r.target)
    ensures OtherAlike(x, DeleteEntity(r.reg, y, r.entity, r.target).st, k)
  {
    DeletesExactlyOwned(r.reg, y, r.entity, r.target, k.table);
    assert Lookup(x, k) == Lookup(y, k);
    if k in x.crosswalk {
      var id := x.crosswalk[k];
      assert BelowCounter(x, RowId(k.table, id)) && TableEvolves(x, y, k.table);
      if id in OwnedIds(y, r.entity, r.target, k.table) {
        OwnedIdsAreNew(r, x, y, k.table, id);
        assert false;
      }
    }
  }

  /** Deleting what the first refresh wrote leads back to a state like the one it started from. */
  lemma DeletedAlike(r: Scope, x: State, y: State)
    requires SchemaOk(r.reg) && Evolves(r, x, y) && NoOwn(r, x) && EntriesBelow(r.reg, x)
    requires DeleteEntity(r.reg, y, r.entity, r.target).r.Ok?
    ensures Alike(r, x, DeleteEntity(r.reg, y, r.entity, r.target).st)
  {
    var z := DeleteEntity(r.reg, y, r.entity, r.target).st;
    forall t | t !in WriteSet(r.mappings) || (!Generated(r.reg, t) && t !in APP_ASSIGNED)
      ensures SameTable(x, z, t)
    {
      DeletedTable(r, x, y, t);
    }
    DeleteForgets(r.reg, y, r.entity, r.target);
    forall k: CrossKey | Generated(r.reg, k.table) && !Of(k, r.entity, r.target)
      ensures OtherAlike(x, z, k)
    {
      DeletedOther(r, x, y, k);
    }
  }

  // -------------------------------------------------------- what the rows hold

  /** Equal up to the renaming, or the ids of one parent of the row. */
  ghost predicate CellRenamed(r: Scope, a: State, b: State, fan: Fanout, ids: TargetIds, ids': TargetIds, t: string, v: Value, v': Value)
    requires ids.Keys == fan.Keys && ids'.Keys == fan.Keys
  {
    Renamed(r, a, b, v, v') || exists p :: p in fan && p != t && v == ids[p] && v' == ids'[p]
  }

  lemma {:induction false} FillingRenamed(r: Scope, a: State, b: State, fan: Fanout, t: string, fks: seq<ForeignKey>, values: Row, values': Row,
                                          ids: TargetIds, ids': TargetIds, c: string)
    requires ids.Keys == fan.Keys && ids'.Keys == fan.Keys && forall p | p in fan :: ids[p] != Null && ids'[p] != Null
    requires CellRenamed(r, a, b, fan, ids, ids', t, Get(values, c), Get(values', c))
    ensures CellRenamed(r, a, b, fan, ids, ids', t, Get(ApplyForeignKeys(fks, t, values, ids), c), Get(ApplyForeignKeys(fks, t, values', ids'), c))
    decreases |fks|
  {
    if fks != [] {
      FillingRenamed(r, a, b, fan, t, fks[1..], FillForeignKey(fks[0], t, values, ids), FillForeignKey(fks[0], t, values', ids'), ids, ids', c);
    }
  }

  /** One write's rows after the first refresh and after the second. */
  ghost predicate RowsRenamed(r: Scope, a: State, b: State, op: Op, op': Op)
    requires op.Write? && op'.Write?
  {
    op.fan.Keys == op'.fan.Keys
    && exists ids, ids' :: PlacedUnder(r.reg, a, op.src, op.fan, ids) && PlacedUnder(r.reg, b, op'.src, op'.fan, ids')
         && forall t, c | t in op.fan && Generated(r.reg, t) ::
              CellRenamed(r, a, b, op.fan, ids, ids', t, Get(Rows(a, t)[ids[t]], c), Get(Rows(b, t)[ids'[t]], c))
  }

  lemma PlacedRenamed(r: Scope, a: State, b: State, op: Op, op': Op)
    requires op.Write? && op'.Write? && op.src == op'.src && Of(CrossKey(op.src, ""), r.entity, r.target)
    requires RenamedFan(r, a, b, op.fan, op'.fan) && Placed(r.reg, a, op) && Placed(r.reg, b, op')
    ensures RowsRenamed(r, a, b, op, op')
  {
    var ids :| PlacedUnder(r.reg, a, op.src, op.fan, ids);
    var ids' :| PlacedUnder(r.reg, b, op'.src, op'.fan, ids');
    forall t, c | t in op.fan && Generated(r.reg, t)
      ensures CellRenamed(r, a, b, op.fan, ids, ids', t, Get(Rows(a, t)[ids[t]], c), Get(Rows(b, t)[ids'[t]], c))
    {
      PlacedCell(r, a, b, op.src, op.fan, op'.fan, ids, ids', t, c);
    }
  }

  lemma PlacedCell(r: Scope, a: State, b: State, src: Source, fan: Fanout, fan': Fanout, ids: TargetIds, ids': TargetIds, t: string, c: string)
    requires Of(CrossKey(src, ""), r.entity, r.target) && RenamedFan(r, a, b, fan, fan') && t in fan && Generated(r.reg, t)
    requires PlacedUnder(r.reg, a, src, fan, ids) && PlacedUnder(r.reg, b, src, fan', ids')
    ensures CellRenamed(r, a, b, fan, ids, ids', t, Get(Rows(a, t)[ids[t]], c), Get(Rows(b, t)[ids'[t]], c))
  {
    if Some(c) == Auto(r.reg, t) {
      assert Own(r, CrossKey(src, t)) && Lookup(a, CrossKey(src, t)) == Some(ids[t]) && Lookup(b, CrossKey(src, t)) == Some(ids'[t]);
    } else {
      FilledCell(r, a, b, fan, fan', ids, ids', t, c);
    }
  }

  lemma FilledCell(r: Scope, a: State, b: State, fan: Fanout, fan': Fanout, ids: TargetIds, ids': TargetIds, t: string, c: string)
    requires RenamedFan(r, a, b, fan, fan') && t in fan && t in r.reg
    requires ids.Keys == fan.Keys && ids'.Keys == fan.Keys && forall p | p in fan :: ids[p] != Null && ids'[p] != Null
    ensures CellRenamed(r, a, b, fan, ids, ids', t, Get(Filled(r.reg, fan, ids, t), c), Get(Filled(r.reg, fan', ids', t), c))
  {
    assert RenamedRow(r, a, b, fan[t], fan'[t]);
    assert Renamed(r, a, b, Get(fan[t], c), Get(fan'[t], c));
    FillingRenamed(r, a, b, fan, t, r.reg[t].foreignKeys, fan[t], fan'[t], ids, ids', c);
  }

  /** The entries pair the ids of the two states off: the same keys, and in either state no id under two of them. */
  ghost predicate PairsOff(r: Scope, a: State, b: State)
  {
    && (forall k | Own(r, k) :: k in a.crosswalk <==> k in b.crosswalk)
    && (forall k, j | Own(r, k) && Own(r, j) && k in a.crosswalk && j in a.crosswalk && k.table == j.table :: a.crosswalk[k] == a.crosswalk[j] ==> k == j)
    && (forall k, j | Own(r, k) && Own(r, j) && k in b.crosswalk && j in b.crosswalk && k.table == j.table :: b.crosswalk[k] == b.crosswalk[j] ==> k == j)
  }

  lemma TracedApart(r: Scope, w: World, k: CrossKey, j: CrossKey)
    requires Traced(r.reg, w) && Own(r, k) && Own(r, j) && k in w.st.crosswalk && j in w.st.crosswalk
    requires k.table == j.table && w.st.crosswalk[k] == w.st.crosswalk[j]
    ensures k == j
  {
    assert w.ledger[RowId(k.table, w.st.crosswalk[k])] == k && w.ledger[RowId(j.table, w.st.crosswalk[j])] == j;
  }

  // --------------------------------------------------------------- the theorem

  ghost function AfterRefresh(r: Scope, w: World, rows: seq<SourceRow>): (World, seq<Op>)
  {
    After(r.reg, r.codec, w, r.system, r.entity, r.target, r.mappings, rows)
  }

  function RefreshOf(r: Scope, st: State, rows: seq<SourceRow>): Outcome<Report>
  {
    RefreshEntity(r.reg, r.codec, st, r.system, r.entity, r.target, r.mappings, rows)
  }

  /** Where the rows of the first refresh start and where those of the second do. */
  lemma StartsAlike(r: Scope, w: World, rows: seq<SourceRow>)
    requires SchemaOk(r.reg) && Sound(r.reg, w) && NoDup(References(rows))
    requires RefreshOf(r, w.st, rows).r.Ok? && RefreshOf(r, AfterRefresh(r, w, rows).0.st, rows).r.Ok?
    ensures var x := DeleteEntity(r.reg, w.st, r.entity, r.target).st;
            var z := DeleteEntity(r.reg, AfterRefresh(r, w, rows).0.st, r.entity, r.target).st;
            Abreast(r, x, z, rows)
  {
    var y := AfterRefresh(r, w, rows).0;
    var x := DeleteEntity(r.reg, w.st, r.entity, r.target);
    RefreshPlaces(r.reg, r.codec, w, r.system, r.entity, r.target, r.mappings, rows);
    DeleteClears(r.reg, w, r.entity, r.target);
    DeleteClears(r.reg, y, r.entity, r.target);
    SoundBelow(r.reg, Apply(r.reg, w, Delete(r.entity, r.target)));
    SoundBelow(r.reg, Apply(r.reg, y, Delete(r.entity, r.target)));
    RowsEvolve(r, x.st, rows, Report(x.r.value, 0, [], |rows|, 0));
    DeletedAlike(r, x.st, y.st);
  }

  lemma SoundBelow(reg: Registry, w: World)
    requires Sound(reg, w)
    ensures EntriesBelow(reg, w.st)
  {
    forall k | k in w.st.crosswalk && Generated(reg, k.table)
      ensures BelowCounter(w.st, RowId(k.table, w.st.crosswalk[k]))
    {
      assert RowId(k.table, w.st.crosswalk[k]) in w.ledger;
    }
  }

  /** The second refresh performs the writes of the first up to the renaming. */
  lemma SecondWritesRenamed(r: Scope, w: World, rows: seq<SourceRow>)
    requires SchemaOk(r.reg) && Sound(r.reg, w) && NoDup(References(rows)) && AvoidsAssigned(r.reg, r.mappings)
    requires RefreshOf(r, w.st, rows).r.Ok? && RefreshOf(r, AfterRefresh(r, w, rows).0.st, rows).r.Ok?
    ensures var a := AfterRefresh(r, w, rows);
            var b := AfterRefresh(r, a.0, rows);
            Alike(r, a.0.st, b.0.st) && WritesRenamed(r, a.0.st, b.0.st, a.1, b.1)
  {
    var a := AfterRefresh(r, w, rows);
    var x, z := DeleteEntity(r.reg, w.st, r.entity, r.target), DeleteEntity(r.reg, a.0.st, r.entity, r.target);
    StartsAlike(r, w, rows);
    RefreshPlaces(r.reg, r.codec, w, r.system, r.entity, r.target, r.mappings, rows);
    RefreshPlaces(r.reg, r.codec, a.0, r.system, r.entity, r.target, r.mappings, rows);
    RowsAlike(r, x.st, z.st, rows, Report(x.r.value, 0, [], |rows|, 0), Report(z.r.value, 0, [], |rows|, 0));
  }

  /** Refresh twice, with references into tables the entity itself writes allowed: the second refresh writes
      the same source rows; the entity's entries pair off the ids of the two states; every generated row holds
      what it held, but for its key, ids so paired and the ids of its parents; and again the entity owns no
      other generated rows. */
  lemma RefreshTwiceIsOnceRenamed(r: Scope, w: World, rows: seq<SourceRow>)
    requires SchemaOk(r.reg) && Sound(r.reg, w) && NoDup(References(rows)) && AvoidsAssigned(r.reg, r.mappings)
    requires RefreshOf(r, w.st, rows).r.Ok? && RefreshOf(r, AfterRefresh(r, w, rows).0.st, rows).r.Ok?
    ensures var a := AfterRefresh(r, w, rows);
            var b := AfterRefresh(r, a.0, rows);
            && PairsOff(r, a.0.st, b.0.st) && |a.1| == |b.1|
            && (forall i | 0 <= i < |a.1| ::
                  a.1[i].Write? && b.1[i].Write? && a.1[i].src == b.1[i].src && RowsRenamed(r, a.0.st, b.0.st, a.1[i], b.1[i]))
            && EntriesFrom(r.reg, a.0.st, r.entity, r.target, a.1) && EntriesFrom(r.reg, b.0.st, r.entity, r.target, b.1)
  {
    var a := AfterRefresh(r, w, rows);
    var b := AfterRefresh(r, a.0, rows);
    SecondWritesRenamed(r, w, rows);
    RefreshPlaces(r.reg, r.codec, w, r.system, r.entity, r.target, r.mappings, rows);
    RefreshPlaces(r.reg, r.codec, a.0, r.system, r.entity, r.target, r.mappings, rows);
    SoundPairsOff(r, a.0, b.0);
    forall i | 0 <= i < |a.1|
      ensures a.1[i].Write? && b.1[i].Write? && a.1[i].src == b.1[i].src && RowsRenamed(r, a.0.st, b.0.st, a.1[i], b.1[i])
    {
      PlacedRenamed(r, a.0.st, b.0.st, a.1[i], b.1[i]);
    }
  }

  lemma SoundPairsOff(r: Scope, a: World, b: World)
    requires Sound(r.reg, a) && Sound(r.reg, b) && Alike(r, a.st, b.st)
    ensures PairsOff(r, a.st, b.st)
  {
    forall k | Own(r, k)
      ensures k in a.st.crosswalk <==> k in b.st.crosswalk
    {
      assert OwnAlike(r, a.st, b.st, k);
    }
    forall k, j | Own(r, k) && Own(r, j) && k.table == j.table
      ensures k in a.st.crosswalk && j in a.st.crosswalk && a.st.crosswalk[k] == a.st.crosswalk[j] ==> k == j
      ensures k in b.st.crosswalk && j in b.st.crosswalk && b.st.crosswalk[k] == b.st.crosswalk[j] ==> k == j
    {
      if k in a.st.crosswalk && j in a.st.crosswalk && a.st.crosswalk[k] == a.st.crosswalk[j] { TracedApart(r, a, k, j); }
      if k in b.st.crosswalk && j in b.st.crosswalk && b.st.crosswalk[k] == b.st.crosswalk[j] { TracedApart(r, b, k, j); }
    }
  }
}
