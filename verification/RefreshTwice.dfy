/** Refreshing an entity whose references lead outside the tables it writes: twice is once, up to generated ids. */
module RefreshTwice {
  import opened Ordering
  import opened Outcomes
  import opened SchemaGraph
  import opened Store
  import opened Writer
  import opened Integrity
  import opened Deletion
  import opened Delivery
  import opened DeployGate
  import opened Ownership
  import opened RefreshOwnership

  /** No foreign key a mapping fills points at a table the mappings write. */
  predicate RefersOutside(reg: Registry, mappings: seq<Mapping>, written: set<string>)
  {
    forall m | m in mappings && m.targetTable in reg ::
      var fk := ForeignKeyOn(reg[m.targetTable].foreignKeys, m.targetColumn);
      fk.Some? ==> fk.value.refTable !in written
  }

  /** The same rows and entries in every table but those written. */
  ghost predicate AgreeOutside(a: State, b: State, written: set<string>)
  {
    forall t | t !in written :: Rows(a, t) == Rows(b, t) && SameEntries(a, b, t)
  }

  ghost predicate SameEntries(a: State, b: State, t: string)
  {
    forall k: CrossKey | k.table == t :: Lookup(a, k) == Lookup(b, k)
  }

  lemma AgreeTransitive(a: State, b: State, c: State, written: set<string>)
    requires AgreeOutside(a, b, written) && AgreeOutside(b, c, written)
    ensures AgreeOutside(a, c, written)
  {
  }

  // ------------------------------------------------------------- the references

  lemma SameRecorded(a: State, b: State, entity: string, reference: string, target: string, t: string)
    requires SameEntries(a, b, t)
    ensures RecordedIds(a, entity, reference, target, t) == RecordedIds(b, entity, reference, target, t)
  {
    forall v
      ensures v in RecordedIds(a, entity, reference, target, t) <==> v in RecordedIds(b, entity, reference, target, t)
    {
      RecordedThere(a, b, entity, reference, target, t, v);
      RecordedThere(b, a, entity, reference, target, t, v);
    }
  }

  lemma RecordedThere(a: State, b: State, entity: string, reference: string, target: string, t: string, v: Value)
    requires SameEntries(a, b, t)
    ensures v in RecordedIds(a, entity, reference, target, t) ==> v in RecordedIds(b, entity, reference, target, t)
  {
    if v in RecordedIds(a, entity, reference, target, t) {
      var k :| k in a.crosswalk && Of(k, entity, target) && k.source.reference == reference && k.table == t
               && a.crosswalk[k] != Null && a.crosswalk[k] == v;
      assert Lookup(b, k) == Some(v);
    }
  }

  lemma SameCandidates(a: State, b: State, t: string, target: string)
    requires SameEntries(a, b, t)
    ensures Candidates(a, t, target) == Candidates(b, t, target)
  {
    forall e
      ensures e in Candidates(a, t, target) <==> e in Candidates(b, t, target)
    {
      CandidateThere(a, b, t, target, e);
      CandidateThere(b, a, t, target, e);
    }
  }

  lemma CandidateThere(a: State, b: State, t: string, target: string, e: string)
    requires SameEntries(a, b, t)
    ensures e in Candidates(a, t, target) ==> e in Candidates(b, t, target)
  {
    if e in Candidates(a, t, target) {
      var k :| k in a.crosswalk && k.table == t && k.source.target == target && a.crosswalk[k] != Null && k.source.entity == e;
      assert Lookup(b, k) == Some(a.crosswalk[k]);
    }
  }

  /** A reference resolves by the rows and entries of the table it points at, and by nothing else. */
  lemma SameProbes(reg: Registry, codec: Codec, a: State, b: State, system: string, target: string, t: string, v: Value)
    requires SameEntries(a, b, t) && Rows(a, t) == Rows(b, t)
    ensures Probed(codec, a, system, target, t, v) == Probed(codec, b, system, target, t, v)
    ensures forall e | e in Probed(codec, a, system, target, t, v) ::
              ProbeId(codec, a, system, target, t, v, e) == ProbeId(codec, b, system, target, t, v, e)
    ensures t in reg ==> Hits(reg, codec, a, system, target, t, v) == Hits(reg, codec, b, system, target, t, v)
  {
    SameCandidates(a, b, t, target);
    forall e
      ensures RecordedIds(a, e, codec.reference(system, e, v), target, t) == RecordedIds(b, e, codec.reference(system, e, v), target, t)
    {
      SameRecorded(a, b, e, codec.reference(system, e, v), target, t);
    }
  }

  lemma {:induction false} SameResolution(reg: Registry, codec: Codec, a: State, b: State, system: string, target: string,
                                          payload: Payload, mappings: seq<Mapping>, fan: Fanout, unresolved: seq<Mapping>,
                                          written: set<string>)
    requires AgreeOutside(a, b, written) && RefersOutside(reg, mappings, written)
    ensures ResolveCross(reg, codec, a, system, target, payload, mappings, fan, unresolved)
         == ResolveCross(reg, codec, b, system, target, payload, mappings, fan, unresolved)
    decreases |mappings|
  {
    if mappings != [] {
      var m, rest := mappings[0], mappings[1..];
      assert m in mappings && forall n | n in rest :: n in mappings;
      if m.targetTable == "" || m.targetColumn == "" || m.sourceColumn !in payload || m.targetTable !in reg
         || ForeignKeyOn(reg[m.targetTable].foreignKeys, m.targetColumn).None? || payload[m.sourceColumn] == Null {
        SameResolution(reg, codec, a, b, system, target, payload, rest, fan, unresolved, written);
      } else {
        var t := ForeignKeyOn(reg[m.targetTable].foreignKeys, m.targetColumn).value.refTable;
        var v := payload[m.sourceColumn];
        assert t !in written;
        SameProbes(reg, codec, a, b, system, target, t, v);
        if Probed(codec, a, system, target, t, v) == {} {
          SameResolution(reg, codec, a, b, system, target, payload, rest, fan, unresolved + [m], written);
        } else if t in reg {
          if Hits(reg, codec, a, system, target, t, v) == {} {
            SameResolution(reg, codec, a, b, system, target, payload, rest, fan, unresolved + [m], written);
          } else {
            var id := ProbeId(codec, a, system, target, t, v, Least(Hits(reg, codec, a, system, target, t, v)));
            SameResolution(reg, codec, a, b, system, target, payload, rest,
                           SetColumn(fan, m.targetTable, m.targetColumn, id), unresolved, written);
          }
        }
      }
    }
  }

  // ------------------------------------------------------- what a refresh leaves alone

  /** A write changes only the tables the mappings write. */
  lemma WriteStaysInside(reg: Registry, codec: Codec, st: State, system: string, target: string, mappings: seq<Mapping>,
                         payload: Payload, src: Source)
    requires SchemaOk(reg) && Resolved(reg, codec, st, system, target, payload, mappings).Ok?
    requires WriteRow(reg, st, src, Resolved(reg, codec, st, system, target, payload, mappings).value.0).r.Ok?
    ensures var fan := Resolved(reg, codec, st, system, target, payload, mappings).value.0;
            AgreeOutside(st, WriteRow(reg, st, src, fan).st, WriteSet(mappings))
  {
    var fan := Resolved(reg, codec, st, system, target, payload, mappings).value.0;
    BuiltTables(reg, codec, payload, mappings, map[], []);
    ResolvingKeeps(reg, codec, st, system, target, payload, mappings,
                   BuildValues(reg, codec, payload, mappings, map[], []).0, []);
    WriteEffect(reg, st, src, fan);
  }

  lemma {:induction false} RowsStayInside(reg: Registry, codec: Codec, st: State, system: string, entity: string, target: string,
                                          mappings: seq<Mapping>, rows: seq<SourceRow>, report: Report)
    requires SchemaOk(reg) && RefreshRows(reg, codec, st, system, entity, target, mappings, rows, report).r.Ok?
    ensures AgreeOutside(st, RefreshRows(reg, codec, st, system, entity, target, mappings, rows, report).st, WriteSet(mappings))
    decreases |rows|
  {
    if rows != [] {
      var row := rows[0];
      var (built, errors) := BuildValues(reg, codec, row.payload, mappings, map[], []);
      if errors != [] || built == map[] {
        RowsStayInside(reg, codec, st, system, entity, target, mappings, rows[1..], report.(failed := report.failed + [row.reference]));
      } else {
        var r := Resolved(reg, codec, st, system, target, row.payload, mappings);
        var src := Source(system, entity, row.reference, target);
        var o := WriteRow(reg, st, src, r.value.0);
        var next := report.(written := report.written + 1, unresolved := report.unresolved + |r.value.1|);
        WriteStaysInside(reg, codec, st, system, target, mappings, row.payload, src);
        RowsStayInside(reg, codec, o.st, system, entity, target, mappings, rows[1..], next);
        AgreeTransitive(st, o.st, RefreshRows(reg, codec, o.st, system, entity, target, mappings, rows[1..], next).st, WriteSet(mappings));
      }
    }
  }

  /** From states that agree outside the written tables, a refresh performs the same writes. */
  lemma {:induction false} SameWrites(reg: Registry, codec: Codec, a: State, b: State, system: string, entity: string, target: string,
                                      mappings: seq<Mapping>, rows: seq<SourceRow>, ra: Report, rb: Report)
    requires SchemaOk(reg) && AgreeOutside(a, b, WriteSet(mappings)) && RefersOutside(reg, mappings, WriteSet(mappings))
    requires RefreshRows(reg, codec, a, system, entity, target, mappings, rows, ra).r.Ok?
    requires RefreshRows(reg, codec, b, system, entity, target, mappings, rows, rb).r.Ok?
    ensures WritesOf(reg, codec, a, system, entity, target, mappings, rows) == WritesOf(reg, codec, b, system, entity, target, mappings, rows)
    decreases |rows|
  {
    if rows != [] {
      var row := rows[0];
      var (built, errors) := BuildValues(reg, codec, row.payload, mappings, map[], []);
      if errors != [] || built == map[] {
        SameWrites(reg, codec, a, b, system, entity, target, mappings, rows[1..],
                   ra.(failed := ra.failed + [row.reference]), rb.(failed := rb.failed + [row.reference]));
      } else {
        SameResolution(reg, codec, a, b, system, target, row.payload, mappings, built, [], WriteSet(mappings));
        var (fan, unresolved) := Resolved(reg, codec, a, system, target, row.payload, mappings).value;
        var src := Source(system, entity, row.reference, target);
        var a', b' := WriteRow(reg, a, src, fan).st, WriteRow(reg, b, src, fan).st;
        WriteStaysInside(reg, codec, a, system, target, mappings, row.payload, src);
        WriteStaysInside(reg, codec, b, system, target, mappings, row.payload, src);
        AgreeTwice(a, b, a', b', WriteSet(mappings));
        SameWrites(reg, codec, a', b', system, entity, target, mappings, rows[1..],
                   ra.(written := ra.written + 1, unresolved := ra.unresolved + |unresolved|),
                   rb.(written := rb.written + 1, unresolved := rb.unresolved + |unresolved|));
      }
    }
  }

  lemma AgreeTwice(a: State, b: State, a': State, b': State, written: set<string>)
    requires AgreeOutside(a, b, written) && AgreeOutside(a, a', written) && AgreeOutside(b, b', written)
    ensures AgreeOutside(a', b', written)
  {
  }

  /** A delete leaves alone a table in which the entity has no generated entry. */
  lemma DeleteStaysInside(reg: Registry, st: State, entity: string, target: string, written: set<string>)
    requires DeleteEntity(reg, st, entity, target).r.Ok?
    requires forall k | k in st.crosswalk && Of(k, entity, target) && Generated(reg, k.table) :: k.table in written
    ensures AgreeOutside(st, DeleteEntity(reg, st, entity, target).st, written)
  {
    var o := DeleteEntity(reg, st, entity, target).st;
    forall t | t !in written
      ensures Rows(st, t) == Rows(o, t) && SameEntries(st, o, t)
    {
      DeletesExactlyOwned(reg, st, entity, target, t);
      assert t !in OwnedTables(reg, st, entity, target);
    }
  }

  /** After a first refresh, the entity's generated entries lie in the tables the mappings write. */
  lemma EntriesInside(reg: Registry, first: State, last: State, entity: string, target: string, written: set<string>)
    requires EntriesFrom(reg, first, entity, target, []) && AgreeOutside(first, last, written)
    ensures forall k | k in last.crosswalk && Of(k, entity, target) && Generated(reg, k.table) :: k.table in written
  {
    forall k | k in last.crosswalk && Of(k, entity, target) && Generated(reg, k.table)
      ensures k.table in written
    {
      if k.table !in written {
        EntryThere(first, last, k, written);
      }
    }
  }

  lemma EntryThere(first: State, last: State, k: CrossKey, written: set<string>)
    requires AgreeOutside(first, last, written) && k in last.crosswalk && k.table !in written
    ensures k in first.crosswalk
  {
    assert Lookup(last, k) == Lookup(first, k);
  }

  /** When the references of the mappings lead outside the tables they write, the second of two
      refreshes performs the very writes of the first. */
  lemma SecondWritesSame(reg: Registry, codec: Codec, w: World, system: string, entity: string, target: string,
                         mappings: seq<Mapping>, rows: seq<SourceRow>)
    requires SchemaOk(reg) && Sound(reg, w) && NoDup(References(rows)) && RefersOutside(reg, mappings, WriteSet(mappings))
    requires RefreshEntity(reg, codec, w.st, system, entity, target, mappings, rows).r.Ok?
    requires RefreshEntity(reg, codec, After(reg, codec, w, system, entity, target, mappings, rows).0.st,
                           system, entity, target, mappings, rows).r.Ok?
    ensures var a := After(reg, codec, w, system, entity, target, mappings, rows);
            After(reg, codec, a.0, system, entity, target, mappings, rows).1 == a.1
  {
    var a := After(reg, codec, w, system, entity, target, mappings, rows);
    RefreshPlaces(reg, codec, w, system, entity, target, mappings, rows);
    var d1, d2 := DeleteEntity(reg, w.st, entity, target), DeleteEntity(reg, a.0.st, entity, target);
    var r1, r2 := Report(d1.r.value, 0, [], |rows|, 0), Report(d2.r.value, 0, [], |rows|, 0);
    RowsStayInside(reg, codec, d1.st, system, entity, target, mappings, rows, r1);
    DeleteForgets(reg, w.st, entity, target);
    EntriesInside(reg, d1.st, a.0.st, entity, target, WriteSet(mappings));
    DeleteStaysInside(reg, a.0.st, entity, target, WriteSet(mappings));
    AgreeTransitive(d1.st, a.0.st, d2.st, WriteSet(mappings));
    SameWrites(reg, codec, d1.st, d2.st, system, entity, target, mappings, rows, r1, r2);
  }

  /** Refresh twice with references that lead outside the tables written: the second refresh leaves,
      for each source row written, the rows of the first up to a renaming of generated ids, and again
      no other generated rows of the entity. */
  lemma RefreshTwiceIsOnce(reg: Registry, codec: Codec, w: World, system: string, entity: string, target: string,
                           mappings: seq<Mapping>, rows: seq<SourceRow>)
    requires SchemaOk(reg) && Sound(reg, w) && NoDup(References(rows)) && RefersOutside(reg, mappings, WriteSet(mappings))
    requires RefreshEntity(reg, codec, w.st, system, entity, target, mappings, rows).r.Ok?
    requires RefreshEntity(reg, codec, After(reg, codec, w, system, entity, target, mappings, rows).0.st,
                           system, entity, target, mappings, rows).r.Ok?
    ensures var a := After(reg, codec, w, system, entity, target, mappings, rows);
            var b := After(reg, codec, a.0, system, entity, target, mappings, rows);
            && b.1 == a.1
            && (forall i | 0 <= i < |a.1| :: a.1[i].Write? && SameRows(reg, a.0.st, b.0.st, a.1[i]))
            && EntriesFrom(reg, a.0.st, entity, target, a.1) && EntriesFrom(reg, b.0.st, entity, target, a.1)
  {
    SecondWritesSame(reg, codec, w, system, entity, target, mappings, rows);
    RefreshTwiceSame(reg, codec, w, system, entity, target, mappings, rows);
  }
}
