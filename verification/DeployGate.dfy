/** The coverage check a mapping must pass before it is deployed, and what passing it buys. */
module DeployGate {
  import opened Ordering
  import opened Outcomes
  import opened Dag
  import opened SchemaGraph
  import opened Store
  import opened Writer
  import opened Integrity
  import opened ByTable
  import opened Delivery
  import opened DeliveryIntegrity

  datatype TableCoverage = TableCoverage(
    table: string, present: bool, mapped: set<string>, unknownColumns: set<string>, requiredMissing: set<string>,
    systemHandled: set<string>)

  datatype Unsatisfiable = Unsatisfiable(table: string, column: string, refTable: string)

  datatype CoverageReport = CoverageReport(
    tables: seq<TableCoverage>, unknownTables: seq<string>, fkUnsatisfiable: seq<Unsatisfiable>)
  {
    /** Nothing blocks the deployment. */
    predicate IsOk()
    {
      && unknownTables == [] && fkUnsatisfiable == []
      && forall i | 0 <= i < |tables| :: tables[i].unknownColumns == {} && tables[i].requiredMissing == {}
    }
  }

  // ------------------------------------------------------------ what is asked

  function ColumnNames(reg: Registry, t: string): set<string>
    requires t in reg
  {
    set c | c in reg[t].columns :: c.name
  }

  /** Columns the writer or the allocator fills. */
  function SystemHandled(reg: Registry, t: string): set<string>
    requires t in reg
  {
    FkColumns(reg, t) + (if t in APP_ASSIGNED && Pk(reg, t).Some? then {Pk(reg, t).value} else {})
  }

  function MustSupply(reg: Registry, t: string): set<string>
    requires t in reg
  {
    RequiredColumns(reg, t) - SystemHandled(reg, t)
  }

  function WriteSet(mappings: seq<Mapping>): set<string>
  {
    set m | m in mappings && m.targetTable != "" :: m.targetTable
  }

  function MappedColumns(mappings: seq<Mapping>, t: string): set<string>
  {
    set m | m in mappings && m.targetTable == t && m.targetColumn != "" :: m.targetColumn
  }

  function FindColumn(columns: seq<Column>, name: string): Option<Column>
  {
    if columns == [] then None
    else if columns[0].name == name then Some(columns[0])
    else FindColumn(columns[1..], name)
  }

  /** The column wants a value and nothing the mapping or the schema does will give it one. */
  predicate Wanting(reg: Registry, t: string, fk: ForeignKey, mapped: set<string>, available: set<string>)
    requires t in reg
  {
    && fk.refTable != t && fk.column !in mapped
    && FindColumn(reg[t].columns, fk.column).Some?
    && !FindColumn(reg[t].columns, fk.column).value.nullable
    && !FindColumn(reg[t].columns, fk.column).value.hasDefault
    && fk.refTable !in available
  }

  predicate TableCovered(reg: Registry, mappings: seq<Mapping>, seeded: set<string>, t: string)
  {
    && t in reg
    && MappedColumns(mappings, t) <= ColumnNames(reg, t)
    && MustSupply(reg, t) <= MappedColumns(mappings, t)
    && forall fk | fk in reg[t].foreignKeys :: !Wanting(reg, t, fk, MappedColumns(mappings, t), WriteSet(mappings) + seeded)
  }

  /** The mapping can be deployed: every table written is covered. */
  predicate Deployable(reg: Registry, mappings: seq<Mapping>, seeded: set<string>)
  {
    forall t | t in WriteSet(mappings) :: TableCovered(reg, mappings, seeded, t)
  }

  // ------------------------------------------ and what that is, on the columns

  /** An engine asks for a value here: no null, no default, no generated number. */
  predicate Demands(c: Column)
  {
    !c.nullable && !c.hasDefault && !c.autoIncrement
  }

  /** An engine takes the row: every column that asks for a value has one. */
  predicate EngineAccepts(reg: Registry, t: string, row: Row)
    requires t in reg
  {
    forall c | c in reg[t].columns && Demands(c) :: c.name in row && row[c.name] != Null
  }

  /** The writer or the allocator gives this column its value: a foreign key, or the key of an app-assigned table. */
  ghost predicate FilledBySystem(reg: Registry, t: string, c: string)
    requires t in reg
  {
    || (exists f :: f in reg[t].foreignKeys && f.column == c)
    || (t == "station" && exists i :: 0 <= i < |reg[t].columns| && reg[t].columns[i].isPrimaryKey && reg[t].columns[i].name == c
                                      && forall j | 0 <= j < i :: !reg[t].columns[j].isPrimaryKey)
  }

  /** A mapping has to supply exactly the columns that ask for a value nobody else gives. */
  lemma MustSupplyIff(reg: Registry, t: string, c: string)
    requires t in reg
    ensures c in MustSupply(reg, t) <==> (exists col :: col in reg[t].columns && col.name == c && Demands(col)) && !FilledBySystem(reg, t, c)
  {
    FirstFlagged(reg[t].columns, c);
    if exists f :: f in reg[t].foreignKeys && f.column == c {
      assert c in FkColumns(reg, t);
    }
  }

  lemma SystemHandledIff(reg: Registry, t: string, c: string)
    requires t in reg
    ensures c in SystemHandled(reg, t) <==> FilledBySystem(reg, t, c)
  {
    FirstFlagged(reg[t].columns, c);
    if exists f :: f in reg[t].foreignKeys && f.column == c {
      assert c in FkColumns(reg, t);
    }
  }

  predicate Maps(mappings: seq<Mapping>, t: string, c: string)
  {
    exists m | m in mappings :: m.targetTable == t && m.targetColumn == c && c != ""
  }

  lemma {:induction false} FoundColumn(columns: seq<Column>, name: string)
    ensures FindColumn(columns, name).Some? <==> exists c :: c in columns && c.name == name
    ensures FindColumn(columns, name).Some? ==> FindColumn(columns, name).value in columns && FindColumn(columns, name).value.name == name
    decreases |columns|
  {
    if columns != [] {
      FoundColumn(columns[1..], name);
      assert forall c :: c in columns <==> c == columns[0] || c in columns[1..];
    }
  }

  lemma MapsIff(mappings: seq<Mapping>, t: string, c: string)
    ensures Maps(mappings, t, c) <==> c in MappedColumns(mappings, t)
  {
  }

  lemma CoveredIff(reg: Registry, mappings: seq<Mapping>, seeded: set<string>, t: string)
    requires ColumnsDistinct(reg) && t in reg
    ensures TableCovered(reg, mappings, seeded, t) <==>
      && (forall c | c in MappedColumns(mappings, t) :: exists col :: col in reg[t].columns && col.name == c)
      && (forall col | col in reg[t].columns && Demands(col) :: FilledBySystem(reg, t, col.name) || Maps(mappings, t, col.name))
      && (forall f, col | f in reg[t].foreignKeys && f.refTable != t && col in reg[t].columns
                          && col.name == f.column && !col.nullable && !col.hasDefault ::
            Maps(mappings, t, f.column) || f.refTable in seeded || f.refTable in WriteSet(mappings))
  {
    forall c ensures c in MappedColumns(mappings, t) <==> Maps(mappings, t, c) {
      MapsIff(mappings, t, c);
    }
    forall c ensures c in MustSupply(reg, t) <==> (exists col :: col in reg[t].columns && col.name == c && Demands(col)) && !FilledBySystem(reg, t, c) {
      MustSupplyIff(reg, t, c);
    }
    forall f | f in reg[t].foreignKeys
      ensures Wanting(reg, t, f, MappedColumns(mappings, t), WriteSet(mappings) + seeded) <==>
              f.refTable != t && f.column !in MappedColumns(mappings, t) && f.refTable !in WriteSet(mappings) + seeded
              && exists col :: col in reg[t].columns && col.name == f.column && !col.nullable && !col.hasDefault
    {
      FoundColumn(reg[t].columns, f.column);
    }
    SuppliedIff(reg, mappings, t);
    WantedIff(reg, mappings, seeded, t);
  }

  /** The part about columns. */
  lemma SuppliedIff(reg: Registry, mappings: seq<Mapping>, t: string)
    requires t in reg && forall c :: c in MappedColumns(mappings, t) <==> Maps(mappings, t, c)
    requires forall c :: c in MustSupply(reg, t) <==> (exists col :: col in reg[t].columns && col.name == c && Demands(col)) && !FilledBySystem(reg, t, c)
    ensures MustSupply(reg, t) <= MappedColumns(mappings, t) <==>
            forall col | col in reg[t].columns && Demands(col) :: FilledBySystem(reg, t, col.name) || Maps(mappings, t, col.name)
    ensures MappedColumns(mappings, t) <= ColumnNames(reg, t) <==>
            forall c | c in MappedColumns(mappings, t) :: exists col :: col in reg[t].columns && col.name == c
  {
  }

  /** The part about foreign keys. */
  lemma WantedIff(reg: Registry, mappings: seq<Mapping>, seeded: set<string>, t: string)
    requires t in reg && forall c :: c in MappedColumns(mappings, t) <==> Maps(mappings, t, c)
    requires forall f | f in reg[t].foreignKeys :: Wanting(reg, t, f, MappedColumns(mappings, t), WriteSet(mappings) + seeded) <==>
               f.refTable != t && f.column !in MappedColumns(mappings, t) && f.refTable !in WriteSet(mappings) + seeded
               && exists col :: col in reg[t].columns && col.name == f.column && !col.nullable && !col.hasDefault
    ensures (forall f | f in reg[t].foreignKeys :: !Wanting(reg, t, f, MappedColumns(mappings, t), WriteSet(mappings) + seeded)) <==>
            forall f, col | f in reg[t].foreignKeys && f.refTable != t && col in reg[t].columns
                            && col.name == f.column && !col.nullable && !col.hasDefault ::
              Maps(mappings, t, f.column) || f.refTable in seeded || f.refTable in WriteSet(mappings)
  {
  }

  /** What the gate asks of one written table. */
  ghost predicate TableOpen(reg: Registry, mappings: seq<Mapping>, seeded: set<string>, t: string)
  {
    && t in reg
    && (forall c | Maps(mappings, t, c) :: exists col :: col in reg[t].columns && col.name == c)
    && (forall col | col in reg[t].columns && Demands(col) :: FilledBySystem(reg, t, col.name) || Maps(mappings, t, col.name))
    && (forall f, col | f in reg[t].foreignKeys && f.refTable != t && col in reg[t].columns
                        && col.name == f.column && !col.nullable && !col.hasDefault ::
          Maps(mappings, t, f.column) || f.refTable in seeded || exists n :: n in mappings && n.targetTable == f.refTable && n.targetTable != "")
  }

  /** Every written table is known, and so are the columns mapped; every column that asks for a value is mapped
      or filled by the system; a foreign key onto another table that takes neither null nor default is
      mapped, or its table is written or seeded. */
  ghost predicate GateOpen(reg: Registry, mappings: seq<Mapping>, seeded: set<string>)
  {
    forall m | m in mappings && m.targetTable != "" :: TableOpen(reg, mappings, seeded, m.targetTable)
  }

  lemma TableOpenIff(reg: Registry, mappings: seq<Mapping>, seeded: set<string>, t: string)
    requires ColumnsDistinct(reg)
    ensures TableOpen(reg, mappings, seeded, t) <==> TableCovered(reg, mappings, seeded, t)
  {
    if t in reg {
      CoveredIff(reg, mappings, seeded, t);
      forall c ensures c in MappedColumns(mappings, t) <==> Maps(mappings, t, c) {
        MapsIff(mappings, t, c);
      }
      forall u ensures u in WriteSet(mappings) <==> exists n :: n in mappings && n.targetTable == u && n.targetTable != "" {
      }
    }
  }

  lemma DeployableIff(reg: Registry, mappings: seq<Mapping>, seeded: set<string>)
    requires ColumnsDistinct(reg)
    ensures Deployable(reg, mappings, seeded) <==> GateOpen(reg, mappings, seeded)
  {
    forall t
      ensures TableOpen(reg, mappings, seeded, t) <==> TableCovered(reg, mappings, seeded, t)
    {
      TableOpenIff(reg, mappings, seeded, t);
    }
    if GateOpen(reg, mappings, seeded) {
      forall t | t in WriteSet(mappings) ensures TableOpen(reg, mappings, seeded, t) {
        var m :| m in mappings && m.targetTable == t && t != "";
      }
    }
  }

  // -------------------------------------------------------------- the report

  /** The mappings of one table, in their order. */
  function GroupOf(mappings: seq<Mapping>, t: string): seq<Mapping>
  {
    if mappings == [] then []
    else
      var m := mappings[|mappings| - 1];
      GroupOf(mappings[..|mappings| - 1], t) + if m.targetTable == t then [m] else []
  }

  /** Where a table is first named; the length if it never is. */
  function FirstNamed(mappings: seq<Mapping>, t: string): (i: nat)
    ensures i <= |mappings|
    ensures i < |mappings| ==> mappings[i].targetTable == t
    ensures forall k | 0 <= k < i :: mappings[k].targetTable != t
  {
    if mappings == [] then 0
    else if mappings[0].targetTable == t then 0
    else FirstNamed(mappings[1..], t) + 1
  }

  lemma FirstNamedStays(before: seq<Mapping>, m: Mapping, t: string)
    ensures FirstNamed(before + [m], t) ==
            if FirstNamed(before, t) < |before| then FirstNamed(before, t)
            else if m.targetTable == t then |before| else |before| + 1
  {
    var all := before + [m];
    var i := FirstNamed(all, t);
    assert forall k | 0 <= k < |before| :: all[k] == before[k];
    assert all[|before|] == m;
  }

  /** The written tables, each once, in the order the mapping first names them. */
  ghost predicate InFirstOrder(mappings: seq<Mapping>, tables: seq<string>)
  {
    && (forall t :: t in tables <==> t in WriteSet(mappings))
    && forall i, j | 0 <= i < j < |tables| :: FirstNamed(mappings, tables[i]) < FirstNamed(mappings, tables[j])
  }

  lemma NamedSomewhere(mappings: seq<Mapping>, t: string)
    requires t in WriteSet(mappings)
    ensures FirstNamed(mappings, t) < |mappings|
  {
    var m :| m in mappings && m.targetTable != "" && m.targetTable == t;
    var k :| 0 <= k < |mappings| && mappings[k] == m;
  }

  /** Grouped so far: every table named, with its mappings in order. */
  ghost predicate Grouped(mappings: seq<Mapping>, tables: seq<string>, groups: map<string, seq<Mapping>>)
  {
    && InFirstOrder(mappings, tables) && groups.Keys == WriteSet(mappings)
    && forall t | t in groups :: groups[t] == GroupOf(mappings, t)
  }

  method GroupByTable(mappings: seq<Mapping>) returns (tables: seq<string>, groups: map<string, seq<Mapping>>)
    ensures InFirstOrder(mappings, tables) && groups.Keys == WriteSet(mappings)
    ensures forall t | t in groups :: groups[t] == GroupOf(mappings, t)
  {
    tables, groups := [], map[];
    ghost var done: seq<Mapping> := [];
    var i := 0;
    while i < |mappings|
      invariant 0 <= i <= |mappings| && done == mappings[..i]
      invariant Grouped(done, tables, groups)
    {
      var m := mappings[i];
      ghost var tables0, groups0 := tables, groups;
      if m.targetTable != "" {
        if m.targetTable !in groups {
          tables := tables + [m.targetTable];
        }
        groups := groups[m.targetTable := (if m.targetTable in groups then groups[m.targetTable] else []) + [m]];
      }
      GroupedNext(done, m, tables0, groups0, tables, groups);
      TakeNext(mappings, i);
      done := done + [m];
      i := i + 1;
    }
    assert done == mappings;
  }

  lemma GroupStep(before: seq<Mapping>, m: Mapping, t: string)
    ensures GroupOf(before + [m], t) == GroupOf(before, t) + if m.targetTable == t then [m] else []
    ensures WriteSet(before + [m]) == WriteSet(before) + if m.targetTable != "" then {m.targetTable} else {}
  {
    assert (before + [m])[..|before|] == before;
  }

  lemma {:induction false} GroupOfUnnamed(mappings: seq<Mapping>, t: string)
    requires t != "" && t !in WriteSet(mappings)
    ensures GroupOf(mappings, t) == []
  {
    if mappings != [] {
      var front := mappings[..|mappings| - 1];
      assert mappings == front + [mappings[|mappings| - 1]];
      GroupStep(front, mappings[|mappings| - 1], t);
      GroupOfUnnamed(front, t);
    }
  }

  lemma OrderNext(before: seq<Mapping>, m: Mapping, tables: seq<string>)
    requires InFirstOrder(before, tables)
    ensures InFirstOrder(before + [m],
              if m.targetTable != "" && m.targetTable !in WriteSet(before) then tables + [m.targetTable] else tables)
  {
    var first := m.targetTable != "" && m.targetTable !in WriteSet(before);
    var after := if first then tables + [m.targetTable] else tables;
    GroupStep(before, m, "");
    forall i, j | 0 <= i < j < |after|
      ensures FirstNamed(before + [m], after[i]) < FirstNamed(before + [m], after[j])
    {
      FirstNamedStays(before, m, after[i]);
      FirstNamedStays(before, m, after[j]);
      assert tables[i] in tables;
      NamedSomewhere(before, after[i]);
      if j < |tables| {
        assert tables[j] in tables;
        NamedSomewhere(before, after[j]);
      } else {
        assert after[j] == m.targetTable;
      }
    }
  }

  lemma GroupedNext(before: seq<Mapping>, m: Mapping, tables: seq<string>, groups: map<string, seq<Mapping>>,
                    tables': seq<string>, groups': map<string, seq<Mapping>>)
    requires Grouped(before, tables, groups)
    requires var t := m.targetTable;
             if t == "" then tables' == tables && groups' == groups
             else && tables' == (if t in groups then tables else tables + [t])
                  && groups' == groups[t := (if t in groups then groups[t] else []) + [m]]
    ensures Grouped(before + [m], tables', groups')
  {
    var t := m.targetTable;
    OrderNext(before, m, tables);
    GroupsNext(before, m, groups);
  }

  lemma GroupsNext(before: seq<Mapping>, m: Mapping, groups: map<string, seq<Mapping>>)
    requires groups.Keys == WriteSet(before) && forall u | u in groups :: groups[u] == GroupOf(before, u)
    ensures var t := m.targetTable;
            var after := if t == "" then groups else groups[t := (if t in groups then groups[t] else []) + [m]];
            after.Keys == WriteSet(before + [m]) && forall u | u in after :: after[u] == GroupOf(before + [m], u)
  {
    var t := m.targetTable;
    var after := if t == "" then groups else groups[t := (if t in groups then groups[t] else []) + [m]];
    GroupStep(before, m, t);
    forall u | u in after
      ensures after[u] == GroupOf(before + [m], u)
    {
      OneGroupNext(before, m, groups, u);
    }
  }

  lemma OneGroupNext(before: seq<Mapping>, m: Mapping, groups: map<string, seq<Mapping>>, u: string)
    requires u != "" && u in WriteSet(before + [m]) && groups.Keys == WriteSet(before)
    requires u in groups ==> groups[u] == GroupOf(before, u)
    ensures GroupOf(before + [m], u) == (if u in groups then groups[u] else []) + if u == m.targetTable then [m] else []
  {
    GroupStep(before, m, u);
    if u !in groups {
      GroupOfUnnamed(before, u);
    }
  }

  /** The columns a group of mappings names. */
  function ColumnsNamed(group: seq<Mapping>): set<string>
  {
    set m | m in group && m.targetColumn != "" :: m.targetColumn
  }

  lemma {:induction false} GroupMember(mappings: seq<Mapping>, t: string, m: Mapping)
    ensures m in GroupOf(mappings, t) <==> m in mappings && m.targetTable == t
  {
    if mappings != [] {
      var front, last := mappings[..|mappings| - 1], mappings[|mappings| - 1];
      assert mappings == front + [last];
      GroupMember(front, t, m);
    }
  }

  lemma GroupColumns(mappings: seq<Mapping>, t: string)
    ensures ColumnsNamed(GroupOf(mappings, t)) == MappedColumns(mappings, t)
  {
    forall m
      ensures m in GroupOf(mappings, t) <==> m in mappings && m.targetTable == t
    {
      GroupMember(mappings, t, m);
    }
  }

  /** What the report says of one table. */
  function EntryFor(reg: Registry, mappings: seq<Mapping>, t: string): TableCoverage
  {
    if t !in reg then TableCoverage(t, false, {}, {}, {}, {})
    else
      var mapped := MappedColumns(mappings, t);
      TableCoverage(t, true, mapped, mapped - ColumnNames(reg, t), MustSupply(reg, t) - mapped, SystemHandled(reg, t))
  }

  /** The foreign keys of one table nothing satisfies, in declaration order. */
  function WantingKeys(reg: Registry, t: string, fks: seq<ForeignKey>, mapped: set<string>, available: set<string>): seq<Unsatisfiable>
    requires t in reg
  {
    if fks == [] then []
    else
      var fk := fks[|fks| - 1];
      WantingKeys(reg, t, fks[..|fks| - 1], mapped, available)
      + if Wanting(reg, t, fk, mapped, available) then [Unsatisfiable(t, fk.column, fk.refTable)] else []
  }

  lemma {:induction false} WantingKeysEmpty(reg: Registry, t: string, fks: seq<ForeignKey>, mapped: set<string>, available: set<string>)
    requires t in reg
    ensures WantingKeys(reg, t, fks, mapped, available) == [] <==>
            forall fk | fk in fks :: !Wanting(reg, t, fk, mapped, available)
  {
    if fks != [] {
      var front, last := fks[..|fks| - 1], fks[|fks| - 1];
      assert fks == front + [last];
      WantingKeysEmpty(reg, t, front, mapped, available);
    }
  }

  function AllWanting(reg: Registry, mappings: seq<Mapping>, seeded: set<string>, tables: seq<string>): seq<Unsatisfiable>
  {
    if tables == [] then []
    else
      var t := tables[|tables| - 1];
      AllWanting(reg, mappings, seeded, tables[..|tables| - 1])
      + if t in reg then WantingKeys(reg, t, reg[t].foreignKeys, MappedColumns(mappings, t), WriteSet(mappings) + seeded)
        else []
  }

  function UnknownAmong(reg: Registry, tables: seq<string>): seq<string>
  {
    if tables == [] then []
    else
      var t := tables[|tables| - 1];
      UnknownAmong(reg, tables[..|tables| - 1]) + if t in reg then [] else [t]
  }

  /** The whole report for these tables: an entry for each in order, the unknown ones, and every
      foreign key nothing satisfies. */
  ghost predicate Reports(reg: Registry, mappings: seq<Mapping>, seeded: set<string>, tables: seq<string>, report: CoverageReport)
  {
    && |report.tables| == |tables| && (forall i | 0 <= i < |tables| :: report.tables[i] == EntryFor(reg, mappings, tables[i]))
    && report.unknownTables == UnknownAmong(reg, tables)
    && report.fkUnsatisfiable == AllWanting(reg, mappings, seeded, tables)
  }

  /** Assess whether the mapping can be deployed. */
  method Coverage(reg: Registry, mappings: seq<Mapping>, seeded: set<string>) returns (report: CoverageReport)
    ensures report.IsOk() <==> Deployable(reg, mappings, seeded)
    ensures ColumnsDistinct(reg) ==> (report.IsOk() <==> GateOpen(reg, mappings, seeded))
    ensures exists tables :: InFirstOrder(mappings, tables) && Reports(reg, mappings, seeded, tables, report)
  {
    var tables, groups := GroupByTable(mappings);
    report := CoverageReport([], [], []);
    var i := 0;
    while i < |tables|
      invariant 0 <= i <= |tables|
      invariant Reports(reg, mappings, seeded, tables[..i], report)
    {
      var t := tables[i];
      assert t in tables;
      assert tables[..i + 1] == tables[..i] + [t];
      if t !in reg {
        var missing := TableCoverage(t, false, {}, {}, {}, {});
        ReportStep(reg, mappings, seeded, tables[..i], report, t, missing, []);
        report := CoverageReport(report.tables + [missing], report.unknownTables + [t], report.fkUnsatisfiable + []);
      } else {
        GroupColumns(mappings, t);
        var mapped := ColumnsNamed(groups[t]);
        var tc := TableCoverage(t, true, mapped, mapped - ColumnNames(reg, t), MustSupply(reg, t) - mapped, SystemHandled(reg, t));
        var wanting := UnsatisfiableKeys(reg, t, mapped, groups.Keys + seeded);
        ReportStep(reg, mappings, seeded, tables[..i], report, t, tc, wanting);
        report := CoverageReport(report.tables + [tc], report.unknownTables + [], report.fkUnsatisfiable + wanting);
      }
      i := i + 1;
    }
    assert tables[..i] == tables;
    ReportTells(reg, mappings, seeded, tables, report);
    if ColumnsDistinct(reg) {
      DeployableIff(reg, mappings, seeded);
    }
  }

  lemma ReportStep(reg: Registry, mappings: seq<Mapping>, seeded: set<string>, tables: seq<string>, report: CoverageReport,
                   t: string, tc: TableCoverage, wanting: seq<Unsatisfiable>)
    requires Reports(reg, mappings, seeded, tables, report) && tc == EntryFor(reg, mappings, t)
    requires wanting == if t in reg then WantingKeys(reg, t, reg[t].foreignKeys, MappedColumns(mappings, t), WriteSet(mappings) + seeded)
                        else []
    ensures Reports(reg, mappings, seeded, tables + [t],
                    CoverageReport(report.tables + [tc], report.unknownTables + (if t in reg then [] else [t]),
                                   report.fkUnsatisfiable + wanting))
  {
    assert (tables + [t])[..|tables|] == tables;
  }

  lemma {:induction false} NothingUnknown(reg: Registry, tables: seq<string>)
    ensures UnknownAmong(reg, tables) == [] <==> forall t | t in tables :: t in reg
  {
    if tables != [] {
      var front, last := tables[..|tables| - 1], tables[|tables| - 1];
      assert tables == front + [last];
      NothingUnknown(reg, front);
    }
  }

  lemma {:induction false} NothingWanting(reg: Registry, mappings: seq<Mapping>, seeded: set<string>, tables: seq<string>)
    ensures AllWanting(reg, mappings, seeded, tables) == [] <==>
            forall t, fk | t in tables && t in reg && fk in reg[t].foreignKeys ::
              !Wanting(reg, t, fk, MappedColumns(mappings, t), WriteSet(mappings) + seeded)
  {
    if tables != [] {
      var front, last := tables[..|tables| - 1], tables[|tables| - 1];
      assert tables == front + [last];
      NothingWanting(reg, mappings, seeded, front);
      if last in reg {
        WantingKeysEmpty(reg, last, reg[last].foreignKeys, MappedColumns(mappings, last), WriteSet(mappings) + seeded);
      }
    }
  }

  lemma ReportTells(reg: Registry, mappings: seq<Mapping>, seeded: set<string>, tables: seq<string>, report: CoverageReport)
    requires InFirstOrder(mappings, tables) && Reports(reg, mappings, seeded, tables, report)
    ensures report.IsOk() <==> Deployable(reg, mappings, seeded)
  {
    NothingUnknown(reg, tables);
    NothingWanting(reg, mappings, seeded, tables);
    if report.IsOk() {
      forall t | t in WriteSet(mappings)
        ensures TableCovered(reg, mappings, seeded, t)
      {
        var i :| 0 <= i < |tables| && tables[i] == t;
        assert report.tables[i] == EntryFor(reg, mappings, t);
      }
    }
    if Deployable(reg, mappings, seeded) {
      forall i | 0 <= i < |tables|
        ensures report.tables[i].unknownColumns == {} && report.tables[i].requiredMissing == {}
      {
        assert tables[i] in tables;
        assert TableCovered(reg, mappings, seeded, tables[i]);
      }
      assert forall t | t in tables :: TableCovered(reg, mappings, seeded, t);
    }
  }

  method UnsatisfiableKeys(reg: Registry, t: string, mapped: set<string>, available: set<string>) returns (out: seq<Unsatisfiable>)
    requires t in reg
    ensures out == WantingKeys(reg, t, reg[t].foreignKeys, mapped, available)
  {
    out := [];
    var fks := reg[t].foreignKeys;
    var j := 0;
    while j < |fks|
      invariant 0 <= j <= |fks|
      invariant out == WantingKeys(reg, t, fks[..j], mapped, available)
    {
      var fk := fks[j];
      assert fks[..j + 1][..j] == fks[..j];
      j := j + 1;
      if fk.refTable == t {
        continue;
      }
      var column := FindColumn(reg[t].columns, fk.column);
      if fk.column in mapped {
        continue;
      }
      if column.None? || column.value.nullable || column.value.hasDefault {
        continue;
      }
      if fk.refTable !in available {
        out := out + [Unsatisfiable(t, fk.column, fk.refTable)];
      }
    }
    assert fks[..j] == fks;
  }

  // ------------------------------------------------------------ what it buys

  /** Every column that must have a value has one. */
  ghost predicate Complete(reg: Registry, t: string, row: Row)
    requires t in reg
  {
    forall c | c in RequiredColumns(reg, t) :: Get(row, c) != Null
  }

  /** Rows of `t` that were not there before are complete. */
  ghost predicate NewComplete(reg: Registry, before: State, after: State, t: string)
    requires t in reg
  {
    forall k | k in Rows(after, t) && k !in Rows(before, t) :: Complete(reg, t, Rows(after, t)[k])
  }

  /** The engine or the allocator, not the fan-out, gives this column its value. */
  predicate AssignedKey(reg: Registry, t: string, c: string)
    requires t in reg
  {
    t in APP_ASSIGNED && Pk(reg, t) == Some(c)
  }

  /** Some foreign key on the column takes its value from another table of the fan-out. */
  predicate HasParent(reg: Registry, fan: Fanout, t: string, c: string)
    requires t in reg
  {
    exists f | f in reg[t].foreignKeys :: f.column == c && f.refTable != t && f.refTable in fan
  }

  /** Each required foreign key has a value in the fan-out or a different table of it as parent. */
  predicate Fed(reg: Registry, fan: Fanout, t: string)
    requires t in reg && t in fan
  {
    forall c | c in RequiredColumns(reg, t) && c in FkColumns(reg, t) && !AssignedKey(reg, t, c) ::
      Get(fan[t], c) != Null || HasParent(reg, fan, t, c)
  }

  /** The fan-out carries every column the mapping must supply. */
  predicate Carries(reg: Registry, fan: Fanout, t: string)
    requires t in reg && t in fan
  {
    forall c | c in MustSupply(reg, t) :: Get(fan[t], c) != Null
  }

  ghost predicate Supplied(reg: Registry, fan: Fanout)
  {
    forall t | t in fan :: t in reg && Carries(reg, fan, t) && Fed(reg, fan, t)
  }

  lemma {:induction false} FillKeepsValues(t: string, fks: seq<ForeignKey>, values: Row, ids: TargetIds, c: string)
    requires Get(values, c) != Null
    ensures Get(ApplyForeignKeys(fks, t, values, ids), c) == Get(values, c)
    decreases |fks|
  {
    if fks != [] {
      FillKeepsValues(t, fks[1..], FillForeignKey(fks[0], t, values, ids), ids, c);
    }
  }

  lemma {:induction false} FillsFromParent(t: string, fks: seq<ForeignKey>, values: Row, ids: TargetIds, f: ForeignKey)
    requires f in fks && f.refTable != t && f.refTable in ids && forall p | p in ids :: ids[p] != Null
    ensures Get(ApplyForeignKeys(fks, t, values, ids), f.column) != Null
    decreases |fks|
  {
    var values' := FillForeignKey(fks[0], t, values, ids);
    if fks[0] == f {
      FillKeepsValues(t, fks[1..], values', ids, f.column);
    } else {
      FillsFromParent(t, fks[1..], values', ids, f);
    }
  }

  /** What a table is written with lacks at most the key it is about to be given. */
  lemma FilledIsComplete(reg: Registry, t: string, fan: Fanout, ids: TargetIds, done: set<string>, c: string)
    requires Supplied(reg, fan) && t in fan && ids.Keys == done && (forall p | p in ids :: ids[p] != Null)
    requires Up(GraphOf(reg), t) * fan.Keys <= done
    requires c in RequiredColumns(reg, t) && !AssignedKey(reg, t, c)
    ensures Get(ApplyForeignKeys(reg[t].foreignKeys, t, fan[t], ids), c) != Null
  {
    var fks := reg[t].foreignKeys;
    if Get(fan[t], c) != Null {
      FillKeepsValues(t, fks, fan[t], ids, c);
    } else {
      assert c !in MustSupply(reg, t);
      assert c in FkColumns(reg, t);
      var f :| f in fks && f.column == c && f.refTable != t && f.refTable in fan;
      RefTablesMember(fks, f.refTable);
      assert f.refTable in Up(GraphOf(reg), t) * fan.Keys;
      FillsFromParent(t, fks, fan[t], ids, f);
    }
  }

  /** A column no parent feeds stays as it was. */
  lemma {:induction false} UnfedStaysNull(t: string, fks: seq<ForeignKey>, values: Row, ids: TargetIds, c: string)
    requires Get(values, c) == Null && forall f | f in fks && f.column == c :: f.refTable == t || f.refTable !in ids
    ensures Get(ApplyForeignKeys(fks, t, values, ids), c) == Null
    decreases |fks|
  {
    if fks != [] {
      assert fks[0] in fks;
      UnfedStaysNull(t, fks[1..], FillForeignKey(fks[0], t, values, ids), ids, c);
    }
  }

  /** A filled column has a value exactly when the fan-out or a parent gives it one. */
  lemma FilledIff(reg: Registry, t: string, fan: Fanout, ids: TargetIds, c: string)
    requires t in reg && t in fan && ids.Keys == fan.Keys && forall p | p in ids :: ids[p] != Null
    ensures Get(Filled(reg, fan, ids, t), c) != Null <==> Get(fan[t], c) != Null || HasParent(reg, fan, t, c)
  {
    var fks := reg[t].foreignKeys;
    if Get(fan[t], c) != Null {
      FillKeepsValues(t, fks, fan[t], ids, c);
    } else if HasParent(reg, fan, t, c) {
      var f :| f in fks && f.column == c && f.refTable != t && f.refTable in fan;
      FillsFromParent(t, fks, fan[t], ids, f);
    } else {
      UnfedStaysNull(t, fks, fan[t], ids, c);
    }
  }

  lemma OnePartComplete(reg: Registry, sl: Slice, t: string, values: Row)
    requires t in reg && Null !in sl.rows
    requires forall c | c in RequiredColumns(reg, t) && !AssignedKey(reg, t, c) :: Get(values, c) != Null
    ensures var (sl', r) := SliceWrite(reg, sl, t, values);
            && Null !in sl'.rows && (r.Ok? ==> r.value != Null)
            && forall k | k in sl'.rows && k !in sl.rows :: Complete(reg, t, sl'.rows[k])
  {
  }

  lemma {:induction false} TablesComplete(reg: Registry, st0: State, st: State, src: Source, order: seq<string>,
                                          fan: Fanout, ids: TargetIds, done: set<string>, u: string)
    requires Midway(reg, order, fan, done) && Supplied(reg, fan) && KeysPresent(st) && u in reg
    requires ids.Keys == done && forall p | p in ids :: ids[p] != Null
    requires if u in order then Rows(st, u) == Rows(st0, u) else NewComplete(reg, st0, st, u)
    ensures NewComplete(reg, st0, WriteTables(reg, st, src, order, fan, ids).st, u)
    decreases |order|
  {
    if order != [] {
      var t := order[0];
      MidwayStep(reg, order, fan, done);
      var values := ApplyForeignKeys(reg[t].foreignKeys, t, fan[t], ids);
      forall c | c in RequiredColumns(reg, t) && !AssignedKey(reg, t, c)
        ensures Get(values, c) != Null
      {
        FilledIsComplete(reg, t, fan, ids, done, c);
      }
      var o := WriteOne(reg, st, src, t, values);
      StepComplete(reg, st0, st, src, t, values, u, order);
      if o.r.Ok? {
        TablesComplete(reg, st0, o.st, src, order[1..], fan, ids[t := o.r.value], done + {t}, u);
      }
    }
  }

  lemma StepComplete(reg: Registry, st0: State, st: State, src: Source, t: string, values: Row, u: string, order: seq<string>)
    requires t in reg && u in reg && KeysPresent(st) && NoDup(order) && order != [] && order[0] == t
    requires forall c | c in RequiredColumns(reg, t) && !AssignedKey(reg, t, c) :: Get(values, c) != Null
    requires if u in order then Rows(st, u) == Rows(st0, u) else NewComplete(reg, st0, st, u)
    ensures var o := WriteOne(reg, st, src, t, values);
            && KeysPresent(o.st) && (o.r.Ok? ==> o.r.value != Null)
            && (if u in order[1..] then Rows(o.st, u) == Rows(st0, u) else NewComplete(reg, st0, o.st, u))
  {
    var o := WriteOne(reg, st, src, t, values);
    WriteOneLocal(reg, st, src, t, values);
    OnePartComplete(reg, SliceOf(st, src, t), t, values);
    forall v
      ensures Null !in Rows(o.st, v)
    {
      assert Null !in Rows(st, v);
      if v != t {
        assert SliceOf(o.st, src, v) == SliceOf(st, src, v);
      }
    }
    assert order == [t] + order[1..];
    if u != t {
      assert SliceOf(o.st, src, u) == SliceOf(st, src, u);
    }
  }

  /** No table is unknown, and every row the write inserts, even one that fails later on,
      has a value in every required column. */
  lemma SuppliedInsertsComplete(reg: Registry, st: State, src: Source, fan: Fanout, u: string)
    requires Supplied(reg, fan) && KeysPresent(st) && u in reg
    ensures Unknown(reg, fan) == {}
    ensures NewComplete(reg, st, WriteRow(reg, st, src, fan).st, u)
  {
    if Order(reg, fan.Keys).Ok? {
      StartOrder(reg, fan);
      TablesComplete(reg, st, st, src, Order(reg, fan.Keys).value, fan, map[], {}, u);
    }
  }

  // ------------------------------------------------- from the gate to the write

  /** Resolving references loses no value and adds only tables the mapping names. */
  lemma {:induction false} ResolvingKeeps(reg: Registry, codec: Codec, st: State, system: string, target: string,
                                          payload: Payload, mappings: seq<Mapping>, fan: Fanout, unresolved: seq<Mapping>)
    requires ResolveCross(reg, codec, st, system, target, payload, mappings, fan, unresolved).Ok?
    ensures var fan' := ResolveCross(reg, codec, st, system, target, payload, mappings, fan, unresolved).value.0;
            && (forall t, c | t in fan && Get(fan[t], c) != Null :: t in fan' && Get(fan'[t], c) != Null)
            && fan.Keys <= fan'.Keys && (forall t | t in fan' :: t in fan || t in WriteSet(mappings))
    decreases |mappings|
  {
    if mappings != [] {
      var m := mappings[0];
      var rest := mappings[1..];
      assert mappings == [m] + rest;
      if m.targetTable == "" || m.targetColumn == "" || m.sourceColumn !in payload || m.targetTable !in reg
         || ForeignKeyOn(reg[m.targetTable].foreignKeys, m.targetColumn).None? || payload[m.sourceColumn] == Null {
        ResolvingKeeps(reg, codec, st, system, target, payload, rest, fan, unresolved);
      } else {
        var t := ForeignKeyOn(reg[m.targetTable].foreignKeys, m.targetColumn).value.refTable;
        var v := payload[m.sourceColumn];
        if Probed(codec, st, system, target, t, v) == {} || Hits(reg, codec, st, system, target, t, v) == {} {
          ResolvingKeeps(reg, codec, st, system, target, payload, rest, fan, unresolved + [m]);
        } else {
          var id := ProbeId(codec, st, system, target, t, v, Least(Hits(reg, codec, st, system, target, t, v)));
          assert id != Null;
          SettingKeeps(fan, m.targetTable, m.targetColumn, id);
          ResolvingKeeps(reg, codec, st, system, target, payload, rest, SetColumn(fan, m.targetTable, m.targetColumn, id), unresolved);
        }
      }
    }
  }

  lemma SettingKeeps(fan: Fanout, table: string, column: string, v: Value)
    requires v != Null
    ensures forall t, c | t in fan && Get(fan[t], c) != Null ::
              t in SetColumn(fan, table, column, v) && Get(SetColumn(fan, table, column, v)[t], c) != Null
    ensures forall t | t in SetColumn(fan, table, column, v) :: t in fan || t == table
  {
  }

  lemma {:induction false} BuiltTables(reg: Registry, codec: Codec, payload: Payload, mappings: seq<Mapping>,
                                       fan: Fanout, errors: seq<Mapping>)
    ensures forall t | t in BuildValues(reg, codec, payload, mappings, fan, errors).0 :: t in fan || t in WriteSet(mappings)
    decreases |mappings|
  {
    if mappings != [] {
      var m := mappings[0];
      var rest := mappings[1..];
      assert mappings == [m] + rest;
      if Skipped(reg, payload, m) {
        BuiltTables(reg, codec, payload, rest, fan, errors);
      } else {
        match codec.transform(m.transform, payload[m.sourceColumn])
        case None => BuiltTables(reg, codec, payload, rest, fan, errors + [m]);
        case Some(v) =>
          BuiltTables(reg, codec, payload, rest,
                      SetColumn(fan, m.targetTable, m.targetColumn, Fit(reg, codec, m.targetTable, m.targetColumn, v)), errors);
      }
    }
  }

  ghost predicate ColumnsDistinct(reg: Registry)
  {
    forall t, c, d | t in reg && c in reg[t].columns && d in reg[t].columns :: c.name == d.name ==> c == d
  }

  lemma {:induction false} AutoIsAColumn(columns: seq<Column>)
    requires AutoColumn(columns).Some?
    ensures exists c :: c in columns && c.autoIncrement && c.name == AutoColumn(columns).value
  {
    if !columns[0].autoIncrement {
      AutoIsAColumn(columns[1..]);
      var c :| c in columns[1..] && c.autoIncrement && c.name == AutoColumn(columns).value;
      assert c in columns;
    } else {
      assert columns[0] in columns;
    }
  }

  /** A column the mapping must supply is one a mapping may fill. */
  lemma MustSupplyIsFillable(reg: Registry, t: string, c: string)
    requires ColumnsDistinct(reg) && t in reg && c in MustSupply(reg, t)
    ensures c !in Managed(reg, t)
  {
    if Auto(reg, t) == Some(c) {
      AutoIsAColumn(reg[t].columns);
    }
  }

  /** The source row has every mapped column, and every mapping gives a value that is not null. */
  ghost predicate ValuesClean(reg: Registry, codec: Codec, payload: Payload, mappings: seq<Mapping>)
  {
    forall m | m in mappings && m.targetTable != "" && m.targetColumn != "" ::
      && m.sourceColumn in payload
      && (!Skipped(reg, payload, m) ==> ValueOf(reg, codec, payload, m).Some? && ValueOf(reg, codec, payload, m).value != Null)
  }

  lemma CoveredColumnSupplied(reg: Registry, codec: Codec, payload: Payload, mappings: seq<Mapping>, seeded: set<string>,
                              t: string, c: string)
    requires ColumnsDistinct(reg) && Deployable(reg, mappings, seeded) && ValuesClean(reg, codec, payload, mappings)
    requires t in WriteSet(mappings) && t in reg && c in MustSupply(reg, t)
    ensures var built := BuildValues(reg, codec, payload, mappings, map[], []).0;
            t in built && Get(built[t], c) != Null
  {
    assert TableCovered(reg, mappings, seeded, t);
    assert c in MappedColumns(mappings, t);
    var m :| m in mappings && m.targetTable == t && m.targetColumn == c && c != "";
    MustSupplyIsFillable(reg, t, c);
    var w :| w in mappings && w.targetTable != "" && w.targetTable == t;
    assert !Skipped(reg, payload, m);
    BuiltCoversMappings(reg, codec, payload, mappings, map[], []);
    assert ValueOf(reg, codec, payload, m).Some?;
    BuiltFromMappings(reg, codec, payload, mappings, map[], [], t, c);
  }

  /** The values an event is written with, references between entities resolved. */
  function Resolved(reg: Registry, codec: Codec, st: State, system: string, target: string, payload: Payload,
                    mappings: seq<Mapping>): Result<(Fanout, seq<Mapping>)>
  {
    ResolveCross(reg, codec, st, system, target, payload, mappings, BuildValues(reg, codec, payload, mappings, map[], []).0, [])
  }

  /** The gate's own part: no transform fails, no table is unknown, and the fan-out carries what
      mappings must supply. */
  lemma DeployableCarries(reg: Registry, codec: Codec, st: State, system: string, target: string, payload: Payload,
                          mappings: seq<Mapping>, seeded: set<string>)
    requires ColumnsDistinct(reg) && Deployable(reg, mappings, seeded) && ValuesClean(reg, codec, payload, mappings)
    requires Resolved(reg, codec, st, system, target, payload, mappings).Ok?
    ensures BuildValues(reg, codec, payload, mappings, map[], []).1 == []
    ensures var fan := Resolved(reg, codec, st, system, target, payload, mappings).value.0;
            forall t | t in fan :: t in reg && Carries(reg, fan, t)
  {
    var built := BuildValues(reg, codec, payload, mappings, map[], []).0;
    var fan := Resolved(reg, codec, st, system, target, payload, mappings).value.0;
    BuiltCoversMappings(reg, codec, payload, mappings, map[], []);
    BuiltTables(reg, codec, payload, mappings, map[], []);
    ResolvingKeeps(reg, codec, st, system, target, payload, mappings, built, []);
    forall t | t in fan
      ensures t in reg && forall c | c in MustSupply(reg, t) :: Get(fan[t], c) != Null
    {
      assert TableCovered(reg, mappings, seeded, t);
      forall c | c in MustSupply(reg, t)
        ensures Get(fan[t], c) != Null
      {
        CoveredColumnSupplied(reg, codec, payload, mappings, seeded, t, c);
      }
    }
  }

  /** If moreover each table of the fan-out is fed, no table is unknown and no row that lacks a
      required value is inserted, even by a write that fails later on. */
  lemma DeployableIsSafe(reg: Registry, codec: Codec, st: State, system: string, target: string, payload: Payload,
                         mappings: seq<Mapping>, seeded: set<string>, src: Source, u: string)
    requires ColumnsDistinct(reg) && KeysPresent(st) && u in reg
    requires Deployable(reg, mappings, seeded) && ValuesClean(reg, codec, payload, mappings)
    requires Resolved(reg, codec, st, system, target, payload, mappings).Ok?
    requires var fan := Resolved(reg, codec, st, system, target, payload, mappings).value.0;
             forall t | t in fan && t in reg :: Fed(reg, fan, t)
    ensures BuildValues(reg, codec, payload, mappings, map[], []).1 == []
    ensures var fan := Resolved(reg, codec, st, system, target, payload, mappings).value.0;
            Unknown(reg, fan) == {} && NewComplete(reg, st, WriteRow(reg, st, src, fan).st, u)
  {
    DeployableCarries(reg, codec, st, system, target, payload, mappings, seeded);
    SuppliedInsertsComplete(reg, st, src, Resolved(reg, codec, st, system, target, payload, mappings).value.0, u);
  }

  // ------------------------------------------------------------ and exactly when

  /** The write creates a row here: no live entry, and nothing to match. */
  predicate Inserts(reg: Registry, sl: Slice, t: string, values: Row)
    requires t in reg
  {
    && (sl.cross.Some? ==> sl.cross.value !in sl.rows)
    && if t in APP_ASSIGNED then ResolveReference(reg, sl.rows, t, values).Err? else !IsReference(reg, t)
  }

  /** Whether the row `t` was given, if one was created, has a value in every required column. */
  ghost predicate InsertedComplete(reg: Registry, st: State, src: Source, fan: Fanout, t: string)
    requires t in reg && t in fan && WriteRow(reg, st, src, fan).r.Ok?
  {
    var o := WriteRow(reg, st, src, fan);
    o.r.value.Keys == fan.Keys &&
    (Inserts(reg, SliceOf(st, src, t), t, Filled(reg, fan, o.r.value, t)) ==>
       o.r.value[t] in Rows(o.st, t) && Complete(reg, t, Rows(o.st, t)[o.r.value[t]]))
  }

  /** Whether `t`, if a row is created there, is fed. */
  ghost predicate InsertedFed(reg: Registry, st: State, src: Source, fan: Fanout, t: string)
    requires t in reg && t in fan && WriteRow(reg, st, src, fan).r.Ok?
  {
    var o := WriteRow(reg, st, src, fan);
    o.r.value.Keys == fan.Keys &&
    (Inserts(reg, SliceOf(st, src, t), t, Filled(reg, fan, o.r.value, t)) ==> Fed(reg, fan, t))
  }

  lemma InsertedRow(reg: Registry, sl: Slice, t: string, values: Row)
    requires t in reg && Inserts(reg, sl, t, values) && SliceWrite(reg, sl, t, values).1.Ok? && KeysOk(reg)
    ensures var (sl', r) := SliceWrite(reg, sl, t, values);
            && Pk(reg, t).Some? && r.value.Num? && r.value in sl'.rows
            && sl'.rows[r.value] == values[Pk(reg, t).value := r.value]
  {
  }

  lemma KeyNotRequired(reg: Registry, t: string)
    requires ColumnsDistinct(reg) && t in reg && Auto(reg, t).Some?
    ensures Auto(reg, t).value !in RequiredColumns(reg, t)
  {
    AutoIsAColumn(reg[t].columns);
  }

  /** For a write that goes through with what mappings must supply: the row a table is given is
      complete exactly when the table is fed. */
  lemma CompleteIffFed(reg: Registry, st: State, src: Source, fan: Fanout, t: string)
    requires SchemaOk(reg) && ColumnsDistinct(reg) && KeysPresent(st) && WriteRow(reg, st, src, fan).r.Ok?
    requires t in fan && t in reg && Carries(reg, fan, t)
    ensures InsertedComplete(reg, st, src, fan, t) <==> InsertedFed(reg, st, src, fan, t)
  {
    var o := WriteRow(reg, st, src, fan);
    WriteRowByTable(reg, st, src, fan);
    WriteIdsPresent(reg, st, src, fan);
    var values := Filled(reg, fan, o.r.value, t);
    if Inserts(reg, SliceOf(st, src, t), t, values) {
      InsertedRow(reg, SliceOf(st, src, t), t, values);
      assert Rows(o.st, t) == SliceOf(o.st, src, t).rows;
      FilledCompleteIff(reg, fan, o.r.value, t, o.r.value[t]);
    }
  }

  lemma FilledCompleteIff(reg: Registry, fan: Fanout, ids: TargetIds, t: string, id: Value)
    requires ColumnsDistinct(reg) && KeysOk(reg) && t in reg && t in fan && ids.Keys == fan.Keys
    requires id != Null && Pk(reg, t).Some? && (t in APP_ASSIGNED || Auto(reg, t).Some?)
    requires (forall p | p in ids :: ids[p] != Null) && Carries(reg, fan, t)
    requires t in APP_ASSIGNED ==> IsReference(reg, t)
    ensures Complete(reg, t, Filled(reg, fan, ids, t)[Pk(reg, t).value := id]) <==> Fed(reg, fan, t)
  {
    var row := Filled(reg, fan, ids, t)[Pk(reg, t).value := id];
    forall c | c in RequiredColumns(reg, t) && !AssignedKey(reg, t, c)
      ensures Get(row, c) != Null <==> Get(fan[t], c) != Null || HasParent(reg, fan, t, c)
      ensures c !in FkColumns(reg, t) ==> Get(fan[t], c) != Null
    {
      if t !in APP_ASSIGNED {
        KeyNotRequired(reg, t);
      }
      FilledIff(reg, t, fan, ids, c);
      if c !in FkColumns(reg, t) {
        assert c in MustSupply(reg, t);
      }
    }
  }

  /** A write that goes through hands out no null id. */
  lemma WriteIdsPresent(reg: Registry, st: State, src: Source, fan: Fanout)
    requires KeysPresent(st) && WriteRow(reg, st, src, fan).r.Ok?
    ensures var ids := WriteRow(reg, st, src, fan).r.value;
            ids.Keys == fan.Keys && forall t | t in ids :: ids[t] != Null
  {
    WriteRowByTable(reg, st, src, fan);
    var ids := WriteRow(reg, st, src, fan).r.value;
    forall t | t in fan
      ensures ids[t] != Null
    {
      assert t !in Unknown(reg, fan);
      PartIdPresent(reg, SliceOf(st, src, t), t, Filled(reg, fan, ids, t));
    }
  }

  lemma PartIdPresent(reg: Registry, sl: Slice, t: string, values: Row)
    requires t in reg && Null !in sl.rows && SliceWrite(reg, sl, t, values).1.Ok?
    ensures SliceWrite(reg, sl, t, values).1.value != Null
  {
  }

  /** The exact condition: for a deployable mapping with clean values and an event that is
      delivered, every row it inserts is complete if and only if every table it inserts into is
      fed: each required foreign key has a value once references are resolved, or a different
      table of the fan-out as parent. */
  lemma DeliveredCompleteIffFed(reg: Registry, codec: Codec, st: State, system: string, entity: string, target: string,
                                event: Event, mappings: seq<Mapping>, seeded: set<string>)
    requires SchemaOk(reg) && ColumnsDistinct(reg) && KeysPresent(st)
    requires Deployable(reg, mappings, seeded) && ValuesClean(reg, codec, event.payload, mappings)
    requires DeliverEvent(reg, codec, st, system, entity, target, event, mappings).r.Ok?
    requires DeliverEvent(reg, codec, st, system, entity, target, event, mappings).r.value.Delivered?
    ensures Resolved(reg, codec, st, system, target, event.payload, mappings).Ok?
    ensures var fan := Resolved(reg, codec, st, system, target, event.payload, mappings).value.0;
            var src := Source(system, entity, event.reference, target);
            && WriteRow(reg, st, src, fan).r.Ok? && (forall t | t in fan :: t in reg)
            && DeliverEvent(reg, codec, st, system, entity, target, event, mappings).st
               == Audited(WriteRow(reg, st, src, fan).st, event)
            && ((forall t | t in fan :: InsertedComplete(reg, st, src, fan, t))
                <==> (forall t | t in fan :: InsertedFed(reg, st, src, fan, t)))
  {
    DeployableCarries(reg, codec, st, system, target, event.payload, mappings, seeded);
    var fan := Resolved(reg, codec, st, system, target, event.payload, mappings).value.0;
    var src := Source(system, entity, event.reference, target);
    forall t | t in fan
      ensures InsertedComplete(reg, st, src, fan, t) <==> InsertedFed(reg, st, src, fan, t)
    {
      CompleteIffFed(reg, st, src, fan, t);
    }
  }

  // -------------------------------------------------- as an engine would see it

  /** Complete is what an engine that asks for values takes. */
  lemma CompleteIffAccepted(reg: Registry, t: string, row: Row)
    requires t in reg
    ensures Complete(reg, t, row) <==> EngineAccepts(reg, t, row)
  {
    if Complete(reg, t, row) {
      forall c | c in reg[t].columns && Demands(c)
        ensures c.name in row && row[c.name] != Null
      {
        assert c.name in RequiredColumns(reg, t);
      }
    }
  }

  /** Behind an open gate, with clean values and every table of the resolved fan-out fed, an engine takes every
      row a delivery inserts, even one that fails later on. */
  lemma OpenGateIsAccepted(reg: Registry, codec: Codec, st: State, system: string, target: string, payload: Payload,
                           mappings: seq<Mapping>, seeded: set<string>, src: Source, u: string, k: Value)
    requires ColumnsDistinct(reg) && KeysPresent(st) && u in reg
    requires GateOpen(reg, mappings, seeded) && ValuesClean(reg, codec, payload, mappings)
    requires Resolved(reg, codec, st, system, target, payload, mappings).Ok?
    requires var fan := Resolved(reg, codec, st, system, target, payload, mappings).value.0;
             && (forall t | t in fan && t in reg :: Fed(reg, fan, t))
             && k in Rows(WriteRow(reg, st, src, fan).st, u) && k !in Rows(st, u)
    ensures var fan := Resolved(reg, codec, st, system, target, payload, mappings).value.0;
            EngineAccepts(reg, u, Rows(WriteRow(reg, st, src, fan).st, u)[k])
  {
    var fan := Resolved(reg, codec, st, system, target, payload, mappings).value.0;
    DeployableIff(reg, mappings, seeded);
    DeployableIsSafe(reg, codec, st, system, target, payload, mappings, seeded, src, u);
    CompleteIffAccepted(reg, u, Rows(WriteRow(reg, st, src, fan).st, u)[k]);
  }

  /** Conversely, each column the report lists as missing is one nobody fills and without which an engine refuses the row. */
  lemma MissingIsRefused(reg: Registry, mappings: seq<Mapping>, t: string, c: string, row: Row)
    requires t in reg && c in EntryFor(reg, mappings, t).requiredMissing && (c in row ==> row[c] == Null)
    ensures !EngineAccepts(reg, t, row) && !FilledBySystem(reg, t, c) && !Maps(mappings, t, c)
  {
    MustSupplyIff(reg, t, c);
    MapsIff(mappings, t, c);
  }

  /** A table is fed when every foreign-key column that asks for a value, the allocated key excepted, has one in
      the fan-out or another of its tables as parent. */
  lemma FedIff(reg: Registry, fan: Fanout, t: string)
    requires t in reg && t in fan
    ensures Fed(reg, fan, t) <==>
            forall col | col in reg[t].columns && Demands(col) && (exists f :: f in reg[t].foreignKeys && f.column == col.name)
                         && !(t == "station" && Pk(reg, t) == Some(col.name)) ::
              || (col.name in fan[t] && fan[t][col.name] != Null)
              || exists f :: f in reg[t].foreignKeys && f.column == col.name && f.refTable != t && f.refTable in fan
  {
    assert APP_ASSIGNED == {"station"};
    forall col | col in reg[t].columns && Demands(col) && exists f :: f in reg[t].foreignKeys && f.column == col.name
      ensures col.name in RequiredColumns(reg, t) && col.name in FkColumns(reg, t)
    {
    }
    forall c | c in RequiredColumns(reg, t) && c in FkColumns(reg, t)
      ensures exists col :: col in reg[t].columns && col.name == c && Demands(col) && exists f :: f in reg[t].foreignKeys && f.column == c
    {
    }
  }

  // ------------------------------------------------------------------ the gaps

  /** What the gate accepts and the writer does not fill: a required foreign key whose parent is
      only seeded, one the source maps directly, and one onto its own table. */
  datatype Gap = SeededOnly | MappedKey | SelfReference

  const ID: Column := Column("id", "int", false, true, true, false)
  const NAME: Column := Column("name", "text", false, false, false, false)
  const PARENT_ID: Column := Column("parent_id", "int", false, false, false, false)

  function GapParent(g: Gap): string
  {
    if g == SelfReference then "child" else "parent"
  }

  function GapRegistry(g: Gap): Registry
  {
    map["child" := Table([ID, NAME, PARENT_ID], [ForeignKey("parent_id", GapParent(g), "id")]), "parent" := Table([ID], [])]
  }

  function GapMappings(g: Gap): seq<Mapping>
  {
    [Mapping("name", "child", "name", "none")] + if g == MappedKey then [Mapping("key", "child", "parent_id", "none")] else []
  }

  function GapSeeded(g: Gap): set<string>
  {
    if g == SeededOnly then {"parent"} else {}
  }

  function GapPayload(name: Value, key: Value): Payload
  {
    map["name" := name, "key" := key]
  }

  lemma GapSchema(g: Gap)
    ensures var reg := GapRegistry(g);
            && RequiredColumns(reg, "child") == {"name", "parent_id"} && FkColumns(reg, "child") == {"parent_id"}
            && Managed(reg, "child") == {"parent_id", "id"} && MustSupply(reg, "child") == {"name"}
            && ColumnNames(reg, "child") == {"id", "name", "parent_id"} && ColumnNames(reg, "parent") == {"id"}
  {
    var columns := [ID, NAME, PARENT_ID];
    assert ID in columns && NAME in columns && PARENT_ID in columns;
    var fk := ForeignKey("parent_id", GapParent(g), "id");
    assert fk in [fk];
    assert ID in [ID];
  }

  lemma GapKeys(g: Gap)
    ensures var reg := GapRegistry(g);
            && Auto(reg, "child") == Pk(reg, "child") == Some("id") && Auto(reg, "parent") == Pk(reg, "parent") == Some("id")
            && reg["child"].foreignKeys == [ForeignKey("parent_id", GapParent(g), "id")] && reg["parent"].foreignKeys == []
  {
  }

  lemma GapColumnsDistinct(g: Gap)
    ensures ColumnsDistinct(GapRegistry(g))
  {
  }

  lemma GapSchemaOk(g: Gap)
    ensures SchemaOk(GapRegistry(g))
  {
    var reg := GapRegistry(g);
    GapKeys(g);
    forall t, f | t in reg && f in reg[t].foreignKeys
      ensures f == ForeignKey("parent_id", GapParent(g), "id") && t == "child"
    {
    }
  }

  lemma GapDeployable(g: Gap)
    ensures Deployable(GapRegistry(g), GapMappings(g), GapSeeded(g))
  {
    GapSchema(g);
    var reg, mappings := GapRegistry(g), GapMappings(g);
    var first := Mapping("name", "child", "name", "none");
    assert mappings[0] == first && first in mappings;
    if g == MappedKey {
      assert mappings[1] in mappings;
    }
    assert WriteSet(mappings) == {"child"};
    assert "name" in MappedColumns(mappings, "child");
  }

  lemma GapClean(g: Gap, codec: Codec, name: Value, key: Value)
    requires name != Null && key != Null && forall v :: codec.transform("none", v) == Some(v)
    ensures ValuesClean(GapRegistry(g), codec, GapPayload(name, key), GapMappings(g))
  {
    GapSchema(g);
  }

  /** The fan-out of the gap: the name alone, under the child. */
  function GapFan(g: Gap, codec: Codec, name: Value): Fanout
  {
    map["child" := map["name" := Fit(GapRegistry(g), codec, "child", "name", name)]]
  }

  lemma GapBuilds(g: Gap, codec: Codec, name: Value, key: Value)
    requires forall v :: codec.transform("none", v) == Some(v)
    ensures BuildValues(GapRegistry(g), codec, GapPayload(name, key), GapMappings(g), map[], []) == (GapFan(g, codec, name), [])
  {
    GapSchema(g);
    var reg, payload, mappings := GapRegistry(g), GapPayload(name, key), GapMappings(g);
    assert !Skipped(reg, payload, mappings[0]);
    var fan := SetColumn(map[], "child", "name", Fit(reg, codec, "child", "name", name));
    assert fan == GapFan(g, codec, name);
    var rest := mappings[1..];
    if g == MappedKey {
      assert rest == [Mapping("key", "child", "parent_id", "none")];
      assert Skipped(reg, payload, rest[0]);
      assert rest[1..] == [];
    } else {
      assert rest == [];
    }
    assert BuildValues(reg, codec, payload, rest, fan, []) == (fan, []);
  }

  lemma GapResolves(g: Gap, codec: Codec, st: State, system: string, target: string, name: Value, key: Value)
    requires st.crosswalk == map[]
    ensures var r := ResolveCross(GapRegistry(g), codec, st, system, target, GapPayload(name, key), GapMappings(g), GapFan(g, codec, name), []);
            r.Ok? && r.value.0 == GapFan(g, codec, name)
  {
    var reg, payload, mappings, fan := GapRegistry(g), GapPayload(name, key), GapMappings(g), GapFan(g, codec, name);
    assert ForeignKeyOn(reg["child"].foreignKeys, "name").None?;
    var rest := mappings[1..];
    assert ResolveCross(reg, codec, st, system, target, payload, mappings, fan, [])
        == ResolveCross(reg, codec, st, system, target, payload, rest, fan, []);
    if g == MappedKey {
      MappedKeyResolves(codec, st, system, target, payload, fan);
    } else {
      assert rest == [];
    }
  }

  lemma MappedKeyResolves(codec: Codec, st: State, system: string, target: string, payload: Payload, fan: Fanout)
    requires st.crosswalk == map[]
    ensures var r := ResolveCross(GapRegistry(MappedKey), codec, st, system, target, payload, GapMappings(MappedKey)[1..], fan, []);
            r.Ok? && r.value.0 == fan
  {
    var rest := GapMappings(MappedKey)[1..];
    assert rest == [Mapping("key", "child", "parent_id", "none")] && rest[1..] == [];
    if "key" in payload {
      assert Probed(codec, st, system, target, "parent", payload["key"]) == {};
    }
  }

  /** A fan-out of one table with a generated key and no entry goes through. */
  lemma OneTableWrite(reg: Registry, st: State, src: Source, t: string, values: Row)
    requires t in reg && t !in APP_ASSIGNED && Auto(reg, t).Some? && CrossKey(src, t) !in st.crosswalk
    ensures WriteRow(reg, st, src, map[t := values]).r == Ok(map[t := Num(NextAuto(st, t))])
  {
    var fan: Fanout := map[t := values];
    var ids: TargetIds := map[t := Num(NextAuto(st, t))];
    var g := GraphOf(reg);
    assert fan.Keys == {t};
    assert Up(g, t) * {t} == {};
    assert Ready(g, {t}) == {t};
    assert {t} - {t} == {};
    assert Peel(g, {t}) == [t] + Peel(g, {});
    PeelLists(g, {t});
    assert Stuck(g, {t}) == {};
    assert Order(reg, fan.Keys).Ok?;
    assert Consistent(reg, st, src, fan, ids);
    ConsistentGoesThrough(reg, st, src, fan, ids);
  }

  lemma ConsistentGoesThrough(reg: Registry, st: State, src: Source, fan: Fanout, ids: TargetIds)
    requires Unknown(reg, fan) == {} && Order(reg, fan.Keys).Ok? && Consistent(reg, st, src, fan, ids)
    ensures WriteRow(reg, st, src, fan).r == Ok(ids)
  {
    WriteRowByTable(reg, st, src, fan);
  }

  /** Each gap passes the gate with clean values, is delivered, and leaves the required column of
      the row it inserts empty. */
  lemma GapsLeaveRequiredEmpty(g: Gap, codec: Codec, st: State, system: string, entity: string, target: string,
                               id: string, reference: string, operation: string, name: Value, key: Value)
    requires name != Null && key != Null && forall v :: codec.transform("none", v) == Some(v)
    requires st.crosswalk == map[]
    ensures var reg := GapRegistry(g);
            var event := Event(id, reference, operation, GapPayload(name, key));
            var o := DeliverEvent(reg, codec, st, system, entity, target, event, GapMappings(g));
            var child := Num(NextAuto(st, "child"));
            && SchemaOk(reg) && ColumnsDistinct(reg) && Deployable(reg, GapMappings(g), GapSeeded(g))
            && ValuesClean(reg, codec, event.payload, GapMappings(g))
            && o.r.Ok? && o.r.value.Delivered? && o.r.value.ids == map["child" := child]
            && child in Rows(o.st, "child") && "parent_id" in RequiredColumns(reg, "child")
            && Get(Rows(o.st, "child")[child], "parent_id") == Null
  {
    var reg, fan := GapRegistry(g), GapFan(g, codec, name);
    var src := Source(system, entity, reference, target);
    GapSchema(g);
    GapSchemaOk(g);
    GapColumnsDistinct(g);
    GapDeployable(g);
    GapClean(g, codec, name, key);
    GapBuilds(g, codec, name, key);
    GapResolves(g, codec, st, system, target, name, key);
    OneTableWrite(reg, st, src, "child", fan["child"]);
    GapRow(g, codec, st, src, name);
  }

  lemma GapRow(g: Gap, codec: Codec, st: State, src: Source, name: Value)
    requires CrossKey(src, "child") !in st.crosswalk
    requires WriteRow(GapRegistry(g), st, src, GapFan(g, codec, name)).r == Ok(map["child" := Num(NextAuto(st, "child"))])
    ensures var child := Num(NextAuto(st, "child"));
            var after := WriteRow(GapRegistry(g), st, src, GapFan(g, codec, name)).st;
            child in Rows(after, "child") && Get(Rows(after, "child")[child], "parent_id") == Null
  {
    var reg, fan := GapRegistry(g), GapFan(g, codec, name);
    assert Auto(reg, "child") == Some("id");
    UnfedRowStaysNull(reg, st, src, fan, "child", "parent_id");
  }

  /** A row inserted under a generated key is null where neither fan-out nor a parent in it gives a value. */
  lemma UnfedRowStaysNull(reg: Registry, st: State, src: Source, fan: Fanout, t: string, c: string)
    requires t in reg && t in fan && t !in APP_ASSIGNED && Auto(reg, t).Some? && Auto(reg, t).value != c
    requires CrossKey(src, t) !in st.crosswalk && WriteRow(reg, st, src, fan).r.Ok?
    requires Get(fan[t], c) == Null
    requires forall f | f in reg[t].foreignKeys && f.column == c :: f.refTable == t || f.refTable !in fan
    ensures var id := Num(NextAuto(st, t));
            var after := WriteRow(reg, st, src, fan).st;
            id in Rows(after, t) && Get(Rows(after, t)[id], c) == Null
  {
    WriteRowByTable(reg, st, src, fan);
    var o := WriteRow(reg, st, src, fan);
    UnfedStaysNull(t, reg[t].foreignKeys, fan[t], o.r.value, c);
    assert Rows(o.st, t) == SliceOf(o.st, src, t).rows;
  }
}
