/** The per-entity target contract built from live metadata rows. */
module SchemaContract {
  import opened Ordering
  import opened Outcomes

  /** One row of the engine's column catalogue. */
  datatype InfoRow = InfoRow(table: string, column: string, dataType: string, isNullable: string, columnKey: string)

  datatype ColumnDoc = ColumnDoc(name: string, dataType: string, nullable: bool, isPrimaryKey: bool)

  datatype TableDoc = TableDoc(name: string, columns: seq<ColumnDoc>)

  datatype Schema = Schema(system: string, tables: seq<TableDoc>)

  function UpperChar(c: char): char
  {
    if 'a' <= c <= 'z' then (c as int - 32) as char else c
  }

  function Upper(s: string): string
  {
    if s == "" then "" else [UpperChar(s[0])] + Upper(s[1..])
  }

  function Normalized(row: InfoRow, typeOf: string -> string): ColumnDoc
  {
    ColumnDoc(row.column, typeOf(row.dataType), Upper(row.isNullable) == "YES", Upper(row.columnKey) == "PRI")
  }

  /** The text in capitals or not: as the catalogue may spell a word. */
  predicate Spells(s: string, upper: string, lower: string)
  {
    |s| == |upper| == |lower| && forall i | 0 <= i < |s| :: s[i] == upper[i] || s[i] == lower[i]
  }

  lemma {:induction false} UpperIs(s: string)
    ensures |Upper(s)| == |s|
    ensures forall i | 0 <= i < |s| :: Upper(s)[i] == if 'a' <= s[i] <= 'z' then (s[i] as int - 32) as char else s[i]
    decreases |s|
  {
    if s != "" {
      UpperIs(s[1..]);
    }
  }

  lemma ReadsWord(s: string, upper: string, lower: string)
    requires (upper == "YES" && lower == "yes") || (upper == "PRI" && lower == "pri")
    ensures Upper(s) == upper <==> Spells(s, upper, lower)
  {
    UpperIs(s);
    if Upper(s) == upper {
      forall i | 0 <= i < |s| ensures s[i] == upper[i] || s[i] == lower[i] {
        assert Upper(s)[i] == upper[i];
      }
    }
    if Spells(s, upper, lower) {
      assert forall i | 0 <= i < |s| :: Upper(s)[i] == upper[i];
      assert Upper(s) == upper;
    }
  }

  /** What the contract says of a catalogue row: nulls are taken where it says yes, the key is where it says so. */
  predicate ReadsAs(row: InfoRow, typeOf: string -> string, d: ColumnDoc)
  {
    && d.name == row.column && d.dataType == typeOf(row.dataType)
    && d.nullable == Spells(row.isNullable, "YES", "yes") && d.isPrimaryKey == Spells(row.columnKey, "PRI", "pri")
  }

  lemma NormalizedReads(row: InfoRow, typeOf: string -> string, d: ColumnDoc)
    ensures d == Normalized(row, typeOf) <==> ReadsAs(row, typeOf, d)
  {
    ReadsWord(row.isNullable, "YES", "yes");
    ReadsWord(row.columnKey, "PRI", "pri");
  }

  /** A table's columns in the contract are exactly what its catalogue rows say. */
  lemma {:induction false} ColumnsAreRead(rows: seq<InfoRow>, typeOf: string -> string, t: string, d: ColumnDoc)
    ensures d in ColumnsOf(rows, typeOf, t) <==> exists row :: row in rows && row.table == t && ReadsAs(row, typeOf, d)
    decreases |rows|
  {
    if rows != [] {
      var front, last := rows[..|rows| - 1], rows[|rows| - 1];
      assert rows == front + [last];
      ColumnsAreRead(front, typeOf, t, d);
      NormalizedReads(last, typeOf, d);
      assert forall row :: row in rows <==> row in front || row == last;
    }
  }

  /** The columns of one table, in row order. */
  function ColumnsOf(rows: seq<InfoRow>, typeOf: string -> string, t: string): seq<ColumnDoc>
  {
    if rows == [] then []
    else
      var last := rows[|rows| - 1];
      ColumnsOf(rows[..|rows| - 1], typeOf, t) + if last.table == t then [Normalized(last, typeOf)] else []
  }

  function TableNames(rows: seq<InfoRow>): set<string>
  {
    set r | r in rows :: r.table
  }

  function Names(tables: seq<TableDoc>): seq<string>
  {
    if tables == [] then [] else [tables[0].name] + Names(tables[1..])
  }

  /** The document for the named tables: those with rows, sorted by name, each with its columns. */
  ghost predicate Documents(rows: seq<InfoRow>, typeOf: string -> string, names: set<string>, tables: seq<TableDoc>)
  {
    Sorted(Names(tables), names) && forall d | d in tables :: d.columns == ColumnsOf(rows, typeOf, d.name)
  }

  lemma {:induction false} NamesAppend(a: seq<TableDoc>, d: TableDoc)
    ensures Names(a + [d]) == Names(a) + [d.name]
    decreases |a|
  {
    if a == [] {
      assert a + [d] == [d];
    } else {
      assert (a + [d])[1..] == a[1..] + [d];
      NamesAppend(a[1..], d);
    }
  }

  // ------------------------------------------------------------ as it is built

  /** Each table's columns, in row order. */
  ghost predicate Grouped(rows: seq<InfoRow>, typeOf: string -> string, grouped: map<string, seq<ColumnDoc>>)
  {
    && grouped.Keys == TableNames(rows)
    && forall t :: ColumnsOf(rows, typeOf, t) == if t in grouped then grouped[t] else []
  }

  lemma ColumnsGrow(rows: seq<InfoRow>, row: InfoRow, typeOf: string -> string, t: string)
    ensures ColumnsOf(rows + [row], typeOf, t)
         == ColumnsOf(rows, typeOf, t) + if row.table == t then [Normalized(row, typeOf)] else []
  {
    assert (rows + [row])[..|rows|] == rows;
  }

  lemma NamesGrow(rows: seq<InfoRow>, row: InfoRow)
    ensures TableNames(rows + [row]) == TableNames(rows) + {row.table}
  {
  }

  lemma GroupOf(rows: seq<InfoRow>, row: InfoRow, typeOf: string -> string, grouped: map<string, seq<ColumnDoc>>, t: string)
    requires Grouped(rows, typeOf, grouped)
    ensures ColumnsOf(rows + [row], typeOf, t)
         == (if t in grouped then grouped[t] else []) + if row.table == t then [Normalized(row, typeOf)] else []
  {
    ColumnsGrow(rows, row, typeOf, t);
  }

  lemma GroupedStep(rows: seq<InfoRow>, row: InfoRow, typeOf: string -> string, grouped: map<string, seq<ColumnDoc>>)
    requires Grouped(rows, typeOf, grouped)
    ensures var before := if row.table in grouped then grouped[row.table] else [];
            Grouped(rows + [row], typeOf, grouped[row.table := before + [Normalized(row, typeOf)]])
  {
    forall t
      ensures ColumnsOf(rows + [row], typeOf, t)
           == (if t in grouped then grouped[t] else []) + if row.table == t then [Normalized(row, typeOf)] else []
    {
      GroupOf(rows, row, typeOf, grouped, t);
    }
    NamesGrow(rows, row);
    GroupedWith(rows, row, typeOf, grouped, Normalized(row, typeOf));
  }

  lemma GroupedWith(rows: seq<InfoRow>, row: InfoRow, typeOf: string -> string, grouped: map<string, seq<ColumnDoc>>, d: ColumnDoc)
    requires grouped.Keys == TableNames(rows) && TableNames(rows + [row]) == TableNames(rows) + {row.table}
    requires forall t :: ColumnsOf(rows + [row], typeOf, t) == (if t in grouped then grouped[t] else []) + if row.table == t then [d] else []
    ensures var before := if row.table in grouped then grouped[row.table] else [];
            Grouped(rows + [row], typeOf, grouped[row.table := before + [d]])
  {
    var before := if row.table in grouped then grouped[row.table] else [];
    var after := grouped[row.table := before + [d]];
    forall t
      ensures ColumnsOf(rows + [row], typeOf, t) == if t in after then after[t] else []
    {
      if t != row.table && t in grouped { assert grouped[t] + [] == grouped[t]; }
    }
  }

  /** The first loop: group the rows by table. */
  method GroupRows(rows: seq<InfoRow>, typeOf: string -> string) returns (grouped: map<string, seq<ColumnDoc>>)
    ensures grouped.Keys == TableNames(rows)
    ensures forall t | t in grouped :: grouped[t] == ColumnsOf(rows, typeOf, t)
  {
    grouped := map[];
    var i := 0;
    while i < |rows|
      invariant 0 <= i <= |rows|
      invariant Grouped(rows[..i], typeOf, grouped)
    {
      var row := rows[i];
      GroupedStep(rows[..i], row, typeOf, grouped);
      TakeNext(rows, i);
      grouped := grouped[row.table := (if row.table in grouped then grouped[row.table] else []) + [Normalized(row, typeOf)]];
      i := i + 1;
    }
    assert rows[..i] == rows;
  }

  method FromInformationSchema(rows: seq<InfoRow>, typeOf: string -> string, system: string) returns (schema: Schema)
    ensures schema.system == system && Documents(rows, typeOf, TableNames(rows), schema.tables)
    ensures forall table, d | table in schema.tables ::
              d in table.columns <==> exists row :: row in rows && row.table == table.name && ReadsAs(row, typeOf, d)
  {
    var grouped := GroupRows(rows, typeOf);
    var names := SortNames(grouped.Keys);
    var tables: seq<TableDoc> := [];
    var j := 0;
    while j < |names|
      invariant 0 <= j <= |names|
      invariant Names(tables) == names[..j]
      invariant forall d | d in tables :: d.columns == ColumnsOf(rows, typeOf, d.name)
    {
      TakeNext(names, j);
      NamesAppend(tables, TableDoc(names[j], grouped[names[j]]));
      tables := tables + [TableDoc(names[j], grouped[names[j]])];
      j := j + 1;
    }
    assert names[..j] == names;
    schema := Schema(system, tables);
    forall table, d | table in tables
      ensures d in table.columns <==> exists row :: row in rows && row.table == table.name && ReadsAs(row, typeOf, d)
    {
      ColumnsAreRead(rows, typeOf, table.name, d);
    }
  }

  /** The documents of the wanted tables, in the same order. */
  function Kept(tables: seq<TableDoc>, wanted: set<string>): seq<TableDoc>
  {
    if tables == [] then []
    else
      var last := tables[|tables| - 1];
      Kept(tables[..|tables| - 1], wanted) + if last.name in wanted then [last] else []
  }

  /** Only the wanted tables, whatever their order and however often one is named. */
  method SchemaSubset(schema: Schema, wanted: set<string>) returns (subset: Schema)
    ensures subset == Schema(schema.system, Kept(schema.tables, wanted))
  {
    var tables: seq<TableDoc> := [];
    var i := 0;
    while i < |schema.tables|
      invariant 0 <= i <= |schema.tables|
      invariant tables == Kept(schema.tables[..i], wanted)
    {
      var d := schema.tables[i];
      KeptGrows(schema.tables[..i], d, wanted);
      TakeNext(schema.tables, i);
      if d.name in wanted {
        tables := tables + [d];
      }
      i := i + 1;
    }
    assert schema.tables[..i] == schema.tables;
    subset := Schema(schema.system, tables);
  }

  lemma KeptGrows(tables: seq<TableDoc>, d: TableDoc, wanted: set<string>)
    ensures Kept(tables + [d], wanted) == Kept(tables, wanted) + if d.name in wanted then [d] else []
  {
    assert (tables + [d])[..|tables|] == tables;
  }

  /** A document is kept exactly if it was there and is wanted; kept ones stay in their order. */
  lemma {:induction false} KeptMember(tables: seq<TableDoc>, wanted: set<string>, d: TableDoc)
    ensures d in Kept(tables, wanted) <==> d in tables && d.name in wanted
    decreases |tables|
  {
    if tables != [] {
      var front := tables[..|tables| - 1];
      assert tables == front + [tables[|tables| - 1]];
      KeptMember(front, wanted, d);
    }
  }

  lemma {:induction false} KeptSorted(tables: seq<TableDoc>, names: set<string>, wanted: set<string>)
    requires Sorted(Names(tables), names)
    ensures Sorted(Names(Kept(tables, wanted)), names * wanted)
    decreases |tables|
  {
    if tables == [] {
      assert names == {} && names * wanted == {};
    } else {
      var front, d := tables[..|tables| - 1], tables[|tables| - 1];
      assert tables == front + [d];
      NamesAppend(front, d);
      FrontSorted(Names(front), d.name, names);
      NamesBefore(tables, names, |front|);
      KeptSorted(front, names - {d.name}, wanted);
      if d.name in wanted {
        NamesAppend(Kept(front, wanted), d);
        AppendSorted(Names(Kept(front, wanted)), (names - {d.name}) * wanted, d.name);
        assert d.name in Elements(Names(front) + [d.name]);
        assert names * wanted == (names - {d.name}) * wanted + {d.name};
        assert Kept(tables, wanted) == Kept(front, wanted) + [d];
      } else {
        assert names * wanted == (names - {d.name}) * wanted;
        assert Kept(tables, wanted) == Kept(front, wanted);
      }
    }
  }

  lemma {:induction false} NamesSlice(tables: seq<TableDoc>, i: nat)
    requires i <= |tables|
    ensures |Names(tables)| == |tables| && Names(tables[..i]) == Names(tables)[..i]
    ensures i < |tables| ==> Names(tables)[i] == tables[i].name
    decreases |tables|
  {
    if tables != [] {
      if i > 0 {
        assert tables[..i][1..] == tables[1..][..i - 1];
        NamesSlice(tables[1..], i - 1);
      } else {
        NamesSlice(tables[1..], 0);
      }
    }
  }

  lemma NamesBefore(tables: seq<TableDoc>, names: set<string>, i: nat)
    requires Sorted(Names(tables), names) && i < |tables|
    ensures forall x | x in Elements(Names(tables[..i])) :: Less(x, tables[i].name)
  {
    NamesSlice(tables, i);
  }

  /** The one construction both the deployment and the monitor call. */
  method EntityTargetContract(rows: seq<InfoRow>, typeOf: string -> string, wanted: set<string>, system: string,
                              fingerprint: Schema -> string) returns (contract: Schema, hash: Option<string>)
    ensures contract.system == system && Documents(rows, typeOf, TableNames(rows) * wanted, contract.tables)
    ensures hash == if contract.tables == [] then None else Some(fingerprint(contract))
  {
    var observed := FromInformationSchema(rows, typeOf, system);
    contract := SchemaSubset(observed, wanted);
    KeptSorted(observed.tables, TableNames(rows), wanted);
    forall d | d in contract.tables
      ensures d in observed.tables
    {
      KeptMember(observed.tables, wanted, d);
    }
    hash := if contract.tables == [] then None else Some(fingerprint(contract));
  }

  // ------------------------------------------------------ what it depends on

  lemma {:induction false} NamedIffColumns(rows: seq<InfoRow>, typeOf: string -> string, t: string)
    ensures t in TableNames(rows) <==> ColumnsOf(rows, typeOf, t) != []
    decreases |rows|
  {
    if rows != [] {
      var rest := rows[..|rows| - 1];
      assert rows == rest + [rows[|rows| - 1]];
      NamedIffColumns(rest, typeOf, t);
    }
  }

  /** Same names in the same order with the same columns: the same document. */
  lemma {:induction false} SameDocuments(a: seq<TableDoc>, b: seq<TableDoc>)
    requires Names(a) == Names(b)
    requires forall d, e | d in a && e in b && d.name == e.name :: d.columns == e.columns
    ensures a == b
    decreases |a|
  {
    if a == [] {
      NamesSlice(b, 0);
    } else {
      NamesSlice(a, 0);
      NamesSlice(b, 0);
      assert b != [] && a[0] in a && b[0] in b;
      assert Names(a)[1..] == Names(a[1..]) && Names(b)[1..] == Names(b[1..]);
      SameDocuments(a[1..], b[1..]);
      assert a == [a[0]] + a[1..] && b == [b[0]] + b[1..];
    }
  }

  lemma DocumentOf(rows: seq<InfoRow>, typeOf: string -> string, names: set<string>, tables: seq<TableDoc>, t: string) returns (d: TableDoc)
    requires Documents(rows, typeOf, names, tables) && t in names
    ensures d in tables && d.name == t && d.columns == ColumnsOf(rows, typeOf, t)
  {
    assert t in Elements(Names(tables));
    var i :| 0 <= i < |Names(tables)| && Names(tables)[i] == t;
    NamesSlice(tables, 0);
    NamesSlice(tables, i);
    d := tables[i];
  }

  lemma NamedDocument(rows: seq<InfoRow>, typeOf: string -> string, names: set<string>, tables: seq<TableDoc>, d: TableDoc)
    requires Documents(rows, typeOf, names, tables) && d in tables
    ensures d.name in names
  {
    var i :| 0 <= i < |tables| && tables[i] == d;
    NamesSlice(tables, i);
    assert d.name in Elements(Names(tables));
  }

  /** Two states of the catalogue give an entity the same contract exactly when each table of
      its footprint has the same columns in the same order: nothing outside the footprint, and
      no interleaving of different tables' rows, can change it. */
  lemma ContractDependsOnFootprint(a: seq<InfoRow>, b: seq<InfoRow>, typeOf: string -> string, wanted: set<string>,
                                   left: seq<TableDoc>, right: seq<TableDoc>)
    requires Documents(a, typeOf, TableNames(a) * wanted, left)
    requires Documents(b, typeOf, TableNames(b) * wanted, right)
    ensures left == right <==> forall t | t in wanted :: ColumnsOf(a, typeOf, t) == ColumnsOf(b, typeOf, t)
  {
    if left == right {
      forall t | t in wanted
        ensures ColumnsOf(a, typeOf, t) == ColumnsOf(b, typeOf, t)
      {
        SameColumns(a, b, typeOf, wanted, left, t);
      }
    } else if forall t | t in wanted :: ColumnsOf(a, typeOf, t) == ColumnsOf(b, typeOf, t) {
      forall t
        ensures t in TableNames(a) * wanted <==> t in TableNames(b) * wanted
      {
        NamedIffColumns(a, typeOf, t);
        NamedIffColumns(b, typeOf, t);
      }
      assert TableNames(a) * wanted == TableNames(b) * wanted;
      SortedUnique(Names(left), Names(right), TableNames(a) * wanted);
      forall d, e | d in left && e in right && d.name == e.name
        ensures d.columns == e.columns
      {
        NamedDocument(a, typeOf, TableNames(a) * wanted, left, d);
      }
      SameDocuments(left, right);
    }
  }

  lemma SameColumns(a: seq<InfoRow>, b: seq<InfoRow>, typeOf: string -> string, wanted: set<string>, tables: seq<TableDoc>, t: string)
    requires Documents(a, typeOf, TableNames(a) * wanted, tables) && Documents(b, typeOf, TableNames(b) * wanted, tables)
    requires t in wanted
    ensures ColumnsOf(a, typeOf, t) == ColumnsOf(b, typeOf, t)
  {
    NamedIffColumns(a, typeOf, t);
    NamedIffColumns(b, typeOf, t);
    assert TableNames(a) * wanted == Elements(Names(tables)) == TableNames(b) * wanted;
    if t in TableNames(a) * wanted {
      var d := DocumentOf(a, typeOf, TableNames(a) * wanted, tables, t);
    } else {
      assert t !in TableNames(b) * wanted;
    }
  }

  lemma {:induction false} ColumnsConcat(a: seq<InfoRow>, b: seq<InfoRow>, typeOf: string -> string, t: string)
    ensures ColumnsOf(a + b, typeOf, t) == ColumnsOf(a, typeOf, t) + ColumnsOf(b, typeOf, t)
    decreases |b|
  {
    if b == [] {
      assert a + b == a;
    } else {
      var rest := b[..|b| - 1];
      assert (a + b)[..|a + b| - 1] == a + rest;
      ColumnsConcat(a, rest, typeOf, t);
    }
  }

  /** Exchanging neighbouring rows of different tables changes no table's columns. */
  lemma ExchangeKeepsColumns(a: seq<InfoRow>, x: InfoRow, y: InfoRow, b: seq<InfoRow>, typeOf: string -> string, t: string)
    requires x.table != y.table
    ensures ColumnsOf(a + [x, y] + b, typeOf, t) == ColumnsOf(a + [y, x] + b, typeOf, t)
  {
    ColumnsConcat(a + [x, y], b, typeOf, t);
    ColumnsConcat(a + [y, x], b, typeOf, t);
    ColumnsConcat(a, [x, y], typeOf, t);
    ColumnsConcat(a, [y, x], typeOf, t);
    assert [x, y][..1] == [x] && [y, x][..1] == [y];
    assert [x][..0] == [] && [y][..0] == [];
  }

  /** The rows of the wanted tables. */
  function Inside(rows: seq<InfoRow>, wanted: set<string>): seq<InfoRow>
  {
    if rows == [] then []
    else
      var last := rows[|rows| - 1];
      Inside(rows[..|rows| - 1], wanted) + if last.table in wanted then [last] else []
  }

  lemma {:induction false} InsideColumns(rows: seq<InfoRow>, wanted: set<string>, typeOf: string -> string, t: string)
    requires t in wanted
    ensures ColumnsOf(Inside(rows, wanted), typeOf, t) == ColumnsOf(rows, typeOf, t)
    decreases |rows|
  {
    if rows != [] {
      var front, last := rows[..|rows| - 1], rows[|rows| - 1];
      InsideColumns(front, wanted, typeOf, t);
      assert rows == front + [last];
      ColumnsGrow(front, last, typeOf, t);
      if last.table in wanted {
        ColumnsGrow(Inside(front, wanted), last, typeOf, t);
        assert Inside(rows, wanted) == Inside(front, wanted) + [last];
      } else {
        assert Inside(rows, wanted) == Inside(front, wanted);
      }
    }
  }

  /** Rows of tables outside the footprint may come, go and move without changing the entity's contract:
      catalogues with the same rows inside it, in the same order, give the same one. */
  lemma OutsideRowsIgnored(a: seq<InfoRow>, b: seq<InfoRow>, typeOf: string -> string, wanted: set<string>,
                           left: seq<TableDoc>, right: seq<TableDoc>)
    requires Documents(a, typeOf, TableNames(a) * wanted, left) && Documents(b, typeOf, TableNames(b) * wanted, right)
    requires Inside(a, wanted) == Inside(b, wanted)
    ensures left == right
  {
    forall t | t in wanted
      ensures ColumnsOf(a, typeOf, t) == ColumnsOf(b, typeOf, t)
    {
      InsideColumns(a, wanted, typeOf, t);
      InsideColumns(b, wanted, typeOf, t);
    }
    ContractDependsOnFootprint(a, b, typeOf, wanted, left, right);
  }
}
