/** Schema comparison as a compatibility judgement. */
module SchemaDrift {
  import opened Ordering

  /** The attributes of a column that are compared. */
  datatype Attributes = Attributes(dataType: string, nullable: bool, isPrimaryKey: bool)

  datatype NamedColumn = NamedColumn(name: string, attributes: Attributes)

  datatype NamedTable = NamedTable(name: string, columns: seq<NamedColumn>)

  type ColumnMap = map<string, Attributes>

  /** A schema as the comparison sees it: by name, the last of equal names winning. */
  type Contract = map<string, ColumnMap>

  datatype Kind = TableAdded | TableRemoved | ColumnAdded | ColumnRemoved | ColumnChanged

  datatype Difference = Difference(kind: Kind, table: string, column: string, breaking: bool)

  function ColumnsByName(columns: seq<NamedColumn>): ColumnMap
  {
    if columns == [] then map[]
    else ColumnsByName(columns[..|columns| - 1])[columns[|columns| - 1].name := columns[|columns| - 1].attributes]
  }

  function ContractOf(tables: seq<NamedTable>): Contract
  {
    if tables == [] then map[]
    else ContractOf(tables[..|tables| - 1])[tables[|tables| - 1].name := ColumnsByName(tables[|tables| - 1].columns)]
  }

  // ------------------------------------------------------- what was listed

  predicate Lists(tables: seq<NamedTable>, t: string)
  {
    exists i | 0 <= i < |tables| :: tables[i].name == t
  }

  /** Some table of that name lists that column with those attributes. */
  ghost predicate Has(tables: seq<NamedTable>, t: string, c: string, a: Attributes)
  {
    exists table :: table in tables && table.name == t && NamedColumn(c, a) in table.columns
  }

  /** No table is listed twice, and no column within a table. */
  ghost predicate Unique(tables: seq<NamedTable>)
  {
    && (forall i, j | 0 <= i < j < |tables| :: tables[i].name != tables[j].name)
    && forall table | table in tables :: UniqueColumns(table.columns)
  }

  ghost predicate UniqueColumns(columns: seq<NamedColumn>)
  {
    forall i, j | 0 <= i < j < |columns| :: columns[i].name != columns[j].name
  }

  lemma {:induction false} ColumnsAreListed(columns: seq<NamedColumn>, c: string, a: Attributes)
    requires UniqueColumns(columns)
    ensures c in ColumnsByName(columns) && ColumnsByName(columns)[c] == a <==> NamedColumn(c, a) in columns
    decreases |columns|
  {
    if columns != [] {
      var front, last := columns[..|columns| - 1], columns[|columns| - 1];
      assert columns == front + [last];
      assert UniqueColumns(front);
      ColumnsAreListed(front, c, a);
      assert forall i | 0 <= i < |front| :: columns[i].name != columns[|front|].name;
    }
  }

  lemma {:induction false} TablesAreListed(tables: seq<NamedTable>, t: string)
    ensures t in ContractOf(tables) <==> Lists(tables, t)
    decreases |tables|
  {
    if tables != [] {
      var front, last := tables[..|tables| - 1], tables[|tables| - 1];
      TablesAreListed(front, t);
      assert forall i | 0 <= i < |front| :: front[i] == tables[i];
      assert tables[|tables| - 1].name == last.name;
    }
  }

  lemma {:induction false} ContractHas(tables: seq<NamedTable>, t: string, c: string, a: Attributes)
    requires Unique(tables)
    ensures t in ContractOf(tables) && c in ContractOf(tables)[t] && ContractOf(tables)[t][c] == a <==> Has(tables, t, c, a)
    decreases |tables|
  {
    if tables != [] {
      var front, last := tables[..|tables| - 1], tables[|tables| - 1];
      assert tables == front + [last];
      FrontUnique(front, last);
      ContractHas(front, t, c, a);
      ColumnsAreListed(last.columns, c, a);
      if t == last.name {
        forall table | table in front ensures table.name != t {
          var i :| 0 <= i < |front| && front[i] == table;
          assert tables[i].name != tables[|front|].name;
        }
      }
      assert forall table :: table in tables <==> table in front || table == last;
    }
  }

  lemma FrontUnique(front: seq<NamedTable>, last: NamedTable)
    requires Unique(front + [last])
    ensures Unique(front) && UniqueColumns(last.columns)
  {
    var tables := front + [last];
    forall i, j | 0 <= i < j < |front| ensures front[i].name != front[j].name {
      assert tables[i].name != tables[j].name;
    }
    assert last in tables;
    forall table | table in front ensures UniqueColumns(table.columns) {
      assert table in tables;
    }
  }

  /** The same tables with the same columns. */
  ghost predicate SameListing(previous: seq<NamedTable>, observed: seq<NamedTable>)
  {
    && (forall t :: Lists(previous, t) <==> Lists(observed, t))
    && forall t, c, a :: Has(previous, t, c, a) <==> Has(observed, t, c, a)
  }

  lemma SameListingIff(previous: seq<NamedTable>, observed: seq<NamedTable>)
    requires Unique(previous) && Unique(observed)
    ensures ContractOf(previous) == ContractOf(observed) <==> SameListing(previous, observed)
  {
    var before, after := ContractOf(previous), ContractOf(observed);
    forall t ensures (t in before <==> Lists(previous, t)) && (t in after <==> Lists(observed, t)) {
      TablesAreListed(previous, t);
      TablesAreListed(observed, t);
    }
    forall t, c, a
      ensures t in before && c in before[t] && before[t][c] == a <==> Has(previous, t, c, a)
      ensures t in after && c in after[t] && after[t][c] == a <==> Has(observed, t, c, a)
    {
      ContractHas(previous, t, c, a);
      ContractHas(observed, t, c, a);
    }
    if SameListing(previous, observed) {
      forall t | t in before ensures t in after && before[t] == after[t] {
        forall c | c in before[t] ensures c in after[t] && after[t][c] == before[t][c] {
          assert Has(previous, t, c, before[t][c]);
        }
        forall c | c in after[t] ensures c in before[t] {
          assert Has(observed, t, c, after[t][c]);
        }
      }
      assert forall t | t in after :: t in before;
    }
  }

  // ------------------------------------------------------------ what it means

  /** What an insert puts in a column: null, or a value of a type. */
  datatype Cell = NullCell | Typed(dataType: string)

  /** A row of this shape can be inserted: it names known columns only, each value has the
      column's type, null goes where null may go and every other column is given. */
  ghost predicate Accepts(contract: Contract, t: string, shape: map<string, Cell>)
  {
    && t in contract
    && (forall c | c in shape :: c in contract[t]
          && match shape[c] case NullCell => contract[t][c].nullable case Typed(ty) => ty == contract[t][c].dataType)
    && (forall c | c in contract[t] && !contract[t][c].nullable :: c in shape && shape[c] != NullCell)
  }

  /** Columns that stay keep being or not being part of the key. */
  ghost predicate KeysKept(before: Contract, after: Contract, t: string)
  {
    t in before && t in after ==>
      forall c | c in before[t] && c in after[t] :: after[t][c].isPrimaryKey == before[t][c].isPrimaryKey
  }

  /** Whatever could be inserted into a table still can, and its key is the same. */
  ghost predicate Compatible(before: Contract, after: Contract, t: string)
  {
    (forall shape | Accepts(before, t, shape) :: Accepts(after, t, shape)) && KeysKept(before, after, t)
  }

  // ------------------------------------------------------------- column by column

  /** The column's change, if any, and whether it breaks. */
  function ColumnDifference(t: string, c: string, before: ColumnMap, after: ColumnMap): (d: seq<Difference>)
    requires c in before || c in after
  {
    if c !in before then [Difference(ColumnAdded, t, c, !after[c].nullable)]
    else if c !in after then [Difference(ColumnRemoved, t, c, true)]
    else if before[c] == after[c] then []
    else
      [Difference(ColumnChanged, t, c,
                  before[c].dataType != after[c].dataType || before[c].isPrimaryKey != after[c].isPrimaryKey
                  || (before[c].nullable != after[c].nullable && !after[c].nullable))]
  }

  predicate ColumnBreaks(c: string, before: ColumnMap, after: ColumnMap)
    requires c in before || c in after
  {
    exists i | 0 <= i < |ColumnDifference("", c, before, after)| :: ColumnDifference("", c, before, after)[i].breaking
  }

  /** A row with every column given a value of its type. */
  ghost function FullShape(columns: ColumnMap): map<string, Cell>
  {
    map c | c in columns :: Typed(columns[c].dataType)
  }

  lemma FullShapeAccepted(contract: Contract, t: string)
    requires t in contract
    ensures Accepts(contract, t, FullShape(contract[t]))
  {
  }

  /** No breaking column means nothing that worked stops working. */
  lemma UnbrokenIsCompatible(before: Contract, after: Contract, t: string)
    requires t in before && t in after
    requires forall c | c in before[t] || c in after[t] :: !ColumnBreaks(c, before[t], after[t])
    ensures Compatible(before, after, t)
  {
    forall c | c in before[t] || c in after[t]
      ensures c in after[t]
      ensures c in before[t] ==>
                (before[t][c].dataType == after[t][c].dataType
                 && before[t][c].isPrimaryKey == after[t][c].isPrimaryKey && (before[t][c].nullable ==> after[t][c].nullable))
      ensures c !in before[t] ==> after[t][c].nullable
    {
      var d := ColumnDifference("", c, before[t], after[t]);
      assert d != [] ==> !d[0].breaking;
    }
    forall shape | Accepts(before, t, shape)
      ensures Accepts(after, t, shape)
    {
    }
  }

  /** The columns of the key. */
  function KeyColumns(columns: ColumnMap): set<string>
  {
    set c | c in columns && columns[c].isPrimaryKey :: c
  }

  /** Without a breaking column the key is another one exactly if a nullable column was added to it; the
      comparison lets that pass, and engines that keep keys free of nulls do not have it. */
  lemma KeyChangesUnnoticedIff(before: Contract, after: Contract, t: string)
    requires t in before && t in after
    requires forall c | c in before[t] || c in after[t] :: !ColumnBreaks(c, before[t], after[t])
    ensures KeyColumns(before[t]) != KeyColumns(after[t])
       <==> exists c :: c in after[t] && c !in before[t] && after[t][c].nullable && after[t][c].isPrimaryKey
  {
    forall c | c in before[t] || c in after[t]
      ensures c in after[t] && (c in before[t] ==> before[t][c].isPrimaryKey == after[t][c].isPrimaryKey)
      ensures c !in before[t] ==> after[t][c].nullable
    {
      var d := ColumnDifference("", c, before[t], after[t]);
      assert d != [] ==> !d[0].breaking;
    }
    if c :| c in after[t] && c !in before[t] && after[t][c].nullable && after[t][c].isPrimaryKey {
      assert c in KeyColumns(after[t]) && c !in KeyColumns(before[t]);
    } else {
      assert forall c :: c in KeyColumns(before[t]) <==> c in KeyColumns(after[t]);
    }
  }

  /** A breaking column has an insert that used to work and no longer does, or changes the key. */
  lemma BrokenIsIncompatible(before: Contract, after: Contract, t: string, c: string)
    requires t in before && t in after && (c in before[t] || c in after[t])
    requires ColumnBreaks(c, before[t], after[t])
    ensures !Compatible(before, after, t)
  {
    FullShapeAccepted(before, t);
    var full := FullShape(before[t]);
    if c in before[t] && c in after[t] && before[t][c].dataType == after[t][c].dataType
       && before[t][c].isPrimaryKey == after[t][c].isPrimaryKey {
      var gap := full[c := NullCell];
      assert Accepts(before, t, gap);
      assert gap[c] == NullCell;
      assert !Accepts(after, t, gap);
    } else if !(c in before[t] && c in after[t] && before[t][c].dataType == after[t][c].dataType) {
      assert c in before[t] <==> c in full;
      assert !Accepts(after, t, full);
    }
  }

  lemma RemovedIsIncompatible(before: Contract, after: Contract, t: string)
    requires t in before && t !in after
    ensures !Compatible(before, after, t)
  {
    FullShapeAccepted(before, t);
  }

  // ------------------------------------------------------------------ the diff

  predicate Mentions(differences: seq<Difference>, t: string)
  {
    exists i | 0 <= i < |differences| :: differences[i].table == t
  }

  predicate Breaks(differences: seq<Difference>, t: string)
  {
    exists i | 0 <= i < |differences| :: differences[i].table == t && differences[i].breaking
  }

  lemma ConcatMentions(a: seq<Difference>, b: seq<Difference>, t: string)
    ensures Mentions(a + b, t) <==> Mentions(a, t) || Mentions(b, t)
    ensures Breaks(a + b, t) <==> Breaks(a, t) || Breaks(b, t)
  {
    assert forall i | 0 <= i < |a + b| :: (a + b)[i] == if i < |a| then a[i] else b[i - |a|];
    assert forall i | 0 <= i < |a| :: a[i] == (a + b)[i];
    assert forall i | 0 <= i < |b| :: b[i] == (a + b)[|a| + i];
  }

  /** An entry says what happened to its column, or to its table. */
  predicate ColumnEntryTrue(before: ColumnMap, after: ColumnMap, d: Difference)
  {
    match d.kind
    case ColumnAdded => d.column !in before && d.column in after
    case ColumnRemoved => d.column in before && d.column !in after
    case ColumnChanged => d.column in before && d.column in after && before[d.column] != after[d.column]
    case _ => false
  }

  predicate EntryTrue(before: Contract, after: Contract, d: Difference)
  {
    match d.kind
    case TableAdded => d.table !in before && d.table in after
    case TableRemoved => d.table in before && d.table !in after
    case _ => d.table in before && d.table in after && ColumnEntryTrue(before[d.table], after[d.table], d)
  }

  /** Exactly what an entry about a column says, and when it breaks. */
  predicate IsColumnDifference(before: ColumnMap, after: ColumnMap, d: Difference)
  {
    match d.kind
    case ColumnAdded => d.column !in before && d.column in after && d.breaking == !after[d.column].nullable
    case ColumnRemoved => d.column in before && d.column !in after && d.breaking
    case ColumnChanged =>
      && d.column in before && d.column in after && before[d.column] != after[d.column]
      && d.breaking == (|| before[d.column].dataType != after[d.column].dataType
                        || before[d.column].isPrimaryKey != after[d.column].isPrimaryKey
                        || (before[d.column].nullable && !after[d.column].nullable))
    case _ => false
  }

  predicate IsDifference(before: Contract, after: Contract, d: Difference)
  {
    match d.kind
    case TableAdded => d.table !in before && d.table in after && d.column == "" && !d.breaking
    case TableRemoved => d.table in before && d.table !in after && d.column == "" && d.breaking
    case _ => d.table in before && d.table in after && IsColumnDifference(before[d.table], after[d.table], d)
  }

  /** Compare the columns of a table both schemas have. */
  method DiffColumns(t: string, before: ColumnMap, after: ColumnMap) returns (differences: seq<Difference>)
    ensures forall d | d in differences :: d.table == t && ColumnEntryTrue(before, after, d)
    ensures forall d :: d in differences <==> d.table == t && IsColumnDifference(before, after, d)
    ensures differences == [] <==> before == after
    ensures Breaks(differences, t) <==> exists c :: (c in before || c in after) && ColumnBreaks(c, before, after)
  {
    differences := [];
    var names := SortNames(before.Keys + after.Keys);
    var i := 0;
    while i < |names|
      invariant 0 <= i <= |names|
      invariant Compared(t, names[..i], before, after, differences)
    {
      var c := names[i];
      TakeNext(names, i);
      var d := ColumnDifference(t, c, before, after);
      ComparedGrows(t, names[..i], before, after, differences, c);
      differences := differences + d;
      i := i + 1;
    }
    assert names[..i] == names;
    AllCompared(t, names, before, after, differences);
  }

  /** The differences of the columns named so far. */
  ghost predicate Compared(t: string, names: seq<string>, before: ColumnMap, after: ColumnMap, differences: seq<Difference>)
  {
    && (forall d | d in differences :: d.table == t && ColumnEntryTrue(before, after, d))
    && (forall d :: d in differences <==> d.table == t && d.column in names && IsColumnDifference(before, after, d))
    && (differences == [] <==> forall c | c in names :: c in before && c in after && before[c] == after[c])
    && (Breaks(differences, t) <==> exists c :: c in names && (c in before || c in after) && ColumnBreaks(c, before, after))
  }

  lemma ComparedGrows(t: string, names: seq<string>, before: ColumnMap, after: ColumnMap, differences: seq<Difference>, c: string)
    requires Compared(t, names, before, after, differences) && (c in before || c in after)
    ensures Compared(t, names + [c], before, after, differences + ColumnDifference(t, c, before, after))
  {
    var d := ColumnDifference(t, c, before, after);
    ConcatMentions(differences, d, t);
    OneColumn(t, c, before, after);
    forall e
      ensures e in differences + d <==> e.table == t && e.column in names + [c] && IsColumnDifference(before, after, e)
    {
      OneColumnExactly(t, c, before, after, e);
    }
  }

  lemma OneColumnExactly(t: string, c: string, before: ColumnMap, after: ColumnMap, d: Difference)
    requires c in before || c in after
    ensures d in ColumnDifference(t, c, before, after) <==> d.table == t && d.column == c && IsColumnDifference(before, after, d)
  {
  }

  lemma OneColumn(t: string, c: string, before: ColumnMap, after: ColumnMap)
    requires c in before || c in after
    ensures Breaks(ColumnDifference(t, c, before, after), t) <==> ColumnBreaks(c, before, after)
  {
    var d, d0 := ColumnDifference(t, c, before, after), ColumnDifference("", c, before, after);
    assert |d| == |d0| <= 1 && (d != [] ==> d[0].breaking == d0[0].breaking && d[0].table == t);
  }

  lemma AllCompared(t: string, names: seq<string>, before: ColumnMap, after: ColumnMap, differences: seq<Difference>)
    requires Elements(names) == before.Keys + after.Keys && Compared(t, names, before, after, differences)
    ensures differences == [] <==> before == after
    ensures forall d :: d in differences <==> d.table == t && IsColumnDifference(before, after, d)
    ensures Breaks(differences, t) <==> exists c :: (c in before || c in after) && ColumnBreaks(c, before, after)
  {
    assert forall c :: c in names <==> c in Elements(names);
    if differences == [] {
      assert before.Keys == after.Keys;
      assert before == after;
    }
  }

  ghost predicate Judged(before: Contract, after: Contract, differences: seq<Difference>, done: set<string>)
  {
    && (forall d | d in differences :: d.table in done)
    && forall t | t in done ::
         && (Mentions(differences, t) <==> !(t in before && t in after && before[t] == after[t]))
         && (Breaks(differences, t) <==> !Compatible(before, after, t))
  }

  lemma AddedTableCompatible(before: Contract, after: Contract, t: string)
    requires t !in before
    ensures Compatible(before, after, t)
  {
  }

  /** Compare two schemas. A table is mentioned exactly when the two disagree on it, and marked
      breaking exactly when some insert that used to be valid is not any more, or its key
      changed; so the list is empty exactly when the schemas agree, and has no breaking entry
      exactly when the new schema takes everything the old one took. */
  method DiffSchemas(previous: seq<NamedTable>, observed: seq<NamedTable>) returns (differences: seq<Difference>)
    ensures var before, after := ContractOf(previous), ContractOf(observed);
            && (differences == [] <==> before == after)
            && (forall d | d in differences :: EntryTrue(before, after, d))
            && (forall d :: d in differences <==> IsDifference(before, after, d))
            && (forall t :: Mentions(differences, t) <==> (t in before || t in after) && !(t in before && t in after && before[t] == after[t]))
            && (forall t :: Breaks(differences, t) <==> !Compatible(before, after, t))
    ensures Unique(previous) && Unique(observed) ==>
              && (differences == [] <==> SameListing(previous, observed))
              && forall d :: d in differences <==> Reported(previous, observed, d)
  {
    differences := [];
    var before, after := ContractOf(previous), ContractOf(observed);
    var names := SortNames(before.Keys + after.Keys);
    SortedNoDup(names, before.Keys + after.Keys);
    ghost var done: set<string> := {};
    var i := 0;
    while i < |names|
      invariant 0 <= i <= |names| && done == Elements(names[..i])
      invariant Told(before, after, differences, done)
    {
      var t := names[i];
      NameIsNext(names, i);
      var more: seq<Difference>;
      if t !in before {
        more := [Difference(TableAdded, t, "", false)];
        AddedTells(before, after, t);
      } else if t !in after {
        more := [Difference(TableRemoved, t, "", true)];
        RemovedTells(before, after, t);
      } else {
        more := DiffColumns(t, before[t], after[t]);
        ColumnsTell(before, after, t, more);
      }
      ToldGrows(before, after, differences, done, t, more);
      differences := differences + more;
      done := done + {t};
      i := i + 1;
    }
    assert names[..i] == names;
    Conclude(before, after, differences);
    AllReported(previous, observed, differences);
  }

  lemma NameIsNext(names: seq<string>, i: nat)
    requires NoDup(names) && i < |names|
    ensures Elements(names[..i + 1]) == Elements(names[..i]) + {names[i]} && names[i] !in Elements(names[..i])
    ensures names[i] in Elements(names)
  {
    assert names[..i + 1] == names[..i] + [names[i]];
    ElementsAppend(names[..i], names[i]);
  }

  /** Everything about the tables compared so far, and nothing else. */
  ghost predicate Told(before: Contract, after: Contract, differences: seq<Difference>, done: set<string>)
  {
    && Judged(before, after, differences, done)
    && forall d :: d in differences <==> d.table in done && IsDifference(before, after, d)
  }

  /** The entries of one table. */
  ghost predicate TableTold(before: Contract, after: Contract, t: string, more: seq<Difference>)
  {
    && (forall d :: d in more <==> d.table == t && IsDifference(before, after, d))
    && (Mentions(more, t) <==> !(t in before && t in after && before[t] == after[t]))
    && (Breaks(more, t) <==> !Compatible(before, after, t))
  }

  lemma AddedTells(before: Contract, after: Contract, t: string)
    requires t !in before && t in after
    ensures TableTold(before, after, t, [Difference(TableAdded, t, "", false)])
  {
    assert [Difference(TableAdded, t, "", false)][0].table == t;
    AddedTableCompatible(before, after, t);
  }

  lemma RemovedTells(before: Contract, after: Contract, t: string)
    requires t in before && t !in after
    ensures TableTold(before, after, t, [Difference(TableRemoved, t, "", true)])
  {
    assert [Difference(TableRemoved, t, "", true)][0].table == t;
    RemovedIsIncompatible(before, after, t);
  }

  lemma ColumnsTell(before: Contract, after: Contract, t: string, more: seq<Difference>)
    requires t in before && t in after
    requires forall d :: d in more <==> d.table == t && IsColumnDifference(before[t], after[t], d)
    requires more == [] <==> before[t] == after[t]
    requires Breaks(more, t) <==> exists c :: (c in before[t] || c in after[t]) && ColumnBreaks(c, before[t], after[t])
    ensures TableTold(before, after, t, more)
  {
    JudgeTable(before, after, t, more);
  }

  lemma ToldGrows(before: Contract, after: Contract, differences: seq<Difference>, done: set<string>, t: string, more: seq<Difference>)
    requires Told(before, after, differences, done) && t !in done && TableTold(before, after, t, more)
    ensures Told(before, after, differences + more, done + {t})
  {
    JudgedGrows(before, after, differences, done, t, more);
  }

  lemma AllReported(previous: seq<NamedTable>, observed: seq<NamedTable>, differences: seq<Difference>)
    requires var before, after := ContractOf(previous), ContractOf(observed);
             Told(before, after, differences, before.Keys + after.Keys)
    ensures var before, after := ContractOf(previous), ContractOf(observed);
            && (forall d | d in differences :: EntryTrue(before, after, d))
            && forall d :: d in differences <==> IsDifference(before, after, d)
    ensures Unique(previous) && Unique(observed) ==> forall d :: d in differences <==> Reported(previous, observed, d)
    ensures Unique(previous) && Unique(observed) ==> (ContractOf(previous) == ContractOf(observed) <==> SameListing(previous, observed))
  {
    var before, after := ContractOf(previous), ContractOf(observed);
    forall d | IsDifference(before, after, d) ensures d.table in before.Keys + after.Keys && EntryTrue(before, after, d) {
    }
    if Unique(previous) && Unique(observed) {
      SameListingIff(previous, observed);
      forall d ensures d in differences <==> Reported(previous, observed, d) {
        ReportedIff(previous, observed, d);
      }
    }
  }

  /** Exactly what is reported, in terms of the two listings: added and removed tables; added, removed and changed
      columns of tables both list. A removal breaks; a new column breaks if it takes no null; a change
      breaks if type or key differ, or nulls are no longer taken. */
  ghost predicate Reported(previous: seq<NamedTable>, observed: seq<NamedTable>, d: Difference)
  {
    var t, c := d.table, d.column;
    match d.kind
    case TableAdded => !Lists(previous, t) && Lists(observed, t) && c == "" && !d.breaking
    case TableRemoved => Lists(previous, t) && !Lists(observed, t) && c == "" && d.breaking
    case ColumnAdded =>
      && Lists(previous, t) && (forall b :: !Has(previous, t, c, b))
      && exists a :: Has(observed, t, c, a) && d.breaking == !a.nullable
    case ColumnRemoved =>
      (exists b :: Has(previous, t, c, b)) && Lists(observed, t) && (forall a :: !Has(observed, t, c, a)) && d.breaking
    case ColumnChanged =>
      exists b, a :: Has(previous, t, c, b) && Has(observed, t, c, a) && a != b
        && d.breaking == (b.dataType != a.dataType || b.isPrimaryKey != a.isPrimaryKey || (b.nullable && !a.nullable))
  }

  lemma ReportedIff(previous: seq<NamedTable>, observed: seq<NamedTable>, d: Difference)
    requires Unique(previous) && Unique(observed)
    ensures IsDifference(ContractOf(previous), ContractOf(observed), d) <==> Reported(previous, observed, d)
  {
    var before, after, t, c := ContractOf(previous), ContractOf(observed), d.table, d.column;
    TablesAreListed(previous, t);
    TablesAreListed(observed, t);
    forall a
      ensures t in before && c in before[t] && before[t][c] == a <==> Has(previous, t, c, a)
      ensures t in after && c in after[t] && after[t][c] == a <==> Has(observed, t, c, a)
    {
      ContractHas(previous, t, c, a);
      ContractHas(observed, t, c, a);
    }
    if t in before && c in before[t] { assert Has(previous, t, c, before[t][c]); }
    if t in after && c in after[t] { assert Has(observed, t, c, after[t][c]); }
  }

  lemma JudgeTable(before: Contract, after: Contract, t: string, more: seq<Difference>)
    requires t in before && t in after
    requires forall d | d in more :: d.table == t
    requires more == [] <==> before[t] == after[t]
    requires Breaks(more, t) <==> exists c :: (c in before[t] || c in after[t]) && ColumnBreaks(c, before[t], after[t])
    ensures Mentions(more, t) <==> before[t] != after[t]
    ensures Breaks(more, t) <==> !Compatible(before, after, t)
  {
    if more != [] {
      assert more[0] in more;
    }
    if c :| (c in before[t] || c in after[t]) && ColumnBreaks(c, before[t], after[t]) {
      BrokenIsIncompatible(before, after, t, c);
    } else {
      UnbrokenIsCompatible(before, after, t);
    }
  }

  lemma JudgedGrows(before: Contract, after: Contract, differences: seq<Difference>, done: set<string>,
                    t: string, more: seq<Difference>)
    requires Judged(before, after, differences, done) && t !in done
    requires forall d | d in more :: d.table == t
    requires Mentions(more, t) <==> !(t in before && t in after && before[t] == after[t])
    requires Breaks(more, t) <==> !Compatible(before, after, t)
    ensures Judged(before, after, differences + more, done + {t})
  {
    forall u | u in done + {t}
      ensures Mentions(differences + more, u) <==> !(u in before && u in after && before[u] == after[u])
      ensures Breaks(differences + more, u) <==> !Compatible(before, after, u)
    {
      ConcatMentions(differences, more, u);
      if u == t {
        assert forall i | 0 <= i < |differences| :: differences[i] in differences;
      } else {
        assert forall i | 0 <= i < |more| :: more[i] in more;
      }
    }
  }

  lemma Conclude(before: Contract, after: Contract, differences: seq<Difference>)
    requires Judged(before, after, differences, before.Keys + after.Keys)
    ensures differences == [] <==> before == after
    ensures forall t :: Mentions(differences, t) <==> (t in before || t in after) && !(t in before && t in after && before[t] == after[t])
    ensures forall t :: Breaks(differences, t) <==> !Compatible(before, after, t)
  {
    assert forall i | 0 <= i < |differences| :: differences[i] in differences;
    forall t | t !in before && t !in after
      ensures Compatible(before, after, t) && !Mentions(differences, t) && !Breaks(differences, t)
    {
    }
    if differences != [] {
      assert Mentions(differences, differences[0].table);
    } else if before != after {
      assert forall t :: !Mentions(differences, t);
    }
  }

  /** Non-breaking changes compose. */
  lemma CompatibleComposes(a: Contract, b: Contract, c: Contract, t: string)
    requires Compatible(a, b, t) && Compatible(b, c, t)
    ensures Compatible(a, c, t)
  {
    if t in a {
      FullShapeAccepted(a, t);
      assert Accepts(b, t, FullShape(a[t]));
      assert forall x | x in a[t] :: x in FullShape(a[t]);
    }
  }

  // ------------------------------------------------------------------- who is hit

  /** An approved mapping of an entity into a table. */
  datatype Approved = Approved(entity: string, table: string)

  function ImpactedEntities(approved: set<Approved>, differences: seq<Difference>): set<string>
  {
    set a | a in approved && Breaks(differences, a.table) :: a.entity
  }

  /** An entity is paused exactly when it writes a table that stopped taking what it took. */
  lemma PausedIffIncompatible(approved: set<Approved>, before: Contract, after: Contract, differences: seq<Difference>, entity: string)
    requires forall t :: Breaks(differences, t) <==> !Compatible(before, after, t)
    ensures entity in ImpactedEntities(approved, differences)
       <==> exists a :: a in approved && a.entity == entity && !Compatible(before, after, a.table)
  {
  }
}
