/** The target schema as a registry of tables, its foreign-key graph, the
    parents-first ordering of a fan-out and the tables that must be seeded. */
module SchemaGraph {
  import opened Ordering
  import opened Outcomes
  import opened Dag

  datatype Column = Column(
    name: string,
    dataType: string,
    nullable: bool,
    isPrimaryKey: bool,
    autoIncrement: bool,
    hasDefault: bool)
  {
    /** A value must be supplied on insert. */
    predicate IsRequired() {
      !nullable && !hasDefault && !autoIncrement
    }
  }

  datatype ForeignKey = ForeignKey(column: string, refTable: string, refColumn: string)

  datatype Table = Table(columns: seq<Column>, foreignKeys: seq<ForeignKey>)

  type Registry = map<string, Table>

  // ---------------------------------------------------------------- lookups

  /** The first column flagged auto-increment, if any. */
  function AutoColumn(columns: seq<Column>): Option<string>
  {
    if columns == [] then None
    else if columns[0].autoIncrement then Some(columns[0].name)
    else AutoColumn(columns[1..])
  }

  /** The first column of the primary key, if any. */
  function PrimaryKey(columns: seq<Column>): Option<string>
  {
    if columns == [] then None
    else if columns[0].isPrimaryKey then Some(columns[0].name)
    else PrimaryKey(columns[1..])
  }

  /** The key is the first column flagged as one; the generated column the first flagged so. */
  lemma {:induction false} FirstFlagged(columns: seq<Column>, c: string)
    ensures PrimaryKey(columns) == Some(c) <==>
            exists i :: 0 <= i < |columns| && columns[i].isPrimaryKey && columns[i].name == c && forall j | 0 <= j < i :: !columns[j].isPrimaryKey
    ensures AutoColumn(columns) == Some(c) <==>
            exists i :: 0 <= i < |columns| && columns[i].autoIncrement && columns[i].name == c && forall j | 0 <= j < i :: !columns[j].autoIncrement
    decreases |columns|
  {
    if columns != [] {
      var tail := columns[1..];
      FirstFlagged(tail, c);
      if !columns[0].isPrimaryKey && PrimaryKey(columns) == Some(c) {
        var i :| 0 <= i < |tail| && tail[i].isPrimaryKey && tail[i].name == c && forall j | 0 <= j < i :: !tail[j].isPrimaryKey;
        assert columns[i + 1] == tail[i] && forall j | 0 < j < i + 1 :: columns[j] == tail[j - 1];
      }
      if !columns[0].autoIncrement && AutoColumn(columns) == Some(c) {
        var i :| 0 <= i < |tail| && tail[i].autoIncrement && tail[i].name == c && forall j | 0 <= j < i :: !tail[j].autoIncrement;
        assert columns[i + 1] == tail[i] && forall j | 0 < j < i + 1 :: columns[j] == tail[j - 1];
      }
      FlaggedLater(columns, c);
    }
  }

  lemma FlaggedLater(columns: seq<Column>, c: string)
    requires columns != []
    ensures !columns[0].isPrimaryKey
         && (exists i :: 0 <= i < |columns| && columns[i].isPrimaryKey && columns[i].name == c && forall j | 0 <= j < i :: !columns[j].isPrimaryKey)
        ==> exists i :: 0 <= i < |columns[1..]| && columns[1..][i].isPrimaryKey && columns[1..][i].name == c
                        && forall j | 0 <= j < i :: !columns[1..][j].isPrimaryKey
    ensures !columns[0].autoIncrement
         && (exists i :: 0 <= i < |columns| && columns[i].autoIncrement && columns[i].name == c && forall j | 0 <= j < i :: !columns[j].autoIncrement)
        ==> exists i :: 0 <= i < |columns[1..]| && columns[1..][i].autoIncrement && columns[1..][i].name == c
                        && forall j | 0 <= j < i :: !columns[1..][j].autoIncrement
  {
    var tail := columns[1..];
    assert forall j | 0 <= j < |tail| :: tail[j] == columns[j + 1];
    if !columns[0].isPrimaryKey {
      if i :| 0 <= i < |columns| && columns[i].isPrimaryKey && columns[i].name == c && forall j | 0 <= j < i :: !columns[j].isPrimaryKey {
        assert tail[i - 1].isPrimaryKey;
      }
    }
    if !columns[0].autoIncrement {
      if i :| 0 <= i < |columns| && columns[i].autoIncrement && columns[i].name == c && forall j | 0 <= j < i :: !columns[j].autoIncrement {
        assert tail[i - 1].autoIncrement;
      }
    }
  }

  function Auto(reg: Registry, t: string): Option<string>
    requires t in reg
  {
    AutoColumn(reg[t].columns)
  }

  function Pk(reg: Registry, t: string): Option<string>
    requires t in reg
  {
    PrimaryKey(reg[t].columns)
  }

  /** The pipeline must not insert into a table whose key the engine cannot generate. */
  predicate IsReference(reg: Registry, t: string)
    requires t in reg
  {
    Auto(reg, t).None?
  }

  /** An auto-increment column is the primary key of its table. */
  ghost predicate KeysOk(reg: Registry)
  {
    forall t | t in reg && Auto(reg, t).Some? :: Pk(reg, t) == Auto(reg, t)
  }

  function FkColumns(reg: Registry, t: string): set<string>
    requires t in reg
  {
    set fk | fk in reg[t].foreignKeys :: fk.column
  }

  function RequiredColumns(reg: Registry, t: string): set<string>
    requires t in reg
  {
    set c | c in reg[t].columns && c.IsRequired() :: c.name
  }

  // -------------------------------------------------------------- the graph

  function RefTables(fks: seq<ForeignKey>): set<string>
  {
    if fks == [] then {}
    else RefTables(fks[..|fks| - 1]) + {fks[|fks| - 1].refTable}
  }

  lemma RefTablesMember(fks: seq<ForeignKey>, t: string)
    ensures t in RefTables(fks) <==> exists fk :: fk in fks && fk.refTable == t
  {
    if fks != [] {
      RefTablesMember(fks[..|fks| - 1], t);
      assert fks == fks[..|fks| - 1] + [fks[|fks| - 1]];
    }
  }

  /** Every table with the tables its foreign keys point at. */
  function GraphOf(reg: Registry): Graph
  {
    map t | t in reg :: RefTables(reg[t].foreignKeys)
  }

  function AllRefTables(reg: Registry): set<string>
  {
    set t, x | t in reg && x in RefTables(reg[t].foreignKeys) :: x
  }

  /** Every table transitively reachable over foreign keys. The frontier is a set and
      `pop` takes any member, so the result is stated for every choice. */
  method FkClosure(reg: Registry, tables: set<string>) returns (r: Result<set<string>>)
    ensures r.Ok? ==> forall t | t in tables || Reachable(GraphOf(reg), tables, t) :: t in reg
    ensures r.Ok? ==> forall x :: x in r.value <==> Reachable(GraphOf(reg), tables, x)
    ensures r.Err? ==> r.error.UnknownTable? && r.error.table !in reg
                       && (r.error.table in tables || Reachable(GraphOf(reg), tables, r.error.table))
  {
    ghost var g := GraphOf(reg);
    var seen: set<string> := {};
    var frontier := tables;
    while frontier != {}
      invariant seen <= AllRefTables(reg)
      invariant frontier <= tables + seen
      invariant forall x | x in seen :: Reachable(g, tables, x)
      invariant forall t | t in tables + seen && t !in frontier :: t in reg && Up(g, t) <= seen
      decreases AllRefTables(reg) - seen, frontier
    {
      var t :| t in frontier;
      frontier := frontier - {t};
      if t !in reg {
        return Err(UnknownTable(t));
      }
      var found := FollowForeignKeys(t, reg[t].foreignKeys, seen);
      assert Up(g, t) == RefTables(reg[t].foreignKeys) - {t};
      ExtendReached(g, tables, t, seen, found);
      seen, frontier := seen + found, frontier + found;
    }
    forall x | Reachable(g, tables, x)
      ensures x in seen
    {
      var p :| Reaches(g, tables, p, x);
      ReachableInside(g, tables, seen, p, x);
    }
    return Ok(seen);
  }

  lemma ExtendReached(g: Graph, tables: set<string>, t: string, seen: set<string>, found: set<string>)
    requires t in tables || Reachable(g, tables, t)
    requires forall x | x in seen :: Reachable(g, tables, x)
    requires found <= Up(g, t)
    ensures forall x | x in seen + found :: Reachable(g, tables, x)
  {
    forall x | x in found
      ensures Reachable(g, tables, x)
    {
      ReachStep(g, tables, t, x);
    }
  }

  /** The inner loop: parents of `t` not met before, a self-reference excepted. */
  method FollowForeignKeys(t: string, fks: seq<ForeignKey>, seen: set<string>) returns (found: set<string>)
    ensures found == RefTables(fks) - {t} - seen
  {
    found := {};
    var i := 0;
    while i < |fks|
      invariant 0 <= i <= |fks|
      invariant found == RefTables(fks[..i]) - {t} - seen
    {
      var parent := fks[i].refTable;
      if parent != t && parent !in seen + found {
        found := found + {parent};
      }
      assert fks[..i + 1][..i] == fks[..i];
      i := i + 1;
    }
    assert fks[..i] == fks;
  }

  /** The seeded lookups of a write set: its closure without itself. */
  method SeedTables(reg: Registry, writeSet: set<string>) returns (r: Result<seq<string>>)
    ensures r.Ok? ==> StrictlySorted(r.value)
    ensures r.Ok? ==> forall x :: x in r.value <==> Reachable(GraphOf(reg), writeSet, x) && x !in writeSet
    ensures r.Err? ==> r.error.UnknownTable? && r.error.table !in reg
  {
    var c := FkClosure(reg, writeSet);
    match c
    case Err(e) => return Err(e);
    case Ok(closure) =>
      var out := SortNames(closure - writeSet);
      assert forall x :: x in out <==> x in Elements(out);
      return Ok(out);
  }

  /** Write set and seeds together are the least set of tables that holds the write set
      and every table a member's foreign keys point at. */
  lemma SeededWriteSetIsLeastClosed(reg: Registry, writeSet: set<string>, seeds: set<string>)
    requires forall x :: x in seeds <==> Reachable(GraphOf(reg), writeSet, x) && x !in writeSet
    ensures Closed(GraphOf(reg), writeSet + seeds)
    ensures forall s: set<string> | writeSet <= s && Closed(GraphOf(reg), s) :: writeSet + seeds <= s
  {
    var g := GraphOf(reg);
    forall t, x | t in writeSet + seeds && x in Up(g, t)
      ensures x in writeSet + seeds
    {
      ReachStep(g, writeSet, t, x);
    }
    forall s: set<string>, x | writeSet <= s && Closed(g, s) && x in seeds
      ensures x in s
    {
      var p :| Reaches(g, writeSet, p, x);
      ReachableInside(g, writeSet, s, p, x);
    }
  }

  // ---------------------------------------------------- parents-first order

  /** The ordering a set of known tables gets, or the tables stuck in a cycle. */
  function Order(reg: Registry, s: set<string>): Result<seq<string>>
  {
    var stuck := Stuck(GraphOf(reg), s);
    if stuck == {} then Ok(Peel(GraphOf(reg), s)) else Err(SchemaCycle(stuck))
  }

  /** The order is a parents-first permutation and the first such in dictionary order;
      it is refused exactly when the tables have a cycle other than a self-reference. */
  lemma OrderIsLeastParentsFirst(reg: Registry, s: set<string>)
    ensures Order(reg, s).Err? <==> HasCycle(GraphOf(reg), s)
    ensures Order(reg, s).Err? ==>
              Order(reg, s).error.SchemaCycle? && HasCycle(GraphOf(reg), Order(reg, s).error.stuck)
    ensures Order(reg, s).Ok? ==> ParentsFirst(GraphOf(reg), s, Order(reg, s).value)
    ensures Order(reg, s).Ok? ==>
              forall b | ParentsFirst(GraphOf(reg), s, b) :: ListedBefore(Order(reg, s).value, b)
  {
    var g := GraphOf(reg);
    PeelSucceedsIffAcyclic(g, s);
    forall b | ParentsFirst(g, s, b)
      ensures ListedBefore(Peel(g, s), b)
    {
      PeelIsLeast(g, s, b);
    }
  }

  // ------------------------------------------- the ordering as it is computed

  /** How many parents inside `left` a table still waits for. */
  ghost function Waits(g: Graph, n: string, left: set<string>): nat
  {
    |Up(g, n) * left|
  }

  ghost predicate CountsParents(g: Graph, s: set<string>, left: set<string>, indegree: map<string, int>)
  {
    left <= s && indegree.Keys == s && forall n | n in left :: indegree[n] == Waits(g, n, left)
  }

  /** The children of every table of `s` among the tables already linked. */
  ghost predicate ListsChildren(g: Graph, s: set<string>, linked: set<string>, children: map<string, set<string>>)
  {
    children.Keys == s && forall p, c | p in s :: c in children[p] <==> c in linked && p in Up(g, c)
  }

  /** Graph and counts when the tables in `linked` have been linked. */
  ghost predicate Linked(g: Graph, s: set<string>, linked: set<string>,
                         children: map<string, set<string>>, indegree: map<string, int>)
  {
    && ListsChildren(g, s, linked, children)
    && indegree.Keys == s
    && forall n | n in s :: indegree[n] == if n in linked then Waits(g, n, s) else 0
  }

  method BuildGraph(reg: Registry, names: seq<string>)
    returns (children: map<string, set<string>>, indegree: map<string, int>)
    requires NoDup(names) && forall n | n in names :: n in reg
    ensures Linked(GraphOf(reg), Elements(names), Elements(names), children, indegree)
  {
    ghost var g := GraphOf(reg);
    var selected := Elements(names);
    children := map n | n in selected :: {};
    indegree := map n | n in selected :: 0;
    NothingLinked(g, selected, children, indegree);
    ghost var linked: set<string> := {};
    var k := 0;
    while k < |names|
      invariant 0 <= k <= |names|
      invariant linked == Elements(names[..k])
      invariant Linked(g, selected, linked, children, indegree)
    {
      var child := names[k];
      PrefixGrows(names, k);
      NotYetLinked(g, selected, linked, children, indegree, child);
      var links, degree := LinkChild(child, reg[child].foreignKeys, selected, children);
      UpIsReferenced(reg, child);
      LinkNext(g, selected, linked, children, indegree, child, links, degree);
      children, indegree := links, indegree[child := indegree[child] + degree];
      linked := linked + {child};
      k := k + 1;
    }
    assert names[..k] == names;
  }

  lemma LinkNext(g: Graph, s: set<string>, linked: set<string>, children: map<string, set<string>>,
                 indegree: map<string, int>, child: string, links: map<string, set<string>>, degree: int)
    requires Linked(g, s, linked, children, indegree) && child in s && child !in linked
    requires Hung(children, child, Up(g, child) * s, links) && degree == |Up(g, child) * s|
    ensures Linked(g, s, linked + {child}, links, indegree[child := indegree[child] + degree])
  {
    LinkStep(g, s, linked, children, indegree, child, links);
  }

  lemma NothingLinked(g: Graph, s: set<string>, children: map<string, set<string>>, indegree: map<string, int>)
    requires children.Keys == s && indegree.Keys == s && forall n | n in s :: children[n] == {} && indegree[n] == 0
    ensures Linked(g, s, {}, children, indegree)
  {
  }

  lemma NotYetLinked(g: Graph, s: set<string>, linked: set<string>, children: map<string, set<string>>,
                     indegree: map<string, int>, child: string)
    requires Linked(g, s, linked, children, indegree) && child in s && child !in linked
    ensures children.Keys == s && indegree.Keys == s && indegree[child] == 0
    ensures forall p | p in s :: child !in children[p]
  {
  }

  lemma UpIsReferenced(reg: Registry, child: string)
    requires child in reg
    ensures Up(GraphOf(reg), child) == RefTables(reg[child].foreignKeys) - {child}
  {
  }

  lemma LinkStep(g: Graph, s: set<string>, linked: set<string>, children: map<string, set<string>>,
                 indegree: map<string, int>, child: string, links: map<string, set<string>>)
    requires Linked(g, s, linked, children, indegree)
    requires child in s && child !in linked
    requires Hung(children, child, Up(g, child) * s, links)
    ensures Linked(g, s, linked + {child}, links, indegree[child := indegree[child] + Waits(g, child, s)])
  {
  }

  lemma PrefixGrows(names: seq<string>, k: nat)
    requires NoDup(names) && k < |names|
    ensures Elements(names[..k + 1]) == Elements(names[..k]) + {names[k]}
    ensures names[k] !in Elements(names[..k])
    ensures names[k] in Elements(names)
  {
    assert names[..k + 1] == names[..k] + [names[k]];
  }

  /** `children` is `children0` with `child` hung under each of `parents`. */
  ghost predicate Hung(children0: map<string, set<string>>, child: string, parents: set<string>,
                       children: map<string, set<string>>)
  {
    && children.Keys == children0.Keys
    && forall p, c | p in children0 :: c in children[p] <==> c in children0[p] || (c == child && p in parents)
  }

  /** The inner loop: hang `child` under each selected parent, once. */
  method LinkChild(child: string, fks: seq<ForeignKey>, selected: set<string>, children0: map<string, set<string>>)
    returns (children: map<string, set<string>>, degree: int)
    requires children0.Keys == selected
    requires forall p | p in selected :: child !in children0[p]
    ensures Hung(children0, child, (RefTables(fks) - {child}) * selected, children)
    ensures degree == |(RefTables(fks) - {child}) * selected|
  {
    children, degree := children0, 0;
    var j := 0;
    ghost var met: set<string> := {};
    while j < |fks|
      invariant 0 <= j <= |fks|
      invariant met == LinkedParents(fks, j, child, selected)
      invariant children.Keys == selected && Hung(children0, child, met, children) && degree == |met|
    {
      var parent := fks[j].refTable;
      if parent == child || parent !in selected {
        // a self-loop, or a foreign key out of the subset
      } else if child !in children[parent] {
        HangOne(children0, child, met, children, parent);
        children := children[parent := children[parent] + {child}];
        degree := degree + 1;
        met := met + {parent};
      } else {
        HungAlready(children0, child, met, children, parent);
      }
      j := j + 1;
    }
    AllParentsLinked(fks, child, selected);
  }

  lemma HungAlready(children0: map<string, set<string>>, child: string, met: set<string>,
                    children: map<string, set<string>>, parent: string)
    requires Hung(children0, child, met, children) && parent in children && child in children[parent]
    requires child !in children0[parent]
    ensures met + {parent} == met
  {
    assert parent in met;
  }

  /** The selected parents among the first `j` foreign keys, the table itself excepted. */
  ghost function LinkedParents(fks: seq<ForeignKey>, j: nat, child: string, selected: set<string>): set<string>
    requires j <= |fks|
  {
    if j == 0 then {}
    else
      var before := LinkedParents(fks, j - 1, child, selected);
      var parent := fks[j - 1].refTable;
      if parent == child || parent !in selected then before else before + {parent}
  }

  lemma {:induction false} LinkedParentsMember(fks: seq<ForeignKey>, j: nat, child: string, selected: set<string>, p: string)
    requires j <= |fks|
    ensures p in LinkedParents(fks, j, child, selected)
       <==> p != child && p in selected && exists i :: 0 <= i < j && fks[i].refTable == p
  {
    if j > 0 {
      LinkedParentsMember(fks, j - 1, child, selected, p);
      if p == fks[j - 1].refTable {
        assert fks[j - 1].refTable == p;
      }
    }
  }

  lemma AllParentsLinked(fks: seq<ForeignKey>, child: string, selected: set<string>)
    ensures LinkedParents(fks, |fks|, child, selected) == (RefTables(fks) - {child}) * selected
  {
    forall p
      ensures p in LinkedParents(fks, |fks|, child, selected) <==> p in (RefTables(fks) - {child}) * selected
    {
      LinkedParentsMember(fks, |fks|, child, selected, p);
      RefTablesMember(fks, p);
    }
  }

  lemma HangOne(children0: map<string, set<string>>, child: string, parents: set<string>,
                children: map<string, set<string>>, parent: string)
    requires Hung(children0, child, parents, children) && parent in children
    ensures Hung(children0, child, parents + {parent}, children[parent := children[parent] + {child}])
    ensures child !in children[parent] ==> |parents + {parent}| == |parents| + 1
  {
  }

  lemma ChildReleased(g: Graph, left: set<string>, node: string, child: string)
    requires node in left && child in left && node in Up(g, child)
    ensures Waits(g, child, left) == Waits(g, child, left - {node}) + 1
  {
    assert Up(g, child) * left == Up(g, child) * (left - {node}) + {node};
  }

  /** Counts and queue when the children in `released` have been decremented. */
  ghost predicate Released(g: Graph, s: set<string>, left: set<string>, node: string, released: set<string>,
                           indegree: map<string, int>, q: set<string>)
  {
    && indegree.Keys == s && left <= s
    && (forall n | n in left - {node} ::
          indegree[n] == if n in released then Waits(g, n, left - {node}) else Waits(g, n, left))
    && (forall n :: n in q <==>
          (n in Ready(g, left) && n != node) || (n in released && Waits(g, n, left - {node}) == 0))
  }

  /** Decrement the children of a listed table; one whose last parent it was joins the queue. */
  method ReleaseChildren(ghost g: Graph, ghost s: set<string>, ghost left: set<string>, node: string,
                         kids: set<string>, indegree0: map<string, int>, queue0: seq<string>)
    returns (indegree: map<string, int>, queue: seq<string>, ghost q: set<string>)
    requires node in left && kids <= left - {node}
    requires forall c | c in left :: c in kids <==> node in Up(g, c)
    requires CountsParents(g, s, left, indegree0)
    requires Sorted(queue0, Ready(g, left) - {node})
    ensures Released(g, s, left, node, kids, indegree, q) && Sorted(queue, q)
  {
    indegree, queue := indegree0, queue0;
    var list := SortNames(kids);
    SortedNoDup(list, kids);
    q := Ready(g, left) - {node};
    var i := 0;
    while i < |list|
      invariant 0 <= i <= |list|
      invariant Released(g, s, left, node, Elements(list[..i]), indegree, q)
      invariant Sorted(queue, q)
    {
      var child := list[i];
      PrefixGrows(list, i);
      assert child in Elements(list);
      ReleaseStep(g, s, left, node, Elements(list[..i]), indegree, q, child);
      indegree := indegree[child := indegree[child] - 1];
      if indegree[child] == 0 {
        queue := JoinQueue(queue, q, child);
        q := q + {child};
      }
      i := i + 1;
    }
    assert list[..i] == list;
  }

  lemma ReleaseStep(g: Graph, s: set<string>, left: set<string>, node: string, released: set<string>,
                    indegree: map<string, int>, q: set<string>, child: string)
    requires Released(g, s, left, node, released, indegree, q)
    requires node in left && child in left - {node} && child !in released && node in Up(g, child)
    ensures Released(g, s, left, node, released + {child}, indegree[child := indegree[child] - 1],
                     if indegree[child] == 1 then q + {child} else q)
  {
    ChildReleased(g, left, node, child);
  }

  /** Append and sort. */
  method JoinQueue(queue0: seq<string>, ghost q: set<string>, child: string) returns (queue: seq<string>)
    requires Sorted(queue0, q)
    ensures Sorted(queue, q + {child})
  {
    ElementsAppend(queue0, child);
    queue := SortNames(Elements(queue0 + [child]));
  }

  /** What the main loop keeps between two pops: nothing listed waits for what is left,
      the queue lists the ready tables and peeling what is left completes the order. */
  ghost predicate Peeling(g: Graph, s: set<string>, left: set<string>, ordered: seq<string>,
                          queue: seq<string>, indegree: map<string, int>)
  {
    && CountsParents(g, s, left, indegree)
    && Sorted(queue, Ready(g, left))
    && (forall n | n in s - left :: Up(g, n) * left == {})
    && ordered + Peel(g, left) == Peel(g, s)
  }

  method TopologicalOrder(reg: Registry, names: seq<string>) returns (r: Result<seq<string>>)
    requires NoDup(names)
    ensures (forall n | n in names :: n in reg) ==> r == Order(reg, Elements(names))
    ensures (exists n :: n in names && n !in reg) ==>
              r.Err? && r.error.UnknownTable? && r.error.table in names && r.error.table !in reg
  {
    var v := 0;
    while v < |names|
      invariant 0 <= v <= |names|
      invariant forall i | 0 <= i < v :: names[i] in reg
    {
      if names[v] !in reg {
        return Err(UnknownTable(names[v]));
      }
      v := v + 1;
    }
    var children, indegree := BuildGraph(reg, names);
    var s := Elements(names);
    var zero := set n | n in names && indegree[n] == 0;
    ZeroIsReady(GraphOf(reg), s, indegree, zero);
    var queue := SortNames(zero);
    var ordered := PeelQueue(GraphOf(reg), s, children, indegree, queue);
    OrderByLength(reg, names, ordered);
    if |ordered| != |names| {
      return Err(SchemaCycle(s - Elements(ordered)));
    }
    return Ok(ordered);
  }

  lemma OrderByLength(reg: Registry, names: seq<string>, ordered: seq<string>)
    requires NoDup(names) && ordered == Peel(GraphOf(reg), Elements(names))
    ensures Order(reg, Elements(names)) ==
            if |ordered| != |names| then Err(SchemaCycle(Elements(names) - Elements(ordered))) else Ok(ordered)
  {
    PeelLists(GraphOf(reg), Elements(names));
    LengthTells(names, ordered, Stuck(GraphOf(reg), Elements(names)));
  }

  lemma LengthTells(names: seq<string>, ordered: seq<string>, stuck: set<string>)
    requires NoDup(names) && NoDup(ordered) && stuck <= Elements(names)
    requires Elements(ordered) == Elements(names) - stuck
    ensures |ordered| == |names| <==> stuck == {}
    ensures stuck == Elements(names) - Elements(ordered)
  {
    NoDupLength(ordered);
    NoDupLength(names);
    SubsetSize(Elements(ordered), Elements(names));
    if stuck == {} {
      assert Elements(ordered) == Elements(names);
    }
  }

  /** The main loop. */
  method PeelQueue(ghost g: Graph, ghost s: set<string>, children: map<string, set<string>>,
                   indegree0: map<string, int>, queue0: seq<string>) returns (ordered: seq<string>)
    requires ListsChildren(g, s, s, children) && CountsParents(g, s, s, indegree0)
    requires Sorted(queue0, Ready(g, s))
    ensures ordered == Peel(g, s)
  {
    var queue, indegree := queue0, indegree0;
    ordered := [];
    ghost var left := s;
    PeelingStarts(g, s, queue, indegree);
    while queue != []
      invariant Peeling(g, s, left, ordered, queue, indegree)
      decreases left
    {
      ghost var node := queue[0];
      PeelingHead(g, s, left, ordered, queue, indegree);
      ordered, indegree, queue := PopHead(g, s, left, children, ordered, indegree, queue);
      left := left - {node};
    }
    PeelingDone(g, s, left, ordered, indegree);
  }

  lemma PeelingStarts(g: Graph, s: set<string>, queue: seq<string>, indegree: map<string, int>)
    requires CountsParents(g, s, s, indegree) && Sorted(queue, Ready(g, s))
    ensures Peeling(g, s, s, [], queue, indegree)
  {
    assert [] + Peel(g, s) == Peel(g, s);
  }

  lemma PeelingHead(g: Graph, s: set<string>, left: set<string>, ordered: seq<string>,
                    queue: seq<string>, indegree: map<string, int>)
    requires Peeling(g, s, left, ordered, queue, indegree) && queue != []
    ensures queue[0] in left
  {
    HeadIsReady(g, left, queue);
  }

  lemma PeelingDone(g: Graph, s: set<string>, left: set<string>, ordered: seq<string>, indegree: map<string, int>)
    requires Peeling(g, s, left, ordered, [], indegree)
    ensures ordered == Peel(g, s)
  {
    assert Ready(g, left) == {};
    assert ordered + [] == ordered;
  }

  lemma HeadIsReady(g: Graph, left: set<string>, queue: seq<string>)
    requires Sorted(queue, Ready(g, left)) && queue != []
    ensures queue[0] in Ready(g, left) && queue[0] == Least(Ready(g, left))
    ensures Sorted(queue[1..], Ready(g, left) - {queue[0]})
  {
    assert queue[0] in Elements(queue);
    SortedHead(queue, Ready(g, left));
  }

  method PopHead(ghost g: Graph, ghost s: set<string>, ghost left: set<string>, children: map<string, set<string>>,
                 ordered0: seq<string>, indegree0: map<string, int>, queue0: seq<string>)
    returns (ordered: seq<string>, indegree: map<string, int>, queue: seq<string>)
    requires ListsChildren(g, s, s, children)
    requires queue0 != [] && Peeling(g, s, left, ordered0, queue0, indegree0)
    ensures Peeling(g, s, left - {queue0[0]}, ordered, queue, indegree)
  {
    var node := queue0[0];
    HeadIsReady(g, left, queue0);
    KidsAreLeft(g, s, left, node, children);
    ordered := ordered0 + [node];
    PeelHead(g, s, left, ordered0, node);
    ghost var q;
    indegree, queue, q := ReleaseChildren(g, s, left, node, children[node], indegree0, queue0[1..]);
    NextReady(g, s, left, node, children[node], indegree, q);
  }

  /** Peeling takes the popped node next. */
  lemma PeelHead(g: Graph, s: set<string>, left: set<string>, ordered: seq<string>, node: string)
    requires Ready(g, left) != {} && node == Least(Ready(g, left))
    requires ordered + Peel(g, left) == Peel(g, s)
    ensures (ordered + [node]) + Peel(g, left - {node}) == Peel(g, s)
  {
    assert Peel(g, left) == [node] + Peel(g, left - {node});
    assert (ordered + [node]) + Peel(g, left - {node}) == ordered + ([node] + Peel(g, left - {node}));
  }

  lemma ZeroIsReady(g: Graph, s: set<string>, indegree: map<string, int>, zero: set<string>)
    requires CountsParents(g, s, s, indegree)
    requires forall n :: n in zero <==> n in s && indegree[n] == 0
    ensures zero == Ready(g, s)
  {
  }

  lemma KidsAreLeft(g: Graph, s: set<string>, left: set<string>, node: string, children: map<string, set<string>>)
    requires left <= s && node in Ready(g, left)
    requires forall n | n in s - left :: Up(g, n) * left == {}
    requires ListsChildren(g, s, s, children)
    ensures children[node] <= left - {node}
    ensures forall c | c in left :: c in children[node] <==> node in Up(g, c)
  {
    forall c | c in children[node]
      ensures c in left
    {
      assert node in left;
      assert c in s - left ==> node in Up(g, c) * left;
    }
  }

  lemma NextReady(g: Graph, s: set<string>, left: set<string>, node: string, kids: set<string>,
                  indegree: map<string, int>, q: set<string>)
    requires node in Ready(g, left) && kids <= left - {node}
    requires forall c | c in left :: c in kids <==> node in Up(g, c)
    requires Released(g, s, left, node, kids, indegree, q)
    ensures CountsParents(g, s, left - {node}, indegree)
    ensures q == Ready(g, left - {node})
  {
    forall n | n in left - {node}
      ensures indegree[n] == Waits(g, n, left - {node}) && (n in q <==> n in Ready(g, left - {node}))
    {
      NextReadyAt(g, s, left, node, kids, indegree, q, n);
    }
  }

  lemma NextReadyAt(g: Graph, s: set<string>, left: set<string>, node: string, kids: set<string>,
                    indegree: map<string, int>, q: set<string>, n: string)
    requires node in Ready(g, left) && n in left - {node}
    requires n in kids <==> node in Up(g, n)
    requires Released(g, s, left, node, kids, indegree, q)
    ensures indegree[n] == Waits(g, n, left - {node})
    ensures n in q <==> n in Ready(g, left - {node})
  {
    if n in kids {
      assert node in Up(g, n) * left;
    } else {
      assert Up(g, n) * (left - {node}) == Up(g, n) * left;
    }
  }
}
