/** Breadth-first search for a chain of joins over foreign keys, followed in both directions. */
module JoinPlanner {
  import opened Outcomes

  /** One foreign key of the source schema. */
  datatype SourceFk = SourceFk(table: string, column: string, foreignTable: string, foreignColumn: string)

  datatype Edge = Edge(fromTable: string, fromCol: string, toTable: string, toCol: string)

  type Path = seq<Edge>

  // ------------------------------------------------------------------- edges

  /** Foreign keys leaving a table. */
  function Outgoing(fks: seq<SourceFk>, t: string): seq<Edge>
  {
    if fks == [] then []
    else (if fks[0].table == t then [Edge(t, fks[0].column, fks[0].foreignTable, fks[0].foreignColumn)] else [])
         + Outgoing(fks[1..], t)
  }

  /** Foreign keys arriving at a table, followed backwards. */
  function Incoming(fks: seq<SourceFk>, t: string): seq<Edge>
  {
    if fks == [] then []
    else (if fks[0].foreignTable == t then [Edge(t, fks[0].foreignColumn, fks[0].table, fks[0].column)] else [])
         + Incoming(fks[1..], t)
  }

  function EdgesFrom(fks: seq<SourceFk>, t: string): seq<Edge>
  {
    Outgoing(fks, t) + Incoming(fks, t)
  }

  function Neighbours(fks: seq<SourceFk>, t: string): set<string>
  {
    set e | e in EdgesFrom(fks, t) :: e.toTable
  }

  function AllTables(fks: seq<SourceFk>): set<string>
  {
    set fk | fk in fks :: fk.table
  }

  function AllForeign(fks: seq<SourceFk>): set<string>
  {
    set fk | fk in fks :: fk.foreignTable
  }

  lemma {:induction false} EdgesStart(fks: seq<SourceFk>, t: string, e: Edge)
    requires e in Outgoing(fks, t) || e in Incoming(fks, t)
    ensures e.fromTable == t && e.toTable in AllTables(fks) + AllForeign(fks)
    decreases |fks|
  {
    assert fks[0] in fks;
    if e in Outgoing(fks[1..], t) || e in Incoming(fks[1..], t) {
      EdgesStart(fks[1..], t, e);
    }
  }

  // --------------------------------------------------- what an edge joins on

  /** The edge is a foreign key, read forwards or backwards: its columns are that key's columns. */
  ghost predicate FromKey(fks: seq<SourceFk>, e: Edge)
  {
    exists fk :: fk in fks && (e == Edge(fk.table, fk.column, fk.foreignTable, fk.foreignColumn)
                               || e == Edge(fk.foreignTable, fk.foreignColumn, fk.table, fk.column))
  }

  /** The edges of a table are exactly the foreign keys that touch it, read from its side. */
  lemma {:induction false} EdgesAreKeys(fks: seq<SourceFk>, t: string, e: Edge)
    ensures e in Outgoing(fks, t) <==>
            exists fk :: fk in fks && fk.table == t && e == Edge(fk.table, fk.column, fk.foreignTable, fk.foreignColumn)
    ensures e in Incoming(fks, t) <==>
            exists fk :: fk in fks && fk.foreignTable == t && e == Edge(fk.foreignTable, fk.foreignColumn, fk.table, fk.column)
    ensures e in EdgesFrom(fks, t) ==> e.fromTable == t && FromKey(fks, e)
    decreases |fks|
  {
    if fks != [] {
      EdgesAreKeys(fks[1..], t, e);
      assert forall fk :: fk in fks <==> fk == fks[0] || fk in fks[1..];
    }
  }

  /** Each foreign key joins its two tables, in both directions, and nothing else makes tables neighbours. */
  lemma NeighboursAreJoined(fks: seq<SourceFk>, t: string, u: string)
    ensures u in Neighbours(fks, t) <==>
            exists fk :: fk in fks && ((fk.table == t && fk.foreignTable == u) || (fk.foreignTable == t && fk.table == u))
    ensures forall fk | fk in fks ::
              && Edge(fk.table, fk.column, fk.foreignTable, fk.foreignColumn) in EdgesFrom(fks, fk.table)
              && Edge(fk.foreignTable, fk.foreignColumn, fk.table, fk.column) in EdgesFrom(fks, fk.foreignTable)
  {
    forall fk | fk in fks
      ensures Edge(fk.table, fk.column, fk.foreignTable, fk.foreignColumn) in EdgesFrom(fks, fk.table)
      ensures Edge(fk.foreignTable, fk.foreignColumn, fk.table, fk.column) in EdgesFrom(fks, fk.foreignTable)
    {
      EdgesAreKeys(fks, fk.table, Edge(fk.table, fk.column, fk.foreignTable, fk.foreignColumn));
      EdgesAreKeys(fks, fk.foreignTable, Edge(fk.foreignTable, fk.foreignColumn, fk.table, fk.column));
    }
    if u in Neighbours(fks, t) {
      var e :| e in EdgesFrom(fks, t) && e.toTable == u;
      EdgesAreKeys(fks, t, e);
    }
    if fk :| fk in fks && fk.table == t && fk.foreignTable == u {
      assert Edge(fk.table, fk.column, fk.foreignTable, fk.foreignColumn) in EdgesFrom(fks, t);
    }
    if fk :| fk in fks && fk.foreignTable == t && fk.table == u {
      assert Edge(fk.foreignTable, fk.foreignColumn, fk.table, fk.column) in EdgesFrom(fks, t);
    }
  }

  // ------------------------------------------------------- walks and distances

  /** `t` is `n` foreign-key steps from `source`. */
  ghost predicate Walk(fks: seq<SourceFk>, source: string, n: nat, t: string)
  {
    if n == 0 then t == source
    else exists u :: Walk(fks, source, n - 1, u) && t in Neighbours(fks, u)
  }

  /** A chain of joins from `source` to `t`, every edge a foreign key. */
  ghost predicate JoinChain(fks: seq<SourceFk>, source: string, path: Path, t: string)
    decreases |path|
  {
    if path == [] then t == source
    else
      var last := path[|path| - 1];
      last.toTable == t && last in EdgesFrom(fks, last.fromTable) && JoinChain(fks, source, path[..|path| - 1], last.fromTable)
  }

  lemma WalkOn(fks: seq<SourceFk>, source: string, n: nat, e: Edge)
    requires Walk(fks, source, n, e.fromTable) && e in EdgesFrom(fks, e.fromTable)
    ensures Walk(fks, source, n + 1, e.toTable)
  {
    assert e.toTable in Neighbours(fks, e.fromTable);
  }

  /** The first edge leaves the source and each other one leaves where the one before arrived. */
  ghost predicate Linked(source: string, path: Path)
  {
    forall i | 0 <= i < |path| :: Leaves(source, path, i)
  }

  predicate Leaves(source: string, path: Path, i: nat)
    requires i < |path|
  {
    path[i].fromTable == if i == 0 then source else path[i - 1].toTable
  }

  /** Every edge of a chain is a foreign key, and the chain is linked. */
  lemma {:induction false} ChainOfKeys(fks: seq<SourceFk>, source: string, path: Path, t: string)
    requires JoinChain(fks, source, path, t)
    ensures (forall e | e in path :: FromKey(fks, e)) && Linked(source, path)
    decreases |path|
  {
    if path != [] {
      var front, last := path[..|path| - 1], path[|path| - 1];
      ChainOfKeys(fks, source, front, last.fromTable);
      EdgesAreKeys(fks, last.fromTable, last);
      assert path == front + [last];
      assert JoinChain(fks, source, front, last.fromTable);
      forall i | 0 <= i < |path|
        ensures Leaves(source, path, i)
      {
        if i < |front| {
          assert Leaves(source, front, i);
        }
      }
    }
  }

  lemma {:induction false} ChainIsWalk(fks: seq<SourceFk>, source: string, path: Path, t: string)
    requires JoinChain(fks, source, path, t)
    ensures Walk(fks, source, |path|, t)
    decreases |path|
  {
    if path != [] {
      var last := path[|path| - 1];
      ChainIsWalk(fks, source, path[..|path| - 1], last.fromTable);
      WalkOn(fks, source, |path| - 1, last);
    }
  }

  /** Along a walk that leaves `done`, the first table outside is known from inside. */
  lemma {:induction false} FirstOutside(fks: seq<SourceFk>, source: string, done: set<string>, n: nat, t: string)
    returns (m: nat, w: string)
    requires Walk(fks, source, n, t) && t !in done
    ensures m <= n && w !in done && Walk(fks, source, m, w) && (m == n ==> w == t)
    ensures w == source || exists u :: u in done && w in Neighbours(fks, u)
    decreases n
  {
    if n == 0 {
      m, w := 0, t;
    } else {
      var u :| Walk(fks, source, n - 1, u) && t in Neighbours(fks, u);
      if u in done {
        m, w := n, t;
      } else {
        m, w := FirstOutside(fks, source, done, n - 1, u);
      }
    }
  }

  // ------------------------------------------------------------- exploration

  /** The path recorded for each table met so far, and the tables still to visit, in order. */
  datatype Frontier = Frontier(queue: seq<string>, paths: map<string, Path>)

  function Meet(f: Frontier, path: Path, e: Edge): Frontier
  {
    if e.toTable in f.paths then f
    else Frontier(f.queue + [e.toTable], f.paths[e.toTable := path + [e]])
  }

  /** Record each table not met before behind the current one. */
  function Discover(edges: seq<Edge>, path: Path, f: Frontier): Frontier
  {
    if edges == [] then f else Discover(edges[1..], path, Meet(f, path, edges[0]))
  }

  function Visit(fks: seq<SourceFk>, f: Frontier): Frontier
    requires f.queue != [] && f.queue[0] in f.paths
  {
    Discover(EdgesFrom(fks, f.queue[0]), f.paths[f.queue[0]], f.(queue := f.queue[1..]))
  }

  function Start(source: string): Frontier
  {
    Frontier([source], map[source := []])
  }

  /** Every recorded path but the source's own extends the path of the table before it. */
  ghost predicate TreePaths(fks: seq<SourceFk>, source: string, paths: map<string, Path>)
  {
    && source in paths && paths[source] == []
    && forall t | t in paths && t != source ::
         && paths[t] != [] && var e := paths[t][|paths[t]| - 1];
         && e.toTable == t && e in EdgesFrom(fks, e.fromTable)
         && e.fromTable in paths && paths[t] == paths[e.fromTable] + [e]
  }

  ghost predicate Shortest(fks: seq<SourceFk>, source: string, paths: map<string, Path>)
  {
    forall t: string, n: nat | t in paths && Walk(fks, source, n, t) :: |paths[t]| <= n
  }

  /** Waiting tables have recorded paths of length between `low` and one more, shorter first. */
  ghost predicate Waiting(f: Frontier, low: nat)
  {
    && (forall t | t in f.queue :: t in f.paths && low <= |f.paths[t]| <= low + 1)
    && forall i, j | 0 <= i < j < |f.queue| :: f.queue[i] != f.queue[j] && |f.paths[f.queue[i]]| <= |f.paths[f.queue[j]]|
  }

  /** While `cur` is being visited: every table met is done, current or waiting. */
  ghost predicate Midway(fks: seq<SourceFk>, source: string, f: Frontier, done: set<string>, cur: string)
  {
    && TreePaths(fks, source, f.paths) && Shortest(fks, source, f.paths)
    && cur in f.paths && cur !in done && cur !in f.queue && done <= f.paths.Keys
    && (forall t | t in f.paths :: t in done || t == cur || t in f.queue)
    && (forall t | t in f.queue :: t !in done)
    && (forall t | t in done :: Neighbours(fks, t) <= f.paths.Keys)
    && Waiting(f, |f.paths[cur]|)
  }

  lemma NewIsShortest(fks: seq<SourceFk>, source: string, f: Frontier, done: set<string>, cur: string, t: string, n: nat)
    requires Midway(fks, source, f, done, cur) && t !in f.paths && Walk(fks, source, n, t)
    ensures |f.paths[cur]| + 1 <= n
  {
    var m: nat, w: string := FirstOutside(fks, source, done, n, t);
    assert w in f.paths;
    assert |f.paths[w]| <= m;
    assert m < n;
  }

  lemma MeetTree(fks: seq<SourceFk>, source: string, f: Frontier, cur: string, e: Edge)
    requires TreePaths(fks, source, f.paths) && cur in f.paths
    requires e in EdgesFrom(fks, cur) && e.fromTable == cur && e.toTable !in f.paths
    ensures TreePaths(fks, source, Meet(f, f.paths[cur], e).paths)
  {
    var paths := Meet(f, f.paths[cur], e).paths;
    forall t | t in paths && t != source
      ensures paths[t] != [] && var d: Edge := paths[t][|paths[t]| - 1];
              && d.toTable == t && d in EdgesFrom(fks, d.fromTable)
              && d.fromTable in paths && paths[t] == paths[d.fromTable] + [d]
    {
      if t != e.toTable {
        assert paths[t] == f.paths[t];
      }
    }
  }

  lemma MeetWaiting(f: Frontier, cur: string, e: Edge)
    requires cur in f.paths && e.toTable !in f.paths && Waiting(f, |f.paths[cur]|)
    ensures Waiting(Meet(f, f.paths[cur], e), |f.paths[cur]|)
  {
    var f' := Meet(f, f.paths[cur], e);
    assert f'.queue[|f.queue|] == e.toTable;
    forall i, j | 0 <= i < j < |f'.queue|
      ensures f'.queue[i] != f'.queue[j] && f'.queue[i] in f'.paths && f'.queue[j] in f'.paths
      ensures |f'.paths[f'.queue[i]]| <= |f'.paths[f'.queue[j]]|
    {
      assert f'.queue[i] == f.queue[i] && f.queue[i] in f.queue;
      if j < |f.queue| {
        assert f'.queue[j] == f.queue[j] && f.queue[j] in f.queue;
      }
    }
  }

  lemma MeetShortest(fks: seq<SourceFk>, source: string, f: Frontier, done: set<string>, cur: string, e: Edge)
    requires Midway(fks, source, f, done, cur) && e.toTable !in f.paths
    ensures Shortest(fks, source, Meet(f, f.paths[cur], e).paths)
  {
    forall n | Walk(fks, source, n, e.toTable)
      ensures |f.paths[cur]| + 1 <= n
    {
      NewIsShortest(fks, source, f, done, cur, e.toTable, n);
    }
  }

  lemma MeetMidway(fks: seq<SourceFk>, source: string, f: Frontier, done: set<string>, cur: string, e: Edge)
    requires Midway(fks, source, f, done, cur) && e in EdgesFrom(fks, cur) && e.fromTable == cur
    ensures Midway(fks, source, Meet(f, f.paths[cur], e), done, cur)
    ensures e.toTable in Meet(f, f.paths[cur], e).paths
    ensures Meet(f, f.paths[cur], e).paths[cur] == f.paths[cur]
  {
    if e.toTable !in f.paths {
      MeetTree(fks, source, f, cur, e);
      MeetWaiting(f, cur, e);
      MeetShortest(fks, source, f, done, cur, e);
    }
  }

  lemma {:induction false} DiscoverMidway(fks: seq<SourceFk>, source: string, f: Frontier, done: set<string>, cur: string, edges: seq<Edge>)
    requires Midway(fks, source, f, done, cur)
    requires forall e | e in edges :: e in EdgesFrom(fks, cur) && e.fromTable == cur
    ensures Midway(fks, source, Discover(edges, f.paths[cur], f), done, cur)
    ensures forall e | e in edges :: e.toTable in Discover(edges, f.paths[cur], f).paths
    ensures forall t | t in f.paths :: t in Discover(edges, f.paths[cur], f).paths && Discover(edges, f.paths[cur], f).paths[t] == f.paths[t]
    decreases |edges|
  {
    if edges != [] {
      assert edges[0] in edges;
      MeetMidway(fks, source, f, done, cur, edges[0]);
      DiscoverMidway(fks, source, Meet(f, f.paths[cur], edges[0]), done, cur, edges[1..]);
    }
  }

  /** Between two visits. */
  ghost predicate Exploring(fks: seq<SourceFk>, source: string, f: Frontier, done: set<string>)
  {
    && TreePaths(fks, source, f.paths) && Shortest(fks, source, f.paths)
    && done <= f.paths.Keys
    && (forall t | t in f.paths :: t in done || t in f.queue)
    && (forall t | t in f.queue :: t !in done)
    && (forall t | t in done :: Neighbours(fks, t) <= f.paths.Keys)
    && if f.queue == [] then true else f.queue[0] in f.paths && Waiting(f, |f.paths[f.queue[0]]|)
  }

  lemma PopMidway(fks: seq<SourceFk>, source: string, f: Frontier, done: set<string>)
    requires Exploring(fks, source, f, done) && f.queue != []
    ensures Midway(fks, source, f.(queue := f.queue[1..]), done, f.queue[0])
  {
    PopWaiting(f, |f.paths[f.queue[0]]|);
    PopMembers(f.queue);
  }

  lemma PopMembers(q: seq<string>)
    requires q != []
    ensures forall t :: t in q <==> t == q[0] || t in q[1..]
  {
    assert q == [q[0]] + q[1..];
  }

  lemma PopWaiting(f: Frontier, low: nat)
    requires f.queue != [] && Waiting(f, low)
    ensures Waiting(f.(queue := f.queue[1..]), low) && f.queue[0] !in f.queue[1..]
  {
    var q := f.queue[1..];
    PopMembers(f.queue);
    forall i, j | 0 <= i < j < |q|
      ensures q[i] in f.paths && q[j] in f.paths && q[i] != q[j] && |f.paths[q[i]]| <= |f.paths[q[j]]|
    {
      assert q[i] == f.queue[i + 1] && q[j] == f.queue[j + 1];
      assert q[i] in f.queue && q[j] in f.queue;
    }
    forall j | 0 <= j < |q|
      ensures q[j] != f.queue[0]
    {
      assert q[j] == f.queue[j + 1];
    }
  }

  lemma MidwayExplores(fks: seq<SourceFk>, source: string, f: Frontier, done: set<string>, cur: string)
    requires Midway(fks, source, f, done, cur) && Neighbours(fks, cur) <= f.paths.Keys
    ensures Exploring(fks, source, f, done + {cur})
  {
    if f.queue != [] {
      var low := |f.paths[f.queue[0]]|;
      assert f.queue[0] in f.queue;
      forall t | t in f.queue
        ensures low <= |f.paths[t]| <= low + 1
      {
        var j :| 0 <= j < |f.queue| && f.queue[j] == t;
        assert j > 0 ==> |f.paths[f.queue[0]]| <= |f.paths[f.queue[j]]|;
      }
    }
  }

  lemma VisitExplores(fks: seq<SourceFk>, source: string, f: Frontier, done: set<string>)
    requires Exploring(fks, source, f, done) && f.queue != []
    ensures Exploring(fks, source, Visit(fks, f), done + {f.queue[0]})
    ensures forall t | t in f.paths :: t in Visit(fks, f).paths && Visit(fks, f).paths[t] == f.paths[t]
  {
    var cur := f.queue[0];
    var g := f.(queue := f.queue[1..]);
    PopMidway(fks, source, f, done);
    forall e | e in EdgesFrom(fks, cur)
      ensures e.fromTable == cur
    {
      EdgesStart(fks, cur, e);
    }
    DiscoverMidway(fks, source, g, done, cur, EdgesFrom(fks, cur));
    MidwayExplores(fks, source, Visit(fks, f), done, cur);
  }

  lemma StartExplores(fks: seq<SourceFk>, source: string)
    ensures Exploring(fks, source, Start(source), {})
  {
  }

  // ---------------------------------------------- the whole exploration tree

  function Universe(fks: seq<SourceFk>): set<string>
  {
    AllTables(fks) + AllForeign(fks)
  }

  ghost predicate QueueKnown(f: Frontier)
  {
    forall t | t in f.queue :: t in f.paths
  }

  /** Something was added out of a finite stock, or nothing changed. */
  ghost predicate Progress(f: Frontier, g: Frontier, stock: set<string>)
  {
    && QueueKnown(g) && f.paths.Keys <= g.paths.Keys
    && (g == f || stock - g.paths.Keys < stock - f.paths.Keys)
  }

  lemma MeetProgress(f: Frontier, path: Path, e: Edge, stock: set<string>)
    requires QueueKnown(f) && e.toTable in stock
    ensures Progress(f, Meet(f, path, e), stock)
  {
    if e.toTable !in f.paths {
      assert e.toTable in stock - f.paths.Keys && e.toTable !in stock - Meet(f, path, e).paths.Keys;
    }
  }

  lemma ProgressTransitive(f: Frontier, g: Frontier, h: Frontier, stock: set<string>)
    requires Progress(f, g, stock) && Progress(g, h, stock)
    ensures Progress(f, h, stock)
  {
  }

  /** Meeting tables only ever adds some, out of a finite stock. */
  lemma {:induction false} DiscoverProgress(edges: seq<Edge>, path: Path, f: Frontier, stock: set<string>)
    requires QueueKnown(f) && forall e | e in edges :: e.toTable in stock
    ensures Progress(f, Discover(edges, path, f), stock)
    decreases |edges|
  {
    if edges != [] {
      assert edges[0] in edges;
      var g := Meet(f, path, edges[0]);
      MeetProgress(f, path, edges[0], stock);
      DiscoverProgress(edges[1..], path, g, stock);
      ProgressTransitive(f, g, Discover(edges[1..], path, g), stock);
    }
  }

  lemma VisitProgress(fks: seq<SourceFk>, f: Frontier)
    requires QueueKnown(f) && f.queue != []
    ensures f.queue[0] in f.paths && QueueKnown(Visit(fks, f))
    ensures || Visit(fks, f) == f.(queue := f.queue[1..])
            || Universe(fks) - Visit(fks, f).paths.Keys < Universe(fks) - f.paths.Keys
  {
    assert f.queue[0] in f.queue;
    forall e | e in EdgesFrom(fks, f.queue[0])
      ensures e.toTable in Universe(fks)
    {
      EdgesStart(fks, f.queue[0], e);
    }
    DiscoverProgress(EdgesFrom(fks, f.queue[0]), f.paths[f.queue[0]], f.(queue := f.queue[1..]), Universe(fks));
  }

  /** The paths recorded once nothing is left to visit. */
  ghost function Explore(fks: seq<SourceFk>, f: Frontier): map<string, Path>
    requires QueueKnown(f)
    decreases Universe(fks) - f.paths.Keys, |f.queue|
  {
    if f.queue == [] then f.paths
    else
      VisitProgress(fks, f);
      Explore(fks, Visit(fks, f))
  }

  /** The tree of join paths from a table: it does not depend on what is looked for. */
  ghost function Tree(fks: seq<SourceFk>, source: string): map<string, Path>
  {
    Explore(fks, Start(source))
  }

  lemma {:induction false} ExploreKeeps(fks: seq<SourceFk>, source: string, f: Frontier, done: set<string>)
    requires Exploring(fks, source, f, done) && QueueKnown(f)
    ensures var paths := Explore(fks, f);
            && (forall t | t in f.paths :: t in paths && paths[t] == f.paths[t])
            && TreePaths(fks, source, paths) && Shortest(fks, source, paths)
            && (forall t | t in paths :: Neighbours(fks, t) <= paths.Keys)
    decreases Universe(fks) - f.paths.Keys, |f.queue|
  {
    if f.queue != [] {
      VisitProgress(fks, f);
      VisitExplores(fks, source, f, done);
      ExploreKeeps(fks, source, Visit(fks, f), done + {f.queue[0]});
    }
  }

  lemma {:induction false} WalkEndsInside(fks: seq<SourceFk>, source: string, s: set<string>, n: nat, t: string)
    requires source in s && (forall u | u in s :: Neighbours(fks, u) <= s) && Walk(fks, source, n, t)
    ensures t in s
    decreases n
  {
    if n > 0 {
      var u :| Walk(fks, source, n - 1, u) && t in Neighbours(fks, u);
      WalkEndsInside(fks, source, s, n - 1, u);
    }
  }

  lemma {:induction false} TreePathIsChain(fks: seq<SourceFk>, source: string, paths: map<string, Path>, t: string)
    requires TreePaths(fks, source, paths) && t in paths
    ensures JoinChain(fks, source, paths[t], t)
    decreases |paths[t]|
  {
    if t != source {
      var e: Edge := paths[t][|paths[t]| - 1];
      assert paths[t][..|paths[t]| - 1] == paths[e.fromTable];
      TreePathIsChain(fks, source, paths, e.fromTable);
    }
  }

  /** The tree holds every table foreign keys connect to the source, each with a shortest chain
      of joins, and one path always extends another by its last edge. */
  lemma TreeIsShortestPaths(fks: seq<SourceFk>, source: string)
    ensures var tree := Tree(fks, source);
            && TreePaths(fks, source, tree)
            && (forall t | t in tree :: JoinChain(fks, source, tree[t], t))
            && (forall t: string, n: nat | Walk(fks, source, n, t) :: t in tree && |tree[t]| <= n)
  {
    StartExplores(fks, source);
    ExploreKeeps(fks, source, Start(source), {});
    var tree := Tree(fks, source);
    forall t | t in tree
      ensures JoinChain(fks, source, tree[t], t)
    {
      TreePathIsChain(fks, source, tree, t);
    }
    forall t: string, n: nat | Walk(fks, source, n, t)
      ensures t in tree
    {
      WalkEndsInside(fks, source, tree.Keys, n, t);
    }
  }

  // ------------------------------------------- which key, when there are several

  lemma {:induction false} MetFirst(edges: seq<Edge>, path: Path, f: Frontier, before: seq<Edge>, e: Edge, after: seq<Edge>)
    requires edges == before + [e] + after && e.toTable !in f.paths && forall d | d in before :: d.toTable != e.toTable
    ensures e.toTable in Discover(edges, path, f).paths && Discover(edges, path, f).paths[e.toTable] == path + [e]
    decreases |before|
  {
    if before == [] {
      assert edges[0] == e;
      DiscoverKeeps(edges[1..], path, Meet(f, path, e), e.toTable);
    } else {
      assert edges[0] == before[0] && before[0] in before && edges[1..] == before[1..] + [e] + after;
      MetFirst(edges[1..], path, Meet(f, path, edges[0]), before[1..], e, after);
    }
  }

  lemma {:induction false} DiscoverKeeps(edges: seq<Edge>, path: Path, f: Frontier, t: string)
    requires t in f.paths
    ensures t in Discover(edges, path, f).paths && Discover(edges, path, f).paths[t] == f.paths[t]
    decreases |edges|
  {
    if edges != [] {
      DiscoverKeeps(edges[1..], path, Meet(f, path, edges[0]), t);
    }
  }

  /** The first outgoing key from a table to another stands before all its other edges there. */
  lemma {:induction false} FirstOutgoing(fks: seq<SourceFk>, t: string, u: string, i: nat) returns (before: seq<Edge>, after: seq<Edge>)
    requires i < |fks| && fks[i].table == t && fks[i].foreignTable == u
    requires forall j | 0 <= j < i :: !(fks[j].table == t && fks[j].foreignTable == u)
    ensures Outgoing(fks, t) == before + [Edge(t, fks[i].column, u, fks[i].foreignColumn)] + after
    ensures forall d | d in before :: d.toTable != u
    decreases i
  {
    var head := if fks[0].table == t then [Edge(t, fks[0].column, fks[0].foreignTable, fks[0].foreignColumn)] else [];
    if i == 0 {
      before, after := [], Outgoing(fks[1..], t);
    } else {
      var rest;
      rest, after := FirstOutgoing(fks[1..], t, u, i - 1);
      before := head + rest;
    }
  }

  lemma {:induction false} FirstIncoming(fks: seq<SourceFk>, t: string, u: string, i: nat) returns (before: seq<Edge>, after: seq<Edge>)
    requires i < |fks| && fks[i].foreignTable == t && fks[i].table == u
    requires forall j | 0 <= j < i :: !(fks[j].foreignTable == t && fks[j].table == u)
    ensures Incoming(fks, t) == before + [Edge(t, fks[i].foreignColumn, u, fks[i].column)] + after
    ensures forall d | d in before :: d.toTable != u
    decreases i
  {
    var head := if fks[0].foreignTable == t then [Edge(t, fks[0].foreignColumn, fks[0].table, fks[0].column)] else [];
    if i == 0 {
      before, after := [], Incoming(fks[1..], t);
    } else {
      var rest;
      rest, after := FirstIncoming(fks[1..], t, u, i - 1);
      before := head + rest;
    }
  }

  lemma FirstEdgeIsPath(fks: seq<SourceFk>, source: string, before: seq<Edge>, e: Edge, after: seq<Edge>)
    requires EdgesFrom(fks, source) == before + [e] + after && e.toTable != source && forall d | d in before :: d.toTable != e.toTable
    ensures e.toTable in Tree(fks, source) && Tree(fks, source)[e.toTable] == [e]
  {
    var f := Start(source);
    MetFirst(EdgesFrom(fks, source), [], f.(queue := f.queue[1..]), before, e, after);
    assert [] + [e] == [e];
    StartExplores(fks, source);
    VisitProgress(fks, f);
    VisitExplores(fks, source, f, {});
    ExploreKeeps(fks, source, Visit(fks, f), {source});
  }

  /** A table the source refers to is joined over the first key that does; one that only refers to the source,
      over the first key of its own that does. */
  lemma DirectJoin(fks: seq<SourceFk>, source: string, u: string, i: nat)
    requires u != source && i < |fks|
    ensures fks[i].table == source && fks[i].foreignTable == u && (forall j | 0 <= j < i :: !(fks[j].table == source && fks[j].foreignTable == u))
            ==> u in Tree(fks, source) && Tree(fks, source)[u] == [Edge(source, fks[i].column, u, fks[i].foreignColumn)]
    ensures fks[i].foreignTable == source && fks[i].table == u && (forall j | 0 <= j < i :: !(fks[j].foreignTable == source && fks[j].table == u))
            && (forall fk | fk in fks :: !(fk.table == source && fk.foreignTable == u))
            ==> u in Tree(fks, source) && Tree(fks, source)[u] == [Edge(source, fks[i].foreignColumn, u, fks[i].column)]
  {
    if fks[i].table == source && fks[i].foreignTable == u && (forall j | 0 <= j < i :: !(fks[j].table == source && fks[j].foreignTable == u)) {
      var before, after := FirstOutgoing(fks, source, u, i);
      var e := Edge(source, fks[i].column, u, fks[i].foreignColumn);
      assert EdgesFrom(fks, source) == before + [e] + (after + Incoming(fks, source));
      FirstEdgeIsPath(fks, source, before, e, after + Incoming(fks, source));
    }
    if fks[i].foreignTable == source && fks[i].table == u && (forall j | 0 <= j < i :: !(fks[j].foreignTable == source && fks[j].table == u))
       && (forall fk | fk in fks :: !(fk.table == source && fk.foreignTable == u)) {
      var before, after := FirstIncoming(fks, source, u, i);
      var e := Edge(source, fks[i].foreignColumn, u, fks[i].column);
      forall d | d in Outgoing(fks, source) ensures d.toTable != u {
        EdgesAreKeys(fks, source, d);
      }
      assert EdgesFrom(fks, source) == (Outgoing(fks, source) + before) + [e] + after;
      FirstEdgeIsPath(fks, source, Outgoing(fks, source) + before, e, after);
    }
  }

  // ------------------------------------------------------------- the search

  type Columns = map<string, seq<string>>

  predicate HasColumn(columns: Columns, t: string, c: string)
  {
    t in columns && c in columns[t]
  }

  predicate Qualifies(columns: Columns, source: string, target: Option<string>, c: string, t: string)
  {
    (if target.Some? then t == target.value else t != source) && HasColumn(columns, t, c)
  }

  /** Crude singular: a trailing "es", else a trailing "s", is dropped. */
  function Singular(t: string): string
  {
    if |t| >= 2 && t[|t| - 2..] == "es" then t[..|t| - 2]
    else if |t| >= 1 && t[|t| - 1..] == "s" then t[..|t| - 1]
    else t
  }

  /** The edge a column name of the source suggests towards a table. */
  function NamedEdge(columns: Columns, pks: map<string, string>, source: string, t: string): Option<Edge>
  {
    var pk := if t in pks then pks[t] else "id";
    if HasColumn(columns, source, t + "_id") then Some(Edge(source, t + "_id", t, pk))
    else if HasColumn(columns, source, Singular(t) + "_id") then Some(Edge(source, Singular(t) + "_id", t, pk))
    else None
  }

  /** A table is looked for: the one asked for, or any but the source, that has the column. */
  lemma QualifiesIff(columns: Columns, source: string, target: Option<string>, c: string, t: string)
    ensures Qualifies(columns, source, target, c, t) <==>
            && (target == Some(t) || (target == None && t != source))
            && t in columns && exists i :: 0 <= i < |columns[t]| && columns[t][i] == c
  {
  }

  /** A guess is possible exactly if the source has a column named after the table, the full name first. */
  lemma NamedEdgeIff(columns: Columns, pks: map<string, string>, source: string, t: string)
    ensures NamedEdge(columns, pks, source, t).None? <==>
            source !in columns || (t + "_id" !in columns[source] && Singular(t) + "_id" !in columns[source])
    ensures NamedEdge(columns, pks, source, t).Some? ==>
              var e := NamedEdge(columns, pks, source, t).value;
              Guessed(columns, pks, source, e) && e.toTable == t && (t + "_id" in columns[source] ==> e.fromCol == t + "_id")
  {
  }

  lemma SingularIs(t: string, s: string)
    ensures Singular(t) == s <==>
            || t == s + "es"
            || (t == s + "s" && !(|t| >= 2 && t[|t| - 2] == 'e'))
            || (t == s && (t == "" || t[|t| - 1] != 's'))
  {
    if |t| >= 2 && t[|t| - 2..] == "es" {
      assert t == t[..|t| - 2] + "es";
      assert t[|t| - 2] == 'e' && t[|t| - 1] == 's';
    } else if |t| >= 1 && t[|t| - 1..] == "s" {
      assert t == t[..|t| - 1] + "s";
      assert |t| >= 2 ==> t[|t| - 2..] == [t[|t| - 2], t[|t| - 1]];
    } else if t != "" {
      assert t[|t| - 1..] == [t[|t| - 1]];
    }
    if t == s + "es" {
      assert t[|t| - 2..] == "es" && t[..|t| - 2] == s;
    }
    if t == s + "s" {
      assert t[|t| - 1..] == "s" && t[..|t| - 1] == s;
    }
  }

  /** A guessed edge: from a column of the source named after the table, in full or in the singular, to the table's key. */
  ghost predicate Guessed(columns: Columns, pks: map<string, string>, source: string, e: Edge)
  {
    && e.fromTable == source && source in columns && e.fromCol in columns[source]
    && (e.fromCol == e.toTable + "_id" || e.fromCol == Singular(e.toTable) + "_id")
    && e.toCol == (if e.toTable in pks then pks[e.toTable] else "id")
  }

  lemma {:induction false} NamedPathIsGuessed(columns: Columns, pks: map<string, string>, source: string, target: Option<string>, c: string,
                                              tables: seq<string>)
    ensures var path := NamedPath(columns, pks, source, target, c, tables);
            path == [] || (|path| == 1 && Guessed(columns, pks, source, path[0]) && path[0].toTable in tables && path[0].toTable != source
                           && (target.Some? ==> path[0].toTable == target.value)
                           && path[0].toTable in columns && c in columns[path[0].toTable])
    decreases |tables|
  {
    if tables != [] {
      NamedPathIsGuessed(columns, pks, source, target, c, tables[1..]);
    }
  }

  /** The first table, in listing order, that has the column and a suggesting name. */
  function NamedPath(columns: Columns, pks: map<string, string>, source: string, target: Option<string>, c: string,
                     tables: seq<string>): Path
  {
    if tables == [] then []
    else if tables[0] != source && Qualifies(columns, source, target, c, tables[0])
            && NamedEdge(columns, pks, source, tables[0]).Some? then
      [NamedEdge(columns, pks, source, tables[0]).value]
    else NamedPath(columns, pks, source, target, c, tables[1..])
  }

  /** A chain of joins over foreign keys to a nearest table with the column, along the tree; only
      when foreign keys reach no such table, one edge guessed from names, or nothing. */
  method FindJoinPath(source: string, c: string, tables: seq<string>, columns: Columns, pks: map<string, string>,
                      fks: seq<SourceFk>, target: Option<string>) returns (path: Path)
    ensures (exists n: nat, t :: Walk(fks, source, n, t) && Qualifies(columns, source, target, c, t)) ==>
              exists t :: t in Tree(fks, source) && Qualifies(columns, source, target, c, t) && path == Tree(fks, source)[t]
    ensures forall n: nat, t | Walk(fks, source, n, t) && Qualifies(columns, source, target, c, t) :: |path| <= n
    ensures (forall n: nat, t | Walk(fks, source, n, t) :: !Qualifies(columns, source, target, c, t)) ==>
              path == NamedPath(columns, pks, source, target, c, tables)
    ensures (forall e | e in path :: FromKey(fks, e)) || (|path| == 1 && Guessed(columns, pks, source, path[0]))
    ensures Linked(source, path)
    ensures path != [] ==>
              var t := path[|path| - 1].toTable;
              t in columns && c in columns[t] && if target.Some? then t == target.value else t != source
  {
    var f := Start(source);
    ghost var done: set<string> := {};
    StartExplores(fks, source);
    while f.queue != []
      invariant QueueKnown(f) && Exploring(fks, source, f, done)
      invariant Explore(fks, f) == Tree(fks, source)
      invariant forall t | t in done :: !Qualifies(columns, source, target, c, t)
      decreases Universe(fks) - f.paths.Keys, |f.queue|
    {
      var current := f.queue[0];
      VisitProgress(fks, f);
      if Qualifies(columns, source, target, c, current) {
        path := f.paths[current];
        NearestFound(fks, source, f, done, columns, target, c);
        FoundInTree(fks, source, f, done);
        EndsWhereItQualifies(columns, source, target, c, path, current);
        return;
      }
      VisitExplores(fks, source, f, done);
      f := DiscoverEach(EdgesFrom(fks, current), f.paths[current], f.(queue := f.queue[1..]));
      done := done + {current};
    }
    assert forall t | t in f.paths :: t in done;
    NothingFound(fks, source, f.paths, columns, target, c);
    path := GuessJoin(columns, pks, source, target, c, tables);
    NamedPathIsGuessed(columns, pks, source, target, c, tables);
  }

  /** The path recorded for the table visited is the tree's, and made of foreign keys. */
  lemma FoundInTree(fks: seq<SourceFk>, source: string, f: Frontier, done: set<string>)
    requires Exploring(fks, source, f, done) && QueueKnown(f) && f.queue != [] && Explore(fks, f) == Tree(fks, source)
    ensures var path := f.paths[f.queue[0]];
            && f.queue[0] in Tree(fks, source) && path == Tree(fks, source)[f.queue[0]]
            && (forall e | e in path :: FromKey(fks, e)) && Linked(source, path)
            && (path != [] ==> path[|path| - 1].toTable == f.queue[0])
  {
    ExploreKeeps(fks, source, f, done);
    TreePathIsChain(fks, source, f.paths, f.queue[0]);
    ChainOfKeys(fks, source, f.paths[f.queue[0]], f.queue[0]);
  }

  lemma EndsWhereItQualifies(columns: Columns, source: string, target: Option<string>, c: string, path: Path, t: string)
    requires Qualifies(columns, source, target, c, t) && (path != [] ==> path[|path| - 1].toTable == t)
    ensures path != [] ==>
              var u := path[|path| - 1].toTable;
              u in columns && c in columns[u] && if target.Some? then u == target.value else u != source
  {
  }

  method DiscoverEach(edges: seq<Edge>, path: Path, f0: Frontier) returns (f: Frontier)
    ensures f == Discover(edges, path, f0)
  {
    f := f0;
    var i := 0;
    while i < |edges|
      invariant 0 <= i <= |edges|
      invariant Discover(edges[i..], path, f) == Discover(edges, path, f0)
    {
      var e := edges[i];
      assert edges[i..][0] == e && edges[i..][1..] == edges[i + 1..];
      if e.toTable !in f.paths {
        f := Frontier(f.queue + [e.toTable], f.paths[e.toTable := path + [e]]);
      }
      i := i + 1;
    }
  }

  method GuessJoin(columns: Columns, pks: map<string, string>, source: string, target: Option<string>, c: string,
                   tables: seq<string>) returns (path: Path)
    ensures path == NamedPath(columns, pks, source, target, c, tables)
  {
    var i := 0;
    while i < |tables|
      invariant 0 <= i <= |tables|
      invariant NamedPath(columns, pks, source, target, c, tables) == NamedPath(columns, pks, source, target, c, tables[i..])
    {
      var t := tables[i];
      assert tables[i..][0] == t && tables[i..][1..] == tables[i + 1..];
      if t != source && (target.None? || t == target.value) && HasColumn(columns, t, c) {
        var singular := Singular(t);
        var pk := if t in pks then pks[t] else "id";
        if HasColumn(columns, source, t + "_id") {
          return [Edge(source, t + "_id", t, pk)];
        }
        if HasColumn(columns, source, singular + "_id") {
          return [Edge(source, singular + "_id", t, pk)];
        }
      }
      i := i + 1;
    }
    return [];
  }

  /** The first qualifying table visited is a nearest one. */
  lemma NearestFound(fks: seq<SourceFk>, source: string, f: Frontier, done: set<string>, columns: Columns,
                     target: Option<string>, c: string)
    requires Exploring(fks, source, f, done) && f.queue != []
    requires forall t | t in done :: !Qualifies(columns, source, target, c, t)
    ensures f.queue[0] in f.paths
    ensures forall n: nat, t | Walk(fks, source, n, t) && Qualifies(columns, source, target, c, t) ::
              |f.paths[f.queue[0]]| <= n
    ensures exists n: nat :: Walk(fks, source, n, f.queue[0])
  {
    forall n: nat, t | Walk(fks, source, n, t) && Qualifies(columns, source, target, c, t)
      ensures |f.paths[f.queue[0]]| <= n
    {
      var m: nat, w: string := FirstOutside(fks, source, done, n, t);
      assert w in f.paths && w in f.queue;
      assert |f.paths[w]| <= m;
    }
    TreePathIsChain(fks, source, f.paths, f.queue[0]);
    ChainIsWalk(fks, source, f.paths[f.queue[0]], f.queue[0]);
  }

  lemma NothingFound(fks: seq<SourceFk>, source: string, paths: map<string, Path>, columns: Columns,
                     target: Option<string>, c: string)
    requires source in paths && forall t | t in paths :: Neighbours(fks, t) <= paths.Keys
    requires forall t | t in paths :: !Qualifies(columns, source, target, c, t)
    ensures forall n: nat, t | Walk(fks, source, n, t) :: !Qualifies(columns, source, target, c, t)
  {
    forall n: nat, t | Walk(fks, source, n, t)
      ensures t in paths
    {
      WalkEndsInside(fks, source, paths.Keys, n, t);
    }
  }
}
