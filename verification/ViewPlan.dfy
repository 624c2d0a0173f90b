/** Accumulate join paths into one view: the join order is always legal, every selected column
    has a joined table and a name of its own. */
module ViewPlan {
  import opened Ordering
  import opened Outcomes
  import opened JoinPlanner

  datatype Projected = Projected(table: string, column: string, alias: string)

  // ---------------------------------------------------------- one path per table

  /** The join path to a table other than the source: its tree path, or the edge its name
      suggests when foreign keys do not reach it. */
  ghost function PathTo(fks: seq<SourceFk>, columns: Columns, pks: map<string, string>, source: string, t: string): Path
  {
    if t in Tree(fks, source) then Tree(fks, source)[t]
    else if NamedEdge(columns, pks, source, t).Some? then [NamedEdge(columns, pks, source, t).value]
    else []
  }

  /** The edge that brings a table in. */
  ghost predicate Own(fks: seq<SourceFk>, columns: Columns, pks: map<string, string>, source: string, e: Edge)
  {
    var p := PathTo(fks, columns, pks, source, e.toTable);
    e.toTable != source && p != [] && p[|p| - 1] == e
  }

  /** Legal join order: each edge starts at the source or at a table an earlier edge joined. */
  ghost predicate LegalOrder(source: string, edges: seq<Edge>)
  {
    forall i | 0 <= i < |edges| ::
      edges[i].fromTable == source || exists j :: 0 <= j < i && edges[j].toTable == edges[i].fromTable
  }

  /** No table, the source included, is joined twice. */
  ghost predicate JoinedOnce(source: string, edges: seq<Edge>)
  {
    && (forall i | 0 <= i < |edges| :: edges[i].toTable != source)
    && forall i, j | 0 <= i < j < |edges| :: edges[i].toTable != edges[j].toTable
  }

  lemma {:induction false} NamedForTarget(columns: Columns, pks: map<string, string>, source: string, t: string, c: string, tables: seq<string>)
    requires t != source && t in tables && HasColumn(columns, t, c)
    ensures NamedPath(columns, pks, source, Some(t), c, tables)
         == if NamedEdge(columns, pks, source, t).Some? then [NamedEdge(columns, pks, source, t).value] else []
    decreases |tables|
  {
    if tables[0] != t {
      NamedForTarget(columns, pks, source, t, c, tables[1..]);
    } else if NamedEdge(columns, pks, source, t).None? {
      NothingNamed(columns, pks, source, t, c, tables);
    }
  }

  lemma {:induction false} NothingNamed(columns: Columns, pks: map<string, string>, source: string, t: string, c: string, tables: seq<string>)
    requires NamedEdge(columns, pks, source, t).None?
    ensures NamedPath(columns, pks, source, Some(t), c, tables) == []
    decreases |tables|
  {
    if tables != [] {
      NothingNamed(columns, pks, source, t, c, tables[1..]);
    }
  }

  /** Looking for a given table gives its path, whichever of its columns is wanted. */
  method FindPathTo(source: string, c: string, tables: seq<string>, columns: Columns, pks: map<string, string>,
                    fks: seq<SourceFk>, t: string) returns (path: Path)
    requires t != source && t in tables && HasColumn(columns, t, c)
    ensures path == PathTo(fks, columns, pks, source, t)
  {
    path := FindJoinPath(source, c, tables, columns, pks, fks, Some(t));
    TreeIsShortestPaths(fks, source);
    NamedForTarget(columns, pks, source, t, c, tables);
    if t in Tree(fks, source) {
      ChainIsWalk(fks, source, Tree(fks, source)[t], t);
      assert Qualifies(columns, source, Some(t), c, t);
    } else {
      assert forall n: nat, u | Walk(fks, source, n, u) :: u in Tree(fks, source);
    }
  }

  /** Along a tree path, every edge is the one that brings its table in. */
  lemma {:induction false} TreePathEdges(fks: seq<SourceFk>, source: string, tree: map<string, Path>, t: string, i: nat)
    requires TreePaths(fks, source, tree) && t in tree && i < |tree[t]|
    ensures var e := tree[t][i];
            && e.toTable in tree && e.toTable != source && tree[e.toTable] == tree[t][..i + 1]
            && e.fromTable == (if i == 0 then source else tree[t][i - 1].toTable)
    decreases |tree[t]|
  {
    var last: Edge := tree[t][|tree[t]| - 1];
    assert t != source;
    var before := tree[last.fromTable];
    assert tree[t] == before + [last];
    if i < |before| {
      TreePathEdges(fks, source, tree, last.fromTable, i);
      assert before[..i + 1] == tree[t][..i + 1];
    } else {
      assert tree[t][..i + 1] == tree[t];
      if i > 0 {
        assert last.fromTable != source;
        var prev: Edge := before[|before| - 1];
        assert prev.toTable == last.fromTable;
      } else {
        assert tree[last.fromTable] == [];
      }
    }
  }

  /** An edge of a tree path is the one that brings its table in. */
  lemma TreeEdgeOwn(fks: seq<SourceFk>, columns: Columns, pks: map<string, string>, source: string, t: string, i: nat)
    requires t in Tree(fks, source) && i < |Tree(fks, source)[t]|
    ensures var p := Tree(fks, source)[t];
            Own(fks, columns, pks, source, p[i]) && p[i].fromTable == (if i == 0 then source else p[i - 1].toTable)
  {
    TreeIsShortestPaths(fks, source);
    var tree := Tree(fks, source);
    TreePathEdges(fks, source, tree, t, i);
    var e: Edge := tree[t][i];
    var p := PathTo(fks, columns, pks, source, e.toTable);
    assert p == tree[t][..i + 1];
    assert p[|p| - 1] == e;
  }

  lemma PathEdges(fks: seq<SourceFk>, columns: Columns, pks: map<string, string>, source: string, t: string, i: nat)
    requires t != source && i < |PathTo(fks, columns, pks, source, t)|
    ensures var p := PathTo(fks, columns, pks, source, t);
            Own(fks, columns, pks, source, p[i]) && p[i].fromTable == (if i == 0 then source else p[i - 1].toTable)
  {
    if t in Tree(fks, source) {
      TreeEdgeOwn(fks, columns, pks, source, t, i);
    }
  }

  /** A path to a table other than the source ends there. */
  lemma PathEnds(fks: seq<SourceFk>, columns: Columns, pks: map<string, string>, source: string, t: string)
    requires t != source && PathTo(fks, columns, pks, source, t) != []
    ensures var p := PathTo(fks, columns, pks, source, t); p[|p| - 1].toTable == t
  {
    TreeIsShortestPaths(fks, source);
  }

  // --------------------------------------------------------------- accumulation

  /** A legal plan made of own edges. */
  ghost predicate Plan(fks: seq<SourceFk>, columns: Columns, pks: map<string, string>, source: string, edges: seq<Edge>)
  {
    && (forall e | e in edges :: Own(fks, columns, pks, source, e))
    && LegalOrder(source, edges) && JoinedOnce(source, edges)
  }

  lemma PlanGrows(fks: seq<SourceFk>, columns: Columns, pks: map<string, string>, source: string, edges: seq<Edge>, e: Edge)
    requires Plan(fks, columns, pks, source, edges) && e !in edges && Own(fks, columns, pks, source, e)
    requires e.fromTable == source || exists d :: d in edges && d.toTable == e.fromTable
    ensures Plan(fks, columns, pks, source, edges + [e])
  {
    var edges' := edges + [e];
    forall j | 0 <= j < |edges|
      ensures edges[j].toTable != e.toTable
    {
      assert edges[j] in edges && Own(fks, columns, pks, source, edges[j]);
    }
    forall i | 0 <= i < |edges'|
      ensures edges'[i].fromTable == source || exists j :: 0 <= j < i && edges'[j].toTable == edges'[i].fromTable
    {
      if i < |edges| {
        assert edges'[i] == edges[i];
        if edges[i].fromTable != source {
          var j :| 0 <= j < i && edges[j].toTable == edges[i].fromTable;
          assert edges'[j] == edges[j];
        }
      } else if e.fromTable != source {
        var d :| d in edges && d.toTable == e.fromTable;
        var j :| 0 <= j < |edges| && edges[j] == d;
        assert edges'[j] == d;
      }
    }
  }

  /** Add the edges of one path that are not there yet. */
  method AddPath(edges0: seq<Edge>, path: Path, ghost fks: seq<SourceFk>, ghost columns: Columns,
                 ghost pks: map<string, string>, ghost source: string, ghost t: string) returns (edges: seq<Edge>)
    requires t != source && path == PathTo(fks, columns, pks, source, t)
    requires Plan(fks, columns, pks, source, edges0)
    ensures Plan(fks, columns, pks, source, edges) && edges0 <= edges
    ensures forall e :: e in edges <==> e in edges0 || e in path
  {
    edges := edges0;
    var i := 0;
    while i < |path|
      invariant 0 <= i <= |path|
      invariant Plan(fks, columns, pks, source, edges) && edges0 <= edges
      invariant forall e :: e in edges <==> e in edges0 || e in path[..i]
    {
      var e := path[i];
      PathEdges(fks, columns, pks, source, t, i);
      assert path[..i + 1] == path[..i] + [e];
      if e !in edges {
        if i > 0 {
          assert path[i - 1] in path[..i];
        }
        PlanGrows(fks, columns, pks, source, edges, e);
        edges := edges + [e];
      }
      i := i + 1;
    }
    assert path[..i] == path;
  }

  /** Every column found elsewhere belongs to a table some edge joins. */
  ghost predicate Bound(source: string, edges: seq<Edge>, t: string)
  {
    t == source || exists e :: e in edges && e.toTable == t
  }

  /** The first listed table other than the source that has the column and can be joined. */
  ghost function FirstJoinable(source: string, c: string, tables: seq<string>, columns: Columns,
                               pks: map<string, string>, fks: seq<SourceFk>): Option<string>
  {
    if tables == [] then None
    else
      var t := tables[0];
      if t != source && HasColumn(columns, t, c) && PathTo(fks, columns, pks, source, t) != [] then Some(t)
      else FirstJoinable(source, c, tables[1..], columns, pks, fks)
  }

  /** What is found elsewhere: each wanted column, in the first table that can give it, in order. */
  ghost function Collected(source: string, wanted: seq<string>, tables: seq<string>, columns: Columns,
                           pks: map<string, string>, fks: seq<SourceFk>): seq<Projected>
  {
    if wanted == [] then []
    else
      var c := wanted[|wanted| - 1];
      Collected(source, wanted[..|wanted| - 1], tables, columns, pks, fks)
      + match FirstJoinable(source, c, tables, columns, pks, fks) {
          case None => []
          case Some(t) => [Projected(t, c, c)]
        }
  }

  /** The edges are those of the paths to the tables found, no more and no fewer. */
  ghost predicate EdgesOf(fks: seq<SourceFk>, columns: Columns, pks: map<string, string>, source: string,
                          found: seq<Projected>, edges: seq<Edge>)
  {
    forall e :: e in edges <==> exists p :: p in found && e in PathTo(fks, columns, pks, source, p.table)
  }

  lemma {:induction false} FirstJoinableIs(source: string, c: string, tables: seq<string>, columns: Columns,
                                           pks: map<string, string>, fks: seq<SourceFk>, t: string)
    requires FirstJoinable(source, c, tables, columns, pks, fks) == Some(t)
    ensures t in tables && t != source && HasColumn(columns, t, c) && PathTo(fks, columns, pks, source, t) != []
  {
    if tables[0] != t || FirstJoinable(source, c, tables[1..], columns, pks, fks) == Some(t) {
      if t != source && tables[0] == t && HasColumn(columns, t, c) && PathTo(fks, columns, pks, source, t) != [] {
      } else {
        FirstJoinableIs(source, c, tables[1..], columns, pks, fks, t);
      }
    }
  }

  /** The inner loop: the first other table with the column that can be joined, and its path. */
  method FindColumn(source: string, c: string, tables: seq<string>, columns: Columns,
                    pks: map<string, string>, fks: seq<SourceFk>) returns (hit: Option<string>, path: Path)
    ensures hit == FirstJoinable(source, c, tables, columns, pks, fks)
    ensures hit.Some? ==> hit.value != source && path == PathTo(fks, columns, pks, source, hit.value)
  {
    var j := 0;
    while j < |tables|
      invariant 0 <= j <= |tables|
      invariant FirstJoinable(source, c, tables[j..], columns, pks, fks) == FirstJoinable(source, c, tables, columns, pks, fks)
    {
      var t := tables[j];
      assert tables[j..][0] == t && tables[j..][1..] == tables[j + 1..];
      j := j + 1;
      if t == source || !HasColumn(columns, t, c) {
        continue;
      }
      path := FindPathTo(source, c, tables, columns, pks, fks, t);
      if path != [] {
        return Some(t), path;
      }
    }
    return None, [];
  }

  /** For each wanted column, the first other table that has it and can be joined, and the edges
      of the paths to those tables. */
  method CollectJoins(source: string, wanted: seq<string>, tables: seq<string>, columns: Columns,
                      pks: map<string, string>, fks: seq<SourceFk>) returns (edges: seq<Edge>, found: seq<Projected>)
    ensures Plan(fks, columns, pks, source, edges)
    ensures found == Collected(source, wanted, tables, columns, pks, fks)
    ensures EdgesOf(fks, columns, pks, source, found, edges)
  {
    edges, found := [], [];
    NothingGathered(source, tables, columns, pks, fks);
    var i := 0;
    while i < |wanted|
      invariant 0 <= i <= |wanted|
      invariant Gathered(source, wanted[..i], tables, columns, pks, fks, edges, found)
    {
      var c := wanted[i];
      TakeNext(wanted, i);
      var hit, path := FindColumn(source, c, tables, columns, pks, fks);
      if hit.Some? {
        ghost var before := edges;
        edges := AddPath(edges, path, fks, columns, pks, source, hit.value);
        OneGathered(source, wanted[..i], tables, columns, pks, fks, before, found, c, hit.value, edges);
        found := found + [Projected(hit.value, c, c)];
      } else {
        NoneGathered(source, wanted[..i], tables, columns, pks, fks, edges, found, c);
      }
      i := i + 1;
    }
    assert wanted[..i] == wanted;
  }

  /** Half way: a legal plan, what the columns so far are found in, and the edges of the paths there. */
  ghost predicate Gathered(source: string, wanted: seq<string>, tables: seq<string>, columns: Columns, pks: map<string, string>,
                           fks: seq<SourceFk>, edges: seq<Edge>, found: seq<Projected>)
  {
    && Plan(fks, columns, pks, source, edges) && found == Collected(source, wanted, tables, columns, pks, fks)
    && EdgesOf(fks, columns, pks, source, found, edges)
  }

  lemma NothingGathered(source: string, tables: seq<string>, columns: Columns, pks: map<string, string>, fks: seq<SourceFk>)
    ensures forall wanted: seq<string> | wanted == [] :: Gathered(source, wanted, tables, columns, pks, fks, [], [])
  {
  }

  lemma CollectedNext(source: string, wanted: seq<string>, tables: seq<string>, columns: Columns, pks: map<string, string>,
                      fks: seq<SourceFk>, c: string)
    ensures Collected(source, wanted + [c], tables, columns, pks, fks) == Collected(source, wanted, tables, columns, pks, fks)
            + match FirstJoinable(source, c, tables, columns, pks, fks) { case None => [] case Some(t) => [Projected(t, c, c)] }
  {
    assert (wanted + [c])[..|wanted|] == wanted;
  }

  lemma NoneGathered(source: string, wanted: seq<string>, tables: seq<string>, columns: Columns, pks: map<string, string>,
                     fks: seq<SourceFk>, edges: seq<Edge>, found: seq<Projected>, c: string)
    requires Gathered(source, wanted, tables, columns, pks, fks, edges, found)
    requires FirstJoinable(source, c, tables, columns, pks, fks).None?
    ensures Gathered(source, wanted + [c], tables, columns, pks, fks, edges, found)
  {
    CollectedNext(source, wanted, tables, columns, pks, fks, c);
    assert found + [] == found;
  }

  lemma OneGathered(source: string, wanted: seq<string>, tables: seq<string>, columns: Columns, pks: map<string, string>,
                    fks: seq<SourceFk>, before: seq<Edge>, found: seq<Projected>, c: string, t: string, edges: seq<Edge>)
    requires Gathered(source, wanted, tables, columns, pks, fks, before, found)
    requires FirstJoinable(source, c, tables, columns, pks, fks) == Some(t) && Plan(fks, columns, pks, source, edges)
    requires forall e :: e in edges <==> e in before || e in PathTo(fks, columns, pks, source, t)
    ensures Gathered(source, wanted + [c], tables, columns, pks, fks, edges, found + [Projected(t, c, c)])
  {
    CollectedNext(source, wanted, tables, columns, pks, fks, c);
    MoreEdges(fks, columns, pks, source, found, before, edges, Projected(t, c, c));
  }

  lemma MoreEdges(fks: seq<SourceFk>, columns: Columns, pks: map<string, string>, source: string,
                  found: seq<Projected>, before: seq<Edge>, edges: seq<Edge>, p: Projected)
    requires EdgesOf(fks, columns, pks, source, found, before)
    requires forall e :: e in edges <==> e in before || e in PathTo(fks, columns, pks, source, p.table)
    ensures EdgesOf(fks, columns, pks, source, found + [p], edges)
  {
    forall e
      ensures e in edges <==> exists q :: q in found + [p] && e in PathTo(fks, columns, pks, source, q.table)
    {
      if e in before {
        var q :| q in found && e in PathTo(fks, columns, pks, source, q.table);
        assert q in found + [p];
      }
      assert p in found + [p];
    }
  }

  /** A wanted column is found exactly in the first table that can give it. */
  lemma {:induction false} CollectedMember(source: string, wanted: seq<string>, tables: seq<string>, columns: Columns,
                                           pks: map<string, string>, fks: seq<SourceFk>, p: Projected)
    ensures p in Collected(source, wanted, tables, columns, pks, fks) <==>
            p.alias == p.column && p.column in wanted
            && FirstJoinable(source, p.column, tables, columns, pks, fks) == Some(p.table)
  {
    if wanted != [] {
      var front, last := wanted[..|wanted| - 1], wanted[|wanted| - 1];
      assert wanted == front + [last];
      CollectedMember(source, front, tables, columns, pks, fks, p);
    }
  }

  /** Every column found belongs to a table the edges join. */
  lemma CollectedIsBound(source: string, wanted: seq<string>, tables: seq<string>, columns: Columns,
                         pks: map<string, string>, fks: seq<SourceFk>, edges: seq<Edge>, p: Projected)
    requires p in Collected(source, wanted, tables, columns, pks, fks)
    requires EdgesOf(fks, columns, pks, source, Collected(source, wanted, tables, columns, pks, fks), edges)
    ensures p.table != source && HasColumn(columns, p.table, p.column) && Bound(source, edges, p.table)
  {
    CollectedMember(source, wanted, tables, columns, pks, fks, p);
    FirstJoinableIs(source, p.column, tables, columns, pks, fks, p.table);
    PathEnds(fks, columns, pks, source, p.table);
    var path := PathTo(fks, columns, pks, source, p.table);
    assert path[|path| - 1] in path;
    assert path[|path| - 1] in edges;
  }

  // ----------------------------------------------------------------- the view

  /** The JOIN clauses, one per table, refusing an edge whose table is not joined yet. */
  method JoinClauses(source: string, joins: seq<Edge>) returns (r: Option<seq<Edge>>)
    ensures LegalOrder(source, joins) ==> r.Some?
    ensures LegalOrder(source, joins) && JoinedOnce(source, joins) ==> r == Some(joins)
    ensures r.Some? ==> LegalOrder(source, r.value) && JoinedOnce(source, r.value)
    ensures r.Some? ==> forall e | e in joins :: Bound(source, r.value, e.toTable)
  {
    var joined := {source};
    var clauses: seq<Edge> := [];
    var i := 0;
    while i < |joins|
      invariant 0 <= i <= |joins|
      invariant forall t :: t in joined <==> Bound(source, clauses, t)
      invariant forall k | 0 <= k < i :: joins[k].toTable in joined
      invariant LegalOrder(source, clauses) && JoinedOnce(source, clauses)
      invariant JoinedOnce(source, joins) ==> clauses == joins[..i]
    {
      var e := joins[i];
      assert joins[..i + 1] == joins[..i] + [e];
      if e.toTable in joined {
        if JoinedOnce(source, joins) {
          AlreadyJoined(source, joins, clauses, i);
        }
      } else {
        if e.fromTable !in joined {
          if LegalOrder(source, joins) {
            assert false;
          }
          return None;
        }
        ClauseAdded(source, clauses, e);
        clauses := clauses + [e];
        joined := joined + {e.toTable};
      }
      i := i + 1;
    }
    assert joins[..i] == joins;
    return Some(clauses);
  }

  lemma AlreadyJoined(source: string, joins: seq<Edge>, clauses: seq<Edge>, i: nat)
    requires i < |joins| && JoinedOnce(source, joins) && clauses == joins[..i]
    ensures !Bound(source, clauses, joins[i].toTable)
  {
  }

  lemma ClauseAdded(source: string, clauses: seq<Edge>, e: Edge)
    requires LegalOrder(source, clauses) && JoinedOnce(source, clauses)
    requires Bound(source, clauses, e.fromTable) && !Bound(source, clauses, e.toTable)
    ensures LegalOrder(source, clauses + [e]) && JoinedOnce(source, clauses + [e])
    ensures forall t :: Bound(source, clauses + [e], t) <==> Bound(source, clauses, t) || t == e.toTable
  {
    var after := clauses + [e];
    forall i | 0 <= i < |after|
      ensures after[i].fromTable == source || exists j :: 0 <= j < i && after[j].toTable == after[i].fromTable
    {
      if i < |clauses| {
        assert after[i] == clauses[i];
        if clauses[i].fromTable != source {
          var j :| 0 <= j < i && clauses[j].toTable == clauses[i].fromTable;
          assert after[j] == clauses[j];
        }
      } else if e.fromTable != source {
        var d :| d in clauses && d.toTable == e.fromTable;
        var j :| 0 <= j < |clauses| && clauses[j] == d;
        assert after[j] == d;
      }
    }
    assert forall j | 0 <= j < |clauses| :: clauses[j] in clauses;
    assert e in after;
    forall t | Bound(source, clauses, t)
      ensures Bound(source, after, t)
    {
      if t != source {
        var d :| d in clauses && d.toTable == t;
        assert d in after;
      }
    }
  }

  // ------------------------------------------------------------- output names

  function Digits(n: nat): string
  {
    if n < 10 then [('0' as int + n) as char] else Digits(n / 10) + [('0' as int + n % 10) as char]
  }

  /** The number a string of digits writes. */
  function Written(s: string): nat
    requires forall i | 0 <= i < |s| :: '0' <= s[i] <= '9'
  {
    if s == "" then 0 else 10 * Written(s[..|s| - 1]) + (s[|s| - 1] as int - '0' as int)
  }

  /** Decimal digits, without leading zeros, that write the number. */
  lemma {:induction false} DigitsWrite(n: nat)
    ensures Digits(n) != "" && forall i | 0 <= i < |Digits(n)| :: '0' <= Digits(n)[i] <= '9'
    ensures Written(Digits(n)) == n && (n > 0 ==> Digits(n)[0] != '0')
    decreases n
  {
    if n >= 10 {
      DigitsWrite(n / 10);
      assert Digits(n)[..|Digits(n)| - 1] == Digits(n / 10);
    } else {
      assert Digits(n)[..0] == "" && Written("") == 0;
    }
  }

  lemma {:induction false} DigitsInjective(a: nat, b: nat)
    requires Digits(a) == Digits(b)
    ensures a == b
    decreases a
  {
    assert Digits(a)[|Digits(a)| - 1] == Digits(b)[|Digits(b)| - 1];
    assert a % 10 == b % 10;
    DigitsLength(a);
    DigitsLength(b);
    if a >= 10 && b >= 10 {
      assert Digits(a)[..|Digits(a)| - 1] == Digits(a / 10);
      assert Digits(b)[..|Digits(b)| - 1] == Digits(b / 10);
      DigitsInjective(a / 10, b / 10);
    }
  }

  lemma {:induction false} DigitsLength(n: nat)
    ensures |Digits(n)| >= 1 && (n >= 10 ==> |Digits(n)| >= 2)
    decreases n
  {
    if n >= 10 {
      DigitsLength(n / 10);
    }
  }

  function Suffixed(base: string, k: nat): string
  {
    base + "_" + Digits(k)
  }

  lemma SuffixedInjective(base: string, a: nat, b: nat)
    requires Suffixed(base, a) == Suffixed(base, b)
    ensures a == b
  {
    assert Suffixed(base, a)[|base| + 1..] == Digits(a);
    assert Suffixed(base, b)[|base| + 1..] == Digits(b);
    DigitsInjective(a, b);
  }

  /** The name if it is free, else its first numbered variant that is. */
  ghost predicate FirstFree(candidate: string, name: string, used: set<string>)
  {
    if name !in used then candidate == name
    else exists k: nat :: k >= 2 && candidate == Suffixed(name, k) && FreeFrom(name, k, used)
  }

  ghost predicate FreeFrom(name: string, k: nat, used: set<string>)
  {
    Suffixed(name, k) !in used && forall j: nat :: 2 <= j < k ==> Suffixed(name, j) in used
  }

  method FreeName(name: string, used: set<string>) returns (candidate: string)
    ensures candidate !in used && FirstFree(candidate, name, used)
    ensures name !in used ==> candidate == name
    ensures name in used ==> exists k: nat :: k >= 2 && candidate == name + "_" + Digits(k) && TakenBelow(name, k, used)
  {
    candidate := name;
    var suffix := 2;
    ghost var tried: set<string> := {};
    while candidate in used
      invariant suffix >= 2 && tried <= used
      invariant forall x | x in tried :: x == name || exists k: nat :: 2 <= k < suffix && x == Suffixed(name, k)
      invariant candidate !in tried
      invariant if suffix == 2 then candidate == name else name in used && candidate == Suffixed(name, suffix - 1)
      invariant forall j: nat :: 2 <= j && j + 1 < suffix ==> Suffixed(name, j) in used
      decreases used - tried
    {
      tried := tried + {candidate};
      candidate := Suffixed(name, suffix);
      forall x | x in tried
        ensures x != candidate
      {
        if x == name {
          assert |candidate| > |name|;
        } else {
          var k: nat :| 2 <= k < suffix && x == Suffixed(name, k);
          if x == candidate {
            SuffixedInjective(name, k, suffix);
          }
        }
      }
      suffix := suffix + 1;
    }
    if suffix > 2 {
      assert FreeFrom(name, suffix - 1, used);
      BelowIsTaken(name, suffix - 1, used);
    }
  }

  /** Every lower number, from two on, is taken. */
  ghost predicate TakenBelow(name: string, k: nat, used: set<string>)
  {
    forall j: nat :: 2 <= j < k ==> name + "_" + Digits(j) in used
  }

  lemma BelowIsTaken(name: string, k: nat, used: set<string>)
    requires FreeFrom(name, k, used)
    ensures Suffixed(name, k) == name + "_" + Digits(k) && TakenBelow(name, k, used)
  {
    forall j: nat | 2 <= j < k ensures name + "_" + Digits(j) in used {
      assert Suffixed(name, j) in used;
    }
  }

  function AliasesOf(columns: seq<Projected>): set<string>
  {
    set p | p in columns :: p.alias
  }

  /** Each column keeps its place and takes its alias if no earlier one has it, else that alias
      behind its table's name, numbered if need be. */
  ghost predicate Aliased(columns: seq<Projected>, out: seq<Projected>)
  {
    && SameCells(columns, out)
    && forall i | 0 <= i < |out| ::
         AliasGiven(columns[i], AliasesOf(out[..i]), out[i].alias)
  }

  /** The name a column is given when these are taken. */
  ghost predicate AliasGiven(item: Projected, used: set<string>, alias: string)
  {
    alias !in used && FirstFree(alias, if item.alias in used then item.table + "_" + item.alias else item.alias, used)
  }

  /** Give every projected column an output name of its own. */
  method UniqueAliases(columns: seq<Projected>) returns (out: seq<Projected>)
    ensures Aliased(columns, out)
    ensures forall i, j | 0 <= i < j < |out| :: out[i].alias != out[j].alias
  {
    out := [];
    var used: set<string> := {};
    var i := 0;
    while i < |columns|
      invariant 0 <= i <= |columns|
      invariant used == AliasesOf(out)
      invariant Aliased(columns[..i], out)
    {
      var item := columns[i];
      var alias := if item.alias in used then item.table + "_" + item.alias else item.alias;
      var candidate := FreeName(alias, used);
      var next := Projected(item.table, item.column, candidate);
      OneMoreAlias(columns[..i], item, out, next);
      TakeNext(columns, i);
      out := out + [next];
      used := used + {candidate};
      i := i + 1;
    }
    assert columns[..i] == columns;
    AliasesDiffer(columns, out);
  }

  lemma OneMoreAlias(columns: seq<Projected>, item: Projected, out: seq<Projected>, next: Projected)
    requires Aliased(columns, out) && next.table == item.table && next.column == item.column
    requires AliasGiven(item, AliasesOf(out), next.alias)
    ensures Aliased(columns + [item], out + [next])
    ensures AliasesOf(out + [next]) == AliasesOf(out) + {next.alias}
  {
    forall i | 0 <= i < |out + [next]|
      ensures AliasGiven((columns + [item])[i], AliasesOf((out + [next])[..i]), (out + [next])[i].alias)
    {
      AliasAt(columns, item, out, next, i);
    }
    OneAliasMore(out, next);
  }

  lemma OneAliasMore(out: seq<Projected>, next: Projected)
    ensures AliasesOf(out + [next]) == AliasesOf(out) + {next.alias}
  {
  }

  lemma AliasAt(columns: seq<Projected>, item: Projected, out: seq<Projected>, next: Projected, i: nat)
    requires Aliased(columns, out) && AliasGiven(item, AliasesOf(out), next.alias) && i <= |out|
    ensures AliasGiven((columns + [item])[i], AliasesOf((out + [next])[..i]), (out + [next])[i].alias)
  {
    var before := (out + [next])[..i];
    if i < |out| {
      assert before == out[..i];
      assert AliasGiven(columns[i], AliasesOf(out[..i]), out[i].alias);
    } else {
      assert before == out;
    }
  }

  lemma AliasesDiffer(columns: seq<Projected>, out: seq<Projected>)
    requires Aliased(columns, out)
    ensures forall i, j | 0 <= i < j < |out| :: out[i].alias != out[j].alias
  {
    forall i, j | 0 <= i < j < |out|
      ensures out[i].alias != out[j].alias
    {
      assert out[..j][i] == out[i];
      assert out[i] in out[..j];
      assert AliasGiven(columns[j], AliasesOf(out[..j]), out[j].alias);
    }
  }

  // ---------------------------------------------------------------- the proposal

  predicate SameCell(p: Projected, q: Projected)
  {
    p.table == q.table && p.column == q.column
  }

  /** The first projection of each table and column, in order. */
  function Firsts(columns: seq<Projected>): seq<Projected>
  {
    if columns == [] then []
    else
      var front := Firsts(columns[..|columns| - 1]);
      var last := columns[|columns| - 1];
      if exists p | p in front :: SameCell(p, last) then front else front + [last]
  }

  lemma {:induction false} FirstsAmong(columns: seq<Projected>)
    ensures forall p | p in Firsts(columns) :: p in columns
  {
    if columns != [] {
      var front := columns[..|columns| - 1];
      FirstsAmong(front);
      assert columns == front + [columns[|columns| - 1]];
    }
  }

  lemma {:induction false} FirstsCover(columns: seq<Projected>, p: Projected)
    requires p in columns
    ensures exists q :: q in Firsts(columns) && SameCell(q, p)
  {
    var front, last := columns[..|columns| - 1], columns[|columns| - 1];
    assert columns == front + [last];
    if p in front {
      FirstsCover(front, p);
      var q :| q in Firsts(front) && SameCell(q, p);
      assert q in Firsts(columns);
    } else if !(exists q | q in Firsts(front) :: SameCell(q, last)) {
      assert last in Firsts(columns);
    }
  }

  lemma {:induction false} FirstsDiffer(columns: seq<Projected>, i: nat, j: nat)
    requires i < j < |Firsts(columns)|
    ensures !SameCell(Firsts(columns)[i], Firsts(columns)[j])
  {
    var firsts := Firsts(columns[..|columns| - 1]);
    if j < |firsts| {
      FirstsDiffer(columns[..|columns| - 1], i, j);
    } else {
      assert firsts[i] in firsts;
    }
  }

  method FirstOfEach(columns: seq<Projected>) returns (out: seq<Projected>)
    ensures out == Firsts(columns)
  {
    out := [];
    var seen: set<(string, string)> := {};
    var i := 0;
    while i < |columns|
      invariant 0 <= i <= |columns|
      invariant out == Firsts(columns[..i])
      invariant seen == set q | q in out :: (q.table, q.column)
    {
      var p := columns[i];
      assert columns[..i + 1][..i] == columns[..i];
      SeenIff(out, seen, p);
      if (p.table, p.column) !in seen {
        seen := seen + {(p.table, p.column)};
        out := out + [p];
      }
      i := i + 1;
    }
    assert columns[..i] == columns;
  }

  lemma SeenIff(out: seq<Projected>, seen: set<(string, string)>, p: Projected)
    requires seen == set q | q in out :: (q.table, q.column)
    ensures (p.table, p.column) in seen <==> exists q :: q in out && SameCell(q, p)
  {
  }

  /** Every source column under its own name, in order. */
  function BaseOf(source: string, columns: Columns): (out: seq<Projected>)
    ensures source !in columns ==> out == []
    ensures source in columns ==> |out| == |columns[source]|
    ensures forall i | 0 <= i < |out| :: out[i] == Projected(source, columns[source][i], columns[source][i])
  {
    if source !in columns then []
    else seq(|columns[source]|, i requires 0 <= i < |columns[source]| => Projected(source, columns[source][i], columns[source][i]))
  }

  method BaseColumns(source: string, columns: Columns) returns (out: seq<Projected>)
    ensures out == BaseOf(source, columns)
  {
    out := [];
    if source in columns {
      var names := columns[source];
      var i := 0;
      while i < |names|
        invariant 0 <= i <= |names| && |out| == i
        invariant forall j | 0 <= j < i :: out[j] == Projected(source, names[j], names[j])
      {
        out := out + [Projected(source, names[i], names[i])];
        i := i + 1;
      }
    }
  }

  /** What a proposal comes to: nothing to join, so no view; a join order the generator refuses; or
      the view's join clauses and columns. */
  datatype Proposal =
    | NothingToJoin(selected: seq<Projected>)
    | InvalidOrder
    | View(clauses: seq<Edge>, selected: seq<Projected>)

  /** The columns of the view before they are named: the source's own, then what is found elsewhere. */
  ghost function ViewColumns(source: string, wanted: seq<string>, tables: seq<string>, columns: Columns,
                             pks: map<string, string>, fks: seq<SourceFk>): seq<Projected>
  {
    Firsts(BaseOf(source, columns) + Collected(source, wanted, tables, columns, pks, fks))
  }

  /** The flattening view for a source table. There is one exactly when some wanted column can be
      joined from elsewhere; the generator never refuses it. */
  method ProposeView(source: string, wanted: seq<string>, tables: seq<string>, columns: Columns,
                     pks: map<string, string>, fks: seq<SourceFk>) returns (view: Proposal)
    ensures !view.InvalidOrder?
    ensures view.View? <==> exists c :: c in wanted && FirstJoinable(source, c, tables, columns, pks, fks).Some?
    ensures view.View? ==> LegalOrder(source, view.clauses) && JoinedOnce(source, view.clauses)
    ensures view.View? ==> forall e | e in view.clauses :: FromKey(fks, e) || Guessed(columns, pks, source, e)
    ensures view.View? ==> EdgesOf(fks, columns, pks, source, Collected(source, wanted, tables, columns, pks, fks), view.clauses)
    ensures Aliased(ViewColumns(source, wanted, tables, columns, pks, fks), view.selected)
  {
    var base := BaseColumns(source, columns);
    var edges, found := CollectJoins(source, wanted, tables, columns, pks, fks);
    var distinct := FirstOfEach(base + found);
    var selected := UniqueAliases(distinct);
    EdgesIffFound(source, wanted, tables, columns, pks, fks, edges);
    if edges == [] {
      return NothingToJoin(selected);
    }
    var clauses := JoinClauses(source, edges);
    if clauses.None? {
      return InvalidOrder;
    }
    ClausesAreKeys(fks, columns, pks, source, found, clauses.value);
    return View(clauses.value, selected);
  }

  /** What the view joins on: the columns of a foreign key, or a guess from the source to a table no foreign key reaches. */
  lemma ClausesAreKeys(fks: seq<SourceFk>, columns: Columns, pks: map<string, string>, source: string,
                       found: seq<Projected>, edges: seq<Edge>)
    requires EdgesOf(fks, columns, pks, source, found, edges)
    ensures forall e | e in edges ::
              FromKey(fks, e) || (Guessed(columns, pks, source, e) && forall n: nat :: !Walk(fks, source, n, e.toTable))
  {
    forall e | e in edges
      ensures FromKey(fks, e) || (Guessed(columns, pks, source, e) && forall n: nat :: !Walk(fks, source, n, e.toTable))
    {
      var p :| p in found && e in PathTo(fks, columns, pks, source, p.table);
      PathIsKeys(fks, columns, pks, source, p.table, e);
    }
  }

  lemma PathIsKeys(fks: seq<SourceFk>, columns: Columns, pks: map<string, string>, source: string, t: string, e: Edge)
    requires e in PathTo(fks, columns, pks, source, t)
    ensures FromKey(fks, e) || (Guessed(columns, pks, source, e) && forall n: nat :: !Walk(fks, source, n, e.toTable))
  {
    TreeIsShortestPaths(fks, source);
    if t in Tree(fks, source) {
      ChainOfKeys(fks, source, Tree(fks, source)[t], t);
    } else {
      assert e.toTable == t;
    }
  }

  lemma EdgesIffFound(source: string, wanted: seq<string>, tables: seq<string>, columns: Columns,
                      pks: map<string, string>, fks: seq<SourceFk>, edges: seq<Edge>)
    requires EdgesOf(fks, columns, pks, source, Collected(source, wanted, tables, columns, pks, fks), edges)
    ensures edges != [] <==> exists c :: c in wanted && FirstJoinable(source, c, tables, columns, pks, fks).Some?
  {
    var found := Collected(source, wanted, tables, columns, pks, fks);
    if edges != [] {
      assert edges[0] in edges;
      var p :| p in found && edges[0] in PathTo(fks, columns, pks, source, p.table);
      CollectedMember(source, wanted, tables, columns, pks, fks, p);
    }
    if c :| c in wanted && FirstJoinable(source, c, tables, columns, pks, fks).Some? {
      var t := FirstJoinable(source, c, tables, columns, pks, fks).value;
      CollectedMember(source, wanted, tables, columns, pks, fks, Projected(t, c, c));
      CollectedIsBound(source, wanted, tables, columns, pks, fks, edges, Projected(t, c, c));
    }
  }

  /** What the view selects: columns that exist, in joined tables, each once and under a name of its
      own; every source column; and every wanted column some other table can give, from the first such. */
  lemma ViewIsComplete(source: string, wanted: seq<string>, tables: seq<string>, columns: Columns,
                       pks: map<string, string>, fks: seq<SourceFk>, clauses: seq<Edge>, selected: seq<Projected>)
    requires EdgesOf(fks, columns, pks, source, Collected(source, wanted, tables, columns, pks, fks), clauses)
    requires Aliased(ViewColumns(source, wanted, tables, columns, pks, fks), selected)
    ensures forall p | p in selected :: HasColumn(columns, p.table, p.column) && Bound(source, clauses, p.table)
    ensures forall i, j | 0 <= i < j < |selected| ::
              selected[i].alias != selected[j].alias && !SameCell(selected[i], selected[j])
    ensures forall c | HasColumn(columns, source, c) :: exists p :: p in selected && p.table == source && p.column == c
    ensures forall c | c in wanted && FirstJoinable(source, c, tables, columns, pks, fks).Some? ::
              exists p :: p in selected && p.table == FirstJoinable(source, c, tables, columns, pks, fks).value && p.column == c
  {
    var base, found := BaseOf(source, columns), Collected(source, wanted, tables, columns, pks, fks);
    var distinct := ViewColumns(source, wanted, tables, columns, pks, fks);
    FirstsAmong(base + found);
    AliasesDiffer(distinct, selected);
    forall i, j | 0 <= i < j < |selected|
      ensures !SameCell(selected[i], selected[j])
    {
      FirstsDiffer(base + found, i, j);
    }
    forall p | p in selected
      ensures HasColumn(columns, p.table, p.column) && Bound(source, clauses, p.table)
    {
      var q := SelectedFrom(distinct, selected, p);
      if q in found {
        CollectedIsBound(source, wanted, tables, columns, pks, fks, clauses, q);
      }
    }
    forall c | HasColumn(columns, source, c)
      ensures exists p :: p in selected && p.table == source && p.column == c
    {
      var i :| 0 <= i < |columns[source]| && columns[source][i] == c;
      assert base[i] in base + found;
      CellSelected(base + found, selected, base[i]);
    }
    forall c | c in wanted && FirstJoinable(source, c, tables, columns, pks, fks).Some?
      ensures exists p :: p in selected && p.table == FirstJoinable(source, c, tables, columns, pks, fks).value && p.column == c
    {
      var p := Projected(FirstJoinable(source, c, tables, columns, pks, fks).value, c, c);
      CollectedMember(source, wanted, tables, columns, pks, fks, p);
      CellSelected(base + found, selected, p);
    }
  }

  lemma CellSelected(all: seq<Projected>, selected: seq<Projected>, p: Projected)
    requires p in all && SameCells(Firsts(all), selected)
    ensures exists q :: q in selected && SameCell(q, p)
  {
    FirstsCover(all, p);
    var q :| q in Firsts(all) && SameCell(q, p);
    SelectedInto(Firsts(all), selected, q);
  }

  ghost predicate SameCells(columns: seq<Projected>, out: seq<Projected>)
  {
    |out| == |columns| && forall i | 0 <= i < |out| :: out[i].table == columns[i].table && out[i].column == columns[i].column
  }

  lemma SelectedFrom(columns: seq<Projected>, out: seq<Projected>, p: Projected) returns (q: Projected)
    requires SameCells(columns, out) && p in out
    ensures q in columns && q.table == p.table && q.column == p.column
  {
    var i :| 0 <= i < |out| && out[i] == p;
    q := columns[i];
  }

  lemma SelectedInto(columns: seq<Projected>, out: seq<Projected>, q: Projected)
    requires SameCells(columns, out) && q in columns
    ensures exists p :: p in out && p.table == q.table && p.column == q.column
  {
    var i :| 0 <= i < |columns| && columns[i] == q;
    assert out[i] in out;
  }
}
