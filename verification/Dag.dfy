/** Parents-first listings of a finite graph: when one exists, and which one the
    alphabetical peeling picks; reachability and closure under parents. */
module Dag {
  import opened Ordering

  /** Each node with its parents. A node absent from the map has none. */
  type Graph = map<string, set<string>>

  /** Parents other than the node itself: a self-loop never counts. */
  function Up(g: Graph, n: string): set<string>
  {
    if n in g then g[n] - {n} else {}
  }

  // ------------------------------------------------------------ reachability

  /** A chain of nodes, each a parent of the one before it. */
  ghost predicate Chain(g: Graph, p: seq<string>)
  {
    forall i, j | 0 <= i && j == i + 1 && j < |p| :: p[j] in Up(g, p[i])
  }

  /** A chain of at least one step from one of `from` to `x`. */
  ghost predicate Reaches(g: Graph, from: set<string>, p: seq<string>, x: string)
  {
    |p| >= 2 && p[0] in from && p[|p| - 1] == x && Chain(g, p)
  }

  ghost predicate Reachable(g: Graph, from: set<string>, x: string)
  {
    exists p: seq<string> :: Reaches(g, from, p, x)
  }

  lemma ReachStep(g: Graph, from: set<string>, t: string, x: string)
    requires t in from || Reachable(g, from, t)
    requires x in Up(g, t)
    ensures Reachable(g, from, x)
  {
    if t in from {
      assert Reaches(g, from, [t, x], x);
    } else {
      var p :| Reaches(g, from, p, t);
      assert Reaches(g, from, p + [x], x);
    }
  }

  /** Whatever a member points at is a member. */
  ghost predicate Closed(g: Graph, s: set<string>)
  {
    forall t | t in s :: Up(g, t) <= s
  }

  /** A set that holds the parents of `from` and its own holds all that is reachable. */
  lemma {:induction false} ReachableInside(g: Graph, from: set<string>, s: set<string>, p: seq<string>, x: string)
    requires forall t | t in from || t in s :: Up(g, t) <= s
    requires Reaches(g, from, p, x)
    ensures x in s
    decreases |p|
  {
    var q := p[..|p| - 1];
    var t := q[|q| - 1];
    if |q| >= 2 {
      ReachableInside(g, from, s, q, t);
    }
    assert p[|p| - 1] in Up(g, p[|p| - 2]);
  }

  // ------------------------------------------------------------------ peeling

  /** Members of `left` none of whose parents is in `left`. */
  function Ready(g: Graph, left: set<string>): set<string>
  {
    set n | n in left && Up(g, n) * left == {}
  }

  /** Take the ready node that comes first alphabetically, until none is ready. */
  function Peel(g: Graph, left: set<string>): seq<string>
    decreases |left|
  {
    if Ready(g, left) == {} then []
    else var n := Least(Ready(g, left)); [n] + Peel(g, left - {n})
  }

  /** What is left when no node is ready any more. */
  function Stuck(g: Graph, left: set<string>): set<string>
    decreases |left|
  {
    if Ready(g, left) == {} then left
    else Stuck(g, left - {Least(Ready(g, left))})
  }

  /** A listing of exactly `s` with every parent before its child. */
  ghost predicate ParentsFirst(g: Graph, s: set<string>, order: seq<string>)
  {
    && NoDup(order)
    && Elements(order) == s
    && forall i, j | 0 <= i <= j < |order| :: order[j] !in Up(g, order[i])
  }

  /** A closed walk, child to parent, inside `s`; no step is a self-loop. */
  ghost predicate Cycle(g: Graph, s: set<string>, walk: seq<string>)
  {
    && |walk| >= 2 && walk[0] == walk[|walk| - 1]
    && (forall i | 0 <= i < |walk| :: walk[i] in s)
    && Chain(g, walk)
  }

  ghost predicate HasCycle(g: Graph, s: set<string>)
  {
    exists walk: seq<string> :: Cycle(g, s, walk)
  }

  /** Dictionary order on listings. */
  ghost predicate ListedBefore(a: seq<string>, b: seq<string>)
  {
    a == b || exists i :: FirstDifference(a, b, i)
  }

  ghost predicate FirstDifference(a: seq<string>, b: seq<string>, i: int)
  {
    0 <= i < |a| && i < |b| && a[..i] == b[..i] && Less(a[i], b[i])
  }

  lemma {:induction false} PeelLists(g: Graph, s: set<string>)
    ensures Stuck(g, s) <= s && Ready(g, Stuck(g, s)) == {}
    ensures Elements(Peel(g, s)) == s - Stuck(g, s)
    ensures NoDup(Peel(g, s))
    decreases |s|
  {
    if Ready(g, s) != {} {
      var n := Least(Ready(g, s));
      PeelLists(g, s - {n});
      PeelStep(g, s, n);
    }
  }

  lemma PeelStep(g: Graph, s: set<string>, n: string)
    requires Ready(g, s) != {} && n == Least(Ready(g, s))
    requires Stuck(g, s - {n}) <= s - {n}
    requires Elements(Peel(g, s - {n})) == s - {n} - Stuck(g, s - {n})
    requires NoDup(Peel(g, s - {n}))
    ensures Elements(Peel(g, s)) == s - Stuck(g, s)
    ensures NoDup(Peel(g, s))
  {
    var rest := Peel(g, s - {n});
    assert n !in Elements(rest);
    ElementsCons(n, rest);
  }

  lemma {:induction false} PeelParentsFirst(g: Graph, s: set<string>, i: nat, j: nat)
    requires i <= j < |Peel(g, s)|
    ensures Peel(g, s)[j] !in Up(g, Peel(g, s)[i])
    decreases |s|
  {
    var n := Least(Ready(g, s));
    var order := Peel(g, s);
    assert order == [n] + Peel(g, s - {n});
    if i == 0 {
      PeelLists(g, s);
      assert order[j] in Elements(order);
    } else {
      PeelParentsFirst(g, s - {n}, i - 1, j - 1);
    }
  }

  /** Where every node still has a parent left, walking up must close a cycle. */
  lemma {:induction false} WalkUp(g: Graph, stuck: set<string>, path: seq<string>)
    requires Ready(g, stuck) == {}
    requires path != [] && NoDup(path) && Chain(g, path)
    requires forall i | 0 <= i < |path| :: path[i] in stuck
    ensures HasCycle(g, stuck)
    decreases |stuck| - |path|
  {
    var parent := ParentLeft(g, stuck, path[|path| - 1]);
    if parent in path {
      var k :| 0 <= k < |path| && path[k] == parent;
      CloseWalk(g, stuck, path, k);
    } else {
      LongerWalk(g, path, parent);
      WalkFits(path + [parent], stuck);
      WalkUp(g, stuck, path + [parent]);
    }
  }

  lemma LongerWalk(g: Graph, path: seq<string>, parent: string)
    requires path != [] && NoDup(path) && Chain(g, path)
    requires parent !in path && parent in Up(g, path[|path| - 1])
    ensures NoDup(path + [parent]) && Chain(g, path + [parent])
  {
  }

  lemma WalkFits(path: seq<string>, stuck: set<string>)
    requires NoDup(path) && forall i | 0 <= i < |path| :: path[i] in stuck
    ensures |path| <= |stuck|
  {
    NoDupLength(path);
    SubsetSize(Elements(path), stuck);
  }

  lemma ParentLeft(g: Graph, stuck: set<string>, n: string) returns (parent: string)
    requires Ready(g, stuck) == {} && n in stuck
    ensures parent in Up(g, n) && parent in stuck
  {
    assert n !in Ready(g, stuck);
    parent :| parent in Up(g, n) * stuck;
  }

  lemma CloseWalk(g: Graph, s: set<string>, path: seq<string>, k: nat)
    requires Chain(g, path) && k < |path| && path[k] in Up(g, path[|path| - 1])
    requires forall i | 0 <= i < |path| :: path[i] in s
    ensures HasCycle(g, s)
  {
    var walk := path[k..] + [path[k]];
    forall i, j | 0 <= i && j == i + 1 && j < |walk|
      ensures walk[j] in Up(g, walk[i])
    {
      assert walk[i] == path[k + i];
      if k + j < |path| {
        assert walk[j] == path[k + j];
      }
    }
    assert Cycle(g, s, walk);
  }

  lemma SubsetSize<T>(a: set<T>, b: set<T>)
    requires a <= b
    ensures |a| <= |b|
    ensures |a| == |b| ==> a == b
    decreases a
  {
    if a != {} {
      var x :| x in a;
      SubsetSize(a - {x}, b - {x});
    }
  }

  /** Along a chain, positions in a parents-first listing strictly fall. */
  lemma {:induction false} ChainDescends(g: Graph, s: set<string>, order: seq<string>, p: seq<string>, a: nat, b: nat)
    requires ParentsFirst(g, s, order)
    requires Chain(g, p) && |p| >= 2
    requires forall i | 0 <= i < |p| :: p[i] in s
    requires a < |order| && b < |order| && order[a] == p[0] && order[b] == p[|p| - 1]
    ensures b < a
    decreases |p|
  {
    assert p[1] in Elements(order);
    var c :| 0 <= c < |order| && order[c] == p[1];
    assert p[1] in Up(g, p[0]);
    assert c < a;
    if |p| > 2 {
      ChainDescends(g, s, order, p[1..], c, b);
    }
  }

  lemma ListingExcludesCycle(g: Graph, s: set<string>, order: seq<string>)
    requires ParentsFirst(g, s, order)
    ensures !HasCycle(g, s)
  {
    forall walk | Cycle(g, s, walk)
      ensures false
    {
      assert walk[0] in Elements(order);
      var a :| 0 <= a < |order| && order[a] == walk[0];
      ChainDescends(g, s, order, walk, a, a);
    }
  }

  /** Peeling lists everything, parents first, unless the graph has a cycle other than a
      self-loop; then what is stuck contains one. */
  lemma PeelSucceedsIffAcyclic(g: Graph, s: set<string>)
    ensures Stuck(g, s) == {} <==> !HasCycle(g, s)
    ensures Stuck(g, s) == {} ==> ParentsFirst(g, s, Peel(g, s))
    ensures Stuck(g, s) != {} ==> HasCycle(g, Stuck(g, s))
  {
    PeelLists(g, s);
    var stuck := Stuck(g, s);
    if stuck == {} {
      forall i, j | 0 <= i <= j < |Peel(g, s)|
        ensures Peel(g, s)[j] !in Up(g, Peel(g, s)[i])
      {
        PeelParentsFirst(g, s, i, j);
      }
      ListingExcludesCycle(g, s, Peel(g, s));
    } else {
      var x :| x in stuck;
      WalkUp(g, stuck, [x]);
      var walk :| Cycle(g, stuck, walk);
      assert Cycle(g, s, walk);
    }
  }

  /** The head of a parents-first listing is ready and its tail lists the rest. */
  lemma FirstIsReady(g: Graph, s: set<string>, b: seq<string>)
    requires ParentsFirst(g, s, b) && b != []
    ensures b[0] in Ready(g, s)
    ensures ParentsFirst(g, s - {b[0]}, b[1..])
  {
    assert b == [b[0]] + b[1..];
    assert b[0] in Elements(b);
    assert Elements(b[1..]) == s - {b[0]};
    assert Up(g, b[0]) * s == {};
  }

  lemma ListedBeforeCons(x: string, a: seq<string>, b: seq<string>)
    requires ListedBefore(a, b)
    ensures ListedBefore([x] + a, [x] + b)
  {
    if a != b {
      var i :| FirstDifference(a, b, i);
      assert ([x] + a)[..i + 1] == [x] + a[..i];
      assert ([x] + b)[..i + 1] == [x] + b[..i];
      assert FirstDifference([x] + a, [x] + b, i + 1);
    }
  }

  lemma SmallerHead(x: string, a: seq<string>, b: seq<string>)
    requires b != [] && Less(x, b[0])
    ensures ListedBefore([x] + a, b)
  {
    assert FirstDifference([x] + a, b, 0);
  }

  lemma PeelTakesLeast(g: Graph, s: set<string>)
    requires Ready(g, s) != {}
    ensures var n := Least(Ready(g, s));
            n in s && Peel(g, s) == [n] + Peel(g, s - {n})
            && forall x | x in Ready(g, s) && x != n :: Less(n, x)
  {
  }

  lemma HeadsAgree(n: string, rest: seq<string>, b: seq<string>)
    requires b != [] && b[0] == n && ListedBefore(rest, b[1..])
    ensures ListedBefore([n] + rest, b)
  {
    ListedBeforeCons(n, rest, b[1..]);
    assert b == [n] + b[1..];
  }

  /** No parents-first listing comes earlier in dictionary order than the peeled one. */
  lemma {:induction false} PeelIsLeast(g: Graph, s: set<string>, b: seq<string>)
    requires ParentsFirst(g, s, b)
    ensures ListedBefore(Peel(g, s), b)
    decreases |s|
  {
    if b == [] {
      assert s == {};
    } else {
      FirstIsReady(g, s, b);
      PeelTakesLeast(g, s);
      var n := Least(Ready(g, s));
      if b[0] == n {
        PeelIsLeast(g, s - {n}, b[1..]);
        HeadsAgree(n, Peel(g, s - {n}), b);
      } else {
        SmallerHead(n, Peel(g, s - {n}), b);
      }
    }
  }
}
