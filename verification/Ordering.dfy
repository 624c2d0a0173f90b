/** Strings in code-point order, the order `sorted` gives names, and the sorted
    listing of a finite set of names. */
module Ordering {

  /** Code-point order: a proper prefix comes first. */
  predicate Less(a: string, b: string)
  {
    if b == [] then false
    else if a == [] then true
    else a[0] < b[0] || (a[0] == b[0] && Less(a[1..], b[1..]))
  }

  lemma {:induction false} LessTransitive(a: string, b: string, c: string)
    requires Less(a, b) && Less(b, c)
    ensures Less(a, c)
  {
    if a != [] && a[0] == b[0] && b[0] == c[0] {
      LessTransitive(a[1..], b[1..], c[1..]);
    }
  }

  lemma {:induction false} LessTotal(a: string, b: string)
    ensures a != b ==> Less(a, b) != Less(b, a)
    ensures !Less(a, a)
    ensures Less(a, b) ==> a != b && !Less(b, a)
  {
    if a != [] {
      LessTotal(a[1..], a[1..]);
      if b != [] && a[0] == b[0] {
        LessTotal(a[1..], b[1..]);
        assert a == [a[0]] + a[1..] && b == [b[0]] + b[1..];
      }
    }
  }

  /** The smaller character at the first difference decides; without one the shorter string comes first. */
  lemma {:induction false} LessIs(a: string, b: string)
    ensures Less(a, b) <==> (a <= b && a != b) || exists i :: DiffersFirst(a, b, i)
    decreases |a|
  {
    if a != [] && b != [] {
      var x, y := a[1..], b[1..];
      LessIs(x, y);
      assert a == [a[0]] + x && b == [b[0]] + y;
      if a[0] < b[0] {
        assert DiffersFirst(a, b, 0);
      } else if a[0] == b[0] {
        if i :| DiffersFirst(x, y, i) {
          assert DiffersFirst(a, b, i + 1);
        }
        if i :| DiffersFirst(a, b, i) {
          assert DiffersFirst(x, y, i - 1);
        }
      }
    }
  }

  predicate DiffersFirst(a: string, b: string, i: int)
  {
    0 <= i < |a| && i < |b| && a[..i] == b[..i] && a[i] < b[i]
  }

  predicate IsLeast(m: string, s: set<string>)
  {
    m in s && forall x | x in s && x != m :: Less(m, x)
  }

  lemma {:induction false} LeastExists(s: set<string>)
    requires s != {}
    ensures exists m :: IsLeast(m, s)
    decreases |s|
  {
    var x :| x in s;
    if s == {x} {
      assert IsLeast(x, s);
    } else {
      LeastExists(s - {x});
      var m :| IsLeast(m, s - {x});
      LessTotal(x, m);
      var best := if Less(x, m) then x else m;
      forall y | y in s && y != best
        ensures Less(best, y)
      {
        if best == x && y != m {
          LessTransitive(x, m, y);
        }
      }
      assert IsLeast(best, s);
    }
  }

  lemma LeastUnique(s: set<string>, a: string, b: string)
    requires IsLeast(a, s) && IsLeast(b, s)
    ensures a == b
  {
    LessTotal(a, b);
  }

  function Least(s: set<string>): (m: string)
    requires s != {}
    ensures IsLeast(m, s)
  {
    LeastExists(s);
    assert forall a, b | IsLeast(a, s) && IsLeast(b, s) :: a == b by {
      forall a, b | IsLeast(a, s) && IsLeast(b, s)
        ensures a == b
      {
        LeastUnique(s, a, b);
      }
    }
    var m :| m in s && IsLeast(m, s);
    m
  }

  ghost predicate NoDup<T>(s: seq<T>)
  {
    forall i, j | 0 <= i < j < |s| :: s[i] != s[j]
  }

  function Elements<T(==)>(s: seq<T>): set<T>
  {
    set x | x in s
  }

  ghost predicate StrictlySorted(s: seq<string>)
  {
    forall i, j | 0 <= i < j < |s| :: Less(s[i], s[j])
  }

  /** `q` is `sorted(s)`: the names of `s`, each once, in code-point order. */
  ghost predicate Sorted(q: seq<string>, s: set<string>)
  {
    Elements(q) == s && StrictlySorted(q)
  }

  method SortNames(s: set<string>) returns (q: seq<string>)
    ensures Sorted(q, s)
  {
    q := [];
    var rest := s;
    while rest != {}
      invariant rest <= s && Sorted(q, s - rest)
      invariant forall x, y | x in s - rest && y in rest :: Less(x, y)
    {
      var m := Least(rest);
      AppendSorted(q, s - rest, m);
      forall x, y | x in s - (rest - {m}) && y in rest - {m}
        ensures Less(x, y)
      {
      }
      assert s - (rest - {m}) == (s - rest) + {m};
      q, rest := q + [m], rest - {m};
    }
    assert s - rest == s;
  }

  lemma AppendSorted(q: seq<string>, s: set<string>, m: string)
    requires Sorted(q, s) && forall x | x in s :: Less(x, m)
    ensures Sorted(q + [m], s + {m})
  {
    ElementsAppend(q, m);
    assert forall i | 0 <= i < |q| :: q[i] in Elements(q);
  }

  lemma FrontSorted(q: seq<string>, m: string, s: set<string>)
    requires Sorted(q + [m], s)
    ensures Sorted(q, s - {m}) && forall x | x in q :: Less(x, m)
  {
    ElementsAppend(q, m);
    SortedNoDup(q + [m], s);
    forall x | x in q
      ensures Less(x, m) && x != m
    {
      var i :| 0 <= i < |q| && q[i] == x;
      assert (q + [m])[i] == x && (q + [m])[|q|] == m;
    }
    forall i, j | 0 <= i < j < |q|
      ensures Less(q[i], q[j])
    {
      assert (q + [m])[i] == q[i] && (q + [m])[j] == q[j];
    }
  }

  lemma SortedNoDup(q: seq<string>, s: set<string>)
    requires Sorted(q, s)
    ensures NoDup(q)
  {
    forall i, j | 0 <= i < j < |q|
      ensures q[i] != q[j]
    {
      LessTotal(q[i], q[j]);
    }
  }

  /** The head of a sorted listing is its least name and the tail lists the rest. */
  lemma SortedHead(q: seq<string>, s: set<string>)
    requires Sorted(q, s) && s != {}
    ensures q != [] && q[0] == Least(s) && Sorted(q[1..], s - {q[0]})
  {
    SortedNoDup(q, s);
    assert q == [q[0]] + q[1..];
    ElementsCons(q[0], q[1..]);
    assert q[0] !in Elements(q[1..]);
    forall x | x in s && x != q[0]
      ensures Less(q[0], x)
    {
      assert x in Elements(q);
    }
    LeastUnique(s, q[0], Least(s));
  }

  /** A set has one sorted listing. */
  lemma {:induction false} SortedUnique(p: seq<string>, q: seq<string>, s: set<string>)
    requires Sorted(p, s) && Sorted(q, s)
    ensures p == q
    decreases |p|
  {
    if s == {} {
      assert |Elements(p)| == 0 == |Elements(q)|;
      SortedNoDup(p, s);
      SortedNoDup(q, s);
      NoDupLength(p);
      NoDupLength(q);
    } else {
      SortedHead(p, s);
      SortedHead(q, s);
      SortedUnique(p[1..], q[1..], s - {p[0]});
    }
  }

  lemma NoDupLength<T>(s: seq<T>)
    requires NoDup(s)
    ensures |Elements(s)| == |s|
    decreases |s|
  {
    if s != [] {
      var rest := s[..|s| - 1];
      NoDupLength(rest);
      assert Elements(s) == Elements(rest) + {s[|s| - 1]};
      assert s[|s| - 1] !in rest;
    }
  }

  lemma ElementsCons<T>(x: T, s: seq<T>)
    ensures Elements([x] + s) == {x} + Elements(s)
    ensures x !in s && NoDup(s) ==> NoDup([x] + s)
  {
  }

  lemma ElementsAppend<T>(s: seq<T>, x: T)
    ensures Elements(s + [x]) == Elements(s) + {x}
  {
  }

  /** The last element of a duplicate-free listing, and what comes before it. */
  lemma NoDupLast<T>(s: seq<T>)
    requires NoDup(s) && s != []
    ensures s[|s| - 1] !in s[..|s| - 1] && NoDup(s[..|s| - 1])
    ensures forall x :: x in s <==> x in s[..|s| - 1] || x == s[|s| - 1]
  {
    assert s == s[..|s| - 1] + [s[|s| - 1]];
  }

  lemma TakeNext<T>(s: seq<T>, i: nat)
    requires i < |s|
    ensures s[..i + 1] == s[..i] + [s[i]] && s[i] in Elements(s)
  {
  }
}
