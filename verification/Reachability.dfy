/** Reachability in a finite directed graph, defined by paths, and the worklist facts shared by the
    packaging tools. */
module Reachability {

  /** The successors of every node that has any. */
  type Edges<T(==)> = map<T, set<T>>

  ghost predicate IsPath<T>(edges: Edges<T>, path: seq<T>) {
    && |path| > 0
    && forall i | 0 <= i < |path| - 1 :: path[i] in edges && path[i + 1] in edges[path[i]]
  }

  ghost predicate Reaches<T(!new)>(edges: Edges<T>, roots: set<T>, x: T) {
    exists path: seq<T> :: IsPath(edges, path) && path[0] in roots && path[|path| - 1] == x
  }

  ghost predicate IsClosed<T(!new)>(edges: Edges<T>, s: set<T>) {
    forall x | x in s && x in edges :: edges[x] <= s
  }

  lemma RootReached<T(!new)>(edges: Edges<T>, roots: set<T>, x: T)
    requires x in roots
    ensures Reaches(edges, roots, x)
  {
    assert IsPath(edges, [x]);
  }

  lemma StepReached<T(!new)>(edges: Edges<T>, roots: set<T>, x: T, y: T)
    requires Reaches(edges, roots, x) && x in edges && y in edges[x]
    ensures Reaches(edges, roots, y)
  {
    var path :| IsPath(edges, path) && path[0] in roots && path[|path| - 1] == x;
    var longer := path + [y];
    assert forall i | 0 <= i < |longer| - 1 :: longer[i] == path[i];
    assert IsPath(edges, longer);
  }

  /** A closed set that holds the roots holds everything they reach. */
  lemma ClosedHoldsReached<T(!new)>(edges: Edges<T>, roots: set<T>, s: set<T>, x: T)
    requires roots <= s && IsClosed(edges, s) && Reaches(edges, roots, x)
    ensures x in s
  {
    var path :| IsPath(edges, path) && path[0] in roots && path[|path| - 1] == x;
    var i := 0;
    while i < |path| - 1
      invariant 0 <= i < |path|
      invariant path[i] in s
    {
      i := i + 1;
    }
  }

  ghost function Universe<T>(edges: Edges<T>, roots: set<T>): set<T> {
    roots + edges.Keys + set x, y | x in edges.Keys && y in edges[x] :: y
  }

  lemma UniverseHoldsReached<T(!new)>(edges: Edges<T>, roots: set<T>, x: T)
    requires Reaches(edges, roots, x)
    ensures x in Universe(edges, roots)
  {
    ClosedHoldsReached(edges, roots, Universe(edges, roots), x);
  }

  ghost function ReachedFrom<T(!new)>(edges: Edges<T>, roots: set<T>): (reached: set<T>)
    ensures forall x :: x in reached <==> Reaches(edges, roots, x)
  {
    assert forall x | Reaches(edges, roots, x) :: x in Universe(edges, roots) by {
      forall x | Reaches(edges, roots, x) ensures x in Universe(edges, roots) {
        UniverseHoldsReached(edges, roots, x);
      }
    }
    set x | x in Universe(edges, roots) && Reaches(edges, roots, x)
  }

  /** Reachability is a closed set over the roots, and the least one. */
  lemma ReachedIsClosed<T(!new)>(edges: Edges<T>, roots: set<T>)
    ensures roots <= ReachedFrom(edges, roots)
    ensures IsClosed(edges, ReachedFrom(edges, roots))
  {
    forall x | x in roots ensures Reaches(edges, roots, x) {
      RootReached(edges, roots, x);
    }
    forall x, y | x in ReachedFrom(edges, roots) && x in edges && y in edges[x] ensures Reaches(edges, roots, y) {
      StepReached(edges, roots, x, y);
    }
  }

  lemma ReachedIsLeast<T(!new)>(edges: Edges<T>, roots: set<T>, s: set<T>)
    requires roots <= s && IsClosed(edges, s)
    ensures ReachedFrom(edges, roots) <= s
  {
    forall x | x in ReachedFrom(edges, roots) ensures x in s {
      ClosedHoldsReached(edges, roots, s, x);
    }
  }

  lemma ReachedMonotone<T(!new)>(edges: Edges<T>, roots: set<T>, more: set<T>)
    requires roots <= more
    ensures ReachedFrom(edges, roots) <= ReachedFrom(edges, more)
  {
    ReachedIsClosed(edges, more);
    ReachedIsLeast(edges, roots, ReachedFrom(edges, more));
  }

  /** A worklist traversal under way: `reached` has been expanded, `open` is still to be. */
  ghost predicate IsFrontier<T(!new)>(edges: Edges<T>, roots: set<T>, reached: set<T>, open: set<T>) {
    && roots <= reached + open <= ReachedFrom(edges, roots)
    && forall x | x in reached && x in edges :: edges[x] <= reached + open
  }

  lemma FrontierStart<T(!new)>(edges: Edges<T>, roots: set<T>)
    ensures IsFrontier(edges, roots, {}, roots)
  {
    ReachedIsClosed(edges, roots);
  }

  /** Expanding one open node keeps the frontier, whether or not already reached successors are
      opened again. */
  lemma FrontierVisit<T(!new)>(edges: Edges<T>, roots: set<T>, reached: set<T>, open: set<T>, x: T, next: set<T>)
    requires IsFrontier(edges, roots, reached, open + {x})
    requires if x in edges then edges[x] - reached - {x} <= next <= edges[x] else next == {}
    ensures IsFrontier(edges, roots, reached + {x}, open + next)
  {
    forall y | y in next ensures Reaches(edges, roots, y) {
      StepReached(edges, roots, x, y);
    }
  }

  lemma FrontierSkip<T(!new)>(edges: Edges<T>, roots: set<T>, reached: set<T>, open: set<T>, x: T)
    requires IsFrontier(edges, roots, reached, open + {x}) && x in reached
    ensures IsFrontier(edges, roots, reached, open)
  {
    assert reached + (open + {x}) == reached + open;
  }

  lemma FrontierDone<T(!new)>(edges: Edges<T>, roots: set<T>, reached: set<T>)
    requires IsFrontier(edges, roots, reached, {})
    ensures reached == ReachedFrom(edges, roots)
  {
    assert reached + {} == reached;
    ReachedIsLeast(edges, roots, reached);
  }

  /** The members of a list. */
  function Elements<T>(list: seq<T>): set<T> { set x | x in list }

  lemma ElementsAppend<T>(a: seq<T>, b: seq<T>)
    ensures Elements(a + b) == Elements(a) + Elements(b)
  {
  }

  lemma ElementsLast<T>(list: seq<T>)
    requires |list| > 0
    ensures Elements(list) == Elements(list[..|list| - 1]) + {list[|list| - 1]}
  {
    assert list == list[..|list| - 1] + [list[|list| - 1]];
  }

  /** list(s): the members of a set in some order. */
  method ListOf<T>(s: set<T>) returns (list: seq<T>)
    ensures Elements(list) == s && |list| == |s|
  {
    list := [];
    var rest := s;
    while rest != {}
      invariant rest <= s && Elements(list) == s - rest
      invariant |list| + |rest| == |s|
      decreases rest
    {
      var x :| x in rest;
      ElementsAppend(list, [x]);
      list, rest := list + [x], rest - {x};
    }
  }
}
