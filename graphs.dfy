/** The two graph shapes of the system: the 0/1 adjacency matrix the algorithms read (as a
    sequence of boolean rows) and the adjacency dictionary of sets (`map<nat, set<nat>>`) that
    the conflict graph is built as, with walks, reachability, components and two-colourings. */
module Graphs {

  type Matrix = seq<seq<bool>>

  /** `shape[0] == shape[1]`: as many columns in every row as there are rows. */
  predicate Square(a: Matrix) {
    forall i | 0 <= i < |a| :: |a[i]| == |a|
  }

  predicate Symmetric(a: Matrix)
    requires Square(a)
  {
    forall i, j | 0 <= i < |a| && 0 <= j < |a| :: a[i][j] == a[j][i]
  }

  predicate ZeroDiagonal(a: Matrix)
    requires Square(a)
  {
    forall i | 0 <= i < |a| :: !a[i][i]
  }

  /** A simple undirected graph: square, symmetric, without self-loops. */
  predicate IsGraph(a: Matrix) {
    Square(a) && Symmetric(a) && ZeroDiagonal(a)
  }

  predicate StrictlyIncreasing(s: seq<nat>) {
    forall i, j | 0 <= i < j < |s| :: s[i] < s[j]
  }

  function RowFrom(r: seq<bool>, j: nat): (xs: seq<nat>)
    requires j <= |r|
    ensures StrictlyIncreasing(xs)
    ensures forall k | 0 <= k < |xs| :: j <= xs[k]
    ensures forall x: nat :: x in xs <==> j <= x < |r| && r[x]
    decreases |r| - j
  {
    if j == |r| then []
    else if r[j] then [j] + RowFrom(r, j + 1)
    else RowFrom(r, j + 1)
  }

  /** `getrow(u).nonzero()[1]`: the columns of row `u` that hold an edge, in ascending order. */
  function Row(a: Matrix, u: nat): (xs: seq<nat>)
    requires Square(a) && u < |a|
    ensures StrictlyIncreasing(xs)
    ensures forall x: nat :: x in xs <==> x < |a| && a[u][x]
  {
    RowFrom(a[u], 0)
  }

  /** Three distinct vertices, pairwise joined. */
  predicate IsTriangle(a: Matrix, x: nat, y: nat, z: nat)
    requires Square(a)
  {
    x < |a| && y < |a| && z < |a| && x != y && x != z && y != z
    && a[x][y] && a[x][z] && a[y][z] && a[y][x] && a[z][x] && a[z][y]
  }

  predicate Distinct3(x: int, y: int, z: int) {
    x != y && x != z && y != z
  }

  /** The canonical form `(min, mid, max)` of three distinct vertices: `min` and `max` of the
      three and the one element left in `{x, y, z} - {min, max}`. */
  function Canonical(x: nat, y: nat, z: nat): (t: (nat, nat, nat))
    requires Distinct3(x, y, z)
    ensures t.0 < t.1 < t.2
    ensures {t.0, t.1, t.2} == {x, y, z}
  {
    var lo := if x <= y && x <= z then x else if y <= z then y else z;
    var hi := if x >= y && x >= z then x else if y >= z then y else z;
    var mid := if x != lo && x != hi then x else if y != lo && y != hi then y else z;
    (lo, mid, hi)
  }

  // ---------------------------------------------------------------------------------------
  // Adjacency dictionaries, as a networkx graph stores them: node -> set of neighbours.

  type SetGraph = map<nat, set<nat>>

  /** Every edge is stored in both directions and ends at a node of the graph. */
  predicate Undirected(g: SetGraph) {
    forall u, v | u in g && v in g[u] :: v in g && u in g[v]
  }

  /** `w` is a walk: a non-empty sequence of nodes, consecutive ones adjacent. */
  predicate IsWalk(g: SetGraph, w: seq<nat>) {
    && |w| >= 1
    && (forall i | 0 <= i < |w| :: w[i] in g)
    && (forall i | 0 <= i < |w| - 1 :: w[i + 1] in g[w[i]])
  }

  ghost predicate Reachable(g: SetGraph, s: nat, t: nat) {
    exists w :: IsWalk(g, w) && w[0] == s && w[|w| - 1] == t
  }

  /** The connected component of `r`: every node a walk from `r` reaches. */
  ghost function Component(g: SetGraph, r: nat): set<nat> {
    set x | x in g && Reachable(g, r, x)
  }

  /** A set of nodes no edge leaves. */
  predicate Closed(g: SetGraph, s: set<nat>) {
    forall x, y | x in s && x in g && y in g[x] :: y in s
  }

  /** `c` gives the two ends of every edge different colours. */
  predicate ProperColouring(g: SetGraph, c: nat -> bool) {
    forall u, v | u in g && v in g[u] :: c(u) != c(v)
  }

  ghost predicate Bipartite(g: SetGraph) {
    exists c: nat -> bool :: ProperColouring(g, c)
  }

  /** Three mutually joined nodes cannot all get different colours out of two, so a graph
      holding a triangle is not bipartite. */
  lemma OddTriangleNotBipartite(g: SetGraph, x: nat, y: nat, z: nat)
    requires HasEdge(g, x, y) && HasEdge(g, x, z) && HasEdge(g, y, z)
    ensures !Bipartite(g)
  {
    forall c: nat -> bool
      ensures !ProperColouring(g, c)
    {
      assert c(x) == c(y) || c(x) == c(z) || c(y) == c(z);
    }
  }

  /** Along a walk a proper two-colouring alternates, so the two ends have the same colour
      exactly when the walk has an odd number of nodes (an even number of edges). */
  lemma {:induction false} WalkParity(g: SetGraph, c: nat -> bool, w: seq<nat>)
    requires ProperColouring(g, c) && IsWalk(g, w)
    ensures (c(w[0]) == c(w[|w| - 1])) == (|w| % 2 == 1)
  {
    if |w| > 1 {
      var w' := w[..|w| - 1];
      assert IsWalk(g, w');
      WalkParity(g, c, w');
      assert w[|w| - 1] in g[w[|w| - 2]];
    }
  }

  /** A closed set that holds the start of a walk holds the whole walk. */
  lemma {:induction false} ClosedHoldsWalk(g: SetGraph, s: set<nat>, w: seq<nat>)
    requires Closed(g, s) && IsWalk(g, w) && w[0] in s
    ensures w[|w| - 1] in s
  {
    if |w| > 1 {
      var w' := w[..|w| - 1];
      assert IsWalk(g, w');
      ClosedHoldsWalk(g, s, w');
      assert w[|w| - 1] in g[w[|w| - 2]];
    }
  }

  /** A closed set that holds `r` holds the whole component of `r`. */
  lemma ClosedHoldsComponent(g: SetGraph, s: set<nat>, r: nat)
    requires Closed(g, s) && r in s
    ensures Component(g, r) <= s
  {
    forall x | x in Component(g, r) ensures x in s {
      var w :| IsWalk(g, w) && w[0] == r && w[|w| - 1] == x;
      ClosedHoldsWalk(g, s, w);
    }
  }

  // ---------------------------------------------------------------------------------------
  // Building adjacency dictionaries edge by edge

  /** No element occurs twice. */
  predicate Distinct<T(==)>(xs: seq<T>) {
    forall i, j | 0 <= i < j < |xs| :: xs[i] != xs[j]
  }

  /** Two sequences without repetitions and without common elements join into one. */
  lemma DistinctConcat<T>(a: seq<T>, b: seq<T>)
    requires Distinct(a) && Distinct(b) && forall x | x in a :: x !in b
    ensures Distinct(a + b)
  {
    forall i, j | 0 <= i < j < |a + b| ensures (a + b)[i] != (a + b)[j] {
      if i < |a| && j >= |a| {
        assert (a + b)[i] in a && (a + b)[j] in b;
      }
    }
  }

  /** A sequence without repetitions has as many elements as the set of its elements. */
  lemma {:induction false} DistinctCard<T>(xs: seq<T>)
    requires Distinct(xs)
    ensures |set x | x in xs| == |xs|
  {
    if xs != [] {
      var last := xs[|xs| - 1];
      var init := xs[..|xs| - 1];
      DistinctCard(init);
      assert (set x | x in xs) == (set x | x in init) + {last};
      assert last !in init;
    }
  }

  /** The order in which iterating over a set visits its elements: some order in which each
      element occurs once. */
  method SetOrder<T(==)>(s: set<T>) returns (xs: seq<T>)
    ensures Distinct(xs) && |xs| == |s|
    ensures forall x :: x in xs <==> x in s
  {
    xs := [];
    var rest := s;
    while rest != {}
      invariant rest <= s && Distinct(xs)
      invariant forall x :: x in xs <==> x in s - rest
      decreases rest
    {
      var x :| x in rest;
      assert x !in xs;
      xs := xs + [x];
      rest := rest - {x};
    }
    assert (set x | x in xs) == s;
    DistinctCard(xs);
  }

  /** The neighbours of `u`, none when `u` is not a node yet. */
  function Adj(g: SetGraph, u: nat): set<nat> {
    if u in g then g[u] else {}
  }

  /** `graph.add_edge(u, v)`: both ends become nodes and each is entered as the other's
      neighbour. */
  function AddEdge(g: SetGraph, u: nat, v: nat): SetGraph {
    var g' := g[u := Adj(g, u) + {v}];
    g'[v := Adj(g', v) + {u}]
  }

  /** The insertion-ordered node list after `x` is added: unchanged when `x` is already a node. */
  function Enrol(nodes: seq<nat>, x: nat): seq<nat> {
    if x in nodes then nodes else nodes + [x]
  }

  /** Adding an edge keeps the node list in step with the nodes of the graph. */
  lemma AddEdgeNodes(g: SetGraph, nodes: seq<nat>, u: nat, v: nat)
    requires Distinct(nodes) && forall x :: x in nodes <==> x in g
    ensures Distinct(Enrol(Enrol(nodes, u), v))
    ensures forall x :: x in Enrol(Enrol(nodes, u), v) <==> x in AddEdge(g, u, v)
  {
    var n1 := Enrol(nodes, u);
    assert forall x :: x in n1 <==> x in nodes || x == u;
    assert forall x :: x in Enrol(n1, v) <==> x in n1 || x == v;
  }

  /** `v` is entered as a neighbour of `u`. */
  predicate HasEdge(g: SetGraph, u: nat, v: nat) {
    u in g && v in g[u]
  }

  /** The edges of `g`, as ordered pairs, are exactly `e`, and every node has a neighbour
      (nodes only come into being with an edge). */
  ghost predicate EdgesAre(g: SetGraph, e: set<(nat, nat)>) {
    && (forall u: nat, v: nat {:trigger HasEdge(g, u, v)} :: HasEdge(g, u, v) <==> (u, v) in e)
    && (forall u | u in g :: g[u] != {})
  }

  /** Adding an edge adds it in both directions. */
  lemma AddEdgeEdges(g: SetGraph, e: set<(nat, nat)>, u: nat, v: nat)
    requires EdgesAre(g, e)
    ensures EdgesAre(AddEdge(g, u, v), e + {(u, v), (v, u)})
  {
    var g' := AddEdge(g, u, v);
    forall x: nat, y: nat
      ensures HasEdge(g', x, y) <==> (x, y) in e + {(u, v), (v, u)}
    {
      assert HasEdge(g, x, y) <==> (x, y) in e;
    }
  }

  /** A graph whose edge set is closed under reversal is undirected. */
  lemma SymmetricEdgesUndirected(g: SetGraph, e: set<(nat, nat)>)
    requires EdgesAre(g, e)
    requires forall p | p in e :: (p.1, p.0) in e
    ensures Undirected(g)
  {
    forall u, v | u in g && v in g[u]
      ensures v in g && u in g[v]
    {
      assert HasEdge(g, u, v);
      assert HasEdge(g, v, u);
    }
  }

  // ---------------------------------------------------------------------------------------
  // Walks in undirected graphs

  /** `reversed(s)`. */
  function Reverse<T(!new)>(s: seq<T>): (r: seq<T>)
    ensures |r| == |s| && forall i | 0 <= i < |s| :: r[i] == s[|s| - 1 - i]
    ensures forall x :: x in r <==> x in s
  {
    if s == [] then [] else Reverse(s[1..]) + [s[0]]
  }

  /** Every node reaches itself. */
  lemma ReachableSelf(g: SetGraph, r: nat)
    requires r in g
    ensures Reachable(g, r, r)
  {
    assert IsWalk(g, [r]);
  }

  /** A walk to `v` continues along any edge of `v`. */
  lemma ReachableStep(g: SetGraph, r: nat, v: nat, w: nat)
    requires Undirected(g) && Reachable(g, r, v) && v in g && w in g[v]
    ensures Reachable(g, r, w)
  {
    var p :| IsWalk(g, p) && p[0] == r && p[|p| - 1] == v;
    assert IsWalk(g, p + [w]);
  }

  /** In an undirected graph a walk read backwards is a walk. */
  lemma ReverseWalk(g: SetGraph, w: seq<nat>)
    requires Undirected(g) && IsWalk(g, w)
    ensures IsWalk(g, Reverse(w))
  {
    var r := Reverse(w);
    forall i | 0 <= i < |r| - 1
      ensures r[i + 1] in g[r[i]]
    {
      var k := |w| - 2 - i;
      assert r[i] == w[k + 1] && r[i + 1] == w[k];
      assert w[k + 1] in g[w[k]];
    }
  }

  /** The component of a node outside a closed set lies outside it too. */
  lemma ComponentOutside(g: SetGraph, s: set<nat>, v: nat)
    requires Undirected(g) && Closed(g, s) && v !in s
    ensures Component(g, v) !! s
  {
    forall x | x in Component(g, v) && x in s
      ensures false
    {
      var w :| IsWalk(g, w) && w[0] == v && w[|w| - 1] == x;
      ReverseWalk(g, w);
      ClosedHoldsWalk(g, s, Reverse(w));
    }
  }

  /** A component is closed. */
  lemma ComponentClosed(g: SetGraph, r: nat)
    requires Undirected(g)
    ensures Closed(g, Component(g, r))
  {
    forall x, y | x in Component(g, r) && x in g && y in g[x]
      ensures y in Component(g, r)
    {
      ReachableStep(g, r, x, y);
    }
  }
}
