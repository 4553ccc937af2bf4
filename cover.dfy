/** The decision procedure of aegypti/cover.py: `solve` composes the conflict graph, its
    two-colouring and the subset-sum table, and `is_independent_edge_triangle_cover_free`
    runs the triangle collector first and answers `True` at once when it finds nothing. */
module Cover {
  import opened Wrappers
  import opened PyValues
  import opened Graphs
  import opened AegyptiUtils
  import opened CoverCollector
  import opened ConflictGraph
  import opened Bipartition
  import opened SubsetSum
  import CoverBruteForce

  /** The sizes `(len(set1), len(set0))` of the entries, as `subset_sum` reads them. */
  function Sizes(parts: seq<(set<nat>, set<nat>)>): (sizes: seq<(nat, nat)>)
    ensures |sizes| == |parts|
  {
    seq(|parts|, m requires 0 <= m < |parts| => (|parts[m].0|, |parts[m].1|))
  }

  /** The union of the classes a choice picks: for entry `m`, `set1` when `choice[m - 1]`
      holds and `set0` otherwise. */
  function Chosen(parts: seq<(set<nat>, set<nat>)>, choice: seq<bool>): set<nat>
    requires |choice| < |parts|
  {
    if choice == [] then {}
    else
      var m := |choice|;
      Chosen(parts, choice[..m - 1]) + (if choice[m - 1] then parts[m].0 else parts[m].1)
  }

  /** The entries `1..` are component entries of `g` with disjoint node sets, as `coloring`
      returns them. */
  ghost predicate Entries(g: SetGraph, parts: seq<(set<nat>, set<nat>)>) {
    && (forall m {:trigger SomeComponent(g, parts[m])} | 1 <= m < |parts| :: SomeComponent(g, parts[m]))
    && (forall m1, m2 {:trigger Members(parts[m1]), Members(parts[m2])} | 1 <= m1 < m2 < |parts| ::
          Members(parts[m1]) !! Members(parts[m2]))
  }

  /** The picked classes lie in the entries `1..|choice|`. */
  lemma {:induction false} ChosenWithin(parts: seq<(set<nat>, set<nat>)>, choice: seq<bool>, x: nat)
    requires |choice| < |parts| && x in Chosen(parts, choice)
    ensures exists m | 1 <= m <= |choice| :: x in Members(parts[m])
  {
    var m := |choice|;
    if x !in (if choice[m - 1] then parts[m].0 else parts[m].1) {
      ChosenWithin(parts, choice[..m - 1], x);
    }
  }

  /** A node picked from an earlier entry is outside entry `m`, and so are its neighbours. */
  lemma OutsideLaterEntry(g: SetGraph, parts: seq<(set<nat>, set<nat>)>, prefix: seq<bool>, m: nat, x: nat)
    requires Undirected(g) && Entries(g, parts) && |prefix| < m < |parts| && x in Chosen(parts, prefix)
    ensures x in g && x !in Members(parts[m])
    ensures forall y | y in g[x] :: y !in Members(parts[m])
  {
    ChosenWithin(parts, prefix, x);
    var m' :| 1 <= m' <= |prefix| && x in Members(parts[m']);
    assert SomeComponent(g, parts[m']);
    var root :| ComponentEntry(g, parts[m'], root);
    ComponentClosed(g, root);
  }

  /** An entry is a closed set of nodes split into two independent classes. */
  lemma EntryFacts(g: SetGraph, parts: seq<(set<nat>, set<nat>)>, m: nat)
    requires Undirected(g) && Entries(g, parts) && 1 <= m < |parts|
    ensures Members(parts[m]) <= g.Keys && Closed(g, Members(parts[m]))
    ensures Independent(g, parts[m].0) && Independent(g, parts[m].1)
  {
    assert SomeComponent(g, parts[m]);
    var root :| ComponentEntry(g, parts[m], root);
    ComponentClosed(g, root);
  }

  /** Adding an independent part of a closed set to an independent set none of whose
      nodes or neighbours lie in that closed set keeps it independent. */
  lemma UnionIndependent(g: SetGraph, before: set<nat>, picked: set<nat>, entry: set<nat>)
    requires Independent(g, before) && Independent(g, picked) && picked <= entry && Closed(g, entry)
    requires forall x | x in before :: x in g && x !in entry && forall y | y in g[x] :: y !in entry
    ensures Independent(g, before + picked)
  {
  }

  /** Picking one colour class from each component gives an independent set of the graph:
      this, with `ChosenSize`, is what a `True` cell of the subset-sum table stands for. */
  lemma {:induction false} ChosenIndependent(g: SetGraph, parts: seq<(set<nat>, set<nat>)>, choice: seq<bool>)
    requires Undirected(g) && Entries(g, parts) && |choice| < |parts|
    ensures Chosen(parts, choice) <= g.Keys
    ensures Independent(g, Chosen(parts, choice))
  {
    if choice != [] {
      var m := |choice|;
      var prefix := choice[..m - 1];
      ChosenIndependent(g, parts, prefix);
      var before := Chosen(parts, prefix);
      var picked := if choice[m - 1] then parts[m].0 else parts[m].1;
      assert Chosen(parts, choice) == before + picked;
      EntryFacts(g, parts, m);
      forall x | x in before
        ensures x in g && x !in Members(parts[m]) && forall y | y in g[x] :: y !in Members(parts[m])
      {
        OutsideLaterEntry(g, parts, prefix, m, x);
      }
      UnionIndependent(g, before, picked, Members(parts[m]));
    }
  }

  /** The picked classes are disjoint, so their union has the size the choice sums to. */
  lemma {:induction false} ChosenSize(g: SetGraph, parts: seq<(set<nat>, set<nat>)>, choice: seq<bool>)
    requires Undirected(g) && Entries(g, parts) && |choice| < |parts|
    ensures |Chosen(parts, choice)| == ChoiceSum(Sizes(parts), choice)
  {
    if choice != [] {
      var m := |choice|;
      var prefix := choice[..m - 1];
      ChosenSize(g, parts, prefix);
      var before := Chosen(parts, prefix);
      var picked := if choice[m - 1] then parts[m].0 else parts[m].1;
      assert Chosen(parts, choice) == before + picked;
      forall x | x in before
        ensures x !in Members(parts[m])
      {
        OutsideLaterEntry(g, parts, prefix, m, x);
      }
      assert before !! picked;
    }
  }

  /** The second half of `solve`: `coloring` of the conflict graph, `True` when it is not
      bipartite, and otherwise the negated subset-sum answer for `k`. A `False` answer
      comes with an independent set of `k` nodes. */
  method Decide(graph: SetGraph, nodes: seq<nat>, k: nat) returns (b: bool, parts: seq<(set<nat>, set<nat>)>)
    requires Undirected(graph) && forall x :: x in nodes <==> x in graph
    ensures parts == [] <==> !Bipartite(graph)
    ensures parts == [] ==> b
    ensures parts != [] ==> Entries(graph, parts) && (b <==> !Reach(Sizes(parts), |parts| - 1, k))
    ensures !b ==> exists s :: s <= graph.Keys && Independent(graph, s) && |s| == k
  {
    var partitions := Coloring(graph, nodes);
    if partitions.None? {
      return true, [];
    }
    parts := partitions.value;
    var found := SubsetSumTable(Sizes(parts), |parts| - 1, k);
    b := !found;
    if found {
      TrueCellIndependentSet(graph, parts, k);
    }
  }

  /** A `True` answer of the subset-sum table for `k` means the graph has an independent set
      of `k` nodes. */
  lemma TrueCellIndependentSet(g: SetGraph, parts: seq<(set<nat>, set<nat>)>, k: nat)
    requires Undirected(g) && Entries(g, parts) && |parts| >= 1
    requires Reach(Sizes(parts), |parts| - 1, k)
    ensures exists s :: s <= g.Keys && Independent(g, s) && |s| == k
  {
    ReachChoice(Sizes(parts), |parts| - 1, k);
    var choice :| |choice| == |parts| - 1 && ChoiceSum(Sizes(parts), choice) == k;
    ChosenIndependent(g, parts, choice);
    ChosenSize(g, parts, choice);
    assert Chosen(parts, choice) <= g.Keys;
  }

  /** `solve(universe, cover)` on the collector's output, `keys` being the order of the
      dictionary: `fill_graph`, then `Decide`. Besides the answer it gives the conflict
      graph, its `k`, the entries `coloring` returned (none when it returned `None`) and,
      as a ghost, the numbering of the triangles. */
  method Solve(universe: set<Tri>, cover: map<nat, set<Tri>>, keys: seq<nat>)
    returns (b: bool, graph: SetGraph, k: nat, ghost elems: seq<Tri>, parts: seq<(set<nat>, set<nat>)>)
    requires KeyOrder(keys, cover) && forall key | key in cover :: cover[key] <= universe
    ensures Distinct(elems) && forall t :: t in elems <==> t in universe
    ensures EdgesAre(graph, ConflictEdges(elems, cover, ConflictPairs(keys, cover, |keys|)))
    ensures k == |universe| + |ConflictPairs(keys, cover, |keys|)|
    ensures parts == [] <==> !Bipartite(graph)
    ensures parts == [] ==> b
    ensures parts != [] ==> Entries(graph, parts) && (b <==> !Reach(Sizes(parts), |parts| - 1, k))
    ensures !b ==> exists s :: s <= graph.Keys && Independent(graph, s) && |s| == k
  {
    var nodes;
    graph, nodes, k, elems := FillGraph(universe, cover, keys);
    ConflictPairsMembers(keys, cover, |keys|);
    ConflictEdgesSymmetric(elems, cover, ConflictPairs(keys, cover, |keys|));
    SymmetricEdgesUndirected(graph, ConflictEdges(elems, cover, ConflictPairs(keys, cover, |keys|)));
    b, parts := Decide(graph, nodes, k);
  }

  /** The collector files nothing exactly when it finds no triangle. */
  lemma CoverIndexEmpty(universe: set<Tri>)
    ensures CoverIndex(universe) == map[] <==> universe == {}
  {
    if universe != {} {
      var t :| t in universe;
      assert t.0 in Endpoints(universe);
      assert t.0 in CoverIndex(universe);
    }
  }

  /** A collected triangle `t` makes `(t.0, t.2)` a gadget pair: it is filed under both. */
  lemma TriangleGadgetPair(universe: set<Tri>, keys: seq<nat>, t: Tri)
    requires t in universe && forall t' | t' in universe :: t'.0 < t'.1 < t'.2
    requires KeyOrder(keys, CoverIndex(universe))
    ensures t in CoverIndex(universe)[t.0] && t in CoverIndex(universe)[t.2]
    ensures (t.0, t.2) in ConflictPairs(keys, CoverIndex(universe), |keys|)
  {
    var cover := CoverIndex(universe);
    CoverIndexShape(universe);
    assert t in cover[t.0] && t in cover[t.2];
    ConflictPairsMembers(keys, cover, |keys|);
    assert keys[..|keys|] == keys;
    assert t.0 in keys && t.2 in keys;
    var both: set<Tri> := cover[t.0] * cover[t.2];
    assert t in both;
    assert Conflicting(cover, t.0, t.2);
  }

  /** A gadget both of whose keys file the element `elems[x]` closes an odd cycle with
      that element's node, so the conflict graph is not two-colourable. */
  lemma GadgetOddCycle(elems: seq<Tri>, cover: map<nat, set<Tri>>, pairs: seq<(nat, nat)>,
                       graph: SetGraph, x: nat, m: nat)
    requires forall pr | pr in pairs :: pr.0 in cover && pr.1 in cover
    requires x < |elems| && m < |pairs|
    requires elems[x] in cover[pairs[m].0] && elems[x] in cover[pairs[m].1]
    requires EdgesAre(graph, ConflictEdges(elems, cover, pairs))
    ensures !Bipartite(graph)
  {
    ConflictEdgesLink(elems, cover, pairs, x, m);
    var g1, g2 := |elems| + 2 * m, |elems| + 2 * m + 1;
    assert HasEdge(graph, x, g1) && HasEdge(graph, x, g2) && HasEdge(graph, g1, g2);
    OddTriangleNotBipartite(graph, x, g1, g2);
  }

  /** The conflict graph of a non-empty collection is never two-colourable: a triangle
      `t` is filed under both `t.0` and `t.2`, so the pair `(t.0, t.2)` gets a gadget whose
      two nodes are joined to each other and both to the node of `t`, an odd cycle. */
  lemma ConflictGraphNotBipartite(universe: set<Tri>, keys: seq<nat>, elems: seq<Tri>, graph: SetGraph)
    requires universe != {} && forall t | t in universe :: t.0 < t.1 < t.2
    requires KeyOrder(keys, CoverIndex(universe))
    requires Distinct(elems) && forall t :: t in elems <==> t in universe
    requires EdgesAre(graph, ConflictEdges(elems, CoverIndex(universe),
                                           ConflictPairs(keys, CoverIndex(universe), |keys|)))
    ensures !Bipartite(graph)
  {
    var cover := CoverIndex(universe);
    var pairs := ConflictPairs(keys, cover, |keys|);
    var t :| t in universe;
    TriangleGadgetPair(universe, keys, t);
    var m :| 0 <= m < |pairs| && pairs[m] == (t.0, t.2);
    var x :| 0 <= x < |elems| && elems[x] == t;
    GadgetOddCycle(elems, cover, pairs, graph, x, m);
  }

  /** `is_independent_edge_triangle_cover_free(adjacency_matrix)`: the collector's errors
      pass through; an empty `cover` answers `True` without calling `solve`. */
  method IsIndependentEdgeTriangleCoverFree(a: Matrix) returns (r: Result<bool, Exception>)
    ensures !Square(a) ==> r == Failure(ValueError(CollectorNotSquareMessage))
    ensures IsGraph(a) ==> r.Success?
    ensures IsGraph(a) ==> r == Success(true)
    ensures r.Success? ==> r == Success(true)
  {
    var collected := CollectTriangles(a);
    if collected.Failure? {
      return Failure(collected.error);
    }
    var (universe, cover, keys) := collected.value;
    CoverIndexEmpty(universe);
    if cover == map[] {
      return Success(true);
    }
    CoverIndexShape(universe);
    var b, graph, k, elems, parts := Solve(universe, cover, keys);
    ConflictGraphNotBipartite(universe, keys, elems, graph);
    return Success(b);
  }

  /** The adjacency matrix of the triangle `K3` on the vertices 0, 1 and 2. */
  const K3: Matrix := [[false, true, true], [true, false, true], [true, true, false]]

  /** `K3` is a graph whose only triangle is `(0, 1, 2)`. */
  lemma K3Shape()
    ensures IsGraph(K3) && UpperTriangles(K3) == {(0, 1, 2)}
  {
    assert UpperTriangle(K3, (0, 1, 2));
    assert (0, 1, 2) in UpperTriangles(K3);
  }

  /** The edge `(0, 1)` alone is an independent edge triangle cover of `K3`. */
  lemma K3Covered()
    ensures CoverBruteForce.HasIndependentCover(K3)
  {
    K3Shape();
    var chosen: set<CoverBruteForce.Edge> := {(0, 1)};
    assert (0, 1) in CoverBruteForce.UpperEdges(K3);
    assert |chosen| == 1 && |UpperTriangles(K3)| == 1;
    assert CoverBruteForce.OnTriangle((0, 1), (0, 1, 2));
    assert CoverBruteForce.Hit(chosen, (0, 1, 2)) && CoverBruteForce.AtMostOnce(chosen, (0, 1, 2));
  }

  /** On `K3` the entry point answers `True` although a single edge already lies on the one
      triangle exactly once, so the exhaustive search answers `False`. */
  method TriangleDisagreement() returns (fast: Result<bool, Exception>, slow: PyValue)
    ensures fast == Success(true) && slow == PyBool(false)
  {
    K3Shape();
    K3Covered();
    fast := IsIndependentEdgeTriangleCoverFree(K3);
    slow := CoverBruteForce.BruteForce(K3);
  }

  /** The answer the docstring promises, "`True` if no independent edge triangle cover
      exists": the collector's validation, `True` for a graph without triangles, and
      otherwise the verdict of the exhaustive search. */
  method CoverFreeBySearch(a: Matrix) returns (r: Result<bool, Exception>)
    ensures !Square(a) ==> r == Failure(ValueError(CollectorNotSquareMessage))
    ensures IsGraph(a) && UpperTriangles(a) == {} ==> r == Success(true)
    ensures IsGraph(a) && UpperTriangles(a) != {} ==> r == Success(!CoverBruteForce.HasIndependentCover(a))
  {
    var collected := CollectTriangles(a);
    if collected.Failure? {
      return Failure(collected.error);
    }
    CoverIndexEmpty(collected.value.0);
    if collected.value.1 == map[] {
      return Success(true);
    }
    var answer := CoverBruteForce.BruteForce(a);
    return Success(answer == PyBool(true));
  }
}
