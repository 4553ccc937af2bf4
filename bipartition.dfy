/** `coloring` in aegypti/cover.py and the parts of networkx it relies on, written out: the
    two-colouring of `bipartite.color` (a walk from the first uncoloured node of each
    component, that node coloured 1, every newly reached neighbour the other colour, a
    clash of colours across an edge meaning the graph is not bipartite, isolated nodes
    coloured 0), the breadth-first search behind `connected_components`, and the induced
    subgraph of a component. */
module Bipartition {
  import opened Wrappers
  import opened Graphs
  import opened AegyptiUtils

  /** Every colour is 0 or 1. */
  predicate Binary(c: map<nat, int>) {
    forall x | x in c :: c[x] == 0 || c[x] == 1
  }

  /** Every coloured node not waiting in `queue` has all its neighbours coloured, each with
      the other colour. */
  ghost predicate Settled(g: SetGraph, c: map<nat, int>, queue: seq<nat>) {
    forall u, v | u in c && u !in queue && u in g && v in g[u] :: v in c && c[v] != c[u]
  }

  /** In any proper two-colouring of `g`, a node coloured since `before` has the colour of
      `root` exactly when the walk gave it colour 1. */
  ghost predicate Consistent(g: SetGraph, c: map<nat, int>, before: set<nat>, root: nat) {
    forall p: nat -> bool | ProperColouring(g, p) ::
      forall x | x in c && x !in before :: (p(x) == p(root)) == (c[x] == 1)
  }

  /** A colour clash across an edge between two nodes coloured since `before` rules out
      every proper two-colouring. */
  lemma ClashNotBipartite(g: SetGraph, c: map<nat, int>, before: set<nat>, root: nat, v: nat, w: nat)
    requires v in g && w in g[v] && v in c && w in c && c[v] == c[w]
    requires v !in before && w !in before && Consistent(g, c, before, root)
    ensures !Bipartite(g)
  {
    forall p: nat -> bool
      ensures !ProperColouring(g, p)
    {
    }
  }

  /** Colouring a new neighbour `w` of `v` with the other colour keeps the walk consistent. */
  lemma ConsistentExtend(g: SetGraph, c: map<nat, int>, before: set<nat>, root: nat, v: nat, w: nat)
    requires Binary(c) && v in g && w in g[v] && v in c && v !in before && w !in c
    requires Consistent(g, c, before, root)
    ensures Consistent(g, c[w := 1 - c[v]], before, root)
  {
    var c' := c[w := 1 - c[v]];
    forall p: nat -> bool | ProperColouring(g, p)
      ensures forall x | x in c' && x !in before :: (p(x) == p(root)) == (c'[x] == 1)
    {
      assert p(v) != p(w);
    }
  }

  /** `for w in G[v]` in the walk of `bipartite.color`: every uncoloured neighbour of `v` gets
      the other colour and joins the queue; a neighbour with `v`'s colour is a clash. */
  method ColourNeighbours(g: SetGraph, v: nat, c: map<nat, int>, queue: seq<nat>,
                          ghost before: set<nat>, ghost root: nat)
    returns (r: Option<(map<nat, int>, seq<nat>)>)
    requires Undirected(g) && v in g && v in c && v !in before && before <= c.Keys <= g.Keys && Binary(c)
    requires Settled(g, c, queue + [v])
    requires forall x | x in queue :: x in c && x !in before
    requires Consistent(g, c, before, root)
    ensures r.None? ==> !Bipartite(g)
    ensures r.Some? ==> var (c', queue') := r.value;
      && c.Keys <= c'.Keys <= g.Keys && Binary(c')
      && (forall x | x in c :: c'[x] == c[x])
      && Settled(g, c', queue')
      && (forall x | x in queue' :: x in c' && x !in before)
      && Consistent(g, c', before, root)
      && (c'.Keys == c.Keys ==> queue' == queue)
  {
    var c', queue' := c, queue;
    var rest := g[v];
    while rest != {}
      invariant rest <= g[v]
      invariant c.Keys <= c'.Keys <= g.Keys && Binary(c')
      invariant forall w | w in g[v] && w !in rest :: w in c' && c'[w] != c'[v]
      invariant forall x | x in c :: c'[x] == c[x]
      invariant Settled(g, c', queue' + [v])
      invariant forall x | x in queue' :: x in c' && x !in before
      invariant Consistent(g, c', before, root)
      invariant c'.Keys == c.Keys ==> queue' == queue
      decreases rest
    {
      var w :| w in rest;
      if w in c' {
        if c'[w] == c'[v] {
          assert w !in before by {
            assert v in g[w];
          }
          ClashNotBipartite(g, c', before, root, v, w);
          return None;
        }
      } else {
        ConsistentExtend(g, c', before, root, v, w);
        c' := c'[w := 1 - c'[v]];
        queue' := queue' + [w];
      }
      rest := rest - {w};
    }
    return Some((c', queue'));
  }

  /** The walk of `bipartite.color` from `root`, the first uncoloured node of its component:
      `root` gets colour 1 and the queue is worked off from its end. */
  method ColourComponent(g: SetGraph, root: nat, color: map<nat, int>) returns (r: Option<map<nat, int>>)
    requires Undirected(g) && root in g && root !in color && color.Keys <= g.Keys && Binary(color)
    requires Settled(g, color, [])
    ensures r.None? ==> !Bipartite(g)
    ensures r.Some? ==> && color.Keys + {root} <= r.value.Keys <= g.Keys && Binary(r.value)
                        && (forall x | x in color :: r.value[x] == color[x])
                        && Settled(g, r.value, [])
  {
    ghost var before := color.Keys;
    var c := color[root := 1];
    var queue := [root];
    while queue != []
      invariant before + {root} <= c.Keys <= g.Keys && Binary(c)
      invariant forall x | x in color :: c[x] == color[x]
      invariant forall x | x in queue :: x in c && x !in before
      invariant Settled(g, c, queue)
      invariant Consistent(g, c, before, root)
      decreases g.Keys - c.Keys, |queue|
    {
      var v := queue[|queue| - 1];
      queue := queue[..|queue| - 1];
      var step := ColourNeighbours(g, v, c, queue, before, root);
      if step.None? {
        return None;
      }
      c, queue := step.value.0, step.value.1;
    }
    return Some(c);
  }

  /** `bipartite.color(G)`, with `None` for the error it raises when `G` is not bipartite:
      the nodes are tried in the order `nodes`, and isolated ones are coloured 0 at the end. */
  method Color(g: SetGraph, nodes: seq<nat>) returns (r: Option<map<nat, int>>)
    requires Undirected(g) && forall x :: x in nodes <==> x in g
    ensures r.None? ==> !Bipartite(g)
    ensures r.Some? ==> r.value.Keys == g.Keys && Binary(r.value)
                        && forall u, v | u in g && v in g[u] :: r.value[u] != r.value[v]
  {
    var color: map<nat, int> := map[];
    for i := 0 to |nodes|
      invariant color.Keys <= g.Keys && Binary(color) && Settled(g, color, [])
      invariant forall j | 0 <= j < i :: nodes[j] in color || g[nodes[j]] == {}
    {
      var n := nodes[i];
      if n !in color && g[n] != {} {
        var coloured := ColourComponent(g, n, color);
        if coloured.None? {
          return None;
        }
        color := coloured.value;
      }
    }
    var isolates := map x | x in g && g[x] == {} :: 0;
    color := color + isolates;
    return Some(color);
  }

  /** A proper colouring given as a map of 0s and 1s makes the graph bipartite. */
  lemma ColourMapBipartite(g: SetGraph, c: map<nat, int>)
    requires Undirected(g) && g.Keys <= c.Keys && Binary(c)
    requires forall u, v | u in g && v in g[u] :: c[u] != c[v]
    ensures Bipartite(g)
  {
    var p := (x: nat) => x in c && c[x] == 1;
    assert ProperColouring(g, p);
  }

  /** `bipartite.is_bipartite(G)`: whether `bipartite.color` succeeds. */
  method IsBipartite(g: SetGraph, nodes: seq<nat>) returns (b: bool)
    requires Undirected(g) && forall x :: x in nodes <==> x in g
    ensures b <==> Bipartite(g)
  {
    var colouring := Color(g, nodes);
    if colouring.Some? {
      ColourMapBipartite(g, colouring.value);
    }
    return colouring.Some?;
  }

  // ---------------------------------------------------------------------------------------
  // Components

  /** The breadth-first search behind `connected_components`: every node reachable from
      `root`. */
  method PlainBfs(g: SetGraph, root: nat) returns (seen: set<nat>)
    requires Undirected(g) && root in g
    ensures seen == Component(g, root)
  {
    ReachableSelf(g, root);
    seen := {root};
    var work := [root];
    while work != []
      invariant root in seen && seen <= g.Keys
      invariant forall x | x in seen :: Reachable(g, root, x)
      invariant forall x | x in work :: x in seen
      invariant forall x, y | x in seen && x !in work && y in g[x] :: y in seen
      decreases g.Keys - seen, |work|
    {
      var v := work[|work| - 1];
      work := work[..|work| - 1];
      ghost var seen0, work0 := seen, work;
      var rest := g[v];
      while rest != {}
        invariant rest <= g[v]
        invariant forall y | y in g[v] && y !in rest :: y in seen
        invariant seen0 <= seen <= g.Keys
        invariant forall x | x in seen :: Reachable(g, root, x)
        invariant forall x | x in work :: x in seen
        invariant forall x, y | x in seen && x !in work && x != v && y in g[x] :: y in seen
        invariant seen == seen0 ==> work == work0
        decreases rest
      {
        var w :| w in rest;
        if w !in seen {
          ReachableStep(g, root, v, w);
          seen := seen + {w};
          work := work + [w];
        }
        rest := rest - {w};
      }
    }
    ClosedHoldsComponent(g, seen, root);
  }

  /** `nx.induced_subgraph(graph, component)`: the nodes of `s` and the edges between them. */
  function Induced(g: SetGraph, s: set<nat>): (h: SetGraph)
    ensures h.Keys == g.Keys * s
    ensures forall x | x in h :: h[x] == g[x] * s
  {
    map x | x in g && x in s :: g[x] * s
  }

  /** The induced subgraph of an undirected graph is undirected, and any proper colouring of
      the graph is one of the subgraph. */
  lemma InducedFacts(g: SetGraph, s: set<nat>)
    requires Undirected(g)
    ensures Undirected(Induced(g, s))
    ensures Bipartite(g) ==> Bipartite(Induced(g, s))
  {
    if Bipartite(g) {
      var p :| ProperColouring(g, p);
      assert ProperColouring(Induced(g, s), p);
    }
  }

  /** The nodes of `nodes` that lie in `s`, in the same order: the node order of the induced
      subgraph. */
  function FilterIn(nodes: seq<nat>, s: set<nat>): (r: seq<nat>)
    ensures forall x :: x in r <==> x in nodes && x in s
  {
    if nodes == [] then []
    else (if nodes[0] in s then [nodes[0]] else []) + FilterIn(nodes[1..], s)
  }

  // ---------------------------------------------------------------------------------------
  // coloring

  /** No edge joins two nodes of `s`. */
  ghost predicate Independent(g: SetGraph, s: set<nat>) {
    forall u, v | u in s && u in g && v in g[u] :: v !in s
  }

  /** The nodes of an entry. */
  function Members(part: (set<nat>, set<nat>)): set<nat> {
    part.0 + part.1
  }

  /** One entry of the result: the two colour classes of the component of `root`. */
  ghost predicate ComponentEntry(g: SetGraph, part: (set<nat>, set<nat>), root: nat) {
    && root in g
    && Members(part) == Component(g, root)
    && part.0 !! part.1
    && Independent(g, part.0) && Independent(g, part.1)
  }

  /** The entry is the split of some component. */
  ghost predicate SomeComponent(g: SetGraph, part: (set<nat>, set<nat>)) {
    exists root: nat :: ComponentEntry(g, part, root)
  }

  /** `parts` is the placeholder followed by component entries: disjoint, inside `seen`,
      and together holding every node of `seen`. */
  ghost predicate Partitioned(g: SetGraph, parts: seq<(set<nat>, set<nat>)>, seen: set<nat>) {
    && |parts| >= 1 && parts[0] == ({}, {})
    && (forall m | 1 <= m < |parts| :: SomeComponent(g, parts[m]) && Members(parts[m]) <= seen)
    && (forall m1, m2 | 1 <= m1 < m2 < |parts| :: Members(parts[m1]) !! Members(parts[m2]))
    && (forall x | x in seen :: InSomeEntry(parts, x))
  }

  /** `x` belongs to one of the component entries. */
  predicate InSomeEntry(parts: seq<(set<nat>, set<nat>)>, x: nat) {
    exists m | 1 <= m < |parts| :: x in Members(parts[m])
  }

  /** `coloring(graph)`: `None` exactly when the graph is not bipartite; otherwise the
      placeholder `(set(), set())` followed by one entry per connected component, in the
      order their first nodes come in `nodes`, each the component split into its two colour
      classes. The entries are disjoint and hold every node. */
  method Coloring(g: SetGraph, nodes: seq<nat>) returns (r: Option<seq<(set<nat>, set<nat>)>>)
    requires Undirected(g) && forall x :: x in nodes <==> x in g
    ensures r.None? <==> !Bipartite(g)
    ensures r.Some? ==> |r.value| >= 1 && r.value[0] == ({}, {})
    ensures r.Some? ==> forall m {:trigger SomeComponent(g, r.value[m])} | 1 <= m < |r.value| ::
                          SomeComponent(g, r.value[m])
    ensures r.Some? ==> forall m1, m2 {:trigger Members(r.value[m1]), Members(r.value[m2])} | 1 <= m1 < m2 < |r.value| ::
                          Members(r.value[m1]) !! Members(r.value[m2])
    ensures r.Some? ==> forall x | x in g :: InSomeEntry(r.value, x)
  {
    var bipartite := IsBipartite(g, nodes);
    if !bipartite {
      return None;
    }
    var partitions := [({}, {})];
    var seen: set<nat> := {};
    for i := 0 to |nodes|
      invariant seen <= g.Keys && Closed(g, seen) && Partitioned(g, partitions, seen)
      invariant PrefixSeen(nodes, i, seen)
    {
      var v := nodes[i];
      ghost var seen0 := seen;
      if v !in seen {
        partitions, seen := AddComponent(g, nodes, partitions, seen, v);
      }
      PrefixSeenStep(nodes, i, seen0, seen);
    }
    PrefixSeenAll(g, nodes, seen);
    return Some(partitions);
  }

  /** The first `i` nodes have been reached. */
  ghost predicate PrefixSeen(nodes: seq<nat>, i: nat, seen: set<nat>) {
    forall j | 0 <= j < i && j < |nodes| :: nodes[j] in seen
  }

  lemma PrefixSeenStep(nodes: seq<nat>, i: nat, seen: set<nat>, seen': set<nat>)
    requires i < |nodes| && PrefixSeen(nodes, i, seen) && seen <= seen' && nodes[i] in seen'
    ensures PrefixSeen(nodes, i + 1, seen')
  {
  }

  lemma PrefixSeenAll(g: SetGraph, nodes: seq<nat>, seen: set<nat>)
    requires (forall x :: x in nodes <==> x in g) && PrefixSeen(nodes, |nodes|, seen)
    ensures g.Keys <= seen
  {
    forall x | x in g
      ensures x in seen
    {
      var j :| 0 <= j < |nodes| && nodes[j] == x;
    }
  }

  /** One round of the loop of `coloring` for a node `v` of no earlier component: its
      component, coloured, becomes the next entry. */
  method AddComponent(g: SetGraph, nodes: seq<nat>, parts: seq<(set<nat>, set<nat>)>, seen: set<nat>, v: nat)
    returns (parts': seq<(set<nat>, set<nat>)>, seen': set<nat>)
    requires Undirected(g) && Bipartite(g) && forall x :: x in nodes <==> x in g
    requires v in g && v !in seen && seen <= g.Keys && Closed(g, seen) && Partitioned(g, parts, seen)
    ensures seen <= seen' <= g.Keys && v in seen'
    ensures Closed(g, seen') && Partitioned(g, parts', seen')
  {
    var component := PlainBfs(g, v);
    var entry := ColourEntry(g, nodes, component, v);
    ReachableSelf(g, v);
    ComponentOutside(g, seen, v);
    ComponentClosed(g, v);
    parts' := parts + [entry];
    seen' := seen + component;
    assert SomeComponent(g, entry) by {
      assert ComponentEntry(g, entry, v);
    }
    forall m | 1 <= m < |parts'|
      ensures SomeComponent(g, parts'[m]) && Members(parts'[m]) <= seen'
    {
      if m < |parts| {
        assert parts'[m] == parts[m];
      }
    }
    forall x | x in seen'
      ensures InSomeEntry(parts', x)
    {
      if x in component {
        assert x in Members(parts'[|parts|]);
      } else {
        assert InSomeEntry(parts, x);
        var m :| 1 <= m < |parts| && x in Members(parts[m]);
        assert parts'[m] == parts[m];
      }
    }
  }

  /** `bipartite.color` on the induced subgraph of the component of `root` and
      `create_sets_from_dict` on the result. */
  method ColourEntry(g: SetGraph, nodes: seq<nat>, component: set<nat>, ghost root: nat)
    returns (entry: (set<nat>, set<nat>))
    requires Undirected(g) && Bipartite(g) && forall x :: x in nodes <==> x in g
    requires root in g && component == Component(g, root)
    ensures ComponentEntry(g, entry, root)
  {
    ReachableSelf(g, root);
    ComponentClosed(g, root);
    var sub := Induced(g, component);
    InducedFacts(g, component);
    var colouring := Color(sub, FilterIn(nodes, component));
    var sets := CreateSetsFromDict(colouring.value);
    entry := sets.value;
    forall u, v | u in entry.0 && u in g && v in g[u]
      ensures v !in entry.0
    {
      assert v in sub[u];
    }
    forall u, v | u in entry.1 && u in g && v in g[u]
      ensures v !in entry.1
    {
      assert v in sub[u];
    }
  }
}
