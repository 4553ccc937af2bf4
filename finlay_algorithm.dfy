/** finlay/algorithm.py: the triangle test by recursive depth-first search. `create_graph`
    turns the 0/1 matrix into a dictionary of neighbour sets; `triangle_free` colours every
    vertex once with its depth in the search forest and, at a neighbour two levels up, reports
    the pair with a common neighbour. */
module FinlayAlgorithm {
  import opened Wrappers
  import opened PyValues
  import opened Graphs

  /** A NumPy matrix of integers, row by row. */
  type IntMatrix = seq<seq<int>>

  predicate SquareInts(m: IntMatrix) {
    forall i | 0 <= i < |m| :: |m[i]| == |m|
  }

  /** `set(np.where(row == 1)[0].tolist())`. */
  function Ones(row: seq<int>): (s: set<nat>)
    ensures forall j: nat :: j in s <==> j < |row| && row[j] == 1
  {
    set j: nat | j < |row| && row[j] == 1
  }

  /** `create_graph(adjacency_matrix)`: key `i` holds the columns of row `i` equal to 1; the
      keys are inserted in the order `0, 1, ..., n - 1`, which `order` records. */
  method CreateGraph(m: IntMatrix) returns (graph: SetGraph, order: seq<nat>)
    ensures forall i: nat :: i in graph <==> i < |m|
    ensures forall i: nat, j: nat | i < |m| :: j in graph[i] <==> j < |m[i]| && m[i][j] == 1
    ensures |order| == |m| && forall i | 0 <= i < |m| :: order[i] == i
  {
    graph := map[];
    order := [];
    for i := 0 to |m|
      invariant forall i': nat :: i' in graph <==> i' < i
      invariant forall i': nat | i' < i :: graph[i'] == Ones(m[i'])
      invariant |order| == i && forall i' | 0 <= i' < i :: order[i'] == i'
    {
      graph := graph[i := Ones(m[i])];
      order := order + [i];
    }
  }

  /** Every neighbour is a key: the lookups `graph[neighbor]` never fail. */
  predicate KeysClosed(graph: SetGraph) {
    forall u, v | u in graph && v in graph[u] :: v in graph
  }

  /** `x` got colour 1 as a root, or is a neighbour of a vertex one colour lower that
      discovered it. */
  ghost predicate Discovered(graph: SetGraph, colors: map<nat, int>, x: nat, c: int) {
    c == 1 || exists y | y in colors && y in graph :: x in graph[y] && colors[y] + 1 == c
  }

  /** The colours are depths in a search forest: positive, on graph vertices, and each
      non-root has a parent one level up. */
  ghost predicate Forest(graph: SetGraph, colors: map<nat, int>) {
    && (forall x | x in colors :: x in graph && colors[x] >= 1)
    && (forall x {:trigger Discovered(graph, colors, x, colors[x])} | x in colors :: Discovered(graph, colors, x, colors[x]))
  }

  /** The scan of `x` ran to its end: every neighbour is coloured and none lies exactly two
      levels above `x`. */
  ghost predicate Finished(graph: SetGraph, colors: map<nat, int>, x: nat) {
    x in graph && x in colors && forall w | w in graph[x] :: w in colors && colors[x] - colors[w] != 2
  }

  /** `colors'` only adds colours: a vertex is coloured once and keeps its colour. */
  ghost predicate Extends(colors: map<nat, int>, colors': map<nat, int>) {
    colors.Keys <= colors'.Keys && forall x | x in colors :: colors'[x] == colors[x]
  }

  /** What a reported `(a, b, c)` satisfies: `b` is a neighbour of `a` and `c` a neighbour of
      both other than them. */
  predicate Closes(graph: SetGraph, t: (nat, nat, nat)) {
    t.0 in graph && t.1 in graph && t.1 in graph[t.0] && t.2 in graph[t.0] && t.2 in graph[t.1]
    && t.2 != t.0 && t.2 != t.1
  }

  /** `a` and `b` are joined and share no neighbour: `next(iter(common))` raises there. */
  predicate NoCommon(graph: SetGraph, a: nat, b: nat)
    requires a in graph && b in graph
  {
    b in graph[a] && graph[a] * graph[b] <= {a, b}
  }

  ghost predicate Lonely(graph: SetGraph) {
    exists a, b | a in graph && b in graph :: NoCommon(graph, a, b)
  }

  /** How a search stops early: a triple found two levels up, or StopIteration. */
  ghost predicate Found(graph: SetGraph, colors: map<nat, int>, r: Result<Option<(nat, nat, nat)>, Exception>) {
    || (r.Success? && r.value.Some? && Closes(graph, r.value.value)
        && r.value.value.0 in colors && r.value.value.1 in colors
        && colors[r.value.value.0] - colors[r.value.value.1] == 2)
    || (r == Failure(StopIteration) && Lonely(graph))
  }

  /** A finished vertex stays finished when colours are only added. */
  lemma FinishedExtends(graph: SetGraph, colors: map<nat, int>, colors': map<nat, int>, x: nat)
    requires Finished(graph, colors, x) && Extends(colors, colors')
    ensures Finished(graph, colors', x)
  {
    forall w | w in graph[x]
      ensures w in colors' && colors'[x] - colors'[w] != 2
    {
      assert w in colors;
    }
  }

  /** A forest stays a forest when colours are only added. */
  lemma ForestExtends(graph: SetGraph, colors: map<nat, int>, colors': map<nat, int>, x: nat, c: int)
    requires Extends(colors, colors') && Discovered(graph, colors, x, c)
    ensures Discovered(graph, colors', x, c)
  {
    if c != 1 {
      var y :| y in colors && y in graph && x in graph[y] && colors[y] + 1 == c;
      assert colors'[y] == colors[y];
    }
  }

  /** The `dfs(node, color)` closure: colour `node`, then scan its neighbours, searching
      from each uncoloured one with `color + 1` and, at a neighbour coloured `color - 2`,
      returning `(node, neighbor, c)` for a common neighbour `c`. A `None` result leaves every
      newly coloured vertex finished. */
  method Dfs(graph: SetGraph, colors: map<nat, int>, node: nat, color: int)
    returns (colors': map<nat, int>, r: Result<Option<(nat, nat, nat)>, Exception>)
    requires KeysClosed(graph) && node in graph && node !in colors && color >= 1
    requires Forest(graph, colors) && Discovered(graph, colors, node, color)
    ensures Extends(colors, colors') && node in colors' && colors'[node] == color
    ensures Forest(graph, colors')
    ensures r != Success(None) ==> Found(graph, colors', r)
    ensures r == Success(None) ==> forall x | x in colors'.Keys - colors.Keys :: Finished(graph, colors', x)
    decreases graph.Keys - colors.Keys
  {
    colors' := colors[node := color];
    ForestAdd(graph, colors, node, color);
    var rest := graph[node];
    while rest != {}
      invariant rest <= graph[node]
      invariant Extends(colors, colors') && node in colors' && colors'[node] == color
      invariant Forest(graph, colors')
      invariant forall x | x in colors'.Keys - colors.Keys - {node} :: Finished(graph, colors', x)
      invariant forall w | w in graph[node] - rest :: w in colors' && color - colors'[w] != 2
      decreases rest
    {
      var neighbor :| neighbor in rest;
      if neighbor !in colors' {
        assert node in colors'.Keys && node !in colors.Keys;
        assert graph.Keys - colors'.Keys < graph.Keys - colors.Keys;
        ForestParent(graph, colors', node, neighbor);
        var colors'', triangle := Dfs(graph, colors', neighbor, color + 1);
        if triangle != Success(None) {
          return colors'', triangle;
        }
        forall x | x in colors''.Keys - colors.Keys - {node}
          ensures Finished(graph, colors'', x)
        {
          if x in colors'.Keys {
            FinishedExtends(graph, colors', colors'', x);
          }
        }
        colors' := colors'';
      } else if color - colors'[neighbor] == 2 {
        var common := (graph[node] * graph[neighbor]) - {node, neighbor};
        if common == {} {
          assert NoCommon(graph, node, neighbor);
          return colors', Failure(StopIteration);
        }
        var c :| c in common;
        return colors', Success(Some((node, neighbor, c)));
      }
      rest := rest - {neighbor};
    }
    return colors', Success(None);
  }

  /** Colouring `node` as discovered keeps the forest. */
  lemma ForestAdd(graph: SetGraph, colors: map<nat, int>, node: nat, color: int)
    requires node in graph && node !in colors && color >= 1
    requires Forest(graph, colors) && Discovered(graph, colors, node, color)
    ensures Forest(graph, colors[node := color])
  {
    var colors' := colors[node := color];
    assert Extends(colors, colors');
    forall x | x in colors'
      ensures Discovered(graph, colors', x, colors'[x])
    {
      if x == node {
        ForestExtends(graph, colors, colors', x, color);
      } else {
        ForestExtends(graph, colors, colors', x, colors[x]);
      }
    }
  }

  /** An uncoloured neighbour of a coloured vertex is discovered from it. */
  lemma ForestParent(graph: SetGraph, colors: map<nat, int>, node: nat, neighbor: nat)
    requires node in colors && node in graph && neighbor in graph[node]
    ensures Discovered(graph, colors, neighbor, colors[node] + 1)
  {
  }

  /** `triangle_free(graph)`, the roots taken in the key order `nodes`: each uncoloured root
      is searched with colour 1 and the first triple found is returned. `None` comes with a
      colouring of every vertex as a search forest in which every vertex is finished. */
  method TriangleFree(graph: SetGraph, nodes: seq<nat>)
    returns (r: Result<Option<(nat, nat, nat)>, Exception>, ghost colors: map<nat, int>)
    requires KeysClosed(graph) && forall x :: x in nodes <==> x in graph
    ensures r != Success(None) ==> Found(graph, colors, r)
    ensures r == Success(None) ==>
              colors.Keys == graph.Keys && Forest(graph, colors) && forall x | x in graph :: Finished(graph, colors, x)
  {
    var coloured: map<nat, int> := map[];
    for i := 0 to |nodes|
      invariant Forest(graph, coloured)
      invariant Reached(nodes, i, coloured)
      invariant forall x | x in coloured :: Finished(graph, coloured, x)
    {
      var node := nodes[i];
      if node !in coloured {
        var next, triangle := Root(graph, coloured, node);
        if triangle != Success(None) {
          return triangle, next;
        }
        ReachedExtends(nodes, i, coloured, next);
        coloured := next;
      }
    }
    assert coloured.Keys == graph.Keys by {
      forall x | x in graph
        ensures x in coloured
      {
        var j :| 0 <= j < |nodes| && nodes[j] == x;
      }
    }
    return Success(None), coloured;
  }

  /** The roots `nodes[..i]` are coloured. */
  ghost predicate Reached(nodes: seq<nat>, i: int, colors: map<nat, int>) {
    forall j | 0 <= j < i && j < |nodes| :: nodes[j] in colors
  }

  lemma ReachedExtends(nodes: seq<nat>, i: nat, colors: map<nat, int>, colors': map<nat, int>)
    requires i < |nodes| && Reached(nodes, i, colors) && colors.Keys <= colors'.Keys && nodes[i] in colors'
    ensures Reached(nodes, i + 1, colors')
  {
  }

  /** One turn of the root loop: `dfs(node, 1)` from an uncoloured root. */
  method Root(graph: SetGraph, coloured: map<nat, int>, node: nat)
    returns (next: map<nat, int>, r: Result<Option<(nat, nat, nat)>, Exception>)
    requires KeysClosed(graph) && node in graph && node !in coloured
    requires Forest(graph, coloured) && forall x | x in coloured :: Finished(graph, coloured, x)
    ensures Extends(coloured, next) && node in next && Forest(graph, next)
    ensures r != Success(None) ==> Found(graph, next, r)
    ensures r == Success(None) ==> forall x | x in next :: Finished(graph, next, x)
  {
    next, r := Dfs(graph, coloured, node, 1);
    if r == Success(None) {
      forall x | x in next
        ensures Finished(graph, next, x)
      {
        if x in coloured {
          FinishedExtends(graph, coloured, next, x);
        }
      }
    }
  }

  /** `is_triangle_free(adjacency_matrix)`: `triangle_free(create_graph(...))`, the triple
      given as a tuple of integers. A triple is three distinct vertices, the second next to
      the first and the third next to both; on a symmetric matrix that is a triangle. */
  method IsTriangleFree(m: IntMatrix) returns (r: Result<PyValue, Exception>)
    requires SquareInts(m)
    ensures r.Success? ==> r.value == PyNone || r.value.PyIntTriple?
    ensures r.Success? && r.value.PyIntTriple? ==>
              var (a, b, c) := (r.value.i0, r.value.i1, r.value.i2);
              && 0 <= a < |m| && 0 <= b < |m| && 0 <= c < |m| && a != b && a != c && b != c
              && m[a][b] == 1 && m[a][c] == 1 && m[b][c] == 1
    ensures r.Failure? ==> r.error == StopIteration
  {
    var graph, order := CreateGraph(m);
    assert forall x :: x in order <==> x in graph by {
      forall x | x in graph
        ensures x in order
      {
        assert order[x] == x;
      }
    }
    var found, colors := TriangleFree(graph, order);
    if found.Failure? {
      return Failure(found.error);
    }
    if found.value.None? {
      return Success(PyNone);
    }
    var (a, b, c) := found.value.value;
    return Success(PyIntTriple(a, b, c));
  }

  /** The graph with the edges 0-1, 1-2, 2-3, 3-0, 3-4 and 4-0, which holds the triangle
      0, 3, 4. */
  const Bowtie: SetGraph := map[0 := {1, 3, 4}, 1 := {0, 2}, 2 := {1, 3}, 3 := {0, 2, 4}, 4 := {0, 3}]

  /** The colours a search from 0 that takes neighbours in ascending order leaves on
      `Bowtie`: the path 0, 1, 2, 3, 4 at depths 1 to 5. */
  const BowtieColours: map<nat, int> := map[0 := 1, 1 := 2, 2 := 3, 3 := 4, 4 := 5]

  /** A `None` answer does not rule out a triangle: on `Bowtie` with `BowtieColours` every
      condition `TriangleFree` attaches to `None` holds, yet 0, 3 and 4 are pairwise joined,
      because no edge of that triangle spans exactly two colour levels. */
  lemma NoneMissesTriangle()
    ensures KeysClosed(Bowtie)
    ensures BowtieColours.Keys == Bowtie.Keys && Forest(Bowtie, BowtieColours)
    ensures forall x | x in Bowtie :: Finished(Bowtie, BowtieColours, x)
    ensures Closes(Bowtie, (0, 3, 4)) && Closes(Bowtie, (3, 4, 0))
  {
    BowtieForest();
    forall x | x in Bowtie
      ensures Finished(Bowtie, BowtieColours, x)
    {
      BowtieFinished(x);
    }
  }

  /** `BowtieColours` is a search forest of `Bowtie` rooted at 0. */
  lemma BowtieForest()
    ensures KeysClosed(Bowtie)
    ensures BowtieColours.Keys == Bowtie.Keys && Forest(Bowtie, BowtieColours)
  {
    BowtieClosed();
    forall x | x in BowtieColours
      ensures x in Bowtie && BowtieColours[x] >= 1
    {
      assert x in {0, 1, 2, 3, 4};
    }
    forall x | x in BowtieColours
      ensures Discovered(Bowtie, BowtieColours, x, BowtieColours[x])
    {
      BowtieDiscovered(x);
    }
  }

  /** Every neighbour in `Bowtie` is one of its vertices 0 to 4. */
  lemma BowtieClosed()
    ensures KeysClosed(Bowtie) && Bowtie.Keys == BowtieColours.Keys == {0, 1, 2, 3, 4}
  {
  }

  /** Each vertex other than the root 0 is a neighbour of the one before it, one level up. */
  lemma BowtieDiscovered(x: nat)
    requires x in BowtieColours
    ensures Discovered(Bowtie, BowtieColours, x, BowtieColours[x])
  {
    var g, c := Bowtie, BowtieColours;
    if x == 1 {
      assert 1 in g[0] && c[0] + 1 == c[1];
    } else if x == 2 {
      assert 2 in g[1] && c[1] + 1 == c[2];
    } else if x == 3 {
      assert 3 in g[2] && c[2] + 1 == c[3];
    } else if x == 4 {
      assert 4 in g[3] && c[3] + 1 == c[4];
    }
  }

  /** No neighbour of a vertex of `Bowtie` lies exactly two levels above it. */
  lemma BowtieFinished(x: nat)
    requires x in Bowtie
    ensures Finished(Bowtie, BowtieColours, x)
  {
    var g, c := Bowtie, BowtieColours;
    assert c.Keys == {0, 1, 2, 3, 4};
    assert x == 0 || x == 1 || x == 2 || x == 3 || x == 4;
  }

  /** `string_format(triangle)`: "Triangle Free" for `None` or a value equal to `True`,
      "Triangle Found" for a value equal to `False`, and otherwise the value after
      "Triangle Found ". */
  function StringFormat(triangle: PyValue): (msg: string)
    ensures msg == "Triangle Free" <==> triangle == PyNone || EqualsTrue(triangle)
    ensures msg == "Triangle Found" <==> EqualsFalse(triangle)
    ensures triangle != PyNone && !EqualsTrue(triangle) && !EqualsFalse(triangle) ==>
              msg == "Triangle Found " + Str(triangle)
  {
    if triangle == PyNone || EqualsTrue(triangle) then "Triangle Free"
    else if !EqualsFalse(triangle) then "Triangle Found " + Str(triangle)
    else "Triangle Found"
  }
}
