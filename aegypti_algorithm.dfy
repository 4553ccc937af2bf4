/** aegypti/algorithm.py: the triangle test by depth colouring. A stack walk gives each root
    colour 1 and each newly reached neighbour its discoverer's colour plus one; a vertex keeps
    the colour of its latest pop. Two neighbours with the same colour stop the walk with a
    reported triple, and `None` means every vertex was coloured without such a clash. */
module AegyptiAlgorithm {
  import opened Wrappers
  import opened Strings
  import opened PyValues
  import opened Graphs
  import opened StackMeasure

  const SquareMessage := "Adjacency matrix must be square."

  /** `(str(u), str(w), str(x))`. */
  function StrTriple(u: nat, w: nat, x: nat): PyValue {
    PyStrTriple(NatToString(u), NatToString(w), NatToString(x))
  }

  /** `set(neighbors.tolist() + adjacents) - {u, w}`: the neighbours of either vertex, the
      two vertices themselves excepted. */
  function Common(a: Matrix, u: nat, w: nat): (common: set<nat>)
    requires Square(a) && u < |a| && w < |a|
    ensures forall x: nat :: x in common <==> x < |a| && x != u && x != w && (a[u][x] || a[w][x])
  {
    (set x | x in Row(a, u) + Row(a, w)) - {u, w}
  }

  /** What a reported triple satisfies: `w` is a neighbour of `u`, and `x` is a third vertex
      next to `u` or to `w` (not necessarily to both, so not necessarily a triangle). */
  predicate Reported(a: Matrix, u: nat, w: nat, x: nat)
    requires Square(a)
  {
    u < |a| && w < |a| && x < |a| && a[u][w] && x != u && x != w && (a[u][x] || a[w][x])
  }

  ghost predicate SoundTriple(a: Matrix, v: PyValue)
    requires Square(a)
  {
    exists u: nat, w: nat, x: nat :: Reported(a, u, w, x) && v == StrTriple(u, w, x)
  }

  /** `u` and `w` are joined and neither has any other neighbour: the only case in which the
      third vertex cannot be drawn and `next` raises StopIteration. */
  ghost predicate LoneEdge(a: Matrix, u: nat, w: nat)
    requires Square(a)
  {
    u < |a| && w < |a| && a[u][w] && forall x: nat | x < |a| && x != u && x != w :: !a[u][x] && !a[w][x]
  }

  /** How an early exit ends: a reported triple, or StopIteration on a lone edge. */
  ghost predicate Stopped(a: Matrix, answer: Result<PyValue, Exception>)
    requires Square(a)
  {
    || (answer.Success? && SoundTriple(a, answer.value))
    || (answer == Failure(StopIteration) && exists u: nat, w: nat :: LoneEdge(a, u, w))
  }

  /** What the colours satisfy at every turn: they are positive, no coloured vertex has a
      self-loop and, on a symmetric matrix, two coloured neighbours never share a colour. */
  ghost predicate Proper(a: Matrix, colors: map<nat, nat>)
    requires Square(a)
  {
    && (forall u | u in colors :: u < |a| && colors[u] >= 1 && !a[u][u])
    && (Symmetric(a) ==>
          forall u, w | u in colors && w in colors && u < |a| && w < |a| && a[u][w] :: colors[u] != colors[w])
  }

  /** The entries `(neighbor, color)` pushed for the uncoloured neighbours, in row order. */
  function DepthPushes(neighbors: seq<nat>, colors: map<nat, nat>, color: nat): (pushed: seq<(nat, nat)>)
    ensures forall e | e in pushed :: e.0 in neighbors && e.0 !in colors && e.1 == color
  {
    if neighbors == [] then []
    else
      var last := neighbors[|neighbors| - 1];
      DepthPushes(neighbors[..|neighbors| - 1], colors, color) + if last !in colors then [(last, color)] else []
  }

  datatype Scan = Clear(pushed: seq<(nat, nat)>) | Stop(answer: Result<PyValue, Exception>)

  /** The `for neighbor in neighbors` loop for the popped vertex `v` of colour `c`: it pushes
      the uncoloured neighbours and stops at the first neighbour that already has colour `c`. */
  method ScanNeighbours(a: Matrix, colors: map<nat, nat>, v: nat, c: nat) returns (s: Scan)
    requires Square(a) && v < |a| && v in colors && colors[v] == c
    ensures s.Clear? <==> forall w | w in Row(a, v) && w in colors :: colors[w] != c
    ensures s.Clear? ==> s.pushed == DepthPushes(Row(a, v), colors, c + 1)
    ensures s.Stop? ==> Stopped(a, s.answer)
  {
    var neighbors := Row(a, v);
    var pushed := [];
    for idx := 0 to |neighbors|
      invariant pushed == DepthPushes(neighbors[..idx], colors, c + 1)
      invariant forall m | 0 <= m < idx && neighbors[m] in colors :: colors[neighbors[m]] != c
    {
      var w := neighbors[idx];
      assert w in neighbors && neighbors[..idx + 1][..idx] == neighbors[..idx];
      if w !in colors {
        pushed := pushed + [(w, c + 1)];
      } else if c == colors[w] {
        var answer := Clash(a, v, w);
        return Stop(answer);
      }
    }
    assert neighbors[..|neighbors|] == neighbors;
    forall w | w in neighbors && w in colors
      ensures colors[w] != c
    {
      var m :| 0 <= m < |neighbors| && neighbors[m] == w;
    }
    return Clear(pushed);
  }

  /** The triple for the clash of `v` with its neighbour `w`: `next(iter(common))`. */
  method Clash(a: Matrix, v: nat, w: nat) returns (answer: Result<PyValue, Exception>)
    requires Square(a) && v < |a| && w < |a| && a[v][w]
    ensures Stopped(a, answer)
  {
    var common := Common(a, v, w);
    if common == {} {
      assert LoneEdge(a, v, w);
      return Failure(StopIteration);
    }
    var x :| x in common;
    assert Reported(a, v, w, x);
    return Success(StrTriple(v, w, x));
  }

  /** Colouring `v` with `c` after a clear scan keeps the colours proper. */
  lemma VisitKeepsProper(a: Matrix, colors: map<nat, nat>, v: nat, c: nat)
    requires Square(a) && v < |a| && c >= 1 && Proper(a, colors)
    requires forall w | w in Row(a, v) && w in colors[v := c] :: colors[v := c][w] != c
    ensures Proper(a, colors[v := c])
  {
    var colors' := colors[v := c];
    var row := Row(a, v);
    assert a[v][v] ==> v in row;
    if Symmetric(a) {
      forall u, w | u in colors' && w in colors' && u < |a| && w < |a| && a[u][w]
        ensures colors'[u] != colors'[w]
      {
        if u == v {
          assert w in Row(a, v);
        } else if w == v {
          assert u in Row(a, v);
        }
      }
    }
  }

  /** The `while stack` loop from the uncoloured root `i`: it colours `i` and every vertex
      the walk reaches, or stops early. */
  method Walk(a: Matrix, i: nat, colors: map<nat, nat>) returns (colors': map<nat, nat>, stop: Option<Result<PyValue, Exception>>)
    requires Square(a) && i < |a| && i !in colors && Proper(a, colors)
    ensures stop.None? ==> Proper(a, colors') && colors.Keys + {i} <= colors'.Keys
    ensures stop.Some? ==> Stopped(a, stop.value)
  {
    var n := |a|;
    colors' := colors;
    var stack: seq<(nat, nat)> := [(i, 1)];
    while stack != []
      invariant Proper(a, colors') && colors.Keys <= colors'.Keys
      invariant forall e | e in stack :: e.0 < n && e.1 >= 1
      invariant stack == [(i, 1)] || i in colors'
      decreases Uncoloured(n, colors'.Keys), CountColoured(stack, colors'.Keys)
    {
      var (currentNode, currentColor) := stack[|stack| - 1];
      assert stack[|stack| - 1] in stack;
      var visited := colors'[currentNode := currentColor];
      var scan := ScanNeighbours(a, visited, currentNode, currentColor);
      if scan.Stop? {
        return colors', Some(scan.answer);
      }
      VisitKeepsProper(a, colors', currentNode, currentColor);
      PopDecreases(n, colors', stack, currentNode, currentColor, scan.pushed, currentColor);
      forall e | e in scan.pushed
        ensures e.0 < n && e.1 >= 1
      {
        assert e.0 in Row(a, currentNode);
      }
      stack := stack[..|stack| - 1] + scan.pushed;
      colors' := visited;
    }
    return colors', None;
  }

  /** `is_triangle_free(adjacency_matrix)`. On a non-square matrix: ValueError. A triple
      comes with an edge and a third vertex next to one of its ends; StopIteration only on a
      lone edge; `None` only once every vertex is coloured, with no self-loop and, on a
      symmetric matrix, no two neighbours of the same colour. */
  method IsTriangleFree(a: Matrix) returns (r: Result<PyValue, Exception>, ghost colors: map<nat, nat>)
    ensures !Square(a) ==> r == Failure(ValueError(SquareMessage))
    ensures Square(a) && r.Failure? ==> r.error == StopIteration && exists u: nat, w: nat :: LoneEdge(a, u, w)
    ensures Square(a) && r.Success? && r.value != PyNone ==> SoundTriple(a, r.value)
    ensures Square(a) && r == Success(PyNone) ==>
              && ZeroDiagonal(a)
              && (forall u | 0 <= u < |a| :: u in colors && colors[u] >= 1)
              && (Symmetric(a) ==> forall u, w | 0 <= u < |a| && 0 <= w < |a| && a[u][w] :: colors[u] != colors[w])
  {
    colors := map[];
    if !Square(a) {
      return Failure(ValueError(SquareMessage)), colors;
    }
    var n := |a|;
    var coloured: map<nat, nat> := map[];
    for i := 0 to n
      invariant Proper(a, coloured)
      invariant forall j | 0 <= j < i :: j in coloured
    {
      if i !in coloured {
        var stop;
        coloured, stop := Walk(a, i, coloured);
        if stop.Some? {
          return stop.value, coloured;
        }
      }
    }
    colors := coloured;
    return Success(PyNone), colors;
  }

  /** `string_simple_format(is_free)`: "Triangle Free" exactly when `is_free` is truthy. */
  function StringSimpleFormat(isFree: PyValue): (msg: string)
    ensures msg == "Triangle Free" <==> Truthy(isFree)
    ensures msg == "Triangle Found" <==> !Truthy(isFree)
  {
    if Truthy(isFree) then "Triangle Free" else "Triangle Found"
  }

  const FoundPrefix := "Triangle Found "

  /** `string_result_format(triangle)`: "Triangle Free" exactly when the argument is `None`;
      otherwise the value follows "Triangle Found ". */
  function StringResultFormat(triangle: PyValue): (msg: string)
    ensures msg == "Triangle Free" <==> triangle == PyNone
    ensures triangle != PyNone ==> |msg| > |FoundPrefix| && msg[..|FoundPrefix|] == FoundPrefix
  {
    if triangle == PyNone then "Triangle Free" else FoundPrefix + Str(triangle)
  }
}
