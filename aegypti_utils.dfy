/** The helpers of aegypti/utils.py: the bounds-checked table lookup of the subset-sum
    program, the 0/1 dictionary splitter, an iterative depth-first order, the two
    triangle enumerators (from given edges, by a two-pointer merge of sorted rows, and
    exhaustively over all vertex triples) and the two result formatters. */
module AegyptiUtils {
  import opened Wrappers
  import opened Strings
  import opened PyValues
  import opened Graphs

  // ---------------------------------------------------------------------------------------
  // evaluate

  /** `evaluate(D, i, j, p, k)`: the entry at `(i, j)` inside the bounds `0..p` x `0..k`,
      `False` outside them. Inside the bounds the entry must exist (the source would raise
      KeyError otherwise). */
  function Evaluate(d: map<(int, int), bool>, i: int, j: int, p: int, k: int): (r: bool)
    requires 0 <= i <= p && 0 <= j <= k ==> (i, j) in d
    ensures r <==> 0 <= i <= p && 0 <= j <= k && d[(i, j)]
  {
    if 0 <= i <= p && 0 <= j <= k then d[(i, j)] else false
  }

  // ---------------------------------------------------------------------------------------
  // create_sets_from_dict

  const ZeroOneMessage := "Dictionary values must be 0 or 1."

  /** Splits a dictionary into the keys mapped to 1 and the keys mapped to 0; any other
      value raises ValueError. */
  method CreateSetsFromDict<K>(d: map<K, int>) returns (r: Result<(set<K>, set<K>), Exception>)
    ensures r.Failure? <==> exists key | key in d :: d[key] != 0 && d[key] != 1
    ensures r.Failure? ==> r.error == ValueError(ZeroOneMessage)
    ensures r.Success? ==> r.value.0 == set key | key in d && d[key] == 1
    ensures r.Success? ==> r.value.1 == set key | key in d && d[key] == 0
    ensures r.Success? ==> r.value.0 !! r.value.1 && r.value.0 + r.value.1 == d.Keys
  {
    var setWith1, setWith0 := {}, {};
    var rest := d.Keys;
    while rest != {}
      invariant rest <= d.Keys
      invariant setWith1 == set key | key in d.Keys - rest && d[key] == 1
      invariant setWith0 == set key | key in d.Keys - rest && d[key] == 0
      invariant forall key | key in d.Keys - rest :: d[key] == 0 || d[key] == 1
      decreases rest
    {
      var key :| key in rest;
      if d[key] == 1 {
        setWith1 := setWith1 + {key};
      } else if d[key] == 0 {
        setWith0 := setWith0 + {key};
      } else {
        return Failure(ValueError(ZeroOneMessage));
      }
      rest := rest - {key};
    }
    r := Success((setWith1, setWith0));
  }

  // ---------------------------------------------------------------------------------------
  // iterative_dfs

  /** Every listed neighbour is itself a node of the dictionary. */
  predicate NeighboursAreNodes<T>(graph: map<T, seq<T>>) {
    forall v, w | v in graph && w in graph[v] :: w in graph
  }

  predicate IsListWalk<T>(graph: map<T, seq<T>>, w: seq<T>) {
    && |w| >= 1
    && (forall i | 0 <= i < |w| :: w[i] in graph)
    && (forall i | 0 <= i < |w| - 1 :: w[i + 1] in graph[w[i]])
  }

  ghost predicate ListReachable<T(!new)>(graph: map<T, seq<T>>, s: T, t: T) {
    exists w :: IsListWalk(graph, w) && w[0] == s && w[|w| - 1] == t
  }

  lemma {:induction false} ListClosedHoldsWalk<T>(graph: map<T, seq<T>>, s: set<T>, w: seq<T>)
    requires forall v, x | v in s && v in graph && x in graph[v] :: x in s
    requires IsListWalk(graph, w) && w[0] in s
    ensures w[|w| - 1] in s
  {
    if |w| > 1 {
      var w' := w[..|w| - 1];
      assert IsListWalk(graph, w');
      ListClosedHoldsWalk(graph, s, w');
      assert w[|w| - 1] in graph[w[|w| - 2]];
    }
  }

  /** Every neighbour of a visited node is visited or still waiting on the stack. */
  predicate ClosedUnderStack<T>(graph: map<T, seq<T>>, visited: set<T>, stack: seq<T>)
    requires visited <= graph.Keys
  {
    forall v, w | v in visited && w in graph[v] :: w in visited || w in stack
  }

  /** Popping a node that is already visited keeps the visited set closed up to the stack. */
  lemma PopVisitedKeepsClosed<T>(graph: map<T, seq<T>>, visited: set<T>, stack: seq<T>)
    requires stack != [] && stack[|stack| - 1] in visited && visited <= graph.Keys
    requires ClosedUnderStack(graph, visited, stack)
    ensures ClosedUnderStack(graph, visited, stack[..|stack| - 1])
  {
    assert stack == stack[..|stack| - 1] + [stack[|stack| - 1]];
  }

  /** Visiting the popped node and pushing its neighbours keeps the visited set closed up to
      the stack. */
  lemma PopVisitKeepsClosed<T(!new)>(graph: map<T, seq<T>>, visited: set<T>, stack: seq<T>)
    requires stack != [] && stack[|stack| - 1] in graph && visited <= graph.Keys
    requires ClosedUnderStack(graph, visited, stack)
    ensures ClosedUnderStack(graph, visited + {stack[|stack| - 1]},
                             stack[..|stack| - 1] + Reverse(graph[stack[|stack| - 1]]))
  {
    assert stack == stack[..|stack| - 1] + [stack[|stack| - 1]];
  }

  /** A walk to `v` extended by one of `v`'s neighbours is a walk to that neighbour. */
  lemma ListReachableStep<T(!new)>(graph: map<T, seq<T>>, s: T, v: T, w: T)
    requires ListReachable(graph, s, v) && v in graph && w in graph[v] && w in graph
    ensures ListReachable(graph, s, w)
  {
    var p :| IsListWalk(graph, p) && p[0] == s && p[|p| - 1] == v;
    assert IsListWalk(graph, p + [w]);
  }

  /** Depth-first order from `start`: empty when `start` is not a node; otherwise it begins
      with `start`, repeats no node and lists exactly the nodes reachable from `start`. */
  method IterativeDfs<T(==, !new)>(graph: map<T, seq<T>>, start: T) returns (order: seq<T>)
    requires NeighboursAreNodes(graph)
    ensures start !in graph ==> order == []
    ensures start in graph ==> |order| >= 1 && order[0] == start
    ensures forall i, j | 0 <= i < j < |order| :: order[i] != order[j]
    ensures start in graph ==> forall v :: v in order <==> ListReachable(graph, start, v)
  {
    if |graph| == 0 || start !in graph {
      return [];
    }
    var visited: set<T> := {};
    var stack := [start];
    order := [];
    assert IsListWalk(graph, [start]);
    while stack != []
      invariant visited <= graph.Keys
      invariant forall k | 0 <= k < |stack| :: stack[k] in graph && ListReachable(graph, start, stack[k])
      invariant forall v | v in visited :: ListReachable(graph, start, v)
      invariant forall v :: v in visited <==> v in order
      invariant forall i, j | 0 <= i < j < |order| :: order[i] != order[j]
      invariant order == [] ==> stack == [start]
      invariant order != [] ==> order[0] == start
      invariant ClosedUnderStack(graph, visited, stack)
      decreases graph.Keys - visited, |stack|
    {
      var node := stack[|stack| - 1];
      if node in visited {
        PopVisitedKeepsClosed(graph, visited, stack);
      } else {
        PopVisitKeepsClosed(graph, visited, stack);
      }
      stack := stack[..|stack| - 1];
      if node !in visited {
        visited := visited + {node};
        order := order + [node];
        var neighbours := Reverse(graph[node]);
        forall i | 0 <= i < |neighbours|
          ensures neighbours[i] in graph && ListReachable(graph, start, neighbours[i])
        {
          assert neighbours[i] in graph[node];
          ListReachableStep(graph, start, node, neighbours[i]);
        }
        stack := stack + neighbours;
      }
    }
    forall v | ListReachable(graph, start, v)
      ensures v in order
    {
      assert ClosedUnderStack(graph, visited, []);
      var w :| IsListWalk(graph, w) && w[0] == start && w[|w| - 1] == v;
      ListClosedHoldsWalk(graph, visited, w);
    }
  }

  // ---------------------------------------------------------------------------------------
  // generate_triangles_from_edges

  /** A canonical triple written with `str()`. */
  function StrTriple(t: (nat, nat, nat)): (string, string, string) {
    (NatToString(t.0), NatToString(t.1), NatToString(t.2))
  }

  /** Every element is a 2-tuple. */
  predicate AllPairs(pairs: seq<seq<int>>) {
    forall k | 0 <= k < |pairs| :: |pairs[k]| == 2
  }

  /** Every endpoint is a vertex index of `a`. */
  predicate InRange(a: Matrix, pairs: seq<seq<int>>)
    requires AllPairs(pairs)
  {
    forall k | 0 <= k < |pairs| :: 0 <= pairs[k][0] < |a| && 0 <= pairs[k][1] < |a|
  }

  /** The canonical triples `{u, v, x}` over the distinct-vertex choices of `x` in `common`. */
  function PairTriples(u: nat, v: nat, common: set<nat>): set<(string, string, string)> {
    set x | x in common && Distinct3(u, v, x) :: StrTriple(Canonical(u, v, x))
  }

  /** The vertices adjacent to both `u` and `v`. */
  function CommonNeighbours(a: Matrix, u: nat, v: nat): set<nat>
    requires Square(a) && u < |a| && v < |a|
  {
    set x | x in Row(a, u) && x in Row(a, v)
  }

  /** What the generator returns for the given pairs: for each pair `(u, v)` and each common
      neighbour `x` with `u, v, x` distinct, the canonical triple of `{u, v, x}` as strings. */
  function CommonTriples(a: Matrix, pairs: seq<seq<int>>): set<(string, string, string)>
    requires Square(a) && AllPairs(pairs) && InRange(a, pairs)
  {
    if pairs == [] then {}
    else
      var last := pairs[|pairs| - 1];
      CommonTriples(a, pairs[..|pairs| - 1]) + PairTriples(last[0], last[1], CommonNeighbours(a, last[0], last[1]))
  }

  /** Every generated triple is `(str(min), str(mid), str(max))` of three distinct vertices
      `min < mid < max`: the two ends of some given pair and a vertex adjacent to both. */
  lemma {:induction false} GeneratedTriplesAreCanonical(a: Matrix, pairs: seq<seq<int>>, t: (string, string, string))
    requires Square(a) && AllPairs(pairs) && InRange(a, pairs)
    requires t in CommonTriples(a, pairs)
    ensures exists k, x: nat | 0 <= k < |pairs| && x < |a| ::
      && var u: nat, v: nat := pairs[k][0], pairs[k][1];
      && Distinct3(u, v, x) && a[u][x] && a[v][x]
      && t == StrTriple(Canonical(u, v, x))
      && Canonical(u, v, x).0 < Canonical(u, v, x).1 < Canonical(u, v, x).2
  {
    var n := |pairs|;
    var last := pairs[n - 1];
    if t in CommonTriples(a, pairs[..n - 1]) {
      GeneratedTriplesAreCanonical(a, pairs[..n - 1], t);
      var k, x: nat :| 0 <= k < n - 1 && x < |a| && var u: nat, v: nat := pairs[..n - 1][k][0], pairs[..n - 1][k][1];
        Distinct3(u, v, x) && a[u][x] && a[v][x] && t == StrTriple(Canonical(u, v, x));
      assert pairs[..n - 1][k] == pairs[k];
    } else {
      var x :| x in CommonNeighbours(a, last[0], last[1]) && Distinct3(last[0], last[1], x)
        && t == StrTriple(Canonical(last[0], last[1], x));
      assert pairs[n - 1] == last;
    }
  }

  /** A pair whose two ends coincide contributes nothing. */
  lemma SelfPairYieldsNothing(a: Matrix, u: nat)
    requires Square(a) && u < |a|
    ensures CommonTriples(a, [[u, u]]) == {}
  {
    assert [[u, u]][..0] == [];
  }

  /** The values met in both merged prefixes. */
  function MergedCommon(r1: seq<nat>, r2: seq<nat>, i: nat, j: nat): set<nat>
    requires i <= |r1| && j <= |r2|
  {
    set x | x in r1[..i] && x in r2[..j]
  }

  /** The two-pointer merge has passed no common value in one row without passing it in
      the other. */
  predicate MergeInvariant(r1: seq<nat>, r2: seq<nat>, i: nat, j: nat)
    requires i <= |r1| && j <= |r2|
  {
    && (forall x | x in r1[..i] && x in r2 :: x in r2[..j])
    && (forall x | x in r2[..j] && x in r1 :: x in r1[..i])
  }

  lemma MergeAdvanceBoth(r1: seq<nat>, r2: seq<nat>, i: nat, j: nat)
    requires i < |r1| && j < |r2| && r1[i] == r2[j]
    requires StrictlyIncreasing(r1) && StrictlyIncreasing(r2) && MergeInvariant(r1, r2, i, j)
    ensures MergeInvariant(r1, r2, i + 1, j + 1)
    ensures MergedCommon(r1, r2, i + 1, j + 1) == MergedCommon(r1, r2, i, j) + {r1[i]}
  {
    assert r1[..i + 1] == r1[..i] + [r1[i]];
    assert r2[..j + 1] == r2[..j] + [r2[j]];
  }

  /** In a strictly increasing sequence every value before position `i` is below `s[i]`. */
  lemma PrefixBelow(s: seq<nat>, i: nat)
    requires StrictlyIncreasing(s) && i < |s|
    ensures forall x | x in s[..i] :: x < s[i]
  {
  }

  /** When `r1[i] < r2[j]`, the value `r1[i]` occurs nowhere in `r2`: before `j` it would
      already have been passed in `r1`, from `j` on every value is larger. */
  lemma MergeSkipsAbsent(r1: seq<nat>, r2: seq<nat>, i: nat, j: nat)
    requires i < |r1| && j < |r2| && r1[i] < r2[j]
    requires StrictlyIncreasing(r1) && StrictlyIncreasing(r2) && MergeInvariant(r1, r2, i, j)
    ensures r1[i] !in r2
  {
    PrefixBelow(r1, i);
    forall m | 0 <= m < |r2|
      ensures r2[m] != r1[i]
    {
      if m < j {
        assert r2[m] in r2[..j];
        assert r2[m] in r1 ==> r2[m] in r1[..i];
        assert r1[i] in r1;
      }
    }
  }

  lemma MergeAdvanceFirst(r1: seq<nat>, r2: seq<nat>, i: nat, j: nat)
    requires i < |r1| && j < |r2| && r1[i] < r2[j]
    requires StrictlyIncreasing(r1) && StrictlyIncreasing(r2) && MergeInvariant(r1, r2, i, j)
    ensures MergeInvariant(r1, r2, i + 1, j)
    ensures MergedCommon(r1, r2, i + 1, j) == MergedCommon(r1, r2, i, j)
  {
    MergeSkipsAbsent(r1, r2, i, j);
    assert r1[..i + 1] == r1[..i] + [r1[i]];
  }

  lemma MergeAdvanceSecond(r1: seq<nat>, r2: seq<nat>, i: nat, j: nat)
    requires i < |r1| && j < |r2| && r2[j] < r1[i]
    requires StrictlyIncreasing(r1) && StrictlyIncreasing(r2) && MergeInvariant(r1, r2, i, j)
    ensures MergeInvariant(r1, r2, i, j + 1)
    ensures MergedCommon(r1, r2, i, j + 1) == MergedCommon(r1, r2, i, j)
  {
    MergeSkipsAbsent(r2, r1, j, i);
    assert r2[..j + 1] == r2[..j] + [r2[j]];
  }

  lemma MergeDone(r1: seq<nat>, r2: seq<nat>, i: nat, j: nat)
    requires i <= |r1| && j <= |r2| && (i == |r1| || j == |r2|)
    requires MergeInvariant(r1, r2, i, j)
    ensures MergedCommon(r1, r2, i, j) == set x | x in r1 && x in r2
  {
    assert r1[..|r1|] == r1;
    assert r2[..|r2|] == r2;
  }

  const NotTupleMessage := "Each element in triangles must be a 2-tuple."
  const NotSquareMessage := "Input matrix must be square."
  const OutOfRangeMessage := "Vertex indices in triangles are out of range."

  /** One more common value adds at most its own triple. */
  lemma PairTriplesInsert(u: nat, v: nat, common: set<nat>, x: nat)
    ensures PairTriples(u, v, common + {x})
         == PairTriples(u, v, common) + (if Distinct3(u, v, x) then {StrTriple(Canonical(u, v, x))} else {})
  {
  }

  /** The body of the generator's loop for one pair `(u, v)`: merges the ascending rows of
      `u` and `v` and adds the canonical triple of every common neighbour `x` distinct from
      both. */
  method AddPairTriangles(a: Matrix, u: nat, v: nat, visited: set<(string, string, string)>)
    returns (visited': set<(string, string, string)>)
    requires Square(a) && u < |a| && v < |a|
    ensures visited' == visited + PairTriples(u, v, CommonNeighbours(a, u, v))
  {
    var currentRow, neighborRow := Row(a, u), Row(a, v);
    visited' := visited;
    var i, j := 0, 0;
    while i < |currentRow| && j < |neighborRow|
      invariant 0 <= i <= |currentRow| && 0 <= j <= |neighborRow|
      invariant MergeInvariant(currentRow, neighborRow, i, j)
      invariant visited' == visited + PairTriples(u, v, MergedCommon(currentRow, neighborRow, i, j))
      decreases |currentRow| - i + |neighborRow| - j
    {
      i, j, visited' := MergeStep(u, v, currentRow, neighborRow, i, j, visited, visited');
    }
    MergeDone(currentRow, neighborRow, i, j);
  }

  /** One comparison of the merge: advance past a common value, recording its triple, or
      past the smaller of the two current values. */
  method MergeStep(u: nat, v: nat, currentRow: seq<nat>, neighborRow: seq<nat>, i: nat, j: nat,
                   ghost visited: set<(string, string, string)>, found: set<(string, string, string)>)
    returns (i': nat, j': nat, found': set<(string, string, string)>)
    requires StrictlyIncreasing(currentRow) && StrictlyIncreasing(neighborRow)
    requires i < |currentRow| && j < |neighborRow| && MergeInvariant(currentRow, neighborRow, i, j)
    requires found == visited + PairTriples(u, v, MergedCommon(currentRow, neighborRow, i, j))
    ensures i <= i' <= |currentRow| && j <= j' <= |neighborRow| && i + j < i' + j'
    ensures MergeInvariant(currentRow, neighborRow, i', j')
    ensures found' == visited + PairTriples(u, v, MergedCommon(currentRow, neighborRow, i', j'))
  {
    if currentRow[i] == neighborRow[j] {
      MergeAdvanceBoth(currentRow, neighborRow, i, j);
      var x := currentRow[i];
      PairTriplesInsert(u, v, MergedCommon(currentRow, neighborRow, i, j), x);
      found' := found;
      if Distinct3(u, v, x) {
        var newTriangle := StrTriple(Canonical(u, v, x));
        found' := found' + {newTriangle};
      }
      i', j' := i + 1, j + 1;
    } else if currentRow[i] < neighborRow[j] {
      MergeAdvanceFirst(currentRow, neighborRow, i, j);
      i', j', found' := i + 1, j, found;
    } else {
      MergeAdvanceSecond(currentRow, neighborRow, i, j);
      i', j', found' := i, j + 1, found;
    }
  }

  /** `generate_triangles_from_edges`: the type check of every element comes first, then the
      shape check, then each pair's range check as the pairs are processed. The common
      neighbours of a pair are found by merging its two ascending rows. */
  method GenerateTrianglesFromEdges(a: Matrix, pairs: seq<seq<int>>)
    returns (r: Result<set<(string, string, string)>, Exception>)
    ensures !AllPairs(pairs) ==> r == Failure(TypeError(NotTupleMessage))
    ensures AllPairs(pairs) && !Square(a) ==> r == Failure(ValueError(NotSquareMessage))
    ensures AllPairs(pairs) && Square(a) && !InRange(a, pairs) ==> r == Failure(ValueError(OutOfRangeMessage))
    ensures AllPairs(pairs) && Square(a) && InRange(a, pairs) ==> r == Success(CommonTriples(a, pairs))
  {
    if !AllPairs(pairs) {
      return Failure(TypeError(NotTupleMessage));
    }
    if !Square(a) {
      return Failure(ValueError(NotSquareMessage));
    }
    var visited := {};
    for k := 0 to |pairs|
      invariant InRange(a, pairs[..k])
      invariant visited == CommonTriples(a, pairs[..k])
    {
      var currentNode, neighbor := pairs[k][0], pairs[k][1];
      if !(0 <= currentNode < |a| && 0 <= neighbor < |a|) {
        return Failure(ValueError(OutOfRangeMessage));
      }
      visited := AddPairTriangles(a, currentNode, neighbor, visited);
      assert pairs[..k + 1][..k] == pairs[..k];
      assert InRange(a, pairs[..k + 1]);
    }
    assert pairs[..|pairs|] == pairs;
    r := Success(visited);
  }

  // ---------------------------------------------------------------------------------------
  // find_triangle_coordinates_brute_force

  /** `i < j < k` and the three pairs read as edges in the upper triangle of `a`. */
  predicate UpperTriangle(a: Matrix, t: (nat, nat, nat))
    requires Square(a)
  {
    t.0 < t.1 < t.2 < |a| && a[t.0][t.1] && a[t.0][t.2] && a[t.1][t.2]
  }

  /** Every ascending triple of vertices pairwise joined in the upper triangle of `a`. */
  function UpperTriangles(a: Matrix): set<(nat, nat, nat)>
    requires Square(a)
  {
    set i: nat, j: nat, k: nat | i < j < k < |a| && a[i][j] && a[i][k] && a[j][k] :: (i, j, k)
  }

  lemma UpperTrianglesMembers(a: Matrix)
    requires Square(a)
    ensures forall t :: t in UpperTriangles(a) <==> UpperTriangle(a, t)
  {
    forall t | UpperTriangle(a, t)
      ensures t in UpperTriangles(a)
    {
      var (i, j, k) := t;
      assert (i, j, k) in UpperTriangles(a);
    }
  }

  /** What the exhaustive search returns: the upper-triangle triples, written with `str()`. */
  function BruteTriangles(a: Matrix): set<(string, string, string)>
    requires Square(a)
  {
    set t | t in UpperTriangles(a) :: StrTriple(t)
  }

  /** `t` comes before `(i, j, k)` in lexicographic order. */
  predicate LexBefore(t: (nat, nat, nat), i: nat, j: nat, k: nat) {
    t.0 < i || (t.0 == i && (t.1 < j || (t.1 == j && t.2 < k)))
  }

  /** `find_triangle_coordinates_brute_force`: the shape check, then every `i < j < k` in
      lexicographic order, with the third loop entered only when `(i, j)` is an edge. */
  method FindTriangleCoordinatesBruteForce(a: Matrix) returns (r: Result<set<(string, string, string)>, Exception>)
    ensures !Square(a) ==> r == Failure(ValueError(NotSquareMessage))
    ensures Square(a) ==> r == Success(BruteTriangles(a))
  {
    if !Square(a) {
      return Failure(ValueError(NotSquareMessage));
    }
    var n := |a|;
    var visited := {};
    ghost var found: set<(nat, nat, nat)> := {};
    var top := if n >= 2 then n - 2 else 0;
    for i := 0 to top
      invariant visited == set t | t in found :: StrTriple(t)
      invariant forall t: (nat, nat, nat) :: t in found <==> UpperTriangle(a, t) && t.0 < i
    {
      for j := i + 1 to n - 1
        invariant visited == set t | t in found :: StrTriple(t)
        invariant forall t: (nat, nat, nat) :: t in found <==> UpperTriangle(a, t) && LexBefore(t, i, j, 0)
      {
        if a[i][j] {
          for k := j + 1 to n
            invariant visited == set t | t in found :: StrTriple(t)
            invariant forall t: (nat, nat, nat) :: t in found <==> UpperTriangle(a, t) && LexBefore(t, i, j, k)
          {
            if a[i][k] && a[j][k] {
              visited := visited + {StrTriple((i, j, k))};
              found := found + {(i, j, k)};
            }
          }
        }
      }
    }
    UpperTrianglesMembers(a);
    assert found == UpperTriangles(a);
    r := Success(visited);
  }

  /** Every pair is an edge of `a`. */
  predicate PairsAreEdges(a: Matrix, pairs: seq<seq<int>>)
    requires Square(a) && AllPairs(pairs) && InRange(a, pairs)
  {
    forall k | 0 <= k < |pairs| :: a[pairs[k][0]][pairs[k][1]]
  }

  /** Every edge of `a` is listed, in one orientation or the other. */
  ghost predicate ListsEveryEdge(a: Matrix, pairs: seq<seq<int>>)
    requires Square(a)
  {
    forall u: nat, v: nat | u < v < |a| && a[u][v] ::
      exists k | 0 <= k < |pairs| :: pairs[k] == [u, v] || pairs[k] == [v, u]
  }

  /** The sorted form of three distinct values is the only ascending triple on them. */
  lemma CanonicalUnique(x: nat, y: nat, z: nat, t: (nat, nat, nat))
    requires Distinct3(x, y, z) && t.0 < t.1 < t.2 && {t.0, t.1, t.2} == {x, y, z}
    ensures Canonical(x, y, z) == t
  {
    var c := Canonical(x, y, z);
    assert c.0 in {t.0, t.1, t.2} && t.0 in {c.0, c.1, c.2};
    assert c.2 in {t.0, t.1, t.2} && t.2 in {c.0, c.1, c.2};
    assert c.1 in {t.0, t.1, t.2};
  }

  /** In a simple graph, three pairwise adjacent vertices sort into an upper triangle. */
  lemma CanonicalOfTriangle(a: Matrix, u: nat, v: nat, x: nat)
    requires IsGraph(a) && u < |a| && v < |a| && x < |a| && Distinct3(u, v, x)
    requires a[u][v] && a[u][x] && a[v][x]
    ensures UpperTriangle(a, Canonical(u, v, x))
  {
    var t := Canonical(u, v, x);
    assert t.0 in {u, v, x} && t.1 in {u, v, x} && t.2 in {u, v, x};
  }

  /** With every pair an edge, each generated triple is a triangle the exhaustive search
      also reports. */
  lemma {:induction false} CommonTriplesAreTriangles(a: Matrix, pairs: seq<seq<int>>)
    requires IsGraph(a) && AllPairs(pairs) && InRange(a, pairs) && PairsAreEdges(a, pairs)
    ensures CommonTriples(a, pairs) <= BruteTriangles(a)
  {
    UpperTrianglesMembers(a);
    if pairs != [] {
      var front := pairs[..|pairs| - 1];
      assert AllPairs(front) && InRange(a, front) && PairsAreEdges(a, front);
      CommonTriplesAreTriangles(a, front);
      var last := pairs[|pairs| - 1];
      var u, v := last[0], last[1];
      forall x | x in CommonNeighbours(a, u, v) && Distinct3(u, v, x)
        ensures StrTriple(Canonical(u, v, x)) in BruteTriangles(a)
      {
        CanonicalOfTriangle(a, u, v, x);
      }
    }
  }

  /** The triples of the `k`-th pair are among the generated ones. */
  lemma {:induction false} PairTriplesInCommonTriples(a: Matrix, pairs: seq<seq<int>>, k: nat)
    requires Square(a) && AllPairs(pairs) && InRange(a, pairs) && k < |pairs|
    ensures PairTriples(pairs[k][0], pairs[k][1], CommonNeighbours(a, pairs[k][0], pairs[k][1]))
            <= CommonTriples(a, pairs)
  {
    if k < |pairs| - 1 {
      var front := pairs[..|pairs| - 1];
      assert AllPairs(front) && InRange(a, front) && front[k] == pairs[k];
      PairTriplesInCommonTriples(a, front, k);
    }
  }

  /** On a simple graph, generating from a list of edges that names every edge finds
      exactly the triangles the exhaustive search finds. */
  lemma GeneratorMatchesBruteForce(a: Matrix, pairs: seq<seq<int>>)
    requires IsGraph(a) && AllPairs(pairs) && InRange(a, pairs) && PairsAreEdges(a, pairs)
    requires ListsEveryEdge(a, pairs)
    ensures CommonTriples(a, pairs) == BruteTriangles(a)
  {
    CommonTriplesAreTriangles(a, pairs);
    UpperTrianglesMembers(a);
    forall s | s in BruteTriangles(a)
      ensures s in CommonTriples(a, pairs)
    {
      var t :| t in UpperTriangles(a) && s == StrTriple(t);
      TriangleGenerated(a, pairs, t);
    }
  }

  /** Every triangle is generated from the listed pair that names its two smaller vertices. */
  lemma TriangleGenerated(a: Matrix, pairs: seq<seq<int>>, t: (nat, nat, nat))
    requires IsGraph(a) && AllPairs(pairs) && InRange(a, pairs)
    requires ListsEveryEdge(a, pairs) && UpperTriangle(a, t)
    ensures StrTriple(t) in CommonTriples(a, pairs)
  {
    var k :| 0 <= k < |pairs| && (pairs[k] == [t.0, t.1] || pairs[k] == [t.1, t.0]);
    if pairs[k] == [t.0, t.1] {
      PairFindsTriangle(a, t.0, t.1, t);
    } else {
      PairFindsTriangle(a, t.1, t.0, t);
    }
    PairTriplesInCommonTriples(a, pairs, k);
  }

  /** The pair of the two smaller vertices of a triangle, in either order, yields it. */
  lemma PairFindsTriangle(a: Matrix, u: nat, v: nat, t: (nat, nat, nat))
    requires IsGraph(a) && UpperTriangle(a, t)
    requires (u == t.0 && v == t.1) || (u == t.1 && v == t.0)
    ensures StrTriple(t) in PairTriples(u, v, CommonNeighbours(a, u, v))
  {
    assert t.2 in Row(a, u) && t.2 in Row(a, v);
    assert {t.0, t.1, t.2} == {u, v, t.2};
    CanonicalUnique(u, v, t.2, t);
  }

  // ---------------------------------------------------------------------------------------
  // string_simple_format and string_complex_format

  /** What the verdict is about: triangles, or independent edge triangle covers. */
  function Subject(covering: bool): string {
    if covering then "Independent Edge Triangle Cover" else "Triangle"
  }

  /** `string_simple_format(found, covering)`: "<subject> Free" when `found` is truthy,
      "<subject> Found" otherwise. */
  function StringSimpleFormat(found: PyValue, covering: bool): (msg: string)
    ensures |msg| > |Subject(covering)| && msg[..|Subject(covering)|] == Subject(covering)
    ensures Truthy(found) <==> msg[|Subject(covering)|..] == " Free"
    ensures !Truthy(found) <==> msg[|Subject(covering)|..] == " Found"
  {
    Subject(covering) + if Truthy(found) then " Free" else " Found"
  }

  /** The message determines both the verdict and what it is about. */
  lemma SimpleFormatDistinguishes(f1: PyValue, c1: bool, f2: PyValue, c2: bool)
    requires StringSimpleFormat(f1, c1) == StringSimpleFormat(f2, c2)
    ensures Truthy(f1) == Truthy(f2) && c1 == c2
  {
  }

  const CoverSizePrefix := "Minimum Independent Edge Triangle Cover Size "
  const TriangleFoundPrefix := "Triangle Found "

  /** `string_complex_format(triangle)`: "Triangle Free" for a falsy value; for a truthy
      integer (a `True` included) the cover size, for anything else the triangle found. */
  function StringComplexFormat(v: PyValue): (msg: string)
    ensures msg == "Triangle Free" <==> !Truthy(v)
    ensures Truthy(v) && IsInstanceInt(v) ==> msg == CoverSizePrefix + Str(v)
    ensures Truthy(v) && !IsInstanceInt(v) ==> msg == TriangleFoundPrefix + Str(v)
  {
    if Truthy(v) then
      if IsInstanceInt(v) then CoverSizePrefix + Str(v) else TriangleFoundPrefix + Str(v)
    else
      "Triangle Free"
  }

  /** Distinct cover sizes give distinct messages. */
  lemma ComplexFormatSizeInjective(m: nat, n: nat)
    requires m != 0 && n != 0
    requires StringComplexFormat(PyInt(m)) == StringComplexFormat(PyInt(n))
    ensures m == n
  {
    var pm, pn := CoverSizePrefix + NatToString(m), CoverSizePrefix + NatToString(n);
    assert NatToString(m) == pm[|CoverSizePrefix|..];
    assert NatToString(n) == pn[|CoverSizePrefix|..];
    NatToStringInjective(m, n);
  }
}
