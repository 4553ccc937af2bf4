/** `is_independent_edge_triangle_cover_free_brute_force` in aegypti/cover.py: list the
    triangles and the edges of the upper triangle of the matrix, answer `0` when there is
    no triangle, and otherwise try every set of 1 up to min(#edges, #triangles) edges, in
    increasing size, for one that puts exactly one chosen edge on every triangle. */
module CoverBruteForce {
  import opened PyValues
  import opened Graphs
  import opened AegyptiUtils

  type Tri = (nat, nat, nat)
  type Edge = (nat, nat)

  /** `edge.issubset(triangle)`: both ends of the edge are corners of the triangle. */
  predicate OnTriangle(e: Edge, t: Tri) {
    && (e.0 == t.0 || e.0 == t.1 || e.0 == t.2)
    && (e.1 == t.0 || e.1 == t.1 || e.1 == t.2)
  }

  /** Some chosen edge lies on `t`. */
  ghost predicate Hit(chosen: set<Edge>, t: Tri) {
    exists e | e in chosen :: OnTriangle(e, t)
  }

  /** No two different chosen edges lie on `t`: the test that clears `independent`. */
  ghost predicate AtMostOnce(chosen: set<Edge>, t: Tri) {
    forall e1, e2 | e1 in chosen && e2 in chosen && OnTriangle(e1, t) && OnTriangle(e2, t) :: e1 == e2
  }

  /** Every listed triangle holds exactly one chosen edge. */
  ghost predicate Works(triangles: seq<Tri>, chosen: set<Edge>) {
    forall t | t in triangles :: Hit(chosen, t) && AtMostOnce(chosen, t)
  }

  /** The edges `(i, j)`, `i < j`, of the upper triangle of `a`. */
  function UpperEdges(a: Matrix): set<Edge>
    requires Square(a)
  {
    set i: nat, j: nat | i < j < |a| && a[i][j] :: (i, j)
  }

  function Min(x: int, y: int): int {
    if x <= y then x else y
  }

  /** What the search looks for: between 1 and min(#edges, #triangles) edges of `a` putting
      exactly one chosen edge on every triangle of `a`. */
  ghost predicate HasIndependentCover(a: Matrix)
    requires Square(a)
  {
    exists chosen: set<Edge> ::
      && chosen <= UpperEdges(a)
      && 1 <= |chosen| <= Min(|UpperEdges(a)|, |UpperTriangles(a)|)
      && forall t | t in UpperTriangles(a) :: Hit(chosen, t) && AtMostOnce(chosen, t)
  }

  // ---------------------------------------------------------------------------------------
  // The two lists

  /** The triple loop: the triangles `(i, j, k)`, `i < j < k`, in lexicographic order. */
  method TriangleList(a: Matrix) returns (triangles: seq<Tri>)
    requires Square(a)
    ensures Distinct(triangles)
    ensures forall t :: t in triangles <==> t in UpperTriangles(a)
  {
    var n := |a|;
    triangles := [];
    for i := 0 to n
      invariant Distinct(triangles)
      invariant forall t: Tri :: t in triangles <==> UpperTriangle(a, t) && t.0 < i
    {
      for j := i + 1 to n
        invariant Distinct(triangles)
        invariant forall t: Tri :: t in triangles <==> UpperTriangle(a, t) && LexBefore(t, i, j, 0)
      {
        if a[i][j] {
          for k := j + 1 to n
            invariant Distinct(triangles)
            invariant forall t: Tri :: t in triangles <==> UpperTriangle(a, t) && LexBefore(t, i, j, k)
          {
            if a[i][k] && a[j][k] {
              triangles := triangles + [(i, j, k)];
            }
          }
        }
      }
    }
    UpperTrianglesMembers(a);
  }

  /** The double loop: the edges `(i, j)`, `i < j`, in lexicographic order. */
  method EdgeList(a: Matrix) returns (edges: seq<Edge>)
    requires Square(a)
    ensures Distinct(edges)
    ensures forall e :: e in edges <==> e in UpperEdges(a)
  {
    var n := |a|;
    edges := [];
    for i := 0 to n
      invariant Distinct(edges)
      invariant forall e: Edge :: e in edges <==> e.0 < e.1 < n && a[e.0][e.1] && e.0 < i
    {
      for j := i + 1 to n
        invariant Distinct(edges)
        invariant forall e: Edge :: e in edges <==> e.0 < e.1 < n && a[e.0][e.1] && (e.0 < i || (e.0 == i && e.1 < j))
      {
        if a[i][j] {
          edges := edges + [(i, j)];
        }
      }
    }
    forall e: Edge | e.0 < e.1 < n && a[e.0][e.1]
      ensures e in UpperEdges(a)
    {
      var (i, j) := e;
      assert (i, j) in UpperEdges(a);
    }
  }

  // ---------------------------------------------------------------------------------------
  // One candidate

  /** The loop over the candidate edges for one triangle: `triangle` joins `covered` at its
      first edge, and a second edge on it clears `independent`. */
  method ScanTriangle(candidate: set<Edge>, t: Tri, covered: set<Tri>) returns (independent: bool, covered': set<Tri>)
    requires t !in covered
    ensures independent <==> AtMostOnce(candidate, t)
    ensures independent ==> covered' == if Hit(candidate, t) then covered + {t} else covered
  {
    covered' := covered;
    var rest := candidate;
    while rest != {}
      invariant rest <= candidate
      invariant covered' == covered || covered' == covered + {t}
      invariant t in covered' <==> exists e | e in candidate - rest :: OnTriangle(e, t)
      invariant AtMostOnce(candidate - rest, t)
      decreases rest
    {
      var e :| e in rest;
      if OnTriangle(e, t) {
        if t in covered' {
          var e' :| e' in candidate - rest && OnTriangle(e', t);
          assert e' != e;
          return false, covered';
        }
        covered' := covered' + {t};
      }
      rest := rest - {e};
    }
    assert candidate - rest == candidate;
    return true, covered';
  }

  /** The check of one candidate: every triangle is scanned, a triangle with two chosen
      edges ends the scan, and the candidate is accepted when it was independent and
      `covered` grew to all the triangles. */
  method CheckCandidate(triangles: seq<Tri>, candidate: set<Edge>) returns (ok: bool)
    requires Distinct(triangles)
    ensures ok <==> Works(triangles, candidate)
  {
    var covered: set<Tri> := {};
    for idx := 0 to |triangles|
      invariant forall m | 0 <= m < idx :: AtMostOnce(candidate, triangles[m])
      invariant covered == set m | 0 <= m < idx && Hit(candidate, triangles[m]) :: triangles[m]
    {
      var independent;
      independent, covered := ScanTriangle(candidate, triangles[idx], covered);
      if !independent {
        return false;
      }
    }
    ok := |covered| == |triangles|;
    CoveredCount(triangles, candidate, covered);
  }

  /** `len(covered_triangles) == len(triangles)` holds exactly when every triangle is hit. */
  lemma CoveredCount(triangles: seq<Tri>, candidate: set<Edge>, covered: set<Tri>)
    requires Distinct(triangles)
    requires covered == set m | 0 <= m < |triangles| && Hit(candidate, triangles[m]) :: triangles[m]
    ensures |covered| == |triangles| <==> forall t | t in triangles :: Hit(candidate, t)
  {
    var all := set t | t in triangles;
    DistinctCard(triangles);
    assert covered <= all;
    if forall t | t in triangles :: Hit(candidate, t) {
      forall t | t in all
        ensures t in covered
      {
        var m :| 0 <= m < |triangles| && triangles[m] == t;
      }
      assert covered == all;
    } else {
      var t :| t in triangles && !Hit(candidate, t);
      assert t !in covered;
      assert t in all - covered;
      assert |all| == |covered| + |all - covered|;
    }
  }

  // ---------------------------------------------------------------------------------------
  // The combinations

  /** The edges from position `from` on. */
  function Suffix(edges: seq<Edge>, from: nat): set<Edge>
    requires from <= |edges|
  {
    set m | from <= m < |edges| :: edges[m]
  }

  /** `size` more edges from position `from` on complete `chosen` to a working candidate. */
  ghost predicate Completable(triangles: seq<Tri>, edges: seq<Edge>, from: nat, size: nat, chosen: set<Edge>)
    requires from <= |edges|
  {
    exists extra: set<Edge> :: extra <= Suffix(edges, from) && |extra| == size && Works(triangles, chosen + extra)
  }

  /** `combinations(edges, size)` and the check of each, as a search that first takes and
      then skips the edge at `from`: it visits the same candidates. */
  method SomeCombination(triangles: seq<Tri>, edges: seq<Edge>, from: nat, size: nat, chosen: set<Edge>)
    returns (found: bool)
    requires Distinct(triangles) && Distinct(edges) && from <= |edges|
    requires forall m | from <= m < |edges| :: edges[m] !in chosen
    ensures found <==> Completable(triangles, edges, from, size, chosen)
    decreases |edges| - from
  {
    if size == 0 {
      CompletableNothing(triangles, edges, from, chosen);
      found := CheckCandidate(triangles, chosen);
    } else if from == |edges| {
      CompletableEnd(triangles, edges, size, chosen);
      found := false;
    } else {
      CompletableStep(triangles, edges, from, size, chosen);
      found := SomeCombination(triangles, edges, from + 1, size - 1, chosen + {edges[from]});
      if !found {
        found := SomeCombination(triangles, edges, from + 1, size, chosen);
      }
    }
  }

  /** With nothing left to add, the candidate is `chosen` itself. */
  lemma CompletableNothing(triangles: seq<Tri>, edges: seq<Edge>, from: nat, chosen: set<Edge>)
    requires from <= |edges|
    ensures Completable(triangles, edges, from, 0, chosen) <==> Works(triangles, chosen)
  {
    assert chosen + {} == chosen;
    if Completable(triangles, edges, from, 0, chosen) {
      var extra :| extra <= Suffix(edges, from) && |extra| == 0 && Works(triangles, chosen + extra);
      assert extra == {};
    }
  }

  /** Past the last edge no edge can be added. */
  lemma CompletableEnd(triangles: seq<Tri>, edges: seq<Edge>, size: nat, chosen: set<Edge>)
    requires size > 0
    ensures !Completable(triangles, edges, |edges|, size, chosen)
  {
    assert Suffix(edges, |edges|) == {};
  }

  /** A completion from `from` on either takes the edge at `from` or leaves it out. */
  lemma CompletableStep(triangles: seq<Tri>, edges: seq<Edge>, from: nat, size: nat, chosen: set<Edge>)
    requires Distinct(edges) && from < |edges| && size > 0
    ensures Completable(triangles, edges, from, size, chosen) <==>
            Completable(triangles, edges, from + 1, size - 1, chosen + {edges[from]}) ||
            Completable(triangles, edges, from + 1, size, chosen)
  {
    SuffixStep(edges, from);
    if Completable(triangles, edges, from + 1, size - 1, chosen + {edges[from]}) {
      TakeEdge(triangles, edges, from, size, chosen);
    }
    if Completable(triangles, edges, from + 1, size, chosen) {
      var extra :| extra <= Suffix(edges, from + 1) && |extra| == size && Works(triangles, chosen + extra);
      assert extra <= Suffix(edges, from);
    }
    if Completable(triangles, edges, from, size, chosen) {
      var extra :| extra <= Suffix(edges, from) && |extra| == size && Works(triangles, chosen + extra);
      if edges[from] in extra {
        SplitEdge(triangles, edges, from, size, chosen, extra);
      } else {
        assert extra <= Suffix(edges, from + 1);
      }
    }
  }

  /** The suffix from `from` is the edge at `from` and, apart from it, the suffix after it. */
  lemma SuffixStep(edges: seq<Edge>, from: nat)
    requires Distinct(edges) && from < |edges|
    ensures Suffix(edges, from) == Suffix(edges, from + 1) + {edges[from]}
    ensures edges[from] !in Suffix(edges, from + 1)
  {
  }

  /** Taking the edge at `from` and completing after it completes from `from`. */
  lemma TakeEdge(triangles: seq<Tri>, edges: seq<Edge>, from: nat, size: nat, chosen: set<Edge>)
    requires Distinct(edges) && from < |edges| && size > 0
    requires Completable(triangles, edges, from + 1, size - 1, chosen + {edges[from]})
    ensures Completable(triangles, edges, from, size, chosen)
  {
    var e := edges[from];
    SuffixStep(edges, from);
    var extra :| extra <= Suffix(edges, from + 1) && |extra| == size - 1 && Works(triangles, chosen + {e} + extra);
    var extra' := extra + {e};
    assert chosen + {e} + extra == chosen + extra';
    assert |extra'| == size && extra' <= Suffix(edges, from);
  }

  /** A completion holding the edge at `from` is that edge and a completion after it. */
  lemma SplitEdge(triangles: seq<Tri>, edges: seq<Edge>, from: nat, size: nat, chosen: set<Edge>, extra: set<Edge>)
    requires Distinct(edges) && from < |edges| && size > 0
    requires extra <= Suffix(edges, from) && |extra| == size && Works(triangles, chosen + extra)
    requires edges[from] in extra
    ensures Completable(triangles, edges, from + 1, size - 1, chosen + {edges[from]})
  {
    var e := edges[from];
    SuffixStep(edges, from);
    var rest := extra - {e};
    assert chosen + {e} + rest == chosen + extra;
    assert |rest| == size - 1 && rest <= Suffix(edges, from + 1);
  }

  // ---------------------------------------------------------------------------------------
  // The oracle

  /** `is_independent_edge_triangle_cover_free_brute_force(adj_matrix)`: `0` (falsy, not
      `False`) when there is no triangle; otherwise `False` exactly when an independent
      edge triangle cover of 1 up to min(#edges, #triangles) edges exists. */
  method BruteForce(a: Matrix) returns (r: PyValue)
    requires Square(a)
    ensures UpperTriangles(a) == {} ==> r == PyInt(0)
    ensures UpperTriangles(a) != {} ==> r == PyBool(!HasIndependentCover(a))
  {
    var triangles := TriangleList(a);
    if |triangles| == 0 {
      return PyInt(0);
    }
    assert triangles[0] in UpperTriangles(a);
    var edges := EdgeList(a);
    ListSizes(a, triangles, edges);
    var top := Min(|edges| + 1, |triangles| + 1);
    for size := 1 to top
      invariant forall s: nat | 1 <= s < size :: !Completable(triangles, edges, 0, s, {})
    {
      var found := SomeCombination(triangles, edges, 0, size, {});
      if found {
        CompletableCover(a, triangles, edges, size);
        return PyBool(false);
      }
    }
    forall chosen: set<Edge> | chosen <= UpperEdges(a) && 1 <= |chosen| <= Min(|UpperEdges(a)|, |UpperTriangles(a)|)
      ensures !forall t | t in UpperTriangles(a) :: Hit(chosen, t) && AtMostOnce(chosen, t)
    {
      CompletableCover(a, triangles, edges, |chosen|);
    }
    return PyBool(true);
  }

  /** The lists hold as many entries as the sets they enumerate. */
  lemma ListSizes(a: Matrix, triangles: seq<Tri>, edges: seq<Edge>)
    requires Square(a) && Distinct(triangles) && Distinct(edges)
    requires forall t :: t in triangles <==> t in UpperTriangles(a)
    requires forall e :: e in edges <==> e in UpperEdges(a)
    ensures |triangles| == |UpperTriangles(a)| && |edges| == |UpperEdges(a)|
  {
    DistinctCard(triangles);
    DistinctCard(edges);
    assert (set t | t in triangles) == UpperTriangles(a);
    assert (set e | e in edges) == UpperEdges(a);
  }

  /** A working candidate of `size` edges from the list is an independent edge triangle cover
      of the matrix, and back. */
  lemma CompletableCover(a: Matrix, triangles: seq<Tri>, edges: seq<Edge>, size: nat)
    requires Square(a)
    requires forall t :: t in triangles <==> t in UpperTriangles(a)
    requires forall e :: e in edges <==> e in UpperEdges(a)
    ensures Completable(triangles, edges, 0, size, {}) <==>
            exists chosen: set<Edge> :: chosen <= UpperEdges(a) && |chosen| == size &&
              forall t | t in UpperTriangles(a) :: Hit(chosen, t) && AtMostOnce(chosen, t)
  {
    assert Suffix(edges, 0) == UpperEdges(a) by {
      forall e | e in UpperEdges(a)
        ensures e in Suffix(edges, 0)
      {
        var m :| 0 <= m < |edges| && edges[m] == e;
      }
    }
    forall chosen: set<Edge>
      ensures {} + chosen == chosen
    {
    }
  }
}
