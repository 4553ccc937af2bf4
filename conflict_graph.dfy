/** `fill_graph` in aegypti/cover.py: the conflict graph built from the collected triangles
    and their cover index. The triangles are numbered in the order iterating the universe
    visits them; then, for every two keys `key1 < key2` (in key insertion order) whose
    triangle sets share a triangle, two fresh consecutive nodes, a gadget pair, are added:
    the first joined to the numbers of `key1`'s triangles, the second to those of `key2`'s,
    and the two to each other. */
module ConflictGraph {
  import opened Graphs
  import opened CoverCollector

  // ---------------------------------------------------------------------------------------
  // The key pairs that get a gadget

  /** Two keys get a gadget when the first is smaller and their triangle sets meet. */
  predicate Conflicting(cover: map<nat, set<Tri>>, key1: nat, key2: nat) {
    key1 in cover && key2 in cover && key1 < key2 && cover[key1] * cover[key2] != {}
  }

  /** The pairs `(key1, keys[j'])`, `j' < j`, that get a gadget, in loop order. */
  function RowPairs(keys: seq<nat>, cover: map<nat, set<Tri>>, key1: nat, j: nat): (pairs: seq<(nat, nat)>)
    requires j <= |keys| && key1 in cover && forall x | x in keys :: x in cover
    ensures forall pr | pr in pairs :: Conflicting(cover, pr.0, pr.1)
  {
    if j == 0 then []
    else
      var key2 := keys[j - 1];
      RowPairs(keys, cover, key1, j - 1)
      + if key1 < key2 && cover[key1] * cover[key2] != {} then [(key1, key2)] else []
  }

  /** The gadget pairs of the first `i` turns of the outer loop, in loop order. */
  function ConflictPairs(keys: seq<nat>, cover: map<nat, set<Tri>>, i: nat): (pairs: seq<(nat, nat)>)
    requires i <= |keys| && forall x | x in keys :: x in cover
    ensures forall pr | pr in pairs :: Conflicting(cover, pr.0, pr.1)
  {
    if i == 0 then [] else ConflictPairs(keys, cover, i - 1) + RowPairs(keys, cover, keys[i - 1], |keys|)
  }

  lemma {:induction false} RowPairsMembers(keys: seq<nat>, cover: map<nat, set<Tri>>, key1: nat, j: nat)
    requires j <= |keys| && key1 in cover && forall x | x in keys :: x in cover
    requires Distinct(keys)
    ensures Distinct(RowPairs(keys, cover, key1, j))
    ensures forall pr :: pr in RowPairs(keys, cover, key1, j) <==>
              pr.0 == key1 && pr.1 in keys[..j] && Conflicting(cover, key1, pr.1)
  {
    if j > 0 {
      RowPairsMembers(keys, cover, key1, j - 1);
      assert keys[..j] == keys[..j - 1] + [keys[j - 1]];
      assert keys[j - 1] !in keys[..j - 1];
    }
  }

  /** A gadget pair is made for every two conflicting keys, once each: the list of gadget
      pairs holds no pair twice and holds exactly the conflicting key pairs. */
  lemma {:induction false} ConflictPairsMembers(keys: seq<nat>, cover: map<nat, set<Tri>>, i: nat)
    requires i <= |keys| && forall x | x in keys :: x in cover
    requires Distinct(keys)
    ensures Distinct(ConflictPairs(keys, cover, i))
    ensures forall pr :: pr in ConflictPairs(keys, cover, i) <==>
              pr.0 in keys[..i] && pr.1 in keys && Conflicting(cover, pr.0, pr.1)
  {
    if i > 0 {
      var front, row := ConflictPairs(keys, cover, i - 1), RowPairs(keys, cover, keys[i - 1], |keys|);
      ConflictPairsMembers(keys, cover, i - 1);
      RowPairsMembers(keys, cover, keys[i - 1], |keys|);
      assert keys[..i] == keys[..i - 1] + [keys[i - 1]];
      assert keys[i - 1] !in keys[..i - 1];
      assert keys[..|keys|] == keys;
      forall pr | pr in front ensures pr !in row {
        assert pr.0 in keys[..i - 1];
      }
      DistinctConcat(front, row);
      forall pr ensures pr in front + row <==> pr.0 in keys[..i] && pr.1 in keys && Conflicting(cover, pr.0, pr.1) {
        assert pr in front + row <==> pr in front || pr in row;
        assert pr.0 in keys[..i] <==> pr.0 in keys[..i - 1] || pr.0 == keys[i - 1];
      }
    }
  }

  // ---------------------------------------------------------------------------------------
  // The edges

  /** The numbers of the triangles of `s` in the enumeration `elems`. */
  function IndexOf(elems: seq<Tri>, s: set<Tri>): set<nat> {
    set m: nat | m < |elems| && elems[m] in s
  }

  /** Both directions of the edges from `c` to every node of `targets`. */
  function Star(c: nat, targets: set<nat>): (edges: set<(nat, nat)>)
    ensures forall e :: e in edges <==> (e.0 == c && e.1 in targets) || (e.1 == c && e.0 in targets)
  {
    (set x | x in targets :: (c, x)) + (set x | x in targets :: (x, c))
  }

  /** The numbers `map_element` gives the triangles of `s`. */
  function Image(positions: map<Tri, nat>, s: set<Tri>): (r: set<nat>)
    requires s <= positions.Keys
    ensures forall t | t in s :: positions[t] in r
    ensures forall y | y in r :: exists t | t in s :: positions[t] == y
  {
    set t | t in s :: positions[t]
  }

  /** The edges of the `m`-th gadget pair, numbered from `base`. */
  function Gadget(base: nat, m: nat, left: set<nat>, right: set<nat>): (edges: set<(nat, nat)>)
    ensures var g1 := base + 2 * m;
            forall e :: e in edges <==>
              || (e.0 == g1 && (e.1 in left || e.1 == g1 + 1))
              || (e.1 == g1 && (e.0 in left || e.0 == g1 + 1))
              || (e.0 == g1 + 1 && e.1 in right)
              || (e.1 == g1 + 1 && e.0 in right)
  {
    var g1 := base + 2 * m;
    Star(g1, left) + Star(g1 + 1, right) + {(g1, g1 + 1), (g1 + 1, g1)}
  }

  /** All the gadget edges for the pairs `pairs`, the gadget nodes numbered from `|elems|`. */
  function ConflictEdges(elems: seq<Tri>, cover: map<nat, set<Tri>>, pairs: seq<(nat, nat)>): set<(nat, nat)>
    requires forall pr | pr in pairs :: pr.0 in cover && pr.1 in cover
  {
    if pairs == [] then {}
    else
      var last := pairs[|pairs| - 1];
      ConflictEdges(elems, cover, pairs[..|pairs| - 1])
      + Gadget(|elems|, |pairs| - 1, IndexOf(elems, cover[last.0]), IndexOf(elems, cover[last.1]))
  }

  /** Every conflict edge is stored in both directions. */
  lemma {:induction false} ConflictEdgesSymmetric(elems: seq<Tri>, cover: map<nat, set<Tri>>, pairs: seq<(nat, nat)>)
    requires forall pr | pr in pairs :: pr.0 in cover && pr.1 in cover
    ensures forall e | e in ConflictEdges(elems, cover, pairs) :: (e.1, e.0) in ConflictEdges(elems, cover, pairs)
  {
    if pairs != [] {
      var init := pairs[..|pairs| - 1];
      var last := pairs[|pairs| - 1];
      assert forall pr | pr in init :: pr in pairs;
      ConflictEdgesSymmetric(elems, cover, init);
    }
  }

  /** Every conflict edge has an end among the gadget nodes `|elems| .. |elems| + 2 * |pairs| - 1`:
      no edge joins two triangle nodes. */
  lemma {:induction false} ConflictEdgesEnds(elems: seq<Tri>, cover: map<nat, set<Tri>>, pairs: seq<(nat, nat)>)
    requires forall pr | pr in pairs :: pr.0 in cover && pr.1 in cover
    ensures forall e | e in ConflictEdges(elems, cover, pairs) ::
              |elems| <= e.0 < |elems| + 2 * |pairs| || |elems| <= e.1 < |elems| + 2 * |pairs|
  {
    if pairs != [] {
      var init := pairs[..|pairs| - 1];
      assert forall pr | pr in init :: pr in pairs;
      ConflictEdgesEnds(elems, cover, init);
    }
  }

  /** Triangle `x` is joined to the first node of gadget `m` exactly when it lies in the first
      key's set and to the second node exactly when it lies in the second key's set, and the
      two nodes of the gadget are joined. */
  lemma {:induction false} ConflictEdgesLink(elems: seq<Tri>, cover: map<nat, set<Tri>>, pairs: seq<(nat, nat)>,
                                             x: nat, m: nat)
    requires forall pr | pr in pairs :: pr.0 in cover && pr.1 in cover
    requires x < |elems| && m < |pairs|
    ensures (x, |elems| + 2 * m) in ConflictEdges(elems, cover, pairs) <==> elems[x] in cover[pairs[m].0]
    ensures (x, |elems| + 2 * m + 1) in ConflictEdges(elems, cover, pairs) <==> elems[x] in cover[pairs[m].1]
    ensures (|elems| + 2 * m, |elems| + 2 * m + 1) in ConflictEdges(elems, cover, pairs)
  {
    var init := pairs[..|pairs| - 1];
    var last := pairs[|pairs| - 1];
    assert forall pr | pr in init :: pr in pairs;
    if m < |pairs| - 1 {
      ConflictEdgesLink(elems, cover, init, x, m);
      assert pairs[m] == init[m];
    } else {
      ConflictEdgesEnds(elems, cover, init);
    }
  }

  // ---------------------------------------------------------------------------------------
  // The builder

  /** `map_element`: each triangle's position in the enumeration. */
  function Positions(elems: seq<Tri>): (positions: map<Tri, nat>)
    requires Distinct(elems)
    ensures forall m | 0 <= m < |elems| :: elems[m] in positions && positions[elems[m]] == m
    ensures forall t :: t in positions <==> t in elems
  {
    map m | 0 <= m < |elems| :: elems[m] := m
  }

  /** `positions` maps each triangle to its position in `elems`, and nothing else. */
  ghost predicate Numbering(positions: map<Tri, nat>, elems: seq<Tri>) {
    && (forall m | 0 <= m < |elems| :: elems[m] in positions && positions[elems[m]] == m)
    && (forall t :: t in positions <==> t in elems)
  }

  /** `for elem in subset: graph.add_edge(centre, map_element[elem])`, over the triangles
      in the order iterating the set visits them. */
  method AddStar(graph: SetGraph, nodes: seq<nat>, ghost edges: set<(nat, nat)>, centre: nat,
                 subset: set<Tri>, positions: map<Tri, nat>)
    returns (graph': SetGraph, nodes': seq<nat>)
    requires EdgesAre(graph, edges) && Distinct(nodes) && forall x :: x in nodes <==> x in graph
    requires subset <= positions.Keys
    ensures EdgesAre(graph', edges + Star(centre, Image(positions, subset)))
    ensures Distinct(nodes') && forall x :: x in nodes' <==> x in graph'
  {
    graph', nodes' := graph, nodes;
    var rest := subset;
    while rest != {}
      invariant rest <= subset
      invariant EdgesAre(graph', edges + Star(centre, Image(positions, subset - rest)))
      invariant Distinct(nodes') && forall x :: x in nodes' <==> x in graph'
      decreases rest
    {
      var elem :| elem in rest;
      var target := positions[elem];
      ghost var before := edges + Star(centre, Image(positions, subset - rest));
      AddEdgeEdges(graph', before, centre, target);
      AddEdgeNodes(graph', nodes', centre, target);
      graph' := AddEdge(graph', centre, target);
      nodes' := Enrol(Enrol(nodes', centre), target);
      StarInsert(centre, subset, rest, elem, positions);
      rest := rest - {elem};
    }
    assert subset - rest == subset;
  }

  /** Taking one more triangle into the star adds its two edges. */
  lemma StarInsert(centre: nat, subset: set<Tri>, rest: set<Tri>, elem: Tri, positions: map<Tri, nat>)
    requires subset <= positions.Keys && rest <= subset && elem in rest
    ensures Star(centre, Image(positions, subset - (rest - {elem})))
            == Star(centre, Image(positions, subset - rest)) + {(centre, positions[elem]), (positions[elem], centre)}
  {
    var before, after := Image(positions, subset - rest), Image(positions, subset - (rest - {elem}));
    forall y | y in after ensures y in before + {positions[elem]} {
      var t :| t in subset - (rest - {elem}) && positions[t] == y;
    }
    assert after == before + {positions[elem]};
  }

  /** The inner loop for `key1`: a gadget pair for every later key in loop order whose
      triangle set meets `key1`'s. `prefix` holds the pairs of the earlier rows. */
  method FillRow(graph: SetGraph, nodes: seq<nat>, newElement: nat, elems: seq<Tri>, positions: map<Tri, nat>,
                 cover: map<nat, set<Tri>>, keys: seq<nat>, key1: nat, ghost prefix: seq<(nat, nat)>)
    returns (graph': SetGraph, nodes': seq<nat>, newElement': nat)
    requires key1 in cover && (forall x | x in keys :: x in cover)
    requires forall key | key in cover :: cover[key] <= positions.Keys
    requires Numbering(positions, elems)
    requires Filled(graph, nodes, newElement, elems, cover, prefix)
    ensures Filled(graph', nodes', newElement', elems, cover, prefix + RowPairs(keys, cover, key1, |keys|))
  {
    graph', nodes', newElement' := graph, nodes, newElement;
    ghost var pairs := prefix;
    assert prefix + RowPairs(keys, cover, key1, 0) == prefix;
    for j := 0 to |keys|
      invariant pairs == prefix + RowPairs(keys, cover, key1, j)
      invariant Filled(graph', nodes', newElement', elems, cover, pairs)
    {
      graph', nodes', newElement', pairs :=
        FillCell(graph', nodes', newElement', elems, positions, cover, keys, key1, j, prefix, pairs);
    }
  }

  /** The graph holds exactly the gadgets of `pairs`, `nodes` lists its nodes once each, and
      `newElement` is the next free node. */
  ghost predicate Filled(graph: SetGraph, nodes: seq<nat>, newElement: nat, elems: seq<Tri>,
                         cover: map<nat, set<Tri>>, pairs: seq<(nat, nat)>) {
    && (forall pr | pr in pairs :: pr.0 in cover && pr.1 in cover)
    && EdgesAre(graph, ConflictEdges(elems, cover, pairs))
    && Distinct(nodes) && (forall x :: x in nodes <==> x in graph)
    && newElement == |elems| + 2 * |pairs|
  }

  /** One turn of the inner loop: a gadget pair for `key1` and `keys[j]` when they conflict. */
  method FillCell(graph: SetGraph, nodes: seq<nat>, newElement: nat, elems: seq<Tri>, positions: map<Tri, nat>,
                  cover: map<nat, set<Tri>>, keys: seq<nat>, key1: nat, j: nat,
                  ghost prefix: seq<(nat, nat)>, ghost pairs: seq<(nat, nat)>)
    returns (graph': SetGraph, nodes': seq<nat>, newElement': nat, ghost pairs': seq<(nat, nat)>)
    requires j < |keys| && key1 in cover && (forall x | x in keys :: x in cover)
    requires pairs == prefix + RowPairs(keys, cover, key1, j)
    requires forall key | key in cover :: cover[key] <= positions.Keys
    requires Numbering(positions, elems)
    requires Filled(graph, nodes, newElement, elems, cover, pairs)
    ensures pairs' == prefix + RowPairs(keys, cover, key1, j + 1)
    ensures Filled(graph', nodes', newElement', elems, cover, pairs')
  {
    graph', nodes', newElement', pairs' := graph, nodes, newElement, pairs;
    var key2 := keys[j];
    var subset1, subset2 := cover[key1], cover[key2];
    if key1 < key2 && subset1 * subset2 != {} {
      graph', nodes' := AddGadget(graph, nodes, ConflictEdges(elems, cover, pairs), elems, positions,
                                  newElement, |pairs|, subset1, subset2);
      newElement' := newElement + 2;
      ConflictEdgesAppend(elems, cover, pairs, (key1, key2));
      pairs' := pairs + [(key1, key2)];
    }
    RowPairsAppend(keys, cover, key1, j, prefix, pairs, pairs');
  }

  lemma RowPairsStep(keys: seq<nat>, cover: map<nat, set<Tri>>, key1: nat, j: nat)
    requires j < |keys| && key1 in cover && forall x | x in keys :: x in cover
    ensures Conflicting(cover, key1, keys[j]) ==>
              RowPairs(keys, cover, key1, j + 1) == RowPairs(keys, cover, key1, j) + [(key1, keys[j])]
    ensures !Conflicting(cover, key1, keys[j]) ==>
              RowPairs(keys, cover, key1, j + 1) == RowPairs(keys, cover, key1, j)
  {
  }

  /** After turn `j` of the inner loop, the pairs gathered are the earlier rows' pairs and
      this row's up to `j + 1`. */
  lemma RowPairsAppend(keys: seq<nat>, cover: map<nat, set<Tri>>, key1: nat, j: nat,
                       prefix: seq<(nat, nat)>, pairs: seq<(nat, nat)>, pairs': seq<(nat, nat)>)
    requires j < |keys| && key1 in cover && forall x | x in keys :: x in cover
    requires pairs == prefix + RowPairs(keys, cover, key1, j)
    requires pairs' == if Conflicting(cover, key1, keys[j]) then pairs + [(key1, keys[j])] else pairs
    ensures pairs' == prefix + RowPairs(keys, cover, key1, j + 1)
  {
    RowPairsStep(keys, cover, key1, j);
    if Conflicting(cover, key1, keys[j]) {
      assert prefix + RowPairs(keys, cover, key1, j) + [(key1, keys[j])]
          == prefix + (RowPairs(keys, cover, key1, j) + [(key1, keys[j])]);
    }
  }

  /** `fill_graph(universe, cover)`: the conflict graph, its nodes in insertion order, `k`
      (the number of triangles plus the number of gadget pairs) and the enumeration of the
      universe that numbered the triangles. */
  method FillGraph(universe: set<Tri>, cover: map<nat, set<Tri>>, keys: seq<nat>)
    returns (graph: SetGraph, nodes: seq<nat>, k: nat, elems: seq<Tri>)
    requires KeyOrder(keys, cover)
    requires forall key | key in cover :: cover[key] <= universe
    ensures Distinct(elems) && |elems| == |universe| && forall t :: t in elems <==> t in universe
    ensures EdgesAre(graph, ConflictEdges(elems, cover, ConflictPairs(keys, cover, |keys|)))
    ensures Distinct(nodes) && forall x :: x in nodes <==> x in graph
    ensures k == |universe| + |ConflictPairs(keys, cover, |keys|)|
  {
    elems := SetOrder(universe);
    var positions := Positions(elems);
    var newElement: nat := |universe|;
    graph, nodes := map[], [];
    for i := 0 to |keys|
      invariant Filled(graph, nodes, newElement, elems, cover, ConflictPairs(keys, cover, i))
    {
      graph, nodes, newElement := FillRow(graph, nodes, newElement, elems, positions, cover, keys, keys[i],
                                          ConflictPairs(keys, cover, i));
    }
    assert newElement == |elems| + 2 * |ConflictPairs(keys, cover, |keys|)|;
    k := |universe| + (newElement - |universe|) / 2;
  }

  /** The body of the inner loop for two conflicting keys: the `m`-th gadget pair, its first
      node joined to the triangles of `subset1`, its second to those of `subset2`, and the
      two joined to each other. */
  method AddGadget(graph: SetGraph, nodes: seq<nat>, ghost edges: set<(nat, nat)>, elems: seq<Tri>,
                   positions: map<Tri, nat>, newElement: nat, ghost m: nat, subset1: set<Tri>, subset2: set<Tri>)
    returns (graph': SetGraph, nodes': seq<nat>)
    requires newElement == |elems| + 2 * m
    requires EdgesAre(graph, edges) && Distinct(nodes) && forall x :: x in nodes <==> x in graph
    requires Numbering(positions, elems)
    requires subset1 <= positions.Keys && subset2 <= positions.Keys
    ensures EdgesAre(graph', edges + Gadget(|elems|, m, IndexOf(elems, subset1), IndexOf(elems, subset2)))
    ensures Distinct(nodes') && forall x :: x in nodes' <==> x in graph'
  {
    GadgetOfPositions(elems, positions, m, subset1, subset2);
    graph', nodes' := AddStar(graph, nodes, edges, newElement, subset1, positions);
    ghost var edges1 := edges + Star(newElement, Image(positions, subset1));
    graph', nodes' := AddStar(graph', nodes', edges1, newElement + 1, subset2, positions);
    ghost var edges2 := edges1 + Star(newElement + 1, Image(positions, subset2));
    AddEdgeEdges(graph', edges2, newElement, newElement + 1);
    AddEdgeNodes(graph', nodes', newElement, newElement + 1);
    graph' := AddEdge(graph', newElement, newElement + 1);
    nodes' := Enrol(Enrol(nodes', newElement), newElement + 1);
  }

  /** One more gadget pair adds its gadget's edges. */
  lemma ConflictEdgesAppend(elems: seq<Tri>, cover: map<nat, set<Tri>>, pairs: seq<(nat, nat)>, pr: (nat, nat))
    requires forall q | q in pairs :: q.0 in cover && q.1 in cover
    requires pr.0 in cover && pr.1 in cover
    ensures ConflictEdges(elems, cover, pairs + [pr])
            == ConflictEdges(elems, cover, pairs) + Gadget(|elems|, |pairs|, IndexOf(elems, cover[pr.0]), IndexOf(elems, cover[pr.1]))
  {
    assert (pairs + [pr])[..|pairs|] == pairs;
  }

  /** The edges added for one gadget pair are those of `Gadget`, the positions of the
      triangles being their numbers in the enumeration. */
  lemma GadgetOfPositions(elems: seq<Tri>, positions: map<Tri, nat>, m: nat, subset1: set<Tri>, subset2: set<Tri>)
    requires Numbering(positions, elems)
    requires subset1 <= positions.Keys && subset2 <= positions.Keys
    ensures var g1 := |elems| + 2 * m;
            Gadget(|elems|, m, IndexOf(elems, subset1), IndexOf(elems, subset2))
            == Star(g1, Image(positions, subset1)) + Star(g1 + 1, Image(positions, subset2)) + {(g1, g1 + 1), (g1 + 1, g1)}
  {
    PositionsIndex(elems, positions, subset1);
    PositionsIndex(elems, positions, subset2);
  }

  lemma PositionsIndex(elems: seq<Tri>, positions: map<Tri, nat>, s: set<Tri>)
    requires Numbering(positions, elems) && s <= positions.Keys
    ensures (Image(positions, s)) == IndexOf(elems, s)
  {
    forall m | m in IndexOf(elems, s) ensures m in (Image(positions, s)) {
      assert positions[elems[m]] == m;
    }
  }
}
