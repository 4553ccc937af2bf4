/** The first stage of the independent-edge-triangle-cover test in aegypti/cover.py: a
    depth-first walk over an explicit stack of `(node, parent)` entries that labels every
    vertex `n * parent + node`, and, each time a popped vertex has an already labelled
    neighbour adjacent to its parent, records the triangle `{parent, node, neighbour}` in the
    universe and files it in the cover index under its smallest and its largest vertex. */
module CoverCollector {
  import opened Wrappers
  import opened PyValues
  import opened Graphs
  import opened AegyptiUtils
  import opened StackMeasure

  /** A triangle, the frozenset of its three vertices, kept as its ascending triple. */
  type Tri = (nat, nat, nat)

  // ---------------------------------------------------------------------------------------
  // Labels

  /** A whole step of `n` separates the multiples `n * a` and `n * b` when `a < b`. */
  lemma {:induction false} MulStep(n: nat, a: nat, b: nat)
    requires a < b
    ensures n * a + n <= n * b
  {
    if b > a + 1 {
      MulStep(n, a, b - 1);
    }
  }

  /** The label a vertex receives when popped with `parent`. */
  function Label(n: nat, parent: nat, node: nat): nat {
    n * parent + node
  }

  /** A label decodes back to the parent (`label // n`) and the vertex (`label % n`). */
  lemma LabelDecodes(n: nat, parent: nat, node: nat)
    requires node < n
    ensures Label(n, parent, node) / n == parent && Label(n, parent, node) % n == node
  {
    var y := n * parent + node;
    var q, r := y / n, y % n;
    assert y == n * q + r;
    if q < parent {
      MulStep(n, q, parent);
    }
    if parent < q {
      MulStep(n, parent, q);
    }
  }

  // ---------------------------------------------------------------------------------------
  // The cover index

  /** The triangles of `universe` that have `key` as their smallest or largest vertex. */
  function FiledUnder(universe: set<Tri>, key: nat): set<Tri> {
    set t | t in universe && (t.0 == key || t.2 == key)
  }

  function Endpoints(universe: set<Tri>): set<nat> {
    (set t | t in universe :: t.0) + (set t | t in universe :: t.2)
  }

  /** The dictionary the collector builds: every smallest or largest vertex of a triangle,
      mapped to the triangles filed under it. */
  function CoverIndex(universe: set<Tri>): map<nat, set<Tri>> {
    map key | key in Endpoints(universe) :: FiledUnder(universe, key)
  }

  /** Each triangle sits in exactly two subsets, those of its smallest and largest vertex
      (never its middle one), and every subset is a non-empty part of the universe. */
  lemma CoverIndexShape(universe: set<Tri>)
    requires forall t | t in universe :: t.0 < t.1 < t.2
    ensures forall key | key in CoverIndex(universe) :: {} != CoverIndex(universe)[key] <= universe
    ensures forall t, key | t in universe ::
              (key in CoverIndex(universe) && t in CoverIndex(universe)[key]) <==> (key == t.0 || key == t.2)
    ensures forall t | t in universe :: t.0 != t.2
  {
    var c := CoverIndex(universe);
    forall key | key in c
      ensures c[key] != {}
    {
      if key in (set t | t in universe :: t.0) {
        var t :| t in universe && t.0 == key;
        assert t in c[key];
      } else {
        var t :| t in universe && t.2 == key;
        assert t in c[key];
      }
    }
    forall t, key | t in universe && (key == t.0 || key == t.2)
      ensures key in c && t in c[key]
    {
      assert key in Endpoints(universe);
    }
  }

  /** Python's `cover.setdefault(key, set()).add(t)`, with the order in which keys were first
      inserted. */
  ghost predicate KeyOrder(keys: seq<nat>, cover: map<nat, set<Tri>>) {
    && (forall i, j | 0 <= i < j < |keys| :: keys[i] != keys[j])
    && (forall key :: key in keys <==> key in cover)
  }

  /** `cover.setdefault(key, set()).add(t)` on the dictionary and its key order. */
  function SetDefaultAdd(cover: map<nat, set<Tri>>, keys: seq<nat>, key: nat, t: Tri)
    : (map<nat, set<Tri>>, seq<nat>)
  {
    (cover[key := (if key in cover then cover[key] else {}) + {t}],
     if key in cover then keys else keys + [key])
  }

  lemma FiledUnderInsert(universe: set<Tri>, t: Tri, key: nat)
    ensures FiledUnder(universe + {t}, key)
         == FiledUnder(universe, key) + (if key == t.0 || key == t.2 then {t} else {})
  {
  }

  lemma FiledUnderOutside(universe: set<Tri>, key: nat)
    requires key !in Endpoints(universe)
    ensures FiledUnder(universe, key) == {}
  {
    forall t | t in universe
      ensures t.0 != key && t.2 != key
    {
      assert t.0 in Endpoints(universe) && t.2 in Endpoints(universe);
    }
  }

  lemma EndpointsInsert(universe: set<Tri>, t: Tri)
    ensures Endpoints(universe + {t}) == Endpoints(universe) + {t.0, t.2}
  {
  }

  /** Filing under one key keeps the index of `universe + {t}` on every other key. */
  lemma SetDefaultAddStep(universe: set<Tri>, t: Tri, cover: map<nat, set<Tri>>, keys: seq<nat>, key: nat)
    requires key == t.0 || key == t.2
    requires KeyOrder(keys, cover)
    requires forall k | k in cover :: k in Endpoints(universe + {t})
    requires forall k | k in Endpoints(universe) :: k in cover
    requires forall k | k in cover && k != key :: cover[k] == FiledUnder(universe + {t}, k) || cover[k] == FiledUnder(universe, k)
    requires key in cover ==> cover[key] == FiledUnder(universe, key)
    ensures var (c, k) := SetDefaultAdd(cover, keys, key, t);
            && KeyOrder(k, c)
            && key in c && c[key] == FiledUnder(universe + {t}, key)
            && (forall k' | k' in c && k' != key :: c[k'] == cover[k'])
            && c.Keys == cover.Keys + {key}
  {
    FiledUnderInsert(universe, t, key);
    if key !in cover {
      FiledUnderOutside(universe, key);
    }
  }

  /** Filing a new triangle under its smallest and then its largest vertex turns the index
      of a universe into the index of the universe with that triangle, in key order. */
  lemma FileTriangle(universe: set<Tri>, keys: seq<nat>, t: Tri)
    requires t.0 < t.2
    requires KeyOrder(keys, CoverIndex(universe))
    ensures var (c1, k1) := SetDefaultAdd(CoverIndex(universe), keys, t.0, t);
            var (c2, k2) := SetDefaultAdd(c1, k1, t.2, t);
            c2 == CoverIndex(universe + {t}) && KeyOrder(k2, c2)
  {
    var first := SetDefaultAdd(CoverIndex(universe), keys, t.0, t);
    FileMinimum(universe, keys, t);
    FileMaximum(universe, t, first.0, first.1);
    IndexOfFiled(universe + {t}, SetDefaultAdd(first.0, first.1, t.2, t).0);
  }

  /** After filing under the smallest vertex, that key holds its triangles in the larger
      universe and every other key still holds those of the smaller one. */
  lemma FileMinimum(universe: set<Tri>, keys: seq<nat>, t: Tri)
    requires t.0 < t.2
    requires KeyOrder(keys, CoverIndex(universe))
    ensures var c1 := SetDefaultAdd(CoverIndex(universe), keys, t.0, t).0;
            && KeyOrder(SetDefaultAdd(CoverIndex(universe), keys, t.0, t).1, c1)
            && c1.Keys == Endpoints(universe) + {t.0}
            && c1[t.0] == FiledUnder(universe + {t}, t.0)
            && forall k | k in c1 && k != t.0 :: c1[k] == FiledUnder(universe, k)
  {
    EndpointsInsert(universe, t);
    SetDefaultAddStep(universe, t, CoverIndex(universe), keys, t.0);
  }

  /** Filing under the largest vertex then gives every key its triangles in the larger universe. */
  lemma FileMaximum(universe: set<Tri>, t: Tri, c1: map<nat, set<Tri>>, k1: seq<nat>)
    requires t.0 < t.2
    requires KeyOrder(k1, c1) && c1.Keys == Endpoints(universe) + {t.0}
    requires c1[t.0] == FiledUnder(universe + {t}, t.0)
    requires forall k | k in c1 && k != t.0 :: c1[k] == FiledUnder(universe, k)
    ensures var c2 := SetDefaultAdd(c1, k1, t.2, t).0;
            && KeyOrder(SetDefaultAdd(c1, k1, t.2, t).1, c2)
            && c2.Keys == Endpoints(universe + {t})
            && forall k | k in c2 :: c2[k] == FiledUnder(universe + {t}, k)
  {
    var big := universe + {t};
    EndpointsInsert(universe, t);
    SetDefaultAddStep(universe, t, c1, k1, t.2);
    var c2 := SetDefaultAdd(c1, k1, t.2, t).0;
    forall k | k in c2
      ensures c2[k] == FiledUnder(big, k)
    {
      if k != t.0 && k != t.2 {
        FiledUnderInsert(universe, t, k);
      }
    }
  }

  /** A dictionary keyed by exactly the endpoints, each holding its own triangles, is the cover index. */
  lemma IndexOfFiled(universe: set<Tri>, c: map<nat, set<Tri>>)
    requires c.Keys == Endpoints(universe)
    requires forall k | k in c :: c[k] == FiledUnder(universe, k)
    ensures c == CoverIndex(universe)
  {
  }

  // ---------------------------------------------------------------------------------------
  // Scanning the neighbours of one popped vertex

  /** The triangle test of the scan around a vertex whose label decodes to parent `u`: the
      neighbour is labelled and the entry at (`u`, `colors[neighbour] % n`) is set. */
  predicate Closes(a: Matrix, colors: map<nat, nat>, u: nat, nb: nat)
    requires Square(a) && u < |a|
  {
    nb in colors && a[u][colors[nb] % |a|]
  }

  /** The triangles the scan records around the vertex whose label decodes to `(u, v)`. */
  function Around(a: Matrix, colors: map<nat, nat>, u: nat, v: nat, neighbors: seq<nat>): set<Tri>
    requires Square(a) && u < |a|
  {
    set nb | nb in neighbors && Closes(a, colors, u, nb) && Distinct3(u, v, colors[nb] % |a|)
      :: Canonical(u, v, colors[nb] % |a|)
  }

  /** A scan fails (with the StopIteration of `next(iter(...))` on an empty difference) when a
      closing neighbour gives fewer than three distinct vertices. */
  predicate ScanFails(a: Matrix, colors: map<nat, nat>, u: nat, v: nat, neighbors: seq<nat>)
    requires Square(a) && u < |a|
  {
    exists m | 0 <= m < |neighbors| ::
      Closes(a, colors, u, neighbors[m]) && !Distinct3(u, v, colors[neighbors[m]] % |a|)
  }

  lemma AroundStep(a: Matrix, colors: map<nat, nat>, u: nat, v: nat, prefix: seq<nat>, nb: nat)
    requires Square(a) && u < |a|
    ensures Around(a, colors, u, v, prefix + [nb])
         == Around(a, colors, u, v, prefix)
            + if Closes(a, colors, u, nb) && Distinct3(u, v, colors[nb] % |a|)
              then {Canonical(u, v, colors[nb] % |a|)} else {}
  {
  }

  lemma ScanFailsStep(a: Matrix, colors: map<nat, nat>, u: nat, v: nat, prefix: seq<nat>, nb: nat)
    requires Square(a) && u < |a|
    ensures ScanFails(a, colors, u, v, prefix + [nb])
        <==> ScanFails(a, colors, u, v, prefix)
             || (Closes(a, colors, u, nb) && !Distinct3(u, v, colors[nb] % |a|))
  {
    var s := prefix + [nb];
    if ScanFails(a, colors, u, v, prefix) {
      var m :| 0 <= m < |prefix| && Closes(a, colors, u, prefix[m])
               && !Distinct3(u, v, colors[prefix[m]] % |a|);
      assert s[m] == prefix[m];
    }
    if ScanFails(a, colors, u, v, s) {
      var m :| 0 <= m < |s| && Closes(a, colors, u, s[m]) && !Distinct3(u, v, colors[s[m]] % |a|);
      if m < |prefix| {
        assert s[m] == prefix[m];
      }
    }
    if Closes(a, colors, u, nb) && !Distinct3(u, v, colors[nb] % |a|) {
      assert s[|prefix|] == nb;
    }
  }

  /** `universe.add(triangle)` followed by filing the triangle under its minimum and then its
      maximum. */
  method RecordTriangle(universe: set<Tri>, cover: map<nat, set<Tri>>, keys: seq<nat>, triangle: Tri)
    returns (universe': set<Tri>, cover': map<nat, set<Tri>>, keys': seq<nat>)
    requires triangle.0 < triangle.2
    requires cover == CoverIndex(universe) && KeyOrder(keys, cover)
    ensures universe' == universe + {triangle}
    ensures cover' == CoverIndex(universe') && KeyOrder(keys', cover')
  {
    FileTriangle(universe, keys, triangle);
    universe' := universe + {triangle};
    var filed := SetDefaultAdd(cover, keys, triangle.0, triangle);
    filed := SetDefaultAdd(filed.0, filed.1, triangle.2, triangle);
    cover', keys' := filed.0, filed.1;
  }

  /** The body of the neighbour loop of the collector for the vertex popped with label `code`:
      for every closing neighbour it computes the minimum, the maximum and the one vertex
      between them, adds the triangle and files it under its minimum and its maximum. */
  method ScanNeighbors(a: Matrix, colors: map<nat, nat>, code: nat, neighbors: seq<nat>,
                       universe: set<Tri>, cover: map<nat, set<Tri>>, keys: seq<nat>)
    returns (r: Result<(set<Tri>, map<nat, set<Tri>>, seq<nat>), Exception>)
    requires Square(a) && |a| > 0 && code / |a| < |a|
    requires cover == CoverIndex(universe) && KeyOrder(keys, cover)
    ensures r.Failure? <==> ScanFails(a, colors, code / |a|, code % |a|, neighbors)
    ensures r.Failure? ==> r.error == StopIteration
    ensures r.Success? ==> r.value.0 == universe + Around(a, colors, code / |a|, code % |a|, neighbors)
    ensures r.Success? ==> r.value.1 == CoverIndex(r.value.0) && KeyOrder(r.value.2, r.value.1)
  {
    var n := |a|;
    var u, v := code / n, code % n;
    var universe', cover', keys' := universe, cover, keys;
    for m := 0 to |neighbors|
      invariant cover' == CoverIndex(universe') && KeyOrder(keys', cover')
      invariant universe' == universe + Around(a, colors, u, v, neighbors[..m])
      invariant !ScanFails(a, colors, u, v, neighbors[..m])
    {
      var neighbor := neighbors[m];
      assert neighbors[..m + 1] == neighbors[..m] + [neighbor];
      ScanFailsStep(a, colors, u, v, neighbors[..m], neighbor);
      AroundStep(a, colors, u, v, neighbors[..m], neighbor);
      if neighbor in colors && a[u][colors[neighbor] % n] {
        var w := colors[neighbor] % n;
        if !Distinct3(u, v, w) {
          assert ScanFails(a, colors, u, v, neighbors) by {
            assert neighbors[m] == neighbor;
          }
          return Failure(StopIteration);
        }
        var triangle := Canonical(u, v, w);
        universe', cover', keys' := RecordTriangle(universe', cover', keys', triangle);
      }
    }
    assert neighbors[..|neighbors|] == neighbors;
    r := Success((universe', cover', keys'));
  }

  /** Every triangle recorded around a vertex has three vertices below `n`, ascending. */
  lemma AroundBounded(a: Matrix, colors: map<nat, nat>, u: nat, v: nat, neighbors: seq<nat>)
    requires Square(a) && u < |a| && v < |a|
    ensures forall t | t in Around(a, colors, u, v, neighbors) :: t.0 < t.1 < t.2 < |a|
  {
    forall t | t in Around(a, colors, u, v, neighbors)
      ensures t.0 < t.1 < t.2 < |a|
    {
      var nb :| nb in neighbors && Closes(a, colors, u, nb) && Distinct3(u, v, colors[nb] % |a|)
                && t == Canonical(u, v, colors[nb] % |a|);
      assert t.2 in {u, v, colors[nb] % |a|};
    }
  }

  // ---------------------------------------------------------------------------------------
  // The walk: stack entries are `(node, parent)`

  /** The vertices waiting on the stack. */
  function Nodes(stack: seq<(nat, nat)>): set<nat> {
    set e | e in stack :: e.0
  }

  /** No edge leaves the labelled vertices except towards a vertex waiting on the stack. */
  ghost predicate ClosedUpTo(a: Matrix, coloured: set<nat>, stack: seq<(nat, nat)>)
    requires Square(a)
  {
    forall c: nat, w: nat | c in coloured && c < |a| && w < |a| && a[c][w] :: w in coloured || w in Nodes(stack)
  }

  /** On a simple graph the scan around a vertex popped with parent `p` never fails: for a
      tree entry `p`, `v` and a neighbour adjacent to both are three distinct vertices, and a
      root (popped as its own parent) has no labelled neighbour, since the labelled vertices
      were closed when it was pushed. */
  lemma ScanSucceedsOnGraph(a: Matrix, colors: map<nat, nat>, coloured: set<nat>, p: nat, v: nat, neighbors: seq<nat>)
    requires IsGraph(a) && p < |a| && v < |a| && neighbors == Row(a, v)
    requires forall x | x in colors :: colors[x] % |a| == x
    requires colors.Keys == coloured + {v}
    requires a[p][v] || (p == v && v !in coloured && ClosedUpTo(a, coloured, []))
    ensures !ScanFails(a, colors, p, v, neighbors)
  {
    if a[p][v] {
      forall m | 0 <= m < |neighbors| && Closes(a, colors, p, neighbors[m])
        ensures Distinct3(p, v, colors[neighbors[m]] % |a|)
      {
        var nb := neighbors[m];
        assert nb in neighbors;
        assert nb < |a| && a[v][nb] && a[nb][v] && colors[nb] % |a| == nb;
      }
    } else {
      forall m | 0 <= m < |neighbors|
        ensures neighbors[m] !in colors
      {
        var nb := neighbors[m];
        assert nb in neighbors;
        assert nb < |a| && a[v][nb] && a[nb][v] && nb != v;
        assert nb in coloured ==> v in coloured || v in Nodes([]);
        assert Nodes([]) == {};
      }
    }
  }

  /** On a simple graph every triangle recorded around a tree entry is a real triangle. */
  lemma AroundSound(a: Matrix, colors: map<nat, nat>, p: nat, v: nat, neighbors: seq<nat>)
    requires IsGraph(a) && p < |a| && v < |a| && neighbors == Row(a, v) && a[p][v]
    requires forall x | x in colors :: colors[x] % |a| == x
    ensures forall t | t in Around(a, colors, p, v, neighbors) :: UpperTriangle(a, t)
  {
    forall t | t in Around(a, colors, p, v, neighbors)
      ensures UpperTriangle(a, t)
    {
      var nb :| nb in neighbors && Closes(a, colors, p, nb) && Distinct3(p, v, colors[nb] % |a|)
                && t == Canonical(p, v, colors[nb] % |a|);
      assert a[v][nb] && colors[nb] % |a| == nb;
      CanonicalOfTriangle(a, p, v, nb);
    }
  }

  /** The scan records `{p, v, nb}` for every labelled neighbour `nb` of `v` adjacent to `p`. */
  lemma AroundComplete(a: Matrix, colors: map<nat, nat>, p: nat, v: nat, neighbors: seq<nat>)
    requires Square(a) && p < |a| && v < |a| && neighbors == Row(a, v)
    requires forall x | x in colors :: colors[x] % |a| == x
    ensures forall nb: nat | nb < |a| && a[v][nb] && nb in colors && a[p][nb] && Distinct3(p, v, nb)
              :: Canonical(p, v, nb) in Around(a, colors, p, v, neighbors)
  {
    forall nb: nat | nb < |a| && a[v][nb] && nb in colors && a[p][nb] && Distinct3(p, v, nb)
      ensures Canonical(p, v, nb) in Around(a, colors, p, v, neighbors)
    {
      assert nb in neighbors && colors[nb] % |a| == nb;
    }
  }

  /** Popping `(v, p)`, labelling `v` and pushing its unlabelled neighbours keeps the
      labelled vertices closed up to the stack. */
  lemma PopKeepsClosed(a: Matrix, coloured: set<nat>, rest: seq<(nat, nat)>, v: nat, p: nat,
                       pushed: seq<(nat, nat)>)
    requires Square(a) && v < |a| && ClosedUpTo(a, coloured, rest + [(v, p)])
    requires forall w: nat | w < |a| && a[v][w] && w !in coloured + {v} :: (w, v) in pushed
    ensures ClosedUpTo(a, coloured + {v}, rest + pushed)
  {
    forall c: nat, w: nat | c in coloured + {v} && c < |a| && w < |a| && a[c][w] && w !in coloured + {v}
      ensures w in Nodes(rest + pushed)
    {
      if c == v {
        assert (w, v) in rest + pushed;
      } else {
        assert w in Nodes(rest + [(v, p)]);
        var e :| e in rest + [(v, p)] && e.0 == w;
        assert e in rest + pushed;
      }
    }
  }

  /** A triangle not yet recorded that has a labelled vertex `x` is still reachable by the
      walk: each other vertex is labelled or waits on the stack with parent `x`, and at least
      one of them waits. When the later of the two is popped, the other is labelled and the
      scan records the triangle. */
  predicate Witness(x: nat, y: nat, z: nat, coloured: set<nat>, stack: seq<(nat, nat)>) {
    && x in coloured
    && (y in coloured || (y, x) in stack)
    && (z in coloured || (z, x) in stack)
    && ((y, x) in stack || (z, x) in stack)
  }

  /** Every triangle that is not recorded yet and has a labelled vertex has a witness. */
  ghost predicate Pending(a: Matrix, coloured: set<nat>, stack: seq<(nat, nat)>, universe: set<Tri>)
    requires Square(a)
  {
    forall t | UpperTriangle(a, t) && t !in universe && (t.0 in coloured || t.1 in coloured || t.2 in coloured) ::
      || Witness(t.0, t.1, t.2, coloured, stack)
      || Witness(t.1, t.0, t.2, coloured, stack)
      || Witness(t.2, t.0, t.1, coloured, stack)
  }

  /** Popping `(y, x)` while `z` is labelled records the triangle `{x, y, z}`. */
  lemma ClosingRecords(a: Matrix, coloured: set<nat>, v: nat, p: nat, universe: set<Tri>, t: Tri,
                       x: nat, y: nat, z: nat)
    requires IsGraph(a) && UpperTriangle(a, t) && v < |a| && p < |a|
    requires {x, y, z} == {t.0, t.1, t.2}
    requires forall nb: nat | nb < |a| && a[v][nb] && nb in coloured + {v} && a[p][nb] && Distinct3(p, v, nb)
               :: Canonical(p, v, nb) in universe
    ensures v == y && p == x && z in coloured ==> t in universe
  {
    if v == y && p == x && z in coloured {
      assert a[y][z] && a[x][z];
      CanonicalUnique(p, v, z, t);
    }
  }

  lemma WitnessStep(a: Matrix, coloured: set<nat>, rest: seq<(nat, nat)>, v: nat, p: nat,
                    universe: set<Tri>, pushed: seq<(nat, nat)>, t: Tri, x: nat, y: nat, z: nat)
    requires IsGraph(a) && UpperTriangle(a, t) && v < |a| && p < |a| && t !in universe
    requires {x, y, z} == {t.0, t.1, t.2}
    requires forall nb: nat | nb < |a| && a[v][nb] && nb in coloured + {v} && a[p][nb] && Distinct3(p, v, nb)
               :: Canonical(p, v, nb) in universe
    requires Witness(x, y, z, coloured, rest + [(v, p)])
    ensures Witness(x, y, z, coloured + {v}, rest + pushed)
  {
    ClosingRecords(a, coloured, v, p, universe, t, x, y, z);
    ClosingRecords(a, coloured, v, p, universe, t, x, z, y);
    var s := rest + [(v, p)];
    assert forall e | e in s && e != (v, p) :: e in rest;
  }

  lemma FreshWitness(a: Matrix, coloured: set<nat>, rest: seq<(nat, nat)>, v: nat,
                     pushed: seq<(nat, nat)>, t: Tri)
    requires IsGraph(a) && UpperTriangle(a, t)
    requires t.0 !in coloured && t.1 !in coloured && t.2 !in coloured
    requires v == t.0 || v == t.1 || v == t.2
    requires forall w: nat | w < |a| && a[v][w] && w !in coloured + {v} :: (w, v) in pushed
    ensures || Witness(t.0, t.1, t.2, coloured + {v}, rest + pushed)
            || Witness(t.1, t.0, t.2, coloured + {v}, rest + pushed)
            || Witness(t.2, t.0, t.1, coloured + {v}, rest + pushed)
  {
    if v == t.0 {
      assert (t.1, v) in pushed && (t.2, v) in pushed;
    } else if v == t.1 {
      assert (t.0, v) in pushed && (t.2, v) in pushed;
    } else {
      assert (t.0, v) in pushed && (t.1, v) in pushed;
    }
  }

  /** Popping `(v, p)`, recording what the scan finds and pushing the unlabelled neighbours
      of `v` keeps every unrecorded triangle witnessed. */
  lemma PopKeepsPending(a: Matrix, coloured: set<nat>, rest: seq<(nat, nat)>, v: nat, p: nat,
                        universe: set<Tri>, universe': set<Tri>, pushed: seq<(nat, nat)>)
    requires IsGraph(a) && v < |a| && p < |a|
    requires Pending(a, coloured, rest + [(v, p)], universe) && universe <= universe'
    requires forall nb: nat | nb < |a| && a[v][nb] && nb in coloured + {v} && a[p][nb] && Distinct3(p, v, nb)
               :: Canonical(p, v, nb) in universe'
    requires forall w: nat | w < |a| && a[v][w] && w !in coloured + {v} :: (w, v) in pushed
    ensures Pending(a, coloured + {v}, rest + pushed, universe')
  {
    var s := rest + [(v, p)];
    forall t | UpperTriangle(a, t) && t !in universe'
               && (t.0 in coloured + {v} || t.1 in coloured + {v} || t.2 in coloured + {v})
      ensures || Witness(t.0, t.1, t.2, coloured + {v}, rest + pushed)
              || Witness(t.1, t.0, t.2, coloured + {v}, rest + pushed)
              || Witness(t.2, t.0, t.1, coloured + {v}, rest + pushed)
    {
      if t.0 in coloured || t.1 in coloured || t.2 in coloured {
        if Witness(t.0, t.1, t.2, coloured, s) {
          WitnessStep(a, coloured, rest, v, p, universe', pushed, t, t.0, t.1, t.2);
        } else if Witness(t.1, t.0, t.2, coloured, s) {
          WitnessStep(a, coloured, rest, v, p, universe', pushed, t, t.1, t.0, t.2);
        } else {
          WitnessStep(a, coloured, rest, v, p, universe', pushed, t, t.2, t.0, t.1);
        }
      } else {
        FreshWitness(a, coloured, rest, v, pushed, t);
      }
    }
  }

  /** With an empty stack, no unrecorded triangle has a labelled vertex. */
  lemma PendingEmptyStack(a: Matrix, coloured: set<nat>, stack: seq<(nat, nat)>, universe: set<Tri>)
    requires Square(a) && Pending(a, coloured, [], universe)
    ensures Pending(a, coloured, stack, universe)
  {
  }

  /** Once every vertex is labelled and the stack is empty, every triangle is recorded. */
  lemma PendingDone(a: Matrix, coloured: set<nat>, universe: set<Tri>)
    requires Square(a) && Pending(a, coloured, [], universe)
    requires forall j | 0 <= j < |a| :: j in coloured
    ensures forall t | UpperTriangle(a, t) :: t in universe
  {
  }

  /** `[(node, current_node) for node in neighbors if node not in colors]`. */
  function Pushes(neighbors: seq<nat>, colors: map<nat, nat>, node: nat): (s: seq<(nat, nat)>)
    ensures forall e | e in s :: e.1 == node && e.0 in neighbors && e.0 !in colors
    ensures forall w | w in neighbors && w !in colors :: (w, node) in s
  {
    if neighbors == [] then []
    else (if neighbors[0] !in colors then [(neighbors[0], node)] else []) + Pushes(neighbors[1..], colors, node)
  }

  // ---------------------------------------------------------------------------------------
  // The collector

  const CollectorNotSquareMessage := "Adjacency matrix must be square."

  /** The bookkeeping that holds of the walk from root `i` each time the `while stack` test
      is reached; `first` says the root entry has not been popped yet. */
  ghost predicate WalkShape(a: Matrix, i: nat, first: bool, before: set<nat>, colors: map<nat, nat>,
                            stack: seq<(nat, nat)>, universe: set<Tri>, cover: map<nat, set<Tri>>,
                            keys: seq<nat>)
  {
    && (forall x | x in colors :: x < |a| && colors[x] % |a| == x)
    && before <= colors.Keys
    && (first ==> stack == [(i, i)] && i !in colors)
    && (!first ==> i in colors)
    && (forall e | e in stack :: e.0 < |a| && e.1 < |a|)
    && cover == CoverIndex(universe) && KeyOrder(keys, cover)
    && (forall t | t in universe :: t.0 < t.1 < t.2 < |a|)
  }

  /** On a simple graph: every recorded triangle is real, every non-root entry is an edge,
      the labelled vertices are closed up to the stack (and were closed before the root was
      pushed) and every unrecorded triangle with a labelled vertex is witnessed. */
  ghost predicate WalkGraph(a: Matrix, first: bool, colors: map<nat, nat>, stack: seq<(nat, nat)>,
                            universe: set<Tri>)
  {
    IsGraph(a) ==>
      && (forall t | t in universe :: UpperTriangle(a, t))
      && (forall e | e in stack && e.0 < |a| && e.1 < |a| :: first || a[e.1][e.0])
      && ClosedUpTo(a, colors.Keys, stack)
      && (first ==> ClosedUpTo(a, colors.Keys, []))
      && Pending(a, colors.Keys, stack, universe)
  }

  ghost predicate WalkInvariant(a: Matrix, i: nat, first: bool, before: set<nat>, colors: map<nat, nat>,
                                stack: seq<(nat, nat)>, universe: set<Tri>, cover: map<nat, set<Tri>>,
                                keys: seq<nat>)
  {
    WalkShape(a, i, first, before, colors, stack, universe, cover, keys) && WalkGraph(a, first, colors, stack, universe)
  }

  /** One turn keeps the bookkeeping. */
  lemma VisitKeepsShape(a: Matrix, i: nat, first: bool, before: set<nat>, colors: map<nat, nat>,
                        stack: seq<(nat, nat)>, v: nat, p: nat, universe: set<Tri>,
                        cover: map<nat, set<Tri>>, keys: seq<nat>,
                        universe': set<Tri>, cover': map<nat, set<Tri>>, keys': seq<nat>)
    requires Square(a) && stack != [] && stack[|stack| - 1] == (v, p)
    requires WalkShape(a, i, first, before, colors, stack, universe, cover, keys)
    requires var colors' := colors[v := Label(|a|, p, v)];
             && universe' == universe + Around(a, colors', p, v, Row(a, v))
             && cover' == CoverIndex(universe') && KeyOrder(keys', cover')
    ensures var colors' := colors[v := Label(|a|, p, v)];
            WalkShape(a, i, false, before, colors', stack[..|stack| - 1] + Pushes(Row(a, v), colors', v),
                      universe', cover', keys')
  {
    var colors' := colors[v := Label(|a|, p, v)];
    assert (v, p) in stack;
    VisitLabels(a, colors, v, p);
    VisitStackBounds(a, colors', stack, v, p);
    assert first ==> v == i;
    AroundBounded(a, colors', p, v, Row(a, v));
  }

  /** Labelling a vertex below `n` keeps every label decoding to its own vertex. */
  lemma VisitLabels(a: Matrix, colors: map<nat, nat>, v: nat, p: nat)
    requires Square(a) && v < |a| && p < |a|
    requires forall x | x in colors :: x < |a| && colors[x] % |a| == x
    ensures var colors' := colors[v := Label(|a|, p, v)];
            forall x | x in colors' :: x < |a| && colors'[x] % |a| == x
  {
    LabelDecodes(|a|, p, v);
  }

  /** After a pop the stack still holds only vertices below `n`. */
  lemma VisitStackBounds(a: Matrix, colors': map<nat, nat>, stack: seq<(nat, nat)>, v: nat, p: nat)
    requires Square(a) && stack != [] && stack[|stack| - 1] == (v, p) && v < |a|
    requires forall e | e in stack :: e.0 < |a| && e.1 < |a|
    ensures forall e | e in stack[..|stack| - 1] + Pushes(Row(a, v), colors', v) :: e.0 < |a| && e.1 < |a|
  {
    var rest := stack[..|stack| - 1];
    var pushed := Pushes(Row(a, v), colors', v);
    forall e: (nat, nat) | e in rest + pushed
      ensures e.0 < |a| && e.1 < |a|
    {
      if e !in pushed {
        assert e in stack;
      }
    }
  }

  /** One turn records only real triangles and pushes only edges. */
  lemma VisitKeepsEdges(a: Matrix, i: nat, first: bool, before: set<nat>, colors: map<nat, nat>,
                        stack: seq<(nat, nat)>, v: nat, p: nat, universe: set<Tri>,
                        cover: map<nat, set<Tri>>, keys: seq<nat>,
                        universe': set<Tri>)
    requires IsGraph(a) && stack != [] && stack[|stack| - 1] == (v, p)
    requires WalkShape(a, i, first, before, colors, stack, universe, cover, keys)
    requires WalkGraph(a, first, colors, stack, universe)
    requires universe' == universe + Around(a, colors[v := Label(|a|, p, v)], p, v, Row(a, v))
    ensures var colors' := colors[v := Label(|a|, p, v)];
            var stack' := stack[..|stack| - 1] + Pushes(Row(a, v), colors', v);
            && (forall t | t in universe' :: UpperTriangle(a, t))
            && (forall e | e in stack' && e.0 < |a| && e.1 < |a| :: a[e.1][e.0])
  {
    assert (v, p) in stack;
    VisitRecordsTriangles(a, first, colors, v, p, universe, universe');
    VisitPushesEdges(a, i, first, colors, stack, v, p);
  }

  /** The triangles recorded around a popped tree entry are real; the root records none. */
  lemma VisitRecordsTriangles(a: Matrix, first: bool, colors: map<nat, nat>, v: nat, p: nat,
                              universe: set<Tri>, universe': set<Tri>)
    requires IsGraph(a) && v < |a| && p < |a| && (first ==> v == p) && (!first ==> a[p][v])
    requires forall x | x in colors :: x < |a| && colors[x] % |a| == x
    requires forall t | t in universe :: UpperTriangle(a, t)
    requires universe' == universe + Around(a, colors[v := Label(|a|, p, v)], p, v, Row(a, v))
    ensures forall t | t in universe' :: UpperTriangle(a, t)
  {
    var colors' := colors[v := Label(|a|, p, v)];
    LabelDecodes(|a|, p, v);
    assert forall x | x in colors' :: colors'[x] % |a| == x;
    if !first {
      AroundSound(a, colors', p, v, Row(a, v));
    } else {
      assert Around(a, colors', p, v, Row(a, v)) == {};
    }
  }

  /** After a pop, every entry on the stack is an edge from its parent. */
  lemma VisitPushesEdges(a: Matrix, i: nat, first: bool, colors: map<nat, nat>, stack: seq<(nat, nat)>,
                         v: nat, p: nat)
    requires Square(a) && stack != [] && stack[|stack| - 1] == (v, p) && v < |a|
    requires first ==> stack == [(i, i)]
    requires forall e | e in stack && e.0 < |a| && e.1 < |a| :: first || a[e.1][e.0]
    ensures var colors' := colors[v := Label(|a|, p, v)];
            var stack' := stack[..|stack| - 1] + Pushes(Row(a, v), colors', v);
            forall e | e in stack' && e.0 < |a| && e.1 < |a| :: a[e.1][e.0]
  {
    var colors' := colors[v := Label(|a|, p, v)];
    var rest := stack[..|stack| - 1];
    var neighbors := Row(a, v);
    var pushed := Pushes(neighbors, colors', v);
    assert first ==> rest == [];
    forall e: (nat, nat) | e in rest + pushed && e.0 < |a| && e.1 < |a|
      ensures a[e.1][e.0]
    {
      if e in pushed {
        assert e.1 == v && e.0 in neighbors;
      } else {
        assert e in stack;
      }
    }
  }

  /** One turn keeps the labelled vertices closed up to the stack and every unrecorded
      triangle witnessed. */
  lemma VisitKeepsPending(a: Matrix, i: nat, first: bool, before: set<nat>, colors: map<nat, nat>,
                          stack: seq<(nat, nat)>, v: nat, p: nat, universe: set<Tri>,
                          cover: map<nat, set<Tri>>, keys: seq<nat>,
                          universe': set<Tri>)
    requires IsGraph(a) && stack != [] && stack[|stack| - 1] == (v, p)
    requires WalkShape(a, i, first, before, colors, stack, universe, cover, keys)
    requires WalkGraph(a, first, colors, stack, universe)
    requires universe' == universe + Around(a, colors[v := Label(|a|, p, v)], p, v, Row(a, v))
    ensures var colors' := colors[v := Label(|a|, p, v)];
            var stack' := stack[..|stack| - 1] + Pushes(Row(a, v), colors', v);
            && ClosedUpTo(a, colors'.Keys, stack')
            && Pending(a, colors'.Keys, stack', universe')
  {
    var n := |a|;
    var colors' := colors[v := Label(n, p, v)];
    var rest := stack[..|stack| - 1];
    var neighbors := Row(a, v);
    var pushed := Pushes(neighbors, colors', v);
    assert stack == rest + [(v, p)];
    assert (v, p) in stack;
    LabelDecodes(n, p, v);
    AroundComplete(a, colors', p, v, neighbors);
    assert colors'.Keys == colors.Keys + {v};
    PopKeepsClosed(a, colors.Keys, rest, v, p, pushed);
    PopKeepsPending(a, colors.Keys, rest, v, p, universe, universe', pushed);
  }

  /** One turn keeps the graph invariants. */
  lemma VisitKeepsGraph(a: Matrix, i: nat, first: bool, before: set<nat>, colors: map<nat, nat>,
                        stack: seq<(nat, nat)>, v: nat, p: nat, universe: set<Tri>,
                        cover: map<nat, set<Tri>>, keys: seq<nat>,
                        universe': set<Tri>)
    requires IsGraph(a) && stack != [] && stack[|stack| - 1] == (v, p)
    requires WalkShape(a, i, first, before, colors, stack, universe, cover, keys)
    requires WalkGraph(a, first, colors, stack, universe)
    requires universe' == universe + Around(a, colors[v := Label(|a|, p, v)], p, v, Row(a, v))
    ensures var colors' := colors[v := Label(|a|, p, v)];
            WalkGraph(a, false, colors', stack[..|stack| - 1] + Pushes(Row(a, v), colors', v), universe')
  {
    VisitKeepsEdges(a, i, first, before, colors, stack, v, p, universe, cover, keys, universe');
    VisitKeepsPending(a, i, first, before, colors, stack, v, p, universe, cover, keys, universe');
  }

  /** The `while stack` loop started from the unlabelled vertex `i`: the walk labels `i` and
      everything reachable from it, recording and filing triangles on the way. */
  method WalkFrom(a: Matrix, i: nat, colors: map<nat, nat>, universe: set<Tri>,
                  cover: map<nat, set<Tri>>, keys: seq<nat>)
    returns (r: Result<(map<nat, nat>, set<Tri>, map<nat, set<Tri>>, seq<nat>), Exception>)
    requires Square(a) && i < |a| && i !in colors
    requires forall x | x in colors :: x < |a| && colors[x] % |a| == x
    requires cover == CoverIndex(universe) && KeyOrder(keys, cover)
    requires forall t | t in universe :: t.0 < t.1 < t.2 < |a|
    requires IsGraph(a) ==> forall t | t in universe :: UpperTriangle(a, t)
    requires IsGraph(a) ==> ClosedUpTo(a, colors.Keys, [])
    requires IsGraph(a) ==> Pending(a, colors.Keys, [], universe)
    ensures r.Failure? ==> r.error == StopIteration && !IsGraph(a)
    ensures r.Success? ==> var (colors', universe', cover', keys') := r.value;
      && (forall x | x in colors' :: x < |a| && colors'[x] % |a| == x)
      && colors.Keys + {i} <= colors'.Keys
      && cover' == CoverIndex(universe') && KeyOrder(keys', cover')
      && (forall t | t in universe' :: t.0 < t.1 < t.2 < |a|)
      && (IsGraph(a) ==> forall t | t in universe' :: UpperTriangle(a, t))
      && (IsGraph(a) ==> ClosedUpTo(a, colors'.Keys, []))
      && (IsGraph(a) ==> Pending(a, colors'.Keys, [], universe'))
  {
    var n := |a|;
    var colors, universe, cover, keys := colors, universe, cover, keys;
    var stack := [(i, i)];
    ghost var first := true;
    ghost var before := colors.Keys;
    if IsGraph(a) {
      PendingEmptyStack(a, colors.Keys, stack, universe);
    }
    while stack != []
      invariant WalkInvariant(a, i, first, before, colors, stack, universe, cover, keys)
      decreases Uncoloured(n, colors.Keys), CountColoured(stack, colors.Keys)
    {
      var entry := stack[|stack| - 1];
      var currentNode, parent := entry.0, entry.1;
      var currentColor := Label(n, parent, currentNode);
      LabelDecodes(n, parent, currentNode);
      var colors' := colors[currentNode := currentColor];
      var neighbors := Row(a, currentNode);
      if IsGraph(a) {
        ScanSucceedsOnGraph(a, colors', colors.Keys, parent, currentNode, neighbors);
      }
      var scanned := ScanNeighbors(a, colors', currentColor, neighbors, universe, cover, keys);
      if scanned.Failure? {
        return Failure(scanned.error);
      }
      VisitKeepsShape(a, i, first, before, colors, stack, currentNode, parent, universe, cover, keys,
                      scanned.value.0, scanned.value.1, scanned.value.2);
      if IsGraph(a) {
        VisitKeepsGraph(a, i, first, before, colors, stack, currentNode, parent, universe, cover, keys,
                        scanned.value.0);
      }
      PopDecreases(n, colors, stack, currentNode, parent, Pushes(neighbors, colors', currentNode), currentColor);
      stack := stack[..|stack| - 1];
      colors := colors';
      universe, cover, keys := scanned.value.0, scanned.value.1, scanned.value.2;
      stack := stack + Pushes(neighbors, colors, currentNode);
      first := false;
    }
    r := Success((colors, universe, cover, keys));
  }

  /** The collector loop of `is_independent_edge_triangle_cover_free`. On a non-square matrix
      it raises ValueError. On a simple graph it never fails and its universe is exactly the
      set of triangles of the graph; in every case the cover is the index of the universe by
      smallest and largest vertex. On other square matrices it may stop with StopIteration. */
  method CollectTriangles(a: Matrix) returns (r: Result<(set<Tri>, map<nat, set<Tri>>, seq<nat>), Exception>)
    ensures !Square(a) ==> r == Failure(ValueError(CollectorNotSquareMessage))
    ensures Square(a) && r.Failure? ==> r.error == StopIteration && !IsGraph(a)
    ensures IsGraph(a) ==> r.Success? && r.value.0 == UpperTriangles(a)
    ensures r.Success? ==> forall t | t in r.value.0 :: t.0 < t.1 < t.2 < |a|
    ensures r.Success? ==> r.value.1 == CoverIndex(r.value.0) && KeyOrder(r.value.2, r.value.1)
  {
    if !Square(a) {
      return Failure(ValueError(CollectorNotSquareMessage));
    }
    var n := |a|;
    var colors: map<nat, nat> := map[];
    var universe: set<Tri> := {};
    var cover: map<nat, set<Tri>> := map[];
    var keys: seq<nat> := [];
    for i := 0 to n
      invariant forall x | x in colors :: x < n && colors[x] % n == x
      invariant forall j | 0 <= j < i :: j in colors
      invariant cover == CoverIndex(universe) && KeyOrder(keys, cover)
      invariant forall t | t in universe :: t.0 < t.1 < t.2 < n
      invariant IsGraph(a) ==> forall t | t in universe :: UpperTriangle(a, t)
      invariant IsGraph(a) ==> ClosedUpTo(a, colors.Keys, [])
      invariant IsGraph(a) ==> Pending(a, colors.Keys, [], universe)
    {
      if i !in colors {
        var walked := WalkFrom(a, i, colors, universe, cover, keys);
        if walked.Failure? {
          return Failure(walked.error);
        }
        colors, universe, cover, keys := walked.value.0, walked.value.1, walked.value.2, walked.value.3;
      }
    }
    if IsGraph(a) {
      PendingDone(a, colors.Keys, universe);
      UpperTrianglesMembers(a);
    }
    return Success((universe, cover, keys));
  }
}
