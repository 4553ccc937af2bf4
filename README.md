# Triangle tests and independent edge triangle covers, in Dafny

This project models the computational core of the `aegypti` and `finlay` packages. It covers:

- `aegypti/algorithm.py`: the triangle test by depth colouring of a sparse adjacency matrix, and its two result formatters.
- `finlay/algorithm.py`: the triangle test by a recursive depth-first search over an adjacency dictionary, the conversion from a 0/1 matrix to that dictionary, and its formatter.
- `aegypti/cover.py`: the decision "the graph has no independent edge triangle cover". It has these stages:
  - a stack walk collects every triangle and a dictionary filing each triangle under its smallest and largest vertex;
  - `fill_graph` builds the conflict graph, one two-node gadget per pair of intersecting subsets;
  - `coloring` splits every component of that graph into its two colour classes;
  - `subset_sum` is a dynamic-programming table over the class sizes;
  - `solve` chains them;
  - the exponential brute force over combinations of edges is modelled as well.
- `aegypti/utils.py`: the triangle generator from edge pairs (a sorted merge of two rows) and the brute-force triangle lister, the iterative DFS, `create_sets_from_dict`, `evaluate` and the two string formatters.
- `aegypti/parser.py`: the DIMACS reader and writer.

How the model is represented:

- **Matrices.** A matrix is a `seq<seq<bool>>`. "Square" means every row has as many entries as there are rows.
- **Row neighbours.** `Graphs.Row` is the ascending list of column indices of a row. It is what `getrow(u).nonzero()[1]` and `.indices` give on a canonical sparse matrix.
- **Adjacency dictionaries** are `map<nat, set<nat>>`.
- **Python's dynamic values.** Values the formatters receive (`None`, booleans, integers, tuples of strings or integers) form the `PyValues.PyValue` datatype. It comes with Python's truthiness, `==` against `True`/`False` and `str()`.
- **Exceptions** are a `Result` whose failure carries the exception kind and message.
- **Loops** are `while`/`for` loops in methods, with the invariants that make their postconditions hold. Each loop is proved against a specification function or predicate, and the properties the source promises are lemmas about those.
- **File contents.** The reader and writer work on the lines of a file.

## Model

| member | source | states |
|---|---|---|
| Graphs.Row | aegypti/algorithm.py:39-40 | the neighbours of a row are listed in strictly increasing order, and exactly the columns whose entry is set are listed |
| Graphs.Canonical | aegypti/cover.py:49-53 | the minimum, the remaining middle value and the maximum of three distinct vertices are ordered strictly and are the same three vertices |
| Graphs.SetOrder | aegypti/cover.py:125 | iterating a set visits each of its elements exactly once, in some order |
| Graphs.OddTriangleNotBipartite | aegypti/cover.py:157 | a graph with three mutually joined nodes has no proper two-colouring |
| Graphs.Reverse | aegypti/utils.py:231-232 | the reversed copy has the element at mirrored positions and the same members |
| Strings.StripTrims | aegypti/parser.py:26 | `strip` returns a contiguous middle part of the line and only white space lies outside it, white space being every character `str.isspace` accepts, the non-ASCII spaces included |
| Strings.SplitPiecesClean | aegypti/parser.py:28 | no piece of `split(' ')` holds a space |
| Strings.SplitJoin | aegypti/parser.py:28 | joining the pieces of `split(' ')` with a space gives the text back |
| Strings.ParseIntOfNatToString | aegypti/parser.py:28 | `int(str(n)) == n` for every natural number: the decimal text written by the writer reads back to the same number |
| Strings.NatToStringInjective | aegypti/utils.py:128 | distinct numbers have distinct decimal texts, so string triples identify their vertices |
| AegyptiUtils.Evaluate | aegypti/utils.py:263-279 | the result is the table cell `(i, j)` when `0 <= i <= p` and `0 <= j <= k`, and `False` for any index outside those bounds |
| AegyptiUtils.CreateSetsFromDict | aegypti/utils.py:237-261 | raises ValueError exactly when some value is neither 0 nor 1; otherwise the first set is the keys mapped to 1, the second the keys mapped to 0, and the two sets are disjoint and together hold every key |
| AegyptiUtils.IterativeDfs | aegypti/utils.py:200-235 | empty when `start` is not a node; otherwise the order begins with `start`, repeats no node, and lists exactly the nodes reachable from `start` |
| AegyptiUtils.ListReachableStep | aegypti/utils.py:231-233 | a neighbour of a reachable node is reachable |
| AegyptiUtils.GenerateTrianglesFromEdges | aegypti/utils.py:91-137 | in the order of the source's checks: TypeError when some element is not a pair, ValueError when the matrix is not square, ValueError when an index is out of range; otherwise the sorted merge of the two rows yields, for each pair, the string triple of the pair's ends and every common neighbour distinct from both |
| AegyptiUtils.GeneratedTriplesAreCanonical | aegypti/utils.py:121-130 | every generated triple is `(str(min), str(mid), str(max))` of three distinct vertices: the ends of a given pair and a vertex adjacent to both |
| AegyptiUtils.SelfPairYieldsNothing | aegypti/utils.py:124-127 | a pair `(u, u)` contributes nothing, since the middle vertex is then missing |
| AegyptiUtils.UpperTrianglesMembers | aegypti/utils.py:160-165 | the triangles of the lister are exactly the triples `i < j < k` whose three entries are set |
| AegyptiUtils.FindTriangleCoordinatesBruteForce | aegypti/utils.py:139-166 | ValueError on a non-square matrix; otherwise exactly the string triples `(str(i), str(j), str(k))`, `i < j < k`, with `(i, j)`, `(i, k)` and `(j, k)` set |
| AegyptiUtils.CommonTriplesAreTriangles | aegypti/utils.py:91-166 | on a symmetric loop-free matrix, with every given pair an edge, every generated triple is one the brute-force lister reports |
| AegyptiUtils.GeneratorMatchesBruteForce | aegypti/utils.py:91-166 | when the pairs are edges and name every edge, the generator and the brute-force lister return the same set |
| AegyptiUtils.StringSimpleFormat | aegypti/utils.py:168-179 | the message starts with "Triangle" or "Independent Edge Triangle Cover" as `covering` says, and ends in " Free" exactly when `found` is truthy, " Found" otherwise |
| AegyptiUtils.SimpleFormatDistinguishes | aegypti/utils.py:168-179 | equal messages come from the same truthiness and the same `covering` flag |
| AegyptiUtils.StringComplexFormat | aegypti/utils.py:181-198 | "Triangle Free" exactly for a falsy value; a truthy integer gives the cover-size message with `str(value)`, any other truthy value "Triangle Found " and `str(value)` |
| AegyptiUtils.ComplexFormatSizeInjective | aegypti/utils.py:193-195 | two non-zero cover sizes with the same message are equal |
| StackMeasure.PopDecreases | aegypti/algorithm.py:36-45 | one pop-and-push turn lowers the pair (uncoloured vertices, stacked entries of coloured vertices), so the stack walks end |
| CoverCollector.LabelDecodes | aegypti/cover.py:42-49 | the label `n * parent + node` gives back `parent` by `// n` and `node` by `% n` |
| CoverCollector.CoverIndexShape | aegypti/cover.py:53-56 | every triangle is filed under exactly its smallest and its largest vertex, never its middle one; every subset is a non-empty part of the universe |
| CoverCollector.FileTriangle | aegypti/cover.py:55-56 | the two `setdefault(...).add` calls turn the index of a universe into the index of the universe with the new triangle, and keep the key insertion order |
| CoverCollector.RecordTriangle | aegypti/cover.py:50-56 | the universe gains the triangle and the dictionary stays the index of the universe |
| CoverCollector.ScanNeighbors | aegypti/cover.py:46-56 | raises StopIteration exactly when a closing neighbour repeats a vertex of the triple; otherwise adds exactly the triangles the neighbour loop closes and keeps the dictionary the index of the universe |
| CoverCollector.AroundSound | aegypti/cover.py:46-53 | on a symmetric loop-free matrix every triangle the loop records is a real triangle, in increasing order |
| CoverCollector.AroundComplete | aegypti/cover.py:46-53 | every coloured common neighbour of the popped vertex and its parent yields its triangle |
| CoverCollector.ScanSucceedsOnGraph | aegypti/cover.py:52 | on a symmetric loop-free matrix the middle vertex always exists, so `next` never raises |
| CoverCollector.PopKeepsPending | aegypti/cover.py:40-58 | after a pop every triangle that has a coloured vertex is recorded or still has a vertex waiting on the stack |
| CoverCollector.PendingDone | aegypti/cover.py:36-58 | once every vertex is coloured, every triangle is recorded |
| CoverCollector.WalkFrom | aegypti/cover.py:37-58 | one root's walk labels the root and keeps the label decoding, the index and, on a graph, the soundness and pending invariants; StopIteration only on a matrix that is not a simple graph |
| CoverCollector.CollectTriangles | aegypti/cover.py:24-58 | ValueError on a non-square matrix; on a symmetric loop-free matrix the walk succeeds and the universe is exactly the set of triangles, with the dictionary its index in key insertion order |
| ConflictGraph.RowPairsMembers | aegypti/cover.py:128-129 | the inner loop gives a gadget to exactly the later keys with a larger key and an intersecting subset, each once |
| ConflictGraph.ConflictPairsMembers | aegypti/cover.py:127-129 | the gadget pairs are exactly the key pairs `key1 < key2` whose subsets intersect, each once |
| ConflictGraph.Positions | aegypti/cover.py:125 | `map_element` numbers each element by its position, and has no other keys |
| ConflictGraph.ConflictEdgesSymmetric | aegypti/cover.py:130-134 | every edge of the conflict graph is present in both directions |
| ConflictGraph.ConflictEdgesEnds | aegypti/cover.py:130-135 | every edge touches a gadget node, so no two elements are joined directly |
| ConflictGraph.ConflictEdgesLink | aegypti/cover.py:130-135 | element `x` is joined to the `m`-th gadget's first node exactly when it is in the first subset, to its second node exactly when it is in the second, and the two gadget nodes are joined |
| ConflictGraph.AddGadget | aegypti/cover.py:130-134 | the gadget adds exactly the stars of its two nodes over the two subsets and the edge between them |
| ConflictGraph.FillGraph | aegypti/cover.py:112-137 | the elements are numbered without repeats; the graph's edges are exactly the gadgets of the intersecting key pairs; `k` is the number of elements plus the number of gadgets |
| Bipartition.ClashNotBipartite | aegypti/cover.py:157 | two neighbours coloured alike from one root rule out every proper two-colouring |
| Bipartition.ColourComponent | aegypti/cover.py:157-165 | the stack-based colouring walk from a root, which takes the next node from the end of its list, either shows the graph is not bipartite or colours the root's component properly, keeping earlier colours |
| Bipartition.Color | aegypti/cover.py:157-165 | `None` only on a graph that is not bipartite; otherwise a 0/1 colour for every node with neighbours coloured differently |
| Bipartition.ColourMapBipartite | aegypti/cover.py:157 | a proper 0/1 colour map makes the graph bipartite |
| Bipartition.IsBipartite | aegypti/cover.py:157 | the answer is true exactly when the graph has a proper two-colouring |
| Bipartition.PlainBfs | aegypti/cover.py:160 | the nodes reached from a root are exactly its connected component |
| Bipartition.InducedFacts | aegypti/cover.py:164 | the induced subgraph is undirected, and bipartite when the graph is |
| Bipartition.ColourEntry | aegypti/cover.py:164-167 | a component's entry holds the component's nodes split into two disjoint independent classes |
| Bipartition.AddComponent | aegypti/cover.py:163-167 | one more component entry keeps the entries the splits of pairwise disjoint components covering every node seen |
| Bipartition.Coloring | aegypti/cover.py:139-169 | `None` exactly when the graph is not bipartite; otherwise the list starts with the empty pair and each later entry is a component split into two independent classes, pairwise disjoint, together covering every node |
| SubsetSum.ReachChoice | aegypti/cover.py:191-194 | a table cell `(i, j)` is true exactly when choosing one class from each of the entries `1..i` can make the sizes sum to `j` |
| SubsetSum.SwapClasses | aegypti/cover.py:193-194 | swapping the two classes of an entry changes no cell |
| SubsetSum.SwapEntries | aegypti/cover.py:191-194 | exchanging two adjacent entries changes no cell from that row on, so the component order does not matter |
| SubsetSum.FirstRow | aegypti/cover.py:184-189 | the initialised table is correct on row 0: only `(0, 0)` is true |
| SubsetSum.FillTableRow | aegypti/cover.py:192-194 | filling a row keeps every earlier row and makes row `i` agree with the reachability specification |
| SubsetSum.SubsetSumTable | aegypti/cover.py:171-196 | the answer is the reachability of `k` with all `p` entries |
| Cover.ChosenIndependent | aegypti/cover.py:210-217 | the classes picked by a choice form an independent set of the conflict graph |
| Cover.ChosenSize | aegypti/cover.py:210-217 | the picked classes have as many nodes as the chosen class sizes add up to |
| Cover.TrueCellIndependentSet | aegypti/cover.py:216-217 | when cell `(p, k)` is true, the conflict graph has an independent set of size `k` |
| Cover.Decide | aegypti/cover.py:211-217 | `True` when the graph is not bipartite; otherwise the negated table cell; `False` only when an independent set of size `k` exists |
| Cover.Solve | aegypti/cover.py:198-217 | builds the conflict graph of `fill_graph`, then answers as `Cover.Decide` does |
| Cover.CoverIndexEmpty | aegypti/cover.py:60 | the dictionary is empty exactly when no triangle was collected |
| Cover.TriangleGadgetPair | aegypti/cover.py:53-56 | a collected triangle is filed under its smallest and its largest vertex, so those two keys form a gadget pair |
| Cover.GadgetOddCycle | aegypti/cover.py:130-135 | an element lying in both subsets of a gadget closes an odd cycle with the gadget's two nodes, so the conflict graph is not bipartite |
| Cover.ConflictGraphNotBipartite | aegypti/cover.py:198-214 | the conflict graph of a non-empty collection is never bipartite, so `coloring` returns `None` and `solve` returns `True` |
| Cover.IsIndependentEdgeTriangleCoverFree | aegypti/cover.py:11-60 | ValueError on a non-square matrix; on a simple graph the answer is always `True`, with or without triangles; whenever the function returns, it returns `True` |
| Cover.K3Covered | aegypti/cover.py:62-110 | the single edge `(0, 1)` is an independent edge triangle cover of the triangle graph K3 |
| Cover.TriangleDisagreement | aegypti/cover.py:60 | on K3 the polynomial entry point answers `True` while the brute force answers `False` |
| Cover.CoverFreeBySearch | aegypti/cover.py:11-23 | the answer the docstring promises: ValueError on a non-square matrix, `True` on a simple graph without triangles, and otherwise `True` exactly when no independent edge triangle cover exists |
| CoverBruteForce.TriangleList | aegypti/cover.py:73-81 | the triangle list holds each triangle `i < j < k` of the matrix exactly once |
| CoverBruteForce.EdgeList | aegypti/cover.py:86-90 | the edge list holds each edge `i < j` of the matrix exactly once |
| CoverBruteForce.ScanTriangle | aegypti/cover.py:98-104 | a triangle passes exactly when at most one candidate edge lies on it, and it is then marked covered when one does |
| CoverBruteForce.CheckCandidate | aegypti/cover.py:95-107 | a candidate is accepted exactly when every triangle has exactly one of its edges on it |
| CoverBruteForce.CoveredCount | aegypti/cover.py:107 | the count of covered triangles equals the number of triangles exactly when every triangle is hit |
| CoverBruteForce.SomeCombination | aegypti/cover.py:94 | the enumeration of `combinations(edges, i)` finds an accepted candidate exactly when one of that size exists among the remaining edges |
| CoverBruteForce.CompletableCover | aegypti/cover.py:93-108 | searching all combinations of a size succeeds exactly when some set of that many edges hits every triangle exactly once |
| CoverBruteForce.BruteForce | aegypti/cover.py:62-110 | `0` when there is no triangle; otherwise `False` exactly when between 1 and min(#edges, #triangles) edges hit every triangle exactly once |
| AegyptiAlgorithm.Common | aegypti/algorithm.py:49-51 | the candidates for the third vertex are exactly the neighbours of either vertex, the two vertices excepted |
| AegyptiAlgorithm.Clash | aegypti/algorithm.py:47-53 | the reported triple is an edge and a third vertex next to one of its ends; StopIteration only when the edge has no other neighbour |
| AegyptiAlgorithm.ScanNeighbours | aegypti/algorithm.py:41-53 | the scan runs through exactly when no coloured neighbour shares the colour, pushing the uncoloured neighbours in row order with the next colour |
| AegyptiAlgorithm.VisitKeepsProper | aegypti/algorithm.py:37-45 | colouring after a clear scan keeps colours positive, self-loops out and, on a symmetric matrix, neighbours differently coloured |
| AegyptiAlgorithm.Walk | aegypti/algorithm.py:32-45 | one root's walk either stops with a sound answer or colours the root and keeps the colouring proper |
| AegyptiAlgorithm.IsTriangleFree | aegypti/algorithm.py:8-55 | ValueError on a non-square matrix; a triple is an edge with a third vertex next to one end; StopIteration only on a lone edge; `None` only with every vertex coloured, no self-loop and, on a symmetric matrix, no two neighbours alike |
| AegyptiAlgorithm.StringSimpleFormat | aegypti/algorithm.py:86-96 | "Triangle Free" exactly for a truthy argument, "Triangle Found" exactly for a falsy one |
| AegyptiAlgorithm.StringResultFormat | aegypti/algorithm.py:99-109 | "Triangle Free" exactly for `None`; otherwise the text begins with "Triangle Found " |
| FinlayAlgorithm.CreateGraph | finlay/algorithm.py:67-85 | the dictionary has the keys `0..n-1` in order and maps each row to exactly the columns holding 1 |
| FinlayAlgorithm.FinishedExtends | finlay/algorithm.py:45-56 | a finished vertex stays finished when more vertices are coloured |
| FinlayAlgorithm.ForestExtends | finlay/algorithm.py:45-49 | a vertex discovered from a coloured parent stays so when more vertices are coloured |
| FinlayAlgorithm.Dfs | finlay/algorithm.py:37-56 | the search colours the node, keeps earlier colours and the search forest; a triple is three distinct vertices, the second next to the first and the third next to both; StopIteration only when an edge has no common neighbour; `None` leaves every newly coloured vertex finished |
| FinlayAlgorithm.Root | finlay/algorithm.py:59-63 | one root's search keeps every coloured vertex finished when it answers `None` |
| FinlayAlgorithm.TriangleFree | finlay/algorithm.py:24-65 | a triple is two vertices two colour levels apart, the second a neighbour of the first, and a third vertex next to both; `None` only with every vertex coloured as a search forest in which every vertex is finished |
| FinlayAlgorithm.IsTriangleFree | finlay/algorithm.py:6-22 | on a square 0/1 matrix a triple is three distinct vertices pairwise joined by 1 entries; the only failure is StopIteration |
| FinlayAlgorithm.NoneMissesTriangle | finlay/algorithm.py:37-65 | on the graph with edges 0-1, 1-2, 2-3, 3-0, 3-4, 4-0, coloured 1 to 5 along the path 0-4, every condition of a `None` answer holds, yet 0, 3 and 4 form a triangle |
| FinlayAlgorithm.StringFormat | finlay/algorithm.py:87-97 | "Triangle Free" exactly for `None` or a value equal to `True`, "Triangle Found" exactly for a value equal to `False`, otherwise "Triangle Found " and `str(value)` |
| Parser.ToInt64 | aegypti/parser.py:28 | `np.int64(token)` succeeds exactly when the token reads as an integer within the signed 64-bit range, and gives that integer |
| Parser.ConvertTokensMeaning | aegypti/parser.py:28 | the converted line holds the values of the tokens other than `e`, in order; a failure is the error of the first token that does not convert |
| Parser.ReadLine | aegypti/parser.py:26-30 | a line starting with `c` or `p` after stripping is never an error |
| Parser.Dimension | aegypti/parser.py:23-37 | the dimension exceeds every zero-based endpoint, is reached by one of them, and is 0 without edges |
| Parser.Assemble | aegypti/parser.py:40-46 | the matrix is square of the dimension, symmetric with a zero diagonal, and has `i`-`j` set exactly when `i != j` and some kept edge joins them |
| Parser.VisitedJoined | aegypti/parser.py:31-38 | an edge is in `visited` in either orientation exactly when a kept edge joins its ends |
| Parser.KeepEdge | aegypti/parser.py:31-38 | an edge not yet visited is appended and extends `visited` and the dimension; an edge already visited changes nothing |
| Parser.ReadInto | aegypti/parser.py:26-38 | one turn of the line loop raises the line's error or keeps the entries as the specification does, and keeps `dimension` and `visited` in step |
| Parser.CreateSparseMatrixFromFile | aegypti/parser.py:8-48 | the reader computes the specified parse of the lines |
| Parser.AcceptNoRepeat | aegypti/parser.py:31-32 | no edge is kept twice, in either orientation |
| Parser.AcceptFailureStays | aegypti/parser.py:29-30 | once a line has raised, later lines do not change the outcome |
| Parser.AcceptNoBad | aegypti/parser.py:25-38 | without a malformed line the reader does not raise |
| Parser.AcceptFirstBad | aegypti/parser.py:29-30 | the reader raises the error of the first malformed line |
| Parser.AcceptJoined | aegypti/parser.py:31-38 | skipping repeated edges loses no pair of joined vertices |
| Parser.ParseFailure | aegypti/parser.py:25-30 | the reader fails exactly when some line is malformed, and then with the error of the first such line |
| Parser.ParseEdges | aegypti/parser.py:25-46 | a parsed matrix is a simple graph whose edges are exactly the edge lines, in either orientation and one-based, self-loops dropped |
| Parser.SaveSparseMatrixToFile | aegypti/parser.py:50-63 | the writer emits the `p edge` header with the size and the entry count, then one `e` line per non-zero entry, one-based, in the given order |
| Parser.ReadEdgeLine | aegypti/parser.py:28-30 | a written edge line reads back as the one-based edge it was written for |
| Parser.SavedGraphReadsBack | aegypti/parser.py:8-63 | writing a simple graph whose last vertex has an edge and reading the lines back gives the same matrix |
| Parser.IsolatedVertexDropped | aegypti/parser.py:27-37 | the round trip loses a trailing isolated vertex: the one-vertex graph without edges reads back as the empty matrix, because the reader ignores the `p` line's size |

## Left out

- Type checks (`sparse.issparse`, `isspmatrix`, `nx.is_directed`): the model's inputs are typed, so the TypeError branches and the "graph must be undirected" ValueError cannot occur. `AegyptiUtils.GenerateTrianglesFromEdges` models a 2-tuple as a two-element list; a list and a tuple are not told apart.
- Sparse matrix details: a `0 x c` matrix with `c > 0` cannot be represented. Explicit zeros are not modelled, so `nnz` is the number of set entries.
- scipy's `nonzero()` row/column order is a parameter of `Parser.SaveSparseMatrixToFile`. `Parser.SavedGraphReadsBack` holds for every order.
- The reader's three lists: the row and column lists are kept as one list of pairs, and the list of ones is left out.
- `make_symmetric` is modelled only inside `Parser.Assemble` (its result on the reader's entries); the function itself and `generate_short_hash`/`random_matrix_tests` are not part of this model.
- File I/O: `read(filepath)`, opening and writing files, and the command-line `app.py` modules are not part of this model. The reader and writer work on lines.
- Python's set iteration order is modelled as an arbitrary choice (`:|`). Dictionary insertion order is modelled where it matters: the cover's key order and the node order of `create_graph`.
- Parser.ToInt64: `int()`'s acceptance of underscores and non-ASCII digits is not modelled. The OverflowError text assumes 64-bit CPython with NumPy.
- `PyValues.Str` quotes strings with single quotes and no escaping, unlike `repr` for strings that contain quotes or backslashes.
- `is_triangle_free_brute_force` (the matrix-cube test of `aegypti/algorithm.py`) uses floating-point matrix powers and is not modelled.
- networkx (`nx.Graph`, `is_bipartite`, `connected_components`, `induced_subgraph`, `bipartite.color`) is replaced by searches written over adjacency maps: a stack-based walk for `bipartite.color`, which pops its next node from the end of its list, and a breadth-first search for `connected_components`. They state the same results, but `bipartite.color`'s exact colour choice per component is not claimed.
- AegyptiAlgorithm.IsTriangleFree: does not prove that a `None` answer means the graph is triangle-free. The depth colouring does not imply it in general. The contract states what the colouring guarantees instead.
- AegyptiAlgorithm.IsTriangleFree: StopIteration on a symmetric loop-free matrix is only bounded by `LoneEdge`. It is not proved impossible.
- FinlayAlgorithm.IsTriangleFree: does not prove that `None` means triangle-free, because that is false: `FinlayAlgorithm.NoneMissesTriangle` shows a graph with a triangle and a colouring that meets every condition of a `None` answer. That colouring is the one a search from 0 produces when it takes neighbours in ascending order. The model leaves the set iteration order open, so it does not claim that the source returns `None` there.
- FinlayAlgorithm.IsTriangleFree: requires a square matrix, so two cases are not modelled. With fewer columns than rows, the source runs without error, because every column index is then a vertex. With more columns than rows, it can raise KeyError on a column that is not a vertex.
- FinlayAlgorithm.Dfs: recursion depth (Python's recursion limit) is not modelled.
- Cover.Solve: states one direction of the reduction. `False` implies an independent set of size `k` in the conflict graph. The converse, and the link from that set to an independent edge triangle cover of the input graph, are not proved.
- Cover.IsIndependentEdgeTriangleCoverFree: when the collector raises StopIteration on a matrix that is not a simple graph, the error is passed on; which such matrices raise it is not characterised.
- AegyptiUtils.IterativeDfs: the visiting order is not stated. The contract says the order starts at `start`, repeats no node and lists exactly the reachable nodes. A breadth-first order meets that too. The source's depth-first order, which explores the left-most neighbour first, is not stated or proved.
- AegyptiUtils.IterativeDfs: requires every neighbour to be a key of the dictionary. When a neighbour that is not a key is popped, the source's `graph[node]` raises KeyError; that outcome is not modelled.
- CoverBruteForce.BruteForce: requires a square matrix. The source takes `n` from the row count only. With more columns than rows it searches the leading `n x n` block; with fewer it raises IndexError at the first missing column. Neither case is modelled.
- CoverBruteForce.BruteForce: returns the integer `0`, as the source does, when there are no triangles. That value is falsy, unlike the `True` of the polynomial version.

## Findings

| source | as written | input that shows it | evidently intended | confidence | as-written member | corrected member |
|---|---|---|---|---|---|---|
| aegypti/cover.py:60 | every triangle is filed under its smallest and its largest vertex, so the conflict graph always holds an odd cycle, `coloring` returns `None` and `solve` returns `True`; the function answers `True` on every simple graph | the triangle K3 (`[[0,1,1],[1,0,1],[1,1,0]]`): the edge `(0, 1)` lies exactly once on its only triangle, so the brute force returns `False`, while the polynomial function returns `True` | `True` exactly when no independent edge triangle cover exists, as the docstring says and the brute force computes | high (derived by proof, not executed) | Cover.TriangleDisagreement | Cover.CoverFreeBySearch |
