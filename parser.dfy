/** aegypti/parser.py: the DIMACS edge-list reader and the lines the writer produces. A line
    that starts (after stripping) with `c` or `p` is skipped; any other line must hold exactly
    two positive integers besides `e` tokens. Each unordered edge is kept once, the dimension
    is the largest endpoint, and the matrix is made symmetric with an empty diagonal. */
module Parser {
  import opened Wrappers
  import opened Strings
  import opened PyValues
  import opened Graphs

  const Int64Min: int := -0x8000_0000_0000_0000
  const Int64Max: int := 0x7FFF_FFFF_FFFF_FFFF
  const LiteralPrefix := "invalid literal for int() with base 10: "
  const TooLargeMessage := "Python int too large to convert to C long"
  const FormatPrefix := "The input file is not in the correct DIMACS format at line "

  /** The ValueError raised for the line with index `i`. */
  function FormatError(i: nat): Exception {
    ValueError(FormatPrefix + NatToString(i))
  }

  function Min(x: int, y: int): int {
    if x <= y then x else y
  }

  function Max3(x: int, y: int, z: int): int {
    if x >= y && x >= z then x else if y >= z then y else z
  }

  // ---------------------------------------------------------------------------------------
  // One line

  /** `np.int64(token)`: ValueError for text `int` does not accept, OverflowError outside the
      64-bit range. */
  function ToInt64(token: string): (r: Result<int, Exception>)
    ensures r.Success? <==> ParseInt(token).Some? && Int64Min <= ParseInt(token).value <= Int64Max
    ensures r.Success? ==> r.value == ParseInt(token).value
  {
    match ParseInt(token)
    case None => Failure(ValueError(LiteralPrefix + Quote(token)))
    case Some(v) => if Int64Min <= v <= Int64Max then Success(v) else Failure(OverflowError(TooLargeMessage))
  }

  /** The tokens other than `e`, in order. */
  function Kept(tokens: seq<string>): seq<string> {
    if tokens == [] then [] else (if tokens[0] == "e" then [] else [tokens[0]]) + Kept(tokens[1..])
  }

  /** Each token converts to the value at the same place. */
  predicate ConvertsTo(tokens: seq<string>, values: seq<int>) {
    |tokens| == |values| && (tokens == [] || (ToInt64(tokens[0]) == Success(values[0]) && ConvertsTo(tokens[1..], values[1..])))
  }

  /** The tokens before the first that fails to convert convert, and that one raises `e`. */
  predicate FailsWith(tokens: seq<string>, e: Exception) {
    tokens != [] && (ToInt64(tokens[0]) == Failure(e) || (ToInt64(tokens[0]).Success? && FailsWith(tokens[1..], e)))
  }

  /** `[np.int64(node) for node in tokens if node != 'e']`: the values of the kept tokens,
      or the exception of the first one that does not convert. */
  function ConvertTokens(tokens: seq<string>): Result<seq<int>, Exception> {
    if tokens == [] then Success([])
    else if tokens[0] == "e" then ConvertTokens(tokens[1..])
    else
      match ToInt64(tokens[0])
      case Failure(e) => Failure(e)
      case Success(v) =>
        match ConvertTokens(tokens[1..])
        case Failure(e) => Failure(e)
        case Success(vs) => Success([v] + vs)
  }

  /** The conversion skips the `e` tokens, converts every other token in order, and raises
      the exception of the first one that does not convert. */
  lemma {:induction false} ConvertTokensMeaning(tokens: seq<string>)
    ensures ConvertTokens(tokens).Success? ==> ConvertsTo(Kept(tokens), ConvertTokens(tokens).value)
    ensures ConvertTokens(tokens).Failure? ==> FailsWith(Kept(tokens), ConvertTokens(tokens).error)
  {
    if tokens != [] {
      ConvertTokensMeaning(tokens[1..]);
      if tokens[0] == "e" {
        assert Kept(tokens) == Kept(tokens[1..]);
      } else {
        assert Kept(tokens) == [tokens[0]] + Kept(tokens[1..]);
        var r := ConvertTokens(tokens);
        if r.Success? {
          assert r.value[1..] == ConvertTokens(tokens[1..]).value;
        }
      }
    }
  }

  /** What one line amounts to: nothing, an edge `(a, b)` with the endpoints as written, or
      the exception it raises. */
  type Positive = x: nat | x >= 1 witness 1

  datatype LineKind = Skip | Edge(a: Positive, b: Positive) | Bad(error: Exception)

  /** The loop body for the line with index `i`. */
  function ReadLine(line: string, i: nat): (k: LineKind)
    ensures k.Bad? ==> !StartsWith(Strip(line), 'c') && !StartsWith(Strip(line), 'p')
  {
    var s := Strip(line);
    if StartsWith(s, 'c') || StartsWith(s, 'p') then Skip
    else
      match ConvertTokens(Split(s, ' '))
      case Failure(e) => Bad(e)
      case Success(edge) =>
        if |edge| != 2 || Min(edge[0], edge[1]) <= 0 then Bad(FormatError(i)) else Edge(edge[0], edge[1])
  }

  // ---------------------------------------------------------------------------------------
  // The whole file

  /** What each line amounts to, in file order. */
  function Kinds(lines: seq<string>): (kinds: seq<LineKind>)
    ensures |kinds| == |lines|
  {
    seq(|lines|, k requires 0 <= k < |lines| => ReadLine(lines[k], k))
  }

  /** The edge entries join `i` and `j`, in one orientation or the other. */
  predicate Joined(entries: seq<(nat, nat)>, i: nat, j: nat) {
    (i, j) in entries || (j, i) in entries
  }

  /** No edge is kept twice, in either orientation. */
  predicate NoRepeat(entries: seq<(nat, nat)>) {
    forall k, l | 0 <= k < l < |entries| :: entries[k] != entries[l] && entries[k] != (entries[l].1, entries[l].0)
  }

  /** The zero-based entries `(a - 1, b - 1)` kept from the first `n` lines, an edge being
      dropped when it was kept before in either orientation; or the first exception. */
  function Accept(kinds: seq<LineKind>, n: nat): Result<seq<(nat, nat)>, Exception>
    requires n <= |kinds|
  {
    if n == 0 then Success([])
    else
      match Accept(kinds, n - 1)
      case Failure(e) => Failure(e)
      case Success(entries) => Take(entries, kinds[n - 1])
  }

  /** One line's effect on the entries kept so far. */
  function Take(entries: seq<(nat, nat)>, kind: LineKind): Result<seq<(nat, nat)>, Exception> {
    match kind
    case Skip => Success(entries)
    case Bad(e) => Failure(e)
    case Edge(a, b) =>
      if Joined(entries, a - 1, b - 1) then Success(entries) else Success(entries + [(a - 1, b - 1)])
  }

  /** `dimension`: one more than the largest zero-based endpoint, 0 without entries. */
  function Dimension(entries: seq<(nat, nat)>): (d: nat)
    ensures forall e | e in entries :: e.0 < d && e.1 < d
    ensures entries != [] ==> exists e | e in entries :: e.0 + 1 == d || e.1 + 1 == d
    ensures entries == [] ==> d == 0
  {
    if entries == [] then 0
    else
      var last := entries[|entries| - 1];
      var d := Dimension(entries[..|entries| - 1]);
      assert forall e | e in entries :: e in entries[..|entries| - 1] || e == last;
      Max3(d, last.0 + 1, last.1 + 1)
  }

  /** `csc_matrix`, `make_symmetric` and `setdiag(0)` on the entries: a square matrix of
      side `d`, `i`-`j` set when the entries join them and `i != j`. */
  function Assemble(entries: seq<(nat, nat)>, d: nat): (m: Matrix)
    ensures |m| == d && IsGraph(m)
    ensures forall i: nat, j: nat | i < d && j < d :: m[i][j] <==> i != j && Joined(entries, i, j)
  {
    seq(d, i requires 0 <= i < d => seq(d, j requires 0 <= j < d => i != j && Joined(entries, i, j)))
  }

  /** What `create_sparse_matrix_from_file` computes from the lines of a file. */
  function Parse(lines: seq<string>): Result<Matrix, Exception> {
    match Accept(Kinds(lines), |lines|)
    case Failure(e) => Failure(e)
    case Success(entries) => Success(Assemble(entries, Dimension(entries)))
  }

  /** The dictionary `visited`: each kept edge in both orientations, one-based. */
  function Visited(entries: seq<(nat, nat)>): set<(int, int)> {
    if entries == [] then {}
    else
      var last := entries[|entries| - 1];
      Visited(entries[..|entries| - 1]) + {(last.0 + 1, last.1 + 1), (last.1 + 1, last.0 + 1)}
  }

  lemma {:induction false} VisitedJoined(entries: seq<(nat, nat)>, a: nat, b: nat)
    requires a >= 1 && b >= 1
    ensures ((a, b) in Visited(entries) || (b, a) in Visited(entries)) <==> Joined(entries, a - 1, b - 1)
  {
    if entries != [] {
      var front := entries[..|entries| - 1];
      VisitedJoined(front, a, b);
      assert forall x :: x in entries <==> x in front || x == entries[|entries| - 1];
    }
  }

  /** `create_sparse_matrix_from_file(file)` on the lines of the file, the row and column
      lists kept as one list of zero-based pairs. */
  method CreateSparseMatrixFromFile(lines: seq<string>) returns (r: Result<Matrix, Exception>)
    ensures r == Parse(lines)
  {
    ghost var kinds := Kinds(lines);
    var entries: seq<(nat, nat)> := [];
    var dimension: nat := 0;
    var visited: set<(int, int)> := {};
    for i := 0 to |lines|
      invariant Accept(kinds, i) == Success(entries)
      invariant dimension == Dimension(entries) && visited == Visited(entries)
    {
      var error;
      error, entries, dimension, visited := ReadInto(lines[i], i, entries, dimension, visited);
      if error.Some? {
        AcceptFailureStays(kinds, i + 1, |lines|);
        return Failure(error.value);
      }
    }
    return Success(Assemble(entries, dimension));
  }

  /** The body of the loop for the line with index `i`: the exception it raises, or the
      entries, dimension and `visited` once the line is read. */
  method ReadInto(line: string, i: nat, entries: seq<(nat, nat)>, dimension: nat, visited: set<(int, int)>)
      returns (error: Option<Exception>, entries': seq<(nat, nat)>, dimension': nat, visited': set<(int, int)>)
    requires dimension == Dimension(entries) && visited == Visited(entries)
    ensures match Take(entries, ReadLine(line, i))
            case Failure(e) => error == Some(e)
            case Success(kept) => error.None? && entries' == kept
    ensures dimension' == Dimension(entries') && visited' == Visited(entries')
  {
    entries', dimension', visited' := entries, dimension, visited;
    var stripped := Strip(line);
    if !StartsWith(stripped, 'c') && !StartsWith(stripped, 'p') {
      var converted := ConvertTokens(Split(stripped, ' '));
      if converted.Failure? {
        assert ReadLine(line, i) == Bad(converted.error);
        assert Take(entries, ReadLine(line, i)) == Failure(converted.error);
        return Some(converted.error), entries', dimension', visited';
      }
      var edge := converted.value;
      if |edge| != 2 || Min(edge[0], edge[1]) <= 0 {
        assert ReadLine(line, i) == Bad(FormatError(i));
        assert Take(entries, ReadLine(line, i)) == Failure(FormatError(i));
        return Some(FormatError(i)), entries', dimension', visited';
      }
      var a: nat, b: nat := edge[0], edge[1];
      assert ReadLine(line, i) == Edge(a, b);
      KeepEdge(entries, a, b);
      if (a, b) !in visited && (b, a) !in visited {
        entries' := entries + [(a - 1, b - 1)];
        dimension' := Max3(dimension, a, b);
        visited' := visited + {(a, b), (b, a)};
      }
    } else {
      assert ReadLine(line, i) == Skip;
      assert Take(entries, ReadLine(line, i)) == Success(entries);
    }
    return None, entries', dimension', visited';
  }

  /** Reading the edge `a`-`b`: it is new exactly when `visited` holds it in neither
      orientation, and keeping it adds it to `visited` both ways and widens the dimension to
      both endpoints. */
  lemma KeepEdge(entries: seq<(nat, nat)>, a: Positive, b: Positive)
    ensures ((a, b) !in Visited(entries) && (b, a) !in Visited(entries)) ==>
              && Take(entries, Edge(a, b)) == Success(entries + [(a - 1, b - 1)])
              && Visited(entries + [(a - 1, b - 1)]) == Visited(entries) + {(a, b), (b, a)}
              && Dimension(entries + [(a - 1, b - 1)]) == Max3(Dimension(entries), a, b)
    ensures ((a, b) in Visited(entries) || (b, a) in Visited(entries)) ==> Take(entries, Edge(a, b)) == Success(entries)
  {
    VisitedJoined(entries, a, b);
    TakeEdge(entries, a, b);
    VisitedAppend(entries, a, b);
    DimensionAppend(entries, a, b);
  }

  /** An edge line appends its zero-based edge unless the entries already join its ends. */
  lemma TakeEdge(entries: seq<(nat, nat)>, a: Positive, b: Positive)
    ensures Take(entries, Edge(a, b))
         == if Joined(entries, a - 1, b - 1) then Success(entries) else Success(entries + [(a - 1, b - 1)])
  {
  }

  /** Keeping one more edge adds it to `visited` in both orientations. */
  lemma VisitedAppend(entries: seq<(nat, nat)>, a: Positive, b: Positive)
    ensures Visited(entries + [(a - 1, b - 1)]) == Visited(entries) + {(a, b), (b, a)}
  {
    var entries' := entries + [(a - 1, b - 1)];
    assert entries'[..|entries'| - 1] == entries;
  }

  /** Keeping one more edge widens the dimension to both its endpoints. */
  lemma DimensionAppend(entries: seq<(nat, nat)>, a: Positive, b: Positive)
    ensures Dimension(entries + [(a - 1, b - 1)]) == Max3(Dimension(entries), a, b)
  {
    var entries' := entries + [(a - 1, b - 1)];
    assert entries'[..|entries'| - 1] == entries;
  }

  /** No edge is kept twice, in either orientation. */
  lemma {:induction false} AcceptNoRepeat(kinds: seq<LineKind>, n: nat)
    requires n <= |kinds| && Accept(kinds, n).Success?
    ensures NoRepeat(Accept(kinds, n).value)
  {
    if n > 0 {
      AcceptNoRepeat(kinds, n - 1);
    }
  }

  /** Once a line has raised, the later lines do not matter. */
  lemma {:induction false} AcceptFailureStays(kinds: seq<LineKind>, i: nat, n: nat)
    requires i <= n <= |kinds| && Accept(kinds, i).Failure?
    ensures Accept(kinds, n) == Accept(kinds, i)
    decreases n
  {
    if n > i {
      AcceptFailureStays(kinds, i, n - 1);
    }
  }

  /** Without a bad line the reader does not raise. */
  lemma {:induction false} AcceptNoBad(kinds: seq<LineKind>, n: nat)
    requires n <= |kinds| && forall k | 0 <= k < n :: !kinds[k].Bad?
    ensures Accept(kinds, n).Success?
  {
    if n > 0 {
      AcceptNoBad(kinds, n - 1);
    }
  }

  /** The reader raises the exception of the first bad line. */
  lemma AcceptFirstBad(kinds: seq<LineKind>, n: nat, k: nat)
    requires k < n <= |kinds| && kinds[k].Bad?
    requires forall k' | 0 <= k' < k :: !kinds[k'].Bad?
    ensures Accept(kinds, n) == Failure(kinds[k].error)
  {
    AcceptNoBad(kinds, k);
    assert Accept(kinds, k + 1) == Failure(kinds[k].error);
    AcceptFailureStays(kinds, k + 1, n);
  }

  /** The kept entries join exactly the endpoints of the edge lines, in either orientation:
      dropping repeats loses no edge. */
  lemma {:induction false} AcceptJoined(kinds: seq<LineKind>, n: nat, i: nat, j: nat)
    requires n <= |kinds| && Accept(kinds, n).Success?
    ensures Joined(Accept(kinds, n).value, i, j) <==>
            exists k | 0 <= k < n :: kinds[k] == Edge(i + 1, j + 1) || kinds[k] == Edge(j + 1, i + 1)
  {
    if n > 0 {
      assert Accept(kinds, n - 1).Success?;
      AcceptJoined(kinds, n - 1, i, j);
      var kind := kinds[n - 1];
      if kind.Edge? {
        AcceptJoined(kinds, n - 1, kind.a - 1, kind.b - 1);
      }
    }
  }

  /** `create_sparse_matrix_from_file` raises exactly when some line is bad, and then raises
      the exception of the first bad line. */
  lemma ParseFailure(lines: seq<string>)
    ensures Parse(lines).Failure? <==> exists k | 0 <= k < |lines| :: Kinds(lines)[k].Bad?
    ensures Parse(lines).Failure? ==> exists k | 0 <= k < |lines| ::
              && Kinds(lines)[k].Bad?
              && Parse(lines) == Failure(Kinds(lines)[k].error)
              && forall k' | 0 <= k' < k :: !Kinds(lines)[k'].Bad?
  {
    var kinds := Kinds(lines);
    if exists k | 0 <= k < |lines| :: kinds[k].Bad? {
      var k := FirstBad(kinds);
      AcceptFirstBad(kinds, |lines|, k);
    } else {
      AcceptNoBad(kinds, |lines|);
    }
  }

  /** The index of the first bad line. */
  lemma FirstBad(kinds: seq<LineKind>) returns (k: nat)
    requires exists k | 0 <= k < |kinds| :: kinds[k].Bad?
    ensures k < |kinds| && kinds[k].Bad? && forall k' | 0 <= k' < k :: !kinds[k'].Bad?
  {
    k := 0;
    while !kinds[k].Bad?
      invariant k < |kinds| && forall k' | 0 <= k' < k :: !kinds[k'].Bad?
      decreases |kinds| - k
    {
      k := k + 1;
    }
  }

  /** A parsed matrix is a simple graph whose edges are exactly the pairs that some edge line
      names, in one orientation or the other, and not a self-loop. */
  lemma ParseEdges(lines: seq<string>, m: Matrix)
    requires Parse(lines) == Success(m)
    ensures IsGraph(m)
    ensures forall i: nat, j: nat | i < |m| && j < |m| ::
              m[i][j] <==> i != j && exists k | 0 <= k < |lines| ::
                Kinds(lines)[k] == Edge(i + 1, j + 1) || Kinds(lines)[k] == Edge(j + 1, i + 1)
  {
    var kinds := Kinds(lines);
    forall i: nat, j: nat | i < |m| && j < |m|
      ensures m[i][j] <==> i != j && exists k | 0 <= k < |lines| ::
                kinds[k] == Edge(i + 1, j + 1) || kinds[k] == Edge(j + 1, i + 1)
    {
      AcceptJoined(kinds, |lines|, i, j);
    }
  }

  // ---------------------------------------------------------------------------------------
  // The writer

  /** `f"p edge {rows} {nnz}\n"`. */
  function Header(rows: nat, nnz: nat): string {
    "p edge " + NatToString(rows) + " " + NatToString(nnz) + "\n"
  }

  /** `f"e {i + 1} {j + 1}\n"`. */
  function EdgeLine(e: (nat, nat)): string {
    "e " + NatToString(e.0 + 1) + " " + NatToString(e.1 + 1) + "\n"
  }

  /** The lines `save_sparse_matrix_to_file` writes for a matrix with `rows` rows whose
      nonzero entries `nonzero()` lists as `nonzeros`. */
  method SaveSparseMatrixToFile(rows: nat, nonzeros: seq<(nat, nat)>) returns (lines: seq<string>)
    ensures |lines| == |nonzeros| + 1 && lines[0] == Header(rows, |nonzeros|)
    ensures forall k | 0 <= k < |nonzeros| :: lines[k + 1] == EdgeLine(nonzeros[k])
  {
    lines := [Header(rows, |nonzeros|)];
    for k := 0 to |nonzeros|
      invariant |lines| == k + 1 && lines[0] == Header(rows, |nonzeros|)
      invariant forall k' | 0 <= k' < k :: lines[k' + 1] == EdgeLine(nonzeros[k'])
    {
      var (i, j) := nonzeros[k];
      lines := lines + ["e " + NatToString(i + 1) + " " + NatToString(j + 1) + "\n"];
    }
  }

  /** The header is skipped. */
  lemma ReadHeader(rows: nat, nnz: nat, i: nat)
    ensures ReadLine(Header(rows, nnz), i) == Skip
  {
    StripFirst(Header(rows, nnz));
  }

  /** The text of an edge line splits into `e` and the two numbers. */
  lemma SplitEdgeText(x: string, y: string)
    requires AllDigits(x) && AllDigits(y)
    ensures Split("e " + x + " " + y, ' ') == ["e", x, y]
  {
    assert ' ' !in x && ' ' !in y by {
      assert forall k | 0 <= k < |x| :: x[k] != ' ';
      assert forall k | 0 <= k < |y| :: y[k] != ' ';
    }
    assert "e " + x + " " + y == "e" + [' '] + (x + [' '] + y);
    SplitConcat("e", x + [' '] + y, ' ');
    SplitConcat(x, y, ' ');
    SplitSingle(y, ' ');
  }

  /** A token other than `e` that converts puts its value in front of the rest. */
  lemma ConvertCons(t: string, rest: seq<string>)
    requires t != "e" && ToInt64(t).Success? && ConvertTokens(rest).Success?
    ensures ConvertTokens([t] + rest) == Success([ToInt64(t).value] + ConvertTokens(rest).value)
  {
    assert ([t] + rest)[1..] == rest;
  }

  /** The tokens of an edge line convert to the two numbers. */
  lemma ConvertEdgeTokens(u: nat, w: nat)
    requires u <= Int64Max && w <= Int64Max
    ensures ConvertTokens(["e", NatToString(u), NatToString(w)]) == Success([u, w])
  {
    var x, y := NatToString(u), NatToString(w);
    ParseIntOfNatToString(u);
    ParseIntOfNatToString(w);
    assert x != "e" && y != "e" by {
      assert IsDigit(x[0]) && IsDigit(y[0]);
    }
    var none: seq<string> := [];
    assert ConvertTokens(none) == Success([]);
    assert ToInt64(x) == Success(u) && ToInt64(y) == Success(w);
    ConvertCons(y, none);
    assert [y] + none == [y] && [w] + [] == [w];
    ConvertCons(x, [y]);
    assert [u] + [w] == [u, w];
    var all: seq<string> := ["e", x, y];
    assert all[1..] == [x] + [y];
  }

  /** An edge line reads back as the one-based edge it was written for. */
  lemma ReadEdgeLine(e: (nat, nat), i: nat)
    requires e.0 + 1 <= Int64Max && e.1 + 1 <= Int64Max
    ensures ReadLine(EdgeLine(e), i) == Edge(e.0 + 1, e.1 + 1)
  {
    var x, y := NatToString(e.0 + 1), NatToString(e.1 + 1);
    EdgeLineStrips(e);
    SplitEdgeText(x, y);
    ConvertEdgeTokens(e.0 + 1, e.1 + 1);
    ReadEdgeText(EdgeLine(e), i, x, y, e.0 + 1, e.1 + 1);
  }

  /** The stripped edge line is its text without the line break. */
  lemma EdgeLineStrips(e: (nat, nat))
    ensures Strip(EdgeLine(e)) == "e " + NatToString(e.0 + 1) + " " + NatToString(e.1 + 1)
  {
    var x, y := NatToString(e.0 + 1), NatToString(e.1 + 1);
    var text := "e " + x + " " + y;
    assert EdgeLine(e) == text + "\n";
    DigitNotSpace(y[|y| - 1]);
    StripLine(text);
  }

  /** A line that strips to `e x y`, whose tokens convert to two positive numbers, reads as
      that edge. */
  lemma ReadEdgeText(line: string, i: nat, x: string, y: string, u: nat, w: nat)
    requires Strip(line) == "e " + x + " " + y && Split("e " + x + " " + y, ' ') == ["e", x, y]
    requires ConvertTokens(["e", x, y]) == Success([u, w]) && u > 0 && w > 0
    ensures ReadLine(line, i) == Edge(u, w)
  {
    assert Strip(line)[0] == 'e';
  }

  /** Writing a simple graph and reading the lines back gives the same matrix, provided its
      last vertex has an edge: the reader takes the dimension from the largest endpoint and
      ignores the vertex count of the `p` line. */
  lemma SavedGraphReadsBack(m: Matrix, nonzeros: seq<(nat, nat)>, lines: seq<string>)
    requires IsGraph(m) && |m| < Int64Max
    requires |m| == 0 || Row(m, |m| - 1) != []
    requires forall e | e in nonzeros :: e.0 < |m| && e.1 < |m| && m[e.0][e.1]
    requires forall i, j | 0 <= i < |m| && 0 <= j < |m| && m[i][j] :: (i, j) in nonzeros
    requires |lines| == |nonzeros| + 1 && lines[0] == Header(|m|, |nonzeros|)
    requires forall k | 0 <= k < |nonzeros| :: lines[k + 1] == EdgeLine(nonzeros[k])
    ensures Parse(lines) == Success(m)
  {
    var kinds := SavedKinds(m, nonzeros, lines);
    AcceptSaved(m, nonzeros, kinds);
  }

  /** The entries kept from the saved lines rebuild the matrix. */
  lemma AcceptSaved(m: Matrix, nonzeros: seq<(nat, nat)>, kinds: seq<LineKind>)
    requires IsGraph(m) && (|m| == 0 || Row(m, |m| - 1) != [])
    requires forall i, j | 0 <= i < |m| && 0 <= j < |m| && m[i][j] :: (i, j) in nonzeros
    requires forall e | e in nonzeros :: e.0 < |m| && e.1 < |m| && m[e.0][e.1]
    requires |kinds| == |nonzeros| + 1 && kinds[0] == Skip
    requires forall k | 1 <= k < |kinds| :: kinds[k] == Edge(nonzeros[k - 1].0 + 1, nonzeros[k - 1].1 + 1)
    ensures Accept(kinds, |kinds|).Success?
    ensures Assemble(Accept(kinds, |kinds|).value, Dimension(Accept(kinds, |kinds|).value)) == m
  {
    AcceptNoBad(kinds, |kinds|);
    var entries := Accept(kinds, |kinds|).value;
    forall i: nat, j: nat
      ensures Joined(entries, i, j) <==> i < |m| && j < |m| && m[i][j]
    {
      AcceptJoined(kinds, |kinds|, i, j);
      SavedEdge(m, nonzeros, kinds, i, j);
    }
    DimensionOfGraph(m, entries);
    AssembleGraph(m, entries);
  }

  /** An edge line of the saved lines names an edge of the matrix, and every edge of the matrix
      has its line. */
  lemma SavedEdge(m: Matrix, nonzeros: seq<(nat, nat)>, kinds: seq<LineKind>, i: nat, j: nat)
    requires IsGraph(m)
    requires forall i, j | 0 <= i < |m| && 0 <= j < |m| && m[i][j] :: (i, j) in nonzeros
    requires forall e | e in nonzeros :: e.0 < |m| && e.1 < |m| && m[e.0][e.1]
    requires |kinds| == |nonzeros| + 1 && kinds[0] == Skip
    requires forall k | 1 <= k < |kinds| :: kinds[k] == Edge(nonzeros[k - 1].0 + 1, nonzeros[k - 1].1 + 1)
    ensures (exists k | 0 <= k < |kinds| :: kinds[k] == Edge(i + 1, j + 1) || kinds[k] == Edge(j + 1, i + 1))
            <==> i < |m| && j < |m| && m[i][j]
  {
    if i < |m| && j < |m| && m[i][j] {
      var k :| 0 <= k < |nonzeros| && nonzeros[k] == (i, j);
      assert kinds[k + 1] == Edge(i + 1, j + 1);
    }
    if exists k | 0 <= k < |kinds| :: kinds[k] == Edge(i + 1, j + 1) || kinds[k] == Edge(j + 1, i + 1) {
      var k :| 0 <= k < |kinds| && (kinds[k] == Edge(i + 1, j + 1) || kinds[k] == Edge(j + 1, i + 1));
      assert k >= 1 && nonzeros[k - 1] in nonzeros;
    }
  }

  /** Entries that join exactly the edges of a graph assemble back into it. */
  lemma AssembleGraph(m: Matrix, entries: seq<(nat, nat)>)
    requires IsGraph(m)
    requires forall i: nat, j: nat :: Joined(entries, i, j) <==> i < |m| && j < |m| && m[i][j]
    ensures Assemble(entries, |m|) == m
  {
    var result := Assemble(entries, |m|);
    forall i | 0 <= i < |m|
      ensures result[i] == m[i]
    {
      assert |result[i]| == |m[i]|;
      forall j | 0 <= j < |m|
        ensures result[i][j] == m[i][j]
      {
        assert Joined(entries, i, j) <==> m[i][j];
      }
    }
  }

  /** The saved lines read as the header, then the one-based nonzero entries. */
  lemma SavedKinds(m: Matrix, nonzeros: seq<(nat, nat)>, lines: seq<string>) returns (kinds: seq<LineKind>)
    requires Square(m) && |m| < Int64Max
    requires forall e | e in nonzeros :: e.0 < |m| && e.1 < |m| && m[e.0][e.1]
    requires |lines| == |nonzeros| + 1 && lines[0] == Header(|m|, |nonzeros|)
    requires forall k | 0 <= k < |nonzeros| :: lines[k + 1] == EdgeLine(nonzeros[k])
    ensures kinds == Kinds(lines) && kinds[0] == Skip
    ensures forall k | 1 <= k < |lines| :: kinds[k] == Edge(nonzeros[k - 1].0 + 1, nonzeros[k - 1].1 + 1)
  {
    kinds := Kinds(lines);
    SavedHeaderKind(lines, |m|, |nonzeros|);
    forall k | 1 <= k < |lines|
      ensures kinds[k] == Edge(nonzeros[k - 1].0 + 1, nonzeros[k - 1].1 + 1)
    {
      assert nonzeros[k - 1] in nonzeros;
      SavedEdgeKind(lines, k, nonzeros[k - 1]);
    }
  }

  lemma SavedHeaderKind(lines: seq<string>, rows: nat, nnz: nat)
    requires |lines| > 0 && lines[0] == Header(rows, nnz)
    ensures Kinds(lines)[0] == Skip
  {
    ReadHeader(rows, nnz, 0);
  }

  lemma SavedEdgeKind(lines: seq<string>, k: nat, e: (nat, nat))
    requires k < |lines| && lines[k] == EdgeLine(e) && e.0 + 1 <= Int64Max && e.1 + 1 <= Int64Max
    ensures Kinds(lines)[k] == Edge(e.0 + 1, e.1 + 1)
  {
    ReadEdgeLine(e, k);
  }

  /** The entries of a graph whose last vertex has an edge span the whole graph. */
  lemma DimensionOfGraph(m: Matrix, entries: seq<(nat, nat)>)
    requires IsGraph(m)
    requires |m| == 0 || Row(m, |m| - 1) != []
    requires forall i: nat, j: nat :: Joined(entries, i, j) <==> i < |m| && j < |m| && m[i][j]
    ensures Dimension(entries) == |m|
  {
    var n := |m|;
    var d := Dimension(entries);
    if entries != [] {
      var e :| e in entries && (e.0 + 1 == d || e.1 + 1 == d);
      assert Joined(entries, e.0, e.1);
    }
    if n > 0 {
      var x := Row(m, n - 1)[0];
      assert x in Row(m, n - 1);
      assert Joined(entries, n - 1, x);
      assert (n - 1, x) in entries || (x, n - 1) in entries;
    }
  }

  /** Without the edge on the last vertex the round trip loses vertices: the one-vertex
      graph is written as the header alone, which reads back as the empty matrix. */
  lemma IsolatedVertexDropped()
    ensures IsGraph([[false]])
    ensures Parse([Header(1, 0)]) == Success([])
  {
    var lines := [Header(1, 0)];
    SavedHeaderKind(lines, 1, 0);
    assert Accept(Kinds(lines), 0) == Success([]);
    assert Accept(Kinds(lines), 1) == Success([]);
  }
}
