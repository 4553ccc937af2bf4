/** `subset_sum` in aegypti/cover.py: a dynamic programme over a table keyed by
    `(i, j)` deciding whether one size can be picked from each of the entries `1..p` so
    that the picks add up to `k`. Entry 0 is the placeholder that `coloring` puts first. */
module SubsetSum {
  import opened AegyptiUtils

  /** Whether `j` is a sum of one of the two sizes of each entry `1..i`: the value the
      table holds at `(i, j)`. */
  function Reach(sizes: seq<(nat, nat)>, i: nat, j: int): bool
    requires i < |sizes|
  {
    if j < 0 then false
    else if i == 0 then j == 0
    else Reach(sizes, i - 1, j - sizes[i].0) || Reach(sizes, i - 1, j - sizes[i].1)
  }

  /** The sum of the sizes a choice picks: for entry `m`, the first size when `choice[m - 1]`
      holds and the second otherwise. */
  function ChoiceSum(sizes: seq<(nat, nat)>, choice: seq<bool>): nat
    requires |choice| < |sizes|
  {
    if choice == [] then 0
    else
      var m := |choice|;
      ChoiceSum(sizes, choice[..m - 1]) + (if choice[m - 1] then sizes[m].0 else sizes[m].1)
  }

  /** The table holds exactly the sums some choice of one size per entry reaches. */
  lemma {:induction false} ReachChoice(sizes: seq<(nat, nat)>, i: nat, j: int)
    requires i < |sizes|
    ensures Reach(sizes, i, j) <==> exists choice: seq<bool> | |choice| == i :: ChoiceSum(sizes, choice) == j
  {
    if i == 0 {
      if j == 0 {
        assert ChoiceSum(sizes, []) == 0;
      }
    } else {
      if Reach(sizes, i, j) {
        var x := if Reach(sizes, i - 1, j - sizes[i].0) then sizes[i].0 else sizes[i].1;
        ReachChoice(sizes, i - 1, j - x);
        var c :| |c| == i - 1 && ChoiceSum(sizes, c) == j - x;
        var choice := c + [x == sizes[i].0 && Reach(sizes, i - 1, j - sizes[i].0)];
        assert choice[..i - 1] == c;
      }
      forall choice: seq<bool> | |choice| == i && ChoiceSum(sizes, choice) == j
        ensures Reach(sizes, i, j)
      {
        var c := choice[..i - 1];
        var x := if choice[i - 1] then sizes[i].0 else sizes[i].1;
        ReachChoice(sizes, i - 1, j - x);
        assert |c| == i - 1 && ChoiceSum(sizes, c) == j - x;
      }
    }
  }

  /** Two size lists that agree on the entries `1..i` reach the same sums. */
  lemma {:induction false} ReachPrefix(s1: seq<(nat, nat)>, s2: seq<(nat, nat)>, i: nat, j: int)
    requires i < |s1| && i < |s2| && forall m | 1 <= m <= i :: s1[m] == s2[m]
    ensures Reach(s1, i, j) == Reach(s2, i, j)
  {
    if j >= 0 && i > 0 {
      ReachPrefix(s1, s2, i - 1, j - s1[i].0);
      ReachPrefix(s1, s2, i - 1, j - s1[i].1);
    }
  }

  /** Which class of an entry is listed first does not matter: `bipartite.color` is free to
      give either class colour 1. */
  lemma {:induction false} SwapClasses(sizes: seq<(nat, nat)>, m: nat, i: nat, j: int)
    requires 1 <= m < |sizes| && i < |sizes|
    ensures Reach(sizes[m := (sizes[m].1, sizes[m].0)], i, j) == Reach(sizes, i, j)
  {
    var swapped := sizes[m := (sizes[m].1, sizes[m].0)];
    if j >= 0 && i > 0 {
      if i == m {
        ReachPrefix(swapped, sizes, i - 1, j - sizes[i].0);
        ReachPrefix(swapped, sizes, i - 1, j - sizes[i].1);
      } else {
        SwapClasses(sizes, m, i - 1, j - sizes[i].0);
        SwapClasses(sizes, m, i - 1, j - sizes[i].1);
      }
    }
  }

  /** Nor does the order of two neighbouring entries: the components may come in any order. */
  lemma {:induction false} SwapEntries(sizes: seq<(nat, nat)>, m: nat, i: nat, j: int)
    requires 1 <= m && m + 1 < |sizes| && m + 1 <= i < |sizes|
    ensures Reach(sizes[m := sizes[m + 1]][m + 1 := sizes[m]], i, j) == Reach(sizes, i, j)
  {
    var swapped := sizes[m := sizes[m + 1]][m + 1 := sizes[m]];
    if j >= 0 {
      if i == m + 1 {
        var (a, b) := sizes[m];
        var (c, d) := sizes[m + 1];
        ReachPrefix(swapped, sizes, m - 1, j - a - c);
        ReachPrefix(swapped, sizes, m - 1, j - a - d);
        ReachPrefix(swapped, sizes, m - 1, j - b - c);
        ReachPrefix(swapped, sizes, m - 1, j - b - d);
      } else {
        SwapEntries(sizes, m, i - 1, j - sizes[i].0);
        SwapEntries(sizes, m, i - 1, j - sizes[i].1);
      }
    }
  }

  // ---------------------------------------------------------------------------------------
  // The table

  /** Every cell of rows `0..rows - 1` (and columns `0..k`) is present and holds `Reach`. */
  ghost predicate Filled(dp: map<(int, int), bool>, sizes: seq<(nat, nat)>, rows: nat, k: nat)
    requires rows <= |sizes|
  {
    forall i: nat, j: int | i < rows && 0 <= j <= k :: (i, j) in dp && dp[(i, j)] == Reach(sizes, i, j)
  }

  /** Every cell of rows `0..p` (and columns `0..k`) is present. */
  ghost predicate Complete(dp: map<(int, int), bool>, p: nat, k: nat) {
    forall i: int, j: int | 0 <= i <= p && 0 <= j <= k :: (i, j) in dp
  }

  /** `subset_sum(partitions, p, k)` on the sizes of the entries: fills the table with
      `False`, sets `(0, 0)`, then fills the rows `1..p` through `evaluate`, and answers with
      the cell `(p, k)`. */
  method SubsetSumTable(sizes: seq<(nat, nat)>, p: nat, k: nat) returns (b: bool)
    requires p < |sizes|
    ensures b == Reach(sizes, p, k)
  {
    var dp: map<(int, int), bool> := map[];
    for i := 0 to p + 1
      invariant forall i': int, j': int | 0 <= i' < i && 0 <= j' <= k :: (i', j') in dp && !dp[(i', j')]
    {
      for j := 0 to k + 1
        invariant forall i': int, j': int | 0 <= i' < i && 0 <= j' <= k :: (i', j') in dp && !dp[(i', j')]
        invariant forall j': int | 0 <= j' < j :: (i, j') in dp && !dp[(i, j')]
      {
        dp := dp[(i, j) := false];
      }
    }
    dp := dp[(0, 0) := true];
    FirstRow(dp, sizes, p, k);
    for i := 1 to p + 1
      invariant Complete(dp, p, k) && Filled(dp, sizes, i, k)
    {
      dp := FillTableRow(dp, sizes, p, k, i);
    }
    b := dp[(p, k)];
  }

  /** After the initialisation row 0 holds `True` at column 0 only. */
  lemma FirstRow(dp: map<(int, int), bool>, sizes: seq<(nat, nat)>, p: nat, k: nat)
    requires |sizes| > 0 && Complete(dp, p, k) && (0, 0) in dp && dp[(0, 0)]
    requires forall j: int | 0 < j <= k :: (0, j) in dp && !dp[(0, j)]
    ensures Filled(dp, sizes, 1, k)
  {
  }

  /** The inner loop of the second pass: row `i` from row `i - 1`. */
  method FillTableRow(dp: map<(int, int), bool>, sizes: seq<(nat, nat)>, p: nat, k: nat, i: nat)
    returns (dp': map<(int, int), bool>)
    requires 1 <= i <= p < |sizes| && Complete(dp, p, k) && Filled(dp, sizes, i, k)
    ensures Complete(dp', p, k) && Filled(dp', sizes, i + 1, k)
  {
    dp' := dp;
    for j := 0 to k + 1
      invariant Complete(dp', p, k) && Filled(dp', sizes, i, k)
      invariant forall j': int | 0 <= j' < j :: dp'[(i, j')] == Reach(sizes, i, j')
    {
      dp' := dp'[(i, j) := Evaluate(dp', i - 1, j - sizes[i].0, p, k)
                          || Evaluate(dp', i - 1, j - sizes[i].1, p, k)];
    }
  }
}
