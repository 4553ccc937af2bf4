/** The termination measure of the stack walks that pop `(vertex, value)` entries, store the
    value for the vertex and push entries only for vertices without one: the number of
    vertices still without a value, then the number of entries waiting for a vertex that has
    one. A vertex may wait on the stack several times, so the stack length alone does not
    decrease. */
module StackMeasure {

  /** The vertices below `n` without a label. */
  function Uncoloured(n: nat, coloured: set<nat>): set<nat> {
    set x: nat | x < n && x !in coloured
  }

  /** How many stack entries hold an already labelled vertex. */
  function CountColoured(stack: seq<(nat, nat)>, coloured: set<nat>): nat {
    if stack == [] then 0
    else CountColoured(stack[..|stack| - 1], coloured) + if stack[|stack| - 1].0 in coloured then 1 else 0
  }

  lemma {:induction false} CountColouredAppend(s: seq<(nat, nat)>, t: seq<(nat, nat)>, coloured: set<nat>)
    ensures CountColoured(s + t, coloured) == CountColoured(s, coloured) + CountColoured(t, coloured)
  {
    if t != [] {
      assert (s + t)[..|s + t| - 1] == s + t[..|t| - 1];
      assert (s + t)[|s + t| - 1] == t[|t| - 1];
      CountColouredAppend(s, t[..|t| - 1], coloured);
    } else {
      assert s + t == s;
    }
  }

  lemma {:induction false} CountColouredNone(s: seq<(nat, nat)>, coloured: set<nat>)
    requires forall e | e in s :: e.0 !in coloured
    ensures CountColoured(s, coloured) == 0
  {
    if s != [] {
      CountColouredNone(s[..|s| - 1], coloured);
    }
  }

  /** Popping `(v, p)`, storing a value for `v` and pushing entries for unlabelled vertices
      only moves the measure down: either one more vertex is labelled, or one fewer entry for
      a labelled vertex is waiting. */
  lemma PopDecreases(n: nat, colors: map<nat, nat>, stack: seq<(nat, nat)>, v: nat, p: nat,
                     pushed: seq<(nat, nat)>, code: nat)
    requires stack != [] && stack[|stack| - 1] == (v, p) && v < n
    requires forall e | e in pushed :: e.0 !in colors[v := code]
    ensures var colors' := colors[v := code];
            var stack' := stack[..|stack| - 1] + pushed;
            || Uncoloured(n, colors'.Keys) < Uncoloured(n, colors.Keys)
            || (Uncoloured(n, colors'.Keys) == Uncoloured(n, colors.Keys)
                && CountColoured(stack', colors'.Keys) < CountColoured(stack, colors.Keys))
  {
    var colors' := colors[v := code];
    var rest := stack[..|stack| - 1];
    assert stack == rest + [(v, p)];
    CountColouredAppend(rest, [(v, p)], colors.Keys);
    CountColouredAppend(rest, pushed, colors'.Keys);
    CountColouredNone(pushed, colors'.Keys);
    if v in colors {
      assert colors'.Keys == colors.Keys;
    } else {
      assert v in Uncoloured(n, colors.Keys);
      assert Uncoloured(n, colors'.Keys) == Uncoloured(n, colors.Keys) - {v};
    }
  }
}
