/** The tree pack builds, as the history of its merges: merge t takes two live nodes off the heap and
    puts node |count| + t in their place. Optimality of the resulting depths, and their Kraft sum. */
module HuffmanTree {
  import opened Sums
  import opened KraftCost

  datatype Tree = Tree(count: seq<nat>, merges: seq<(nat, nat)>) {
    function Leaves(): nat {
      |count|
    }

    /** The weight of every node that exists at stage t, after the first t merges. */
    function Weights(t: nat): (w: seq<nat>)
      requires t <= |merges|
      ensures |w| == Leaves() + t
    {
      if t == 0 then count
      else
        var w := Weights(t - 1);
        var (x, y) := merges[t - 1];
        w + [if x < |w| && y < |w| then w[x] + w[y] else 0]
    }

    /** The nodes in the heap at stage t. */
    function Alive(t: nat): set<nat>
      requires t <= |merges|
    {
      if t == 0 then Symbols()
      else Alive(t - 1) - {merges[t - 1].0, merges[t - 1].1} + {Leaves() + t - 1}
    }

    /** The parent array at stage t; 0 means none. */
    function Parents(t: nat): (p: seq<nat>)
      requires t <= |merges|
      ensures |p| == Leaves() + t
    {
      if t == 0 then seq(Leaves(), _ => 0)
      else
        var p := Parents(t - 1);
        var (x, y) := merges[t - 1];
        if x < |p| && y < |p| then p[x := |p|][y := |p|] + [0] else p + [0]
    }

    function Symbols(): set<nat> {
      set i: nat | i < Leaves() && count[i] > 0
    }

    /** Merge t takes the two lightest live nodes, the lightest first. */
    ghost predicate GreedyAt(t: nat)
      requires t < |merges|
    {
      Lightest(Alive(t), Weights(t), merges[t].0, merges[t].1)
    }

    ghost predicate Greedy() {
      forall t | 0 <= t < |merges| :: GreedyAt(t)
    }

    /** Merging is finished: one live node is left, the root. */
    ghost predicate Complete() {
      Greedy() && exists r :: Alive(|merges|) == {r}
    }

    function Parent(): (p: seq<nat>) {
      Parents(|merges|)
    }

    /** The code length of every symbol: the number of steps from its leaf to the root. */
    ghost function LeafDepths(): seq<nat>
      requires Greedy()
    {
      UpwardParents(this, |merges|);
      Depths(Parent(), Leaves())
    }
  }

  ghost predicate Lightest(a: set<nat>, w: seq<nat>, x: nat, y: nat) {
    && (forall i | i in a :: i < |w|)
    && x in a && y in a && x != y
    && (forall i | i in a :: w[x] <= w[i])
    && (forall i | i in a - {x} :: w[y] <= w[i])
  }

  ghost predicate Upward(p: seq<nat>) {
    forall i | 0 <= i < |p| :: p[i] == 0 || i < p[i] < |p|
  }

  /** Number of steps from node i to the root along the parent array. */
  ghost function Depth(p: seq<nat>, i: nat): nat
    requires Upward(p) && i < |p|
    decreases |p| - i
  {
    if p[i] == 0 then 0 else 1 + Depth(p, p[i])
  }

  ghost function Depths(p: seq<nat>, k: nat): seq<nat>
    requires Upward(p) && k <= |p|
  {
    seq(k, i requires 0 <= i < k => Depth(p, i))
  }

  lemma {:induction false} UpwardParents(h: Tree, t: nat)
    requires h.Greedy() && t <= |h.merges|
    ensures forall i | i in h.Alive(t) :: i < h.Leaves() + t && h.Parents(t)[i] == 0
    ensures Upward(h.Parents(t))
  {
    if t != 0 {
      UpwardParents(h, t - 1);
      assert h.GreedyAt(t - 1);
    }
  }

  /** The two nodes of merge t keep node Leaves() + t as their parent. */
  lemma {:induction false} ChildrenOf(h: Tree, t: nat, u: nat)
    requires h.Greedy() && t < u <= |h.merges|
    ensures var (x, y) := h.merges[t];
            && x < h.Leaves() + t && y < h.Leaves() + t
            && h.Parents(u)[x] == h.Leaves() + t && h.Parents(u)[y] == h.Leaves() + t
  {
    UpwardParents(h, u - 1);
    assert h.GreedyAt(u - 1);
    var q := h.Parents(u - 1);
    var (a, b) := h.merges[u - 1];
    assert h.Parents(u) == q[a := |q|][b := |q|] + [0];
    if t < u - 1 {
      ChildrenOf(h, t, u - 1);
      assert q[a] == 0 && q[b] == 0;
      assert h.Parents(u)[h.merges[t].0] == q[h.merges[t].0];
    } else {
      assert h.Parents(u)[a] == |q|;
    }
  }

  /** What one merge does. */
  lemma NextStage(h: Tree, t: nat)
    requires t < |h.merges| && h.merges[t].0 < h.Leaves() + t && h.merges[t].1 < h.Leaves() + t
    ensures var w, p, (x, y) := h.Weights(t), h.Parents(t), h.merges[t];
            && h.Alive(t + 1) == h.Alive(t) - {x, y} + {h.Leaves() + t} && h.Weights(t + 1) == w + [w[x] + w[y]]
            && h.Parents(t + 1) == p[x := h.Leaves() + t][y := h.Leaves() + t] + [0]
  {
  }

  lemma GreedyHere(h: Tree, t: nat)
    requires h.Greedy() && t < |h.merges|
    ensures h.GreedyAt(t) && Lightest(h.Alive(t), h.Weights(t), h.merges[t].0, h.merges[t].1)
    ensures h.merges[t].0 < h.Leaves() + t && h.merges[t].1 < h.Leaves() + t
  {
    assert h.GreedyAt(t);
  }

  /** What one merge does to the depths. */
  lemma Stage(h: Tree, t: nat)
    requires h.Greedy() && t < |h.merges|
    ensures var (x, y) := h.merges[t];
            && Upward(h.Parent()) && x < |h.Parent()| && y < |h.Parent()|
            && Depth(h.Parent(), x) == Depth(h.Parent(), y) == 1 + Depth(h.Parent(), h.Leaves() + t)
  {
    UpwardParents(h, |h.merges|);
    ChildrenOf(h, t, |h.merges|);
    var (x, y) := h.merges[t];
    assert h.Parent()[x] == h.Leaves() + t != 0 && h.Parent()[y] == h.Leaves() + t;
  }

  lemma DepthsAfterMerge(h: Tree, t: nat)
    requires h.Greedy() && t < |h.merges| && Upward(h.Parent())
    ensures var x := h.merges[t].0;
            && x < h.Leaves() + t
            && var d := Depths(h.Parent(), h.Leaves() + t);
            && d[x] >= 1
            && Depths(h.Parent(), h.Leaves() + t + 1) == d + [d[x] - 1]
  {
    Stage(h, t);
    ChildrenOf(h, t, |h.merges|);
  }

  lemma Root(h: Tree) returns (r: nat)
    requires h.Complete()
    ensures h.Alive(|h.merges|) == {r} && r < h.Leaves() + |h.merges|
    ensures Upward(h.Parent()) && Depth(h.Parent(), r) == 0
  {
    r :| h.Alive(|h.merges|) == {r};
    assert r in h.Alive(|h.merges|);
    UpwardParents(h, |h.merges|);
  }

  /** The weighted depth of the live nodes, at stage t. */
  ghost function DepthCost(h: Tree, t: nat): int
    requires t <= |h.merges| && Upward(h.Parent())
  {
    Cost(h.Alive(t), h.Weights(t), Depths(h.Parent(), h.Leaves() + t))
  }

  /** A merge takes exactly the weight of the merged nodes off the weighted depth. */
  lemma DepthCostDrop(h: Tree, t: nat)
    requires h.Greedy() && t < |h.merges| && Upward(h.Parent())
    requires Lightest(h.Alive(t), h.Weights(t), h.merges[t].0, h.merges[t].1)
    ensures DepthCost(h, t + 1) == DepthCost(h, t) - h.Weights(t)[h.merges[t].0] - h.Weights(t)[h.merges[t].1]
  {
    Stage(h, t);
    DepthsAfterMerge(h, t);
    var (x, y) := h.merges[t];
    MergeCost(h.Alive(t), h.Weights(t), Depths(h.Parent(), h.Leaves() + t), x, y);
  }

  /** A fitting assignment at stage t gives a cheaper one at stage t + 1. */
  lemma NextAssignment(h: Tree, t: nat, l: seq<nat>, b: nat) returns (r: seq<nat>)
    requires t < |h.merges| && |l| == h.Leaves() + t && Fits(h.Alive(t), l, b)
    requires Lightest(h.Alive(t), h.Weights(t), h.merges[t].0, h.merges[t].1)
    ensures |r| == h.Leaves() + t + 1 && Fits(h.Alive(t + 1), r, b)
    ensures Cost(h.Alive(t + 1), h.Weights(t + 1), r)
            <= Cost(h.Alive(t), h.Weights(t), l) - h.Weights(t)[h.merges[t].0] - h.Weights(t)[h.merges[t].1]
  {
    r := MergeLightest(h.Alive(t), h.Weights(t), l, b, h.merges[t].0, h.merges[t].1);
  }

  /** The root alone costs nothing. */
  lemma RootCost(h: Tree, l: seq<nat>)
    requires h.Complete() && Upward(h.Parent()) && |l| == h.Leaves() + |h.merges|
    ensures DepthCost(h, |h.merges|) == 0 <= Cost(h.Alive(|h.merges|), h.Weights(|h.merges|), l)
  {
    var t := |h.merges|;
    var r := Root(h);
    SumZero(Masked(h.Alive(t), Products(h.Weights(t), Depths(h.Parent(), h.Leaves() + t))));
    SumNonNegative(Masked(h.Alive(t), Products(h.Weights(t), l)));
  }

  lemma {:induction false} OptimalFrom(h: Tree, t: nat, l: seq<nat>, b: nat)
    requires h.Complete() && t <= |h.merges| && Upward(h.Parent())
    requires |l| == h.Leaves() + t && Fits(h.Alive(t), l, b)
    ensures DepthCost(h, t) <= Cost(h.Alive(t), h.Weights(t), l)
    decreases |h.merges| - t
  {
    hide DepthCost, Cost, Fits, Depth, Upward;
    if t == |h.merges| {
      RootCost(h, l);
    } else {
      assert h.GreedyAt(t);
      var l' := NextAssignment(h, t, l, b);
      OptimalFrom(h, t + 1, l', b);
      DepthCostDrop(h, t);
    }
  }

  lemma {:induction false} KraftFrom(h: Tree, t: nat, b: nat)
    requires h.Complete() && t <= |h.merges| && Upward(h.Parent())
    requires forall i | i in h.Alive(t) && i < |h.Parent()| :: Depth(h.Parent(), i) <= b
    ensures Kraft(h.Alive(t), Depths(h.Parent(), h.Leaves() + t), b) == Pow2(b)
    decreases |h.merges| - t
  {
    var a, d := h.Alive(t), Depths(h.Parent(), h.Leaves() + t);
    if t == |h.merges| {
      var r := Root(h);
      TotalRemove(a, Shares(d, b), r);
      assert a - {r} == {};
      SumZero(Masked(a - {r}, Shares(d, b)));
    } else {
      assert h.GreedyAt(t);
      Stage(h, t);
      var (x, y) := h.merges[t];
      KraftFrom(h, t + 1, b);
      MergeKraft(a, d, b, x, y);
      DepthsAfterMerge(h, t);
    }
  }

  /** Huffman optimality: no length assignment that meets Kraft's inequality is cheaper. */
  lemma Optimal(h: Tree, l: seq<nat>, b: nat)
    requires h.Complete() && |l| == h.Leaves() && Fits(h.Symbols(), l, b)
    ensures Cost(h.Symbols(), h.count, h.LeafDepths()) <= Cost(h.Symbols(), h.count, l)
  {
    UpwardParents(h, |h.merges|);
    OptimalFrom(h, 0, l, b);
  }

  /** The depths use up the code space exactly. */
  lemma KraftEquality(h: Tree, b: nat)
    requires h.Complete()
    requires forall i | i in h.Symbols() :: h.LeafDepths()[i] <= b
    ensures Kraft(h.Symbols(), h.LeafDepths(), b) == Pow2(b)
  {
    UpwardParents(h, |h.merges|);
    KraftFrom(h, 0, b);
  }

  /** A strictly lighter symbol is at least as deep. */
  lemma LighterIsDeeper(h: Tree, x: nat, y: nat)
    requires h.Complete()
    requires x in h.Symbols() && y in h.Symbols() && h.count[x] < h.count[y]
    ensures h.LeafDepths()[y] <= h.LeafDepths()[x]
  {
    var a, d := h.Symbols(), h.LeafDepths();
    var top := Longest(a, d);
    var b := d[top];
    KraftEquality(h, b);
    SwapKraft(a, d, b, x, y);
    Optimal(h, Swapped(d, x, y), b);
    SwapSaving(a, h.count, d, x, y);
    PositiveFactor(h.count[y] - h.count[x], d[y] as int - d[x] as int);
  }

  lemma PositiveFactor(p: int, q: int)
    requires p > 0
    ensures q > 0 ==> p * q > 0
  {
  }
}
