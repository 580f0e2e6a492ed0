/** How deep the tree can get: with one symbol of weight 1 and even weights elsewhere, depth d needs
    a total weight of at least 2 * Fib(d + 2) - 1, and Fibonacci counts reach that bound. */
module DepthBound {
  import opened Sums
  import opened KraftCost
  import opened HuffmanTree

  function Fib(n: nat): nat {
    if n < 2 then n else Fib(n - 1) + Fib(n - 2)
  }

  lemma {:induction false} FibMonotone(i: nat, j: nat)
    requires i <= j
    ensures Fib(i) <= Fib(j)
    decreases j - i
  {
    if i < j {
      FibMonotone(i, j - 1);
    }
  }

  /** `end` has weight 1 and every other symbol an even weight. */
  ghost predicate OneOdd(h: Tree, end: nat) {
    && end < h.Leaves() && h.count[end] == 1
    && forall i | 0 <= i < h.Leaves() && i != end :: h.count[i] % 2 == 0
  }

  lemma {:induction false} TotalWeight(h: Tree, t: nat)
    requires h.Greedy() && t <= |h.merges|
    ensures Total(h.Alive(t), h.Weights(t)) == Sum(h.count)
  {
    if t == 0 {
      assert Masked(h.Symbols(), h.count) == h.count;
    } else {
      TotalWeight(h, t - 1);
      UpwardParents(h, t - 1);
      assert h.GreedyAt(t - 1);
      var w := h.Weights(t - 1);
      var (x, y) := h.merges[t - 1];
      TotalMerge(h.Alive(t - 1), w, x, y, w[x] + w[y]);
    }
  }

  /** e is the only live node of odd weight; f and g bound its weight and all other weights. */
  ghost predicate OddNode(a: set<nat>, w: seq<nat>, e: nat, f: nat, g: nat) {
    && (forall x | x in a :: x < |w|)
    && e in a && w[e] % 2 == 1 && w[e] + 1 >= 2 * f
    && forall x | x in a && x != e :: w[x] % 2 == 0 && w[x] >= 2 * g
  }

  lemma OddTaken(a: set<nat>, w: seq<nat>, x: nat, y: nat, e: nat, f: nat, g: nat)
    requires OddNode(a, w, e, f, g) && Lightest(a, w, x, y) && (e == x || e == y)
    ensures OddNode(a - {x, y} + {|w|}, w + [w[x] + w[y]], |w|, f + g, f)
  {
    var d := if e == x then y else x;
    assert w[d] % 2 == 0 && w[d] >= 2 * g;
    assert (w[x] + w[y]) % 2 == 1;
    forall i | i in a - {x, y}
      ensures w[i] % 2 == 0 && w[i] >= 2 * f
    {
      assert i in a - {x} && w[i] >= w[e];
    }
  }

  lemma EvenTaken(a: set<nat>, w: seq<nat>, x: nat, y: nat, e: nat, f: nat, g: nat)
    requires OddNode(a, w, e, f, g) && Lightest(a, w, x, y) && e != x && e != y
    ensures OddNode(a - {x, y} + {|w|}, w + [w[x] + w[y]], e, f, g)
  {
    assert w[x] % 2 == 0 && w[x] >= 2 * g && w[y] % 2 == 0;
    assert (w[x] + w[y]) % 2 == 0;
  }

  lemma OddNodeMerged(a: set<nat>, w: seq<nat>, x: nat, y: nat, e: nat, f: nat, g: nat)
    requires OddNode(a, w, e, f, g) && Lightest(a, w, x, y)
    ensures var a', w' := a - {x, y} + {|w|}, w + [w[x] + w[y]];
            if e == x || e == y then OddNode(a', w', |w|, f + g, f) else OddNode(a', w', e, f, g)
  {
    if e == x || e == y {
      OddTaken(a, w, x, y, e, f, g);
    } else {
      EvenTaken(a, w, x, y, e, f, g);
    }
  }

  lemma FibNext(k: nat)
    ensures Fib(k + 2) == Fib(k + 1) + Fib(k)
  {
  }

  lemma OddNodeAtStart(h: Tree, end: nat)
    requires OneOdd(h, end)
    ensures OddNode(h.Alive(0), h.Weights(0), end, 1, 1)
  {
  }

  lemma OddNodeAtStage(h: Tree, t: nat, e: nat, f: nat, g: nat)
    requires t < |h.merges| && h.GreedyAt(t) && OddNode(h.Alive(t), h.Weights(t), e, f, g)
    ensures if e == h.merges[t].0 || e == h.merges[t].1
            then OddNode(h.Alive(t + 1), h.Weights(t + 1), h.Leaves() + t, f + g, f)
            else OddNode(h.Alive(t + 1), h.Weights(t + 1), e, f, g)
  {
    OddNodeMerged(h.Alive(t), h.Weights(t), h.merges[t].0, h.merges[t].1, e, f, g);
  }

  lemma FibStart()
    ensures Fib(1) == Fib(2) == 1
  {
  }

  /** The live node e above `end` is k merges up, is the only odd one, and its weight and the weight of
      every other live node have a Fibonacci lower bound. */
  lemma {:induction false} ChainBound(h: Tree, end: nat, t: nat)
    returns (e: nat, k: nat, f: nat, g: nat)
    requires h.Greedy() && OneOdd(h, end) && t <= |h.merges| && Upward(h.Parent())
    ensures OddNode(h.Alive(t), h.Weights(t), e, f, g)
    ensures f == Fib(k + 2) && g == Fib(k + 1)
    ensures Depth(h.Parent(), end) == k + Depth(h.Parent(), e)
  {
    hide Fib, OddNode, OneOdd, Depth, Lightest, Upward;
    if t == 0 {
      e, k, f, g := end, 0, 1, 1;
      OddNodeAtStart(h, end);
      FibStart();
    } else {
      var s := t - 1;
      e, k, f, g := ChainBound(h, end, s);
      GreedyHere(h, s);
      Stage(h, s);
      OddNodeAtStage(h, s, e, f, g);
      if e == h.merges[s].0 || e == h.merges[s].1 {
        FibNext(k + 1);
        e, k, f, g := h.Leaves() + s, k + 1, f + g, f;
      }
    }
  }

  /** Depth d of the odd symbol forces a total weight of at least 2 * Fib(d + 2) - 1. */
  lemma DepthNeedsWeight(h: Tree, end: nat)
    requires h.Complete() && OneOdd(h, end)
    ensures Sum(h.count) + 1 >= 2 * Fib(h.LeafDepths()[end] + 2)
  {
    var r := Root(h);
    var e, k, _, _ := ChainBound(h, end, |h.merges|);
    TotalWeight(h, |h.merges|);
    var a, w := h.Alive(|h.merges|), h.Weights(|h.merges|);
    TotalRemove(a, w, r);
    assert a - {r} == {};
    SumZero(Masked(a - {r}, w));
  }

  /** The numbers from t up to d. */
  function Range(t: nat, d: nat): (r: set<nat>)
    ensures forall i: nat :: i in r <==> t <= i < d
  {
    if d <= t then {} else Range(t, d - 1) + {d - 1}
  }

  /** Symbols 0..d-1 occur Fibonacci many times, the last one `extra` times more. */
  ghost predicate FibonacciCounts(h: Tree, end: nat, d: nat, extra: nat) {
    && 3 <= d <= end < h.Leaves() && h.count[end] == 1
    && (forall i | 0 <= i < d :: h.count[i] == 2 * (Fib(i + 1) + if i == d - 1 then extra else 0))
    && (forall i | d <= i < h.Leaves() && i != end :: h.count[i] == 0)
  }

  /** After t merges the bytes t..d-1 and one inner node e, t levels above `end`, are left. */
  ghost predicate Caterpillar(h: Tree, end: nat, d: nat, t: nat, e: nat)
    requires t <= |h.merges| && Upward(h.Parent()) && end < h.Leaves()
  {
    && h.Leaves() <= e < h.Leaves() + t
    && h.Alive(t) == {e} + Range(t, d)
    && h.Weights(t)[e] == 2 * Fib(t + 2) - 1
    && h.Weights(t)[..h.Leaves()] == h.count
    && Depth(h.Parent(), end) == t + Depth(h.Parent(), e)
  }

  lemma FibPositive(n: nat)
    requires n >= 1
    ensures Fib(n) >= 1
  {
    FibMonotone(1, n);
  }

  /** With two live nodes left, merging is not finished. */
  lemma MoreMerges(h: Tree, t: nat, x: nat, y: nat)
    requires h.Complete() && t <= |h.merges| && x in h.Alive(t) && y in h.Alive(t) && x != y
    ensures t < |h.merges|
  {
    var r := Root(h);
  }

  lemma FirstMerge(h: Tree, end: nat, d: nat, extra: nat) returns (z: nat)
    requires h.Complete() && FibonacciCounts(h, end, d, extra)
    ensures 0 < |h.merges| && z < 2 && h.merges[0] == (end, 1 - z)
    ensures h.Alive(1) == {h.Leaves(), z} + Range(2, d)
    ensures h.Weights(1) == h.count + [3]
    ensures h.count[0] == h.count[1] == 2 && forall i | 2 <= i < d :: h.count[i] >= 4
  {
    forall i | 0 <= i < d
      ensures h.count[i] >= 2 && (i >= 2 ==> h.count[i] >= 4)
    {
      FibPositive(i + 1);
      if i >= 2 {
        FibMonotone(3, i + 1);
      }
    }
    assert h.count[0] == 2 && h.count[1] == 2;
    MoreMerges(h, 0, 0, end);
    assert h.GreedyAt(0);
    z := 1 - h.merges[0].1;
  }

  lemma SecondMerge(h: Tree, end: nat, d: nat, extra: nat)
    requires h.Complete() && FibonacciCounts(h, end, d, extra)
    ensures 1 < |h.merges|
    ensures h.merges[0].0 == end && h.merges[1].1 == h.Leaves()
    ensures h.Alive(2) == {h.Leaves() + 1} + Range(2, d)
    ensures h.Weights(2) == h.count + [3] + [5]
  {
    var z := FirstMerge(h, end, d, extra);
    MoreMerges(h, 1, z, h.Leaves());
    assert h.GreedyAt(1);
    assert h.merges[1] == (z, h.Leaves());
  }

  lemma CaterpillarStart(h: Tree, end: nat, d: nat, extra: nat) returns (e: nat)
    requires h.Complete() && FibonacciCounts(h, end, d, extra) && Upward(h.Parent())
    ensures 2 <= |h.merges| && Caterpillar(h, end, d, 2, e)
  {
    SecondMerge(h, end, d, extra);
    e := h.Leaves() + 1;
    Stage(h, 0);
    Stage(h, 1);
    assert Fib(4) == 3;
  }

  lemma CaterpillarLightest(h: Tree, end: nat, d: nat, extra: nat, t: nat, e: nat)
    requires FibonacciCounts(h, end, d, extra) && Upward(h.Parent())
    requires 2 <= t < d && t < |h.merges| && Caterpillar(h, end, d, t, e)
    ensures forall i | t < i < d :: h.Weights(t)[i] > h.Weights(t)[e] && h.Weights(t)[i] > h.Weights(t)[t]
  {
    var w := h.Weights(t);
    FibPositive(t);
    FibNext(t);
    forall i | t < i < d
      ensures w[i] > w[e] && w[i] > w[t]
    {
      FibMonotone(t + 2, i + 1);
    }
  }

  lemma CaterpillarMerge(h: Tree, end: nat, d: nat, extra: nat, t: nat, e: nat)
    requires h.Greedy() && FibonacciCounts(h, end, d, extra) && Upward(h.Parent())
    requires 2 <= t < d && t < |h.merges| && Caterpillar(h, end, d, t, e)
    ensures h.merges[t] == (t, e) || h.merges[t] == (e, t)
  {
    assert h.GreedyAt(t);
    CaterpillarLightest(h, end, d, extra, t, e);
    hide Fib, FibonacciCounts, Depth, Upward;
    var a, w := h.Alive(t), h.Weights(t);
    assert t in a && e in a && t != e;
    assert forall i | i in a :: i == e || i == t || w[i] > w[e];
  }

  lemma CaterpillarNext(h: Tree, end: nat, d: nat, extra: nat, t: nat, e: nat)
    requires h.Greedy() && FibonacciCounts(h, end, d, extra) && Upward(h.Parent())
    requires 2 <= t < d && t < |h.merges| && Caterpillar(h, end, d, t, e)
    ensures t + 1 < d || extra == 0 ==> Caterpillar(h, end, d, t + 1, h.Leaves() + t)
    ensures h.Alive(t + 1) == {h.Leaves() + t} + Range(t + 1, d)
    ensures Depth(h.Parent(), end) == t + 1 + Depth(h.Parent(), h.Leaves() + t)
  {
    hide *;
    EndInside(h, end, d, extra);
    CaterpillarMerge(h, end, d, extra, t, e);
    Stage(h, t);
    CaterpillarIs(h, end, d, t, e);
    CaterpillarWeight(h, end, d, extra, t, e);
    GreedyHere(h, t);
    NextStage(h, t);
    RangeStep(t, d);
    var p, k := h.Leaves() + t, t + 1;
    assert h.Alive(k) == {p} + Range(k, d);
    assert h.Weights(k)[..h.Leaves()] == h.Weights(t)[..h.Leaves()];
    if k < d || extra == 0 {
      IsCaterpillar(h, end, d, k, p);
    }
  }

  lemma CaterpillarWeight(h: Tree, end: nat, d: nat, extra: nat, t: nat, e: nat)
    requires FibonacciCounts(h, end, d, extra) && Upward(h.Parent())
    requires 2 <= t < d && t < |h.merges| && Caterpillar(h, end, d, t, e)
    ensures t + 1 < d || extra == 0 ==> h.Weights(t)[t] + h.Weights(t)[e] == 2 * Fib(t + 3) - 1
  {
    hide Depth, Upward;
    FibNext(t + 1);
    assert h.Weights(t)[t] == h.Weights(t)[..h.Leaves()][t];
  }

  lemma RangeStep(t: nat, d: nat)
    requires t < d
    ensures Range(t, d) == {t} + Range(t + 1, d)
  {
  }

  lemma EndInside(h: Tree, end: nat, d: nat, extra: nat)
    requires FibonacciCounts(h, end, d, extra)
    ensures 3 <= d <= end < h.Leaves()
  {
  }

  lemma CaterpillarIs(h: Tree, end: nat, d: nat, t: nat, e: nat)
    requires t <= |h.merges| && Upward(h.Parent()) && end < h.Leaves() && Caterpillar(h, end, d, t, e)
    ensures h.Leaves() <= e < h.Leaves() + t && h.Alive(t) == {e} + Range(t, d)
    ensures h.Weights(t)[..h.Leaves()] == h.count && Depth(h.Parent(), end) == t + Depth(h.Parent(), e)
  {
  }

  lemma IsCaterpillar(h: Tree, end: nat, d: nat, t: nat, e: nat)
    requires t <= |h.merges| && Upward(h.Parent()) && end < h.Leaves() && h.Leaves() <= e < h.Leaves() + t
    requires h.Alive(t) == {e} + Range(t, d) && h.Weights(t)[e] == 2 * Fib(t + 2) - 1
    requires h.Weights(t)[..h.Leaves()] == h.count && Depth(h.Parent(), end) == t + Depth(h.Parent(), e)
    ensures Caterpillar(h, end, d, t, e)
  {
  }

  lemma CaterpillarEnds(h: Tree, end: nat, d: nat, extra: nat, t: nat, e: nat)
    requires FibonacciCounts(h, end, d, extra) && Upward(h.Parent())
    requires t <= |h.merges| && t < d && Caterpillar(h, end, d, t, e)
    ensures t in h.Alive(t) && e != t && e in h.Alive(t)
  {
    hide Fib, Depth;
  }

  lemma {:induction false} CaterpillarAt(h: Tree, end: nat, d: nat, extra: nat, t: nat) returns (e: nat)
    requires h.Complete() && FibonacciCounts(h, end, d, extra) && Upward(h.Parent())
    requires 2 <= t < d
    ensures t <= |h.merges| && Caterpillar(h, end, d, t, e)
  {
    hide Fib, FibonacciCounts, Depth, Upward, Caterpillar;
    if t == 2 {
      e := CaterpillarStart(h, end, d, extra);
    } else {
      var k := t - 1;
      e := CaterpillarAt(h, end, d, extra, k);
      CaterpillarEnds(h, end, d, extra, k, e);
      MoreMerges(h, k, e, k);
      CaterpillarNext(h, end, d, extra, k, e);
      e := h.Leaves() + k;
    }
  }

  /** Fibonacci counts give the odd symbol depth d exactly. */
  lemma FibonacciDepth(h: Tree, end: nat, d: nat, extra: nat)
    requires h.Complete() && FibonacciCounts(h, end, d, extra)
    ensures h.LeafDepths()[end] == d
  {
    var r := Root(h);
    var e := CaterpillarAt(h, end, d, extra, d - 1);
    MoreMerges(h, d - 1, e, d - 1);
    CaterpillarNext(h, end, d, extra, d - 1, e);
    assert h.Alive(d) == {h.Leaves() + d - 1};
    assert d < |h.merges| ==> h.GreedyAt(d);
  }
}
