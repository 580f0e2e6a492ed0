/** The tree is also the greedy one for the weights that count END as much as any occurrence of a byte: the
    one odd weight can be rounded up without changing any merge. */
module RoundedEnd {
  import opened KraftCost
  import opened HuffmanTree
  import opened PrefixCode
  import opened DepthBound

  ghost function Rounded(h: Tree, end: nat): Tree
    requires end < h.Leaves()
  {
    Tree(h.count[end := 2], h.merges)
  }

  /** Of the live nodes, e alone has an odd weight, and v has the weights w with that one rounded up. */
  ghost predicate RoundsUp(a: set<nat>, w: seq<nat>, v: seq<nat>, e: nat) {
    && |v| == |w| && (forall x | x in a :: x < |w|)
    && e in a && w[e] % 2 == 1 && v[e] == w[e] + 1
    && forall x | x in a && x != e :: w[x] % 2 == 0 && v[x] == w[x]
  }

  lemma StillLightest(a: set<nat>, w: seq<nat>, v: seq<nat>, e: nat, x: nat, y: nat)
    requires RoundsUp(a, w, v, e) && Lightest(a, w, x, y)
    ensures Lightest(a, v, x, y)
  {
    forall i | i in a
      ensures v[x] <= v[i] && (i != x ==> v[y] <= v[i])
    {
      assert w[x] <= w[i] && (i != x ==> w[y] <= w[i]);
    }
  }

  lemma RoundsUpMerged(a: set<nat>, w: seq<nat>, v: seq<nat>, e: nat, x: nat, y: nat) returns (f: nat)
    requires RoundsUp(a, w, v, e) && Lightest(a, w, x, y)
    ensures RoundsUp(a - {x, y} + {|w|}, w + [w[x] + w[y]], v + [v[x] + v[y]], f)
  {
    assert w[x] % 2 == (if x == e then 1 else 0) && w[y] % 2 == (if y == e then 1 else 0);
    SumParity(w[x], w[y]);
    f := if e == x || e == y then |w| else e;
    assert v[x] + v[y] == w[x] + w[y] + if f == |w| then 1 else 0;
  }

  lemma SumParity(p: nat, q: nat)
    ensures (p + q) % 2 == if p % 2 == q % 2 then 0 else 1
  {
  }

  lemma {:induction false} SameParents(h: Tree, g: Tree, t: nat)
    requires g.merges == h.merges && g.Leaves() == h.Leaves() && t <= |h.merges|
    ensures g.Parents(t) == h.Parents(t)
  {
    if t > 0 {
      SameParents(h, g, t - 1);
    }
  }

  lemma FirstStage(h: Tree, end: nat)
    requires OneOdd(h, end)
    ensures Rounded(h, end).Alive(0) == h.Alive(0)
    ensures RoundsUp(h.Alive(0), h.Weights(0), Rounded(h, end).Weights(0), end)
  {
  }

  lemma RoundedFields(h: Tree, end: nat)
    requires end < h.Leaves()
    ensures Rounded(h, end).merges == h.merges && Rounded(h, end).Leaves() == h.Leaves()
  {
  }

  lemma InRangeOf(a: set<nat>, w: seq<nat>, v: seq<nat>, e: nat, x: nat, y: nat)
    requires RoundsUp(a, w, v, e) && Lightest(a, w, x, y)
    ensures x < |w| && y < |w| && |v| == |w|
  {
  }

  lemma {:induction false} RoundedStage(h: Tree, end: nat, t: nat) returns (e: nat)
    requires h.Greedy() && OneOdd(h, end) && end < h.Leaves() && t <= |h.merges|
    ensures Rounded(h, end).merges == h.merges
    ensures Rounded(h, end).Alive(t) == h.Alive(t)
    ensures RoundsUp(h.Alive(t), h.Weights(t), Rounded(h, end).Weights(t), e)
  {
    hide *;
    RoundedFields(h, end);
    if t == 0 {
      e := end;
      FirstStage(h, end);
    } else {
      var g, k := Rounded(h, end), t - 1;
      var f := RoundedStage(h, end, k);
      GreedyHere(h, k);
      var (x, y) := h.merges[k];
      InRangeOf(h.Alive(k), h.Weights(k), g.Weights(k), f, x, y);
      NextStage(h, k);
      NextStage(g, k);
      e := RoundsUpMerged(h.Alive(k), h.Weights(k), g.Weights(k), f, x, y);
    }
  }

  lemma RoundedIsGreedy(h: Tree, end: nat)
    requires h.Complete() && OneOdd(h, end)
    ensures Rounded(h, end).Complete() && Rounded(h, end).Symbols() == h.Symbols()
    ensures Rounded(h, end).LeafDepths() == h.LeafDepths()
  {
    var g := Rounded(h, end);
    forall t | 0 <= t < |g.merges|
      ensures g.GreedyAt(t)
    {
      var e := RoundedStage(h, end, t);
      assert h.GreedyAt(t);
      StillLightest(h.Alive(t), h.Weights(t), g.Weights(t), e, h.merges[t].0, h.merges[t].1);
    }
    var e := RoundedStage(h, end, |h.merges|);
    SameParents(h, g, |h.merges|);
  }

  /** No prefix code has a smaller total length when END counts for two as well. */
  lemma OptimalRounded(h: Tree, end: nat, code: seq<CodeWord>)
    requires h.Complete() && OneOdd(h, end) && |code| == h.Leaves() && PrefixFree(h.Symbols(), code)
    ensures Cost(h.Symbols(), h.count[end := 2], h.LeafDepths())
            <= Cost(h.Symbols(), h.count[end := 2], WordLengths(code))
  {
    RoundedIsGreedy(h, end);
    OptimalAmongPrefixCodes(Rounded(h, end), code);
  }
}
