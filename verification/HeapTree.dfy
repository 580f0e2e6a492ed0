/** The heap of pack holds exactly the live nodes of the tree under construction. */
module HeapTree {
  import opened HuffmanTree
  import opened PackHeap

  ghost function Entries(a: set<nat>, w: seq<nat>): set<Entry>
    requires forall x | x in a :: x < |w|
  {
    set x | x in a :: Entry(w[x], x)
  }

  /** Positions 1..n hold one entry for each node of a, with its weight. */
  ghost predicate HeapHolds(h: seq<Entry>, n: nat, a: set<nat>, w: seq<nat>) {
    && n < |h| && n == |a| && (forall x | x in a :: x < |w|)
    && multiset(h[1..n + 1]) == multiset(Entries(a, w))
  }

  lemma EntryOf(h: seq<Entry>, n: nat, a: set<nat>, w: seq<nat>, k: nat)
    requires HeapHolds(h, n, a, w) && 1 <= k <= n
    ensures h[k].node in a && h[k].count == w[h[k].node]
  {
    assert h[k] == h[1..n + 1][k - 1];
    assert h[k] in multiset(h[1..n + 1]);
    assert h[k] in Entries(a, w);
  }

  lemma PlaceOf(h: seq<Entry>, n: nat, a: set<nat>, w: seq<nat>, x: nat) returns (k: nat)
    requires HeapHolds(h, n, a, w) && x in a
    ensures 1 <= k <= n && h[k] == Entry(w[x], x)
  {
    assert Entry(w[x], x) in Entries(a, w);
    assert Entry(w[x], x) in multiset(h[1..n + 1]);
    var j :| 0 <= j < n && h[1..n + 1][j] == Entry(w[x], x);
    k := j + 1;
  }

  lemma TopIsLightest(h: seq<Entry>, n: nat, a: set<nat>, w: seq<nat>)
    requires HeapHolds(h, n, a, w) && HeapFrom(h, n, 1) && n >= 1
    ensures h[1].node in a && h[1].count == w[h[1].node]
    ensures forall x | x in a :: w[h[1].node] <= w[x]
  {
    EntryOf(h, n, a, w, 1);
    forall x | x in a
      ensures w[h[1].node] <= w[x]
    {
      var k := PlaceOf(h, n, a, w, x);
      TopIsLeast(h, n, k);
    }
  }

  /** Entries of a without x. */
  lemma EntriesRemove(a: set<nat>, w: seq<nat>, x: nat)
    requires (forall y | y in a :: y < |w|) && x in a
    ensures multiset(Entries(a - {x}, w)) == multiset(Entries(a, w)) - multiset{Entry(w[x], x)}
  {
    assert Entries(a - {x}, w) == Entries(a, w) - {Entry(w[x], x)};
  }

  lemma EntriesAdd(a: set<nat>, w: seq<nat>, v: nat)
    requires forall y | y in a :: y < |w|
    ensures multiset(Entries(a + {|w|}, w + [v])) == multiset(Entries(a, w)) + multiset{Entry(v, |w|)}
  {
    var e := Entry(v, |w|);
    assert Entries(a + {|w|}, w + [v]) == Entries(a, w) + {e} by {
      forall x | x in Entries(a, w) + {e}
        ensures x in Entries(a + {|w|}, w + [v])
      {
        assert (w + [v])[x.node] == x.count;
      }
    }
    assert e !in Entries(a, w);
  }

  lemma LastToFirst(s: seq<Entry>)
    requires |s| >= 2
    ensures multiset(s[0 := s[|s| - 1]][..|s| - 1]) == multiset(s) - multiset{s[0]}
  {
    var n, mid := |s|, s[1..|s| - 1];
    assert s[0 := s[n - 1]][..n - 1] == [s[n - 1]] + mid;
    assert s == [s[0]] + mid + [s[n - 1]];
    assert multiset(s) == multiset{s[0]} + multiset(mid) + multiset{s[n - 1]};
    assert multiset([s[n - 1]] + mid) == multiset{s[n - 1]} + multiset(mid);
  }

  /** Moving the last entry to the top drops the top entry. */
  lemma Popped(h: seq<Entry>, n: nat)
    requires 2 <= n < |h|
    ensures multiset(h[1 := h[n]][1..n]) == multiset(h[1..n + 1]) - multiset{h[1]}
  {
    var s := h[1..n + 1];
    LastToFirst(s);
    var t, u := h[1 := h[n]][1..n], s[0 := s[|s| - 1]][..|s| - 1];
    assert |t| == |u| == n - 1;
    forall i | 0 <= i < n - 1
      ensures t[i] == u[i]
    {
      var k := i + 1;
      assert t[i] == h[1 := h[n]][k] && (i > 0 ==> u[i] == s[i] == h[k]);
    }
    assert t == u;
  }

  lemma AfterPop(h: seq<Entry>, n: nat, a: set<nat>, w: seq<nat>)
    requires HeapHolds(h, n, a, w) && n >= 2
    ensures HeapHolds(h[1 := h[n]], n - 1, a - {h[1].node}, w)
  {
    hide Entries;
    EntryOf(h, n, a, w, 1);
    EntriesRemove(a, w, h[1].node);
    Popped(h, n);
  }

  /** Replacing the top entry by a new node. */
  lemma AfterMerge(h: seq<Entry>, n: nat, a: set<nat>, w: seq<nat>, v: nat)
    requires HeapHolds(h, n, a, w) && n >= 1
    ensures HeapHolds(h[1 := Entry(v, |w|)], n, a - {h[1].node} + {|w|}, w + [v])
  {
    EntryOf(h, n, a, w, 1);
    EntriesRemove(a, w, h[1].node);
    EntriesAdd(a - {h[1].node}, w, v);
    var s := h[1..n + 1];
    assert h[1 := Entry(v, |w|)][1..n + 1] == s[0 := Entry(v, |w|)];
  }

  lemma Resifted(h: seq<Entry>, g: seq<Entry>, n: nat, a: set<nat>, w: seq<nat>)
    requires HeapHolds(h, n, a, w) && exists top: nat :: Rearranged(h, g, n, top)
    ensures HeapHolds(g, n, a, w)
  {
  }

  lemma EmptyHeap(h: seq<Entry>, w: seq<nat>)
    requires |h| > 1
    ensures HeapHolds(h, 0, {}, w)
  {
    assert h[1..1] == [];
  }

  lemma EntryPushed(h: seq<Entry>, g: seq<Entry>, n: nat, a: set<nat>, w: seq<nat>, x: nat)
    requires 1 <= n < |h| && HeapHolds(h, n - 1, a, w) && x < |w| && x !in a
    requires g == h[n := Entry(w[x], x)]
    ensures HeapHolds(g, n, a + {x}, w)
  {
    assert g[1..n + 1] == h[1..n] + [Entry(w[x], x)];
    EntriesRemove(a + {x}, w, x);
    assert a + {x} - {x} == a;
  }

  lemma LightestPair(a: set<nat>, w: seq<nat>, x: nat, y: nat)
    requires (forall i | i in a :: i < |w|) && x in a && y in a - {x}
    requires forall i | i in a :: w[x] <= w[i]
    requires forall i | i in a - {x} :: w[y] <= w[i]
    ensures Lightest(a, w, x, y)
  {
  }

  lemma NoParents(h: seq<Entry>, n: nat)
    requires n < |h|
    ensures HeapFrom(h, n, n / 2 + 1)
  {
  }

  lemma OneLeft(a: set<nat>)
    requires |a| == 1
    ensures exists r :: a == {r}
  {
    var r :| r in a;
    assert |a - {r}| == 0;
    assert a == {r};
  }

  /** Only the top of the heap may be out of place after it has been overwritten. */
  lemma BelowTop(h: seq<Entry>, n: nat, m: nat, e: Entry)
    requires m <= n < |h| && |h| > 1 && HeapFrom(h, n, 1)
    ensures HeapFrom(h[1 := e], m, 2)
  {
  }

  // ---- Recording a merge

  lemma {:induction false} Recorded(h: Tree, g: Tree, t: nat)
    requires g.count == h.count && |g.merges| == |h.merges| + 1 && g.merges[..|h.merges|] == h.merges
    requires t <= |h.merges|
    ensures g.Weights(t) == h.Weights(t) && g.Alive(t) == h.Alive(t) && g.Parents(t) == h.Parents(t)
  {
    if t > 0 {
      Recorded(h, g, t - 1);
      assert g.merges[t - 1] == h.merges[t - 1];
    }
  }

  ghost function Record(h: Tree, x: nat, y: nat): Tree {
    Tree(h.count, h.merges + [(x, y)])
  }

  lemma GreedyRecorded(h: Tree, x: nat, y: nat)
    requires h.Greedy() && Lightest(h.Alive(|h.merges|), h.Weights(|h.merges|), x, y)
    ensures Record(h, x, y).Greedy()
  {
    hide Lightest;
    var t, g := |h.merges|, Record(h, x, y);
    assert g.merges[..t] == h.merges;
    forall u | 0 <= u <= t
      ensures g.GreedyAt(u)
    {
      Recorded(h, g, u);
      if u < t {
        assert h.GreedyAt(u);
        assert g.merges[u] == h.merges[u];
      }
    }
  }

  lemma MergeRecorded(h: Tree, x: nat, y: nat)
    requires h.Greedy() && Lightest(h.Alive(|h.merges|), h.Weights(|h.merges|), x, y)
    requires x < h.Leaves() + |h.merges| && y < h.Leaves() + |h.merges|
    ensures var t, g := |h.merges|, Record(h, x, y);
            && g.Greedy() && |g.merges| == t + 1
            && g.Alive(t + 1) == h.Alive(t) - {x} - {y} + {h.Leaves() + t}
            && g.Weights(t + 1) == h.Weights(t) + [h.Weights(t)[x] + h.Weights(t)[y]]
            && g.Parents(t + 1) == h.Parents(t)[x := h.Leaves() + t][y := h.Leaves() + t] + [0]
  {
    hide *;
    GreedyRecorded(h, x, y);
    var t, g := |h.merges|, Record(h, x, y);
    RecordIs(h, x, y);
    Recorded(h, g, t);
    NextStage(g, t);
    assert h.Alive(t) - {x, y} == h.Alive(t) - {x} - {y};
  }

  lemma RecordIs(h: Tree, x: nat, y: nat)
    ensures var t, g := |h.merges|, Record(h, x, y);
            && g.count == h.count && g.Leaves() == h.Leaves() && |g.merges| == t + 1
            && g.merges[..t] == h.merges && g.merges[t] == (x, y)
  {
  }

  /** A node has no parent exactly if it is alive or never occurred. */
  lemma {:induction false} ParentOrAlive(h: Tree, c: nat, t: nat)
    requires h.Greedy() && t <= |h.merges| && c < h.Leaves() + t
    ensures h.Parents(t)[c] != 0 <==> (c in h.Symbols() || c >= h.Leaves()) && c !in h.Alive(t)
    ensures c in h.Alive(t) ==> c in h.Symbols() || c >= h.Leaves()
  {
    if t != 0 {
      UpwardParents(h, t - 1);
      assert h.GreedyAt(t - 1);
      var p := h.Parents(t - 1);
      var (x, y) := h.merges[t - 1];
      assert h.Parents(t) == p[x := |p|][y := |p|] + [0];
      if c < |p| {
        ParentOrAlive(h, c, t - 1);
        assert h.Parents(t)[c] == if c == x || c == y then |p| else p[c];
      }
    }
  }

  /** The parent array agrees with the history h, except that the entries of live inner nodes are not
      set yet. */
  ghost predicate ParentsHold(p: seq<nat>, h: Tree) {
    && h.Leaves() + |h.merges| <= |p|
    && forall i | 0 <= i < h.Leaves() + |h.merges| && (i < h.Leaves() || i !in h.Alive(|h.merges|)) ::
         p[i] == h.Parent()[i]
  }

  lemma ParentsStep(p: seq<nat>, h: Tree, x: nat, y: nat)
    requires ParentsHold(p, h) && h.Greedy() && h.Leaves() + |h.merges| < |p|
    requires Lightest(h.Alive(|h.merges|), h.Weights(|h.merges|), x, y)
    requires x < h.Leaves() + |h.merges| && y < h.Leaves() + |h.merges|
    ensures var k := h.Leaves() + |h.merges|; ParentsHold(p[x := k][y := k], Record(h, x, y))
  {
    hide Lightest;
    MergeRecorded(h, x, y);
    RecordIs(h, x, y);
  }

  /** The heap array holds the live nodes of h. */
  ghost predicate HeapOf(s: seq<Entry>, n: nat, h: Tree) {
    && n < |s| && HeapFrom(s, n, 1)
    && HeapHolds(s, n, h.Alive(|h.merges|), h.Weights(|h.merges|))
  }

  lemma HeapIsOf(s: seq<Entry>, n: nat, h: Tree)
    requires n < |s| && HeapFrom(s, n, 1) && h.merges == [] && HeapHolds(s, n, h.Alive(0), h.count)
    ensures HeapOf(s, n, h)
  {
  }

  lemma HeapInside(s: seq<Entry>, n: nat, h: Tree)
    requires HeapOf(s, n, h)
    ensures n < |s|
  {
  }

  lemma RecordFields(h: Tree, x: nat, y: nat)
    ensures Record(h, x, y).count == h.count && |Record(h, x, y).merges| == |h.merges| + 1
  {
  }

  /** The heap after its top x has been taken off and the last entry put there. */
  lemma FirstTaken(s: seq<Entry>, n: nat, h: Tree)
    requires n >= 2 && HeapOf(s, n, h)
    ensures s[1].node in h.Alive(|h.merges|) && s[1].node < |h.Weights(|h.merges|)|
    ensures s[1].count == h.Weights(|h.merges|)[s[1].node]
    ensures HeapFrom(s[1 := s[n]], n - 1, 2)
    ensures HeapHolds(s[1 := s[n]], n - 1, h.Alive(|h.merges|) - {s[1].node}, h.Weights(|h.merges|))
    ensures forall i | i in h.Alive(|h.merges|) ::
              i < |h.Weights(|h.merges|)| && s[1].count <= h.Weights(|h.merges|)[i]
  {
    var a, w := h.Alive(|h.merges|), h.Weights(|h.merges|);
    TopIsLightest(s, n, a, w);
    AfterPop(s, n, a, w);
    BelowTop(s, n, n - 1, s[n]);
  }

  lemma SecondTakenHeap(s: seq<Entry>, n: nat, a: set<nat>, w: seq<nat>, x: nat)
    requires 1 <= n < |s| && HeapFrom(s, n, 1) && HeapHolds(s, n, a - {x}, w)
    requires x in a && x < |w| && forall i | i in a :: i < |w| && w[x] <= w[i]
    ensures s[1].node < |w| && Lightest(a, w, x, s[1].node) && s[1].count == w[s[1].node]
    ensures var e := Entry(w[x] + s[1].count, |w|);
            && HeapFrom(s[1 := e], n, 2)
            && HeapHolds(s[1 := e], n, a - {x} - {s[1].node} + {|w|}, w + [w[x] + s[1].count])
  {
    hide HeapHolds, HeapFrom;
    var v := w[x] + s[1].count;
    TopIsLightest(s, n, a - {x}, w);
    LightestPair(a, w, x, s[1].node);
    AfterMerge(s, n, a - {x}, w, v);
    BelowTop(s, n, n, Entry(v, |w|));
  }

  /** The heap after its new top y has been replaced by the parent of x and y. */
  lemma SecondTaken(s: seq<Entry>, n: nat, h: Tree, x: nat)
    requires 1 <= n < |s| && HeapFrom(s, n, 1) && h.Greedy()
    requires HeapHolds(s, n, h.Alive(|h.merges|) - {x}, h.Weights(|h.merges|))
    requires x in h.Alive(|h.merges|) && x < |h.Weights(|h.merges|)|
    requires forall i | i in h.Alive(|h.merges|) ::
               i < |h.Weights(|h.merges|)| && h.Weights(|h.merges|)[x] <= h.Weights(|h.merges|)[i]
    ensures Lightest(h.Alive(|h.merges|), h.Weights(|h.merges|), x, s[1].node)
    ensures s[1].node < h.Leaves() + |h.merges|
    ensures var g := Record(h, x, s[1].node);
            var e := Entry(h.Weights(|h.merges|)[x] + s[1].count, h.Leaves() + |h.merges|);
            && g.Greedy() && HeapFrom(s[1 := e], n, 2)
            && HeapHolds(s[1 := e], n, g.Alive(|g.merges|), g.Weights(|g.merges|))
  {
    hide HeapHolds, HeapFrom, Lightest, Record;
    SecondTakenHeap(s, n, h.Alive(|h.merges|), h.Weights(|h.merges|), x);
    MergeRecorded(h, x, s[1].node);
  }

  lemma ParentsStart(p: seq<nat>, h: Tree)
    requires h.merges == [] && h.Leaves() <= |p| && forall i | 0 <= i < h.Leaves() :: p[i] == 0
    ensures ParentsHold(p, h)
  {
  }

  /** When one entry is left in the heap, the tree is complete, and only the root's entry of the parent
      array is still to be set. */
  lemma AllMerged(s: seq<Entry>, h: Tree, p: seq<nat>)
    requires h.Greedy() && HeapOf(s, 1, h) && ParentsHold(p, h)
    requires h.Leaves() > 0 && h.Leaves() - 1 in h.Symbols()
    ensures h.Complete()
    ensures var r := h.Leaves() + |h.merges| - 1; p[r := 0][..r + 1] == h.Parent()
  {
    OneLeft(h.Alive(|h.merges|));
    var r := h.Leaves() + |h.merges| - 1;
    assert r in h.Alive(|h.merges|);
    forall i | 0 <= i <= r
      ensures p[r := 0][i] == h.Parent()[i]
    {
      ParentOrAlive(h, i, |h.merges|);
    }
  }
}
