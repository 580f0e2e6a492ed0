/** The binary heap of pack: a 1-based array of (count, node) pairs with the least count on top. */
module PackHeap {
  datatype Entry = Entry(count: nat, node: nat)

  predicate Child(p: nat, c: nat) {
    c == 2 * p || c == 2 * p + 1
  }

  /** Every parent at position i or later is no heavier than its children. */
  ghost predicate HeapFrom(h: seq<Entry>, n: nat, i: nat)
    requires n < |h|
  {
    forall p: nat, c: nat | Child(p, c) && i <= p && 2 <= c <= n :: h[p].count <= h[c].count
  }

  lemma {:induction false} TopIsLeast(h: seq<Entry>, n: nat, k: nat)
    requires 1 <= k <= n < |h| && HeapFrom(h, n, 1)
    ensures h[1].count <= h[k].count
  {
    if k > 1 {
      TopIsLeast(h, n, k / 2);
      assert Child(k / 2, k);
    }
  }

  lemma SwapKeepsEntries(h: seq<Entry>, n: nat, i: nat, k: nat)
    requires n < |h| && 1 <= i <= n && 1 <= k <= n
    ensures multiset(h[i := h[k]][k := h[i]][1..n + 1]) == multiset(h[1..n + 1])
  {
    var s := h[1..n + 1];
    assert h[i := h[k]][k := h[i]][1..n + 1] == s[i - 1 := s[k - 1]][k - 1 := s[i - 1]];
  }

  /** The heap while entry v is on its way down and position i is free for it: around i, the parent
      of i is no heavier than v and the children of i. */
  ghost predicate Sifting(h: seq<Entry>, n: nat, top: nat, i: nat, v: Entry) {
    && n < |h| && 1 <= top <= i <= n
    && (forall p: nat, c: nat | Child(p, c) && top <= p && c <= n && c != i && p != i ::
          h[p].count <= h[c].count)
    && (forall p: nat | Child(p, i) && top <= p :: h[p].count <= v.count)
    && (forall p: nat, c: nat | Child(p, i) && Child(i, c) && top <= p && c <= n ::
          h[p].count <= h[c].count)
  }

  /** The position of the lighter child of i, the left one on equal counts. */
  function LighterChild(h: seq<Entry>, n: nat, i: nat): nat
    requires 1 <= i && 2 * i <= n && 2 * i + 1 < |h|
  {
    if h[2 * i].count > h[2 * i + 1].count && 2 * i < n then 2 * i + 1 else 2 * i
  }

  lemma SiftDown(h: seq<Entry>, n: nat, top: nat, i: nat, v: Entry)
    requires Sifting(h, n, top, i, v) && 1 <= i && 2 * i <= n && 2 * i + 1 < |h|
    requires h[LighterChild(h, n, i)].count <= v.count
    ensures var k := LighterChild(h, n, i); Sifting(h[i := h[k]], n, top, k, v)
  {
  }

  lemma SiftKeepsEntries(h: seq<Entry>, n: nat, i: nat, v: Entry, k: nat)
    requires n < |h| && 1 <= i <= n && 1 <= k <= n && i != k
    ensures multiset(h[i := h[k]][k := v][1..n + 1]) == multiset(h[i := v][1..n + 1])
  {
    var u := h[i := v];
    assert h[i := h[k]][k := v] == u[i := u[k]][k := u[i]];
    SwapKeepsEntries(u, n, i, k);
  }

  lemma SiftDone(h: seq<Entry>, n: nat, top: nat, i: nat, v: Entry)
    requires Sifting(h, n, top, i, v) && 1 <= i && (2 * i <= n ==> 2 * i + 1 < |h|)
    requires n < 2 * i || v.count <= h[LighterChild(h, n, i)].count
    ensures HeapFrom(h[i := v], n, top)
  {
  }

  /** g has the entries of h at 1..n, and is h below position top. */
  ghost predicate Rearranged(h: seq<Entry>, g: seq<Entry>, n: nat, top: nat) {
    && |g| == |h| && 1 <= top <= n < |h|
    && multiset(g[1..n + 1]) == multiset(h[1..n + 1]) && g[..top] == h[..top]
  }

  /** The loop state of Heapify: h with v put back at i is a rearrangement of h0. */
  ghost predicate State(h0: seq<Entry>, h: seq<Entry>, n: nat, top: nat, i: nat, v: Entry) {
    Sifting(h, n, top, i, v) && Rearranged(h0, h[i := v], n, top)
  }

  lemma Start(h: seq<Entry>, n: nat, top: nat)
    requires 1 <= top <= n < |h| && HeapFrom(h, n, top + 1)
    ensures State(h, h, n, top, top, h[top])
  {
    assert h[top := h[top]] == h;
  }

  lemma Step(h0: seq<Entry>, h: seq<Entry>, n: nat, top: nat, i: nat, v: Entry)
    requires State(h0, h, n, top, i, v) && 1 <= i && 2 * i <= n && 2 * i + 1 < |h|
    requires h[LighterChild(h, n, i)].count <= v.count
    ensures var k := LighterChild(h, n, i); State(h0, h[i := h[k]], n, top, k, v)
  {
    SiftDown(h, n, top, i, v);
    SiftKeepsEntries(h, n, i, v, LighterChild(h, n, i));
  }

  /** Makes a heap of heap[top..n], given that heap[top + 1..n] is one. */
  method Heapify(heap: array<Entry>, n: nat, top: nat)
    requires 1 <= top <= n < heap.Length && n / 2 * 2 + 1 < heap.Length
    requires HeapFrom(heap[..], n, top + 1)
    modifies heap
    ensures HeapFrom(heap[..], n, top)
    ensures Rearranged(old(heap[..]), heap[..], n, top)
  {
    hide State, HeapFrom, Rearranged, Sifting, Child;
    ghost var h0, h := heap[..], heap[..];
    var i, heapsubi, lastparent := top, heap[top], n / 2;
    Start(h, n, top);
    while i <= lastparent
      invariant top <= i <= n && h == heap[..] && State(h0, h, n, top, i, heapsubi)
      decreases n - i
    {
      var k := 2 * i;
      if heap[k].count > heap[k + 1].count && k < n {
        k := k + 1;
      }
      assert k == LighterChild(h, n, i);
      if heapsubi.count < heap[k].count {
        break;
      }
      Step(h0, h, n, top, i, heapsubi);
      heap[i] := heap[k];
      h := h[i := h[k]];
      i := k;
    }
    Finish(h0, h, n, top, i, heapsubi);
    heap[i] := heapsubi;
    assert heap[..] == h[i := heapsubi];
  }

  lemma Finish(h0: seq<Entry>, h: seq<Entry>, n: nat, top: nat, i: nat, v: Entry)
    requires State(h0, h, n, top, i, v) && 1 <= i && (2 * i <= n ==> 2 * i + 1 < |h|)
    requires n < 2 * i || v.count <= h[LighterChild(h, n, i)].count
    ensures n < |h0| && i < |h| && HeapFrom(h[i := v], n, top) && Rearranged(h0, h[i := v], n, top)
  {
    SiftDone(h, n, top, i, v);
  }
}
