/** Weighted length and Kraft sum of a length assignment on a set of nodes, and the exchange
    argument: shrinking an assignment by merging the two lightest nodes. */
module KraftCost {
  import opened Sums

  /** The sum of the entries of `t` whose index is in `a`. */
  function Total(a: set<nat>, t: seq<int>): int {
    Sum(Masked(a, t))
  }

  function Masked(a: set<nat>, t: seq<int>): seq<int> {
    seq(|t|, i requires 0 <= i < |t| => if i in a then t[i] else 0)
  }

  lemma TotalUpdate(a: set<nat>, t: seq<int>, k: nat, v: int)
    requires k in a && k < |t|
    ensures Total(a, t[k := v]) == Total(a, t) - t[k] + v
  {
    assert Masked(a, t[k := v]) == Masked(a, t)[k := v];
    SumUpdate(Masked(a, t), k, v);
  }

  lemma TotalRemove(a: set<nat>, t: seq<int>, k: nat)
    requires k in a && k < |t|
    ensures Total(a - {k}, t) == Total(a, t) - t[k]
  {
    assert Masked(a - {k}, t) == Masked(a, t)[k := 0];
    SumUpdate(Masked(a, t), k, 0);
  }

  lemma TotalPush(a: set<nat>, t: seq<int>, v: int)
    requires |t| !in a
    ensures Total(a + {|t|}, t + [v]) == Total(a, t) + v
  {
    assert Masked(a + {|t|}, t + [v]) == Masked(a, t) + [v];
    SumPush(Masked(a, t), v);
  }

  /** Two entries of `a` replaced by one new entry. */
  lemma TotalMerge(a: set<nat>, t: seq<int>, x: nat, y: nat, v: int)
    requires x in a && y in a && x != y && x < |t| && y < |t| && |t| !in a
    ensures Total(a - {x, y} + {|t|}, t + [v]) == Total(a, t) - t[x] - t[y] + v
  {
    TotalRemove(a, t, x);
    TotalRemove(a - {x}, t, y);
    assert a - {x} - {y} == a - {x, y};
    TotalPush(a - {x, y}, t, v);
  }

  function Products(w: seq<nat>, l: seq<nat>): (s: seq<int>)
    requires |l| == |w|
  {
    seq(|w|, i requires 0 <= i < |w| => w[i] * l[i])
  }

  /** Total weighted length of the nodes in `a`. */
  function Cost(a: set<nat>, w: seq<nat>, l: seq<nat>): int
    requires |l| == |w|
  {
    Total(a, Products(w, l))
  }

  function Share(k: nat, m: nat): nat {
    if k <= m then Pow2(m - k) else 0
  }

  function Shares(l: seq<nat>, m: nat): seq<int> {
    seq(|l|, i requires 0 <= i < |l| => Share(l[i], m))
  }

  /** The Kraft sum of the lengths in `a`, scaled by 2^m. */
  function Kraft(a: set<nat>, l: seq<nat>, m: nat): int {
    Total(a, Shares(l, m))
  }

  /** `l` assigns every node of `a` a length of at most `m` and meets Kraft's inequality. */
  ghost predicate Fits(a: set<nat>, l: seq<nat>, m: nat) {
    && (forall i | i in a :: i < |l| && l[i] <= m)
    && Kraft(a, l, m) <= Pow2(m)
  }

  function Swapped(l: seq<nat>, x: nat, y: nat): seq<nat>
    requires x < |l| && y < |l|
  {
    l[x := l[y]][y := l[x]]
  }

  lemma SwapKraft(a: set<nat>, l: seq<nat>, m: nat, x: nat, y: nat)
    requires x in a && y in a && x < |l| && y < |l|
    ensures Kraft(a, Swapped(l, x, y), m) == Kraft(a, l, m)
  {
    var k := Shares(l, m);
    assert Shares(Swapped(l, x, y), m) == k[x := k[y]][y := k[x]];
    TotalUpdate(a, k, x, k[y]);
    TotalUpdate(a, k[x := k[y]], y, k[x]);
  }

  lemma SwapCost(a: set<nat>, w: seq<nat>, l: seq<nat>, x: nat, y: nat)
    requires |l| == |w| && x in a && y in a && x < |w| && y < |w| && x != y
    ensures Cost(a, w, Swapped(l, x, y)) ==
            Cost(a, w, l) - w[x] * l[x] - w[y] * l[y] + w[x] * l[y] + w[y] * l[x]
  {
    var c, p, q := Products(w, l), w[x] * l[y], w[y] * l[x];
    assert Products(w, Swapped(l, x, y)) == c[x := p][y := q];
    TotalUpdate(a, c, x, p);
    TotalUpdate(a, c[x := p], y, q);
  }

  lemma Crossing(a: int, b: int, c: int, d: int)
    ensures (b - a) * (d - c) == a * c + b * d - a * d - b * c
  {
  }

  /** Exchanging the lengths of x and y saves the product of the weight and the length difference. */
  lemma SwapSaving(a: set<nat>, w: seq<nat>, l: seq<nat>, x: nat, y: nat)
    requires |l| == |w| && x in a && y in a && x < |w| && y < |w|
    ensures var saving: int := (w[y] as int - w[x] as int) * (l[y] as int - l[x] as int);
            Cost(a, w, Swapped(l, x, y)) == Cost(a, w, l) - saving
  {
    if x == y {
      assert Swapped(l, x, y) == l;
    } else {
      SwapCost(a, w, l, x, y);
      Crossing(w[x], w[y], l[x], l[y]);
    }
  }

  lemma {:induction false} Longest(a: set<nat>, l: seq<nat>) returns (x: nat)
    requires a != {} && forall i | i in a :: i < |l|
    ensures x in a && forall i | i in a :: l[i] <= l[x]
    decreases a
  {
    x :| x in a;
    if a != {x} {
      var y := Longest(a - {x}, l);
      if l[y] > l[x] {
        x := y;
      }
    }
  }

  /** A lightest node can be given the greatest length at no extra cost. */
  lemma LightestLongest(a: set<nat>, s: set<nat>, w: seq<nat>, l: seq<nat>, m: nat, x: nat)
    returns (r: seq<nat>)
    requires |l| == |w| && Fits(a, l, m)
    requires x in s && s <= a && forall i | i in s :: w[x] <= w[i]
    ensures |r| == |l| && Fits(a, r, m) && Cost(a, w, r) <= Cost(a, w, l)
    ensures forall i | i in s :: r[i] <= r[x]
    ensures forall i | i in a && i !in s :: r[i] == l[i]
    ensures exists y | y in s :: r == Swapped(l, x, y)
  {
    var y := Longest(s, l);
    r := Swapped(l, x, y);
    SwapKraft(a, l, m, x, y);
    SwapSaving(a, w, l, x, y);
    NonNegative(w[y] - w[x], l[y] - l[x]);
  }

  lemma NonNegative(a: nat, b: nat)
    ensures a * b >= 0
  {
  }

  /** Lengths of at most `k` contribute a multiple of 2^(m-k). */
  lemma {:induction false} KraftMultiple(s: seq<int>, a: set<nat>, l: seq<nat>, m: nat, k: nat)
    returns (q: int)
    requires |s| <= |l| && k <= m
    requires forall i | 0 <= i < |s| :: s[i] == if i in a then Share(l[i], m) else 0
    requires forall i | i in a && i < |l| :: l[i] <= k
    ensures Sum(s) == q * Pow2(m - k)
  {
    if s == [] {
      q := 0;
    } else {
      var i := |s| - 1;
      q := KraftMultiple(s[..i], a, l, m, k);
      if i in a {
        Pow2Add(k - l[i], m - k);
        assert k - l[i] + (m - k) == m - l[i];
        AddMultiples(q, Pow2(k - l[i]), Pow2(m - k));
        q := q + Pow2(k - l[i]);
      }
    }
  }

  lemma AddMultiples(p: int, q: int, d: int)
    ensures (p + q) * d == p * d + q * d
  {
  }

  lemma {:induction false} MultipleMonotone(p: int, q: int, d: nat)
    requires p <= q
    ensures p * d <= q * d
    decreases q - p
  {
    if p < q {
      MultipleMonotone(p, q - 1, d);
      AddMultiples(q - 1, 1, d);
    }
  }

  lemma MultiplesApart(p: int, q: int, d: nat)
    requires p * d < q * d
    ensures p * d + d <= q * d
  {
    if q <= p {
      MultipleMonotone(q, p, d);
    } else {
      MultipleMonotone(p + 1, q, d);
      AddMultiples(p, 1, d);
    }
  }

  /** The only longest node can be shortened to the next greatest length. */
  lemma ShortenKraft(a: set<nat>, l: seq<nat>, m: nat, x: nat, y: nat)
    requires Fits(a, l, m)
    requires x in a && y in a && x != y && l[y] <= l[x]
    requires forall i | i in a - {x} :: l[i] <= l[y]
    ensures Fits(a, l[x := l[y]], m)
  {
    var k, d := Shares(l, m), Share(l[y], m);
    TotalRemove(a, k, x);
    var q := KraftMultiple(Masked(a - {x}, k), a - {x}, l, m, l[y]);
    Pow2Add(l[y], m - l[y]);
    MultiplesApart(q, Pow2(l[y]), d);
    assert Shares(l[x := l[y]], m) == k[x := d];
    TotalUpdate(a, k, x, d);
  }

  lemma ShortenCost(a: set<nat>, w: seq<nat>, l: seq<nat>, x: nat, k: nat)
    requires |l| == |w| && x in a && x < |w| && k <= l[x]
    ensures Cost(a, w, l[x := k]) <= Cost(a, w, l)
  {
    var c, p := Products(w, l), w[x] * k;
    assert Products(w, l[x := k]) == c[x := p];
    TotalUpdate(a, c, x, p);
    assert w[x] * k <= w[x] * l[x];
  }

  /** Two equally long nodes need a length of at least one. */
  lemma PairNeedsLength(a: set<nat>, l: seq<nat>, m: nat, x: nat, y: nat)
    requires Fits(a, l, m) && x in a && y in a && x != y && l[x] == l[y]
    ensures l[x] >= 1
  {
    var k := Shares(l, m);
    TotalRemove(a, k, x);
    SumNonNegative(Masked(a - {x}, k));
    assert Masked(a - {x}, k)[y] == Share(l[y], m);
  }

  lemma MergeKraft(a: set<nat>, l: seq<nat>, m: nat, x: nat, y: nat)
    requires forall i | i in a :: i < |l|
    requires x in a && y in a && x != y && l[x] == l[y] && 1 <= l[x] <= m
    ensures Kraft(a - {x, y} + {|l|}, l + [l[x] - 1], m) == Kraft(a, l, m)
  {
    var k, t := Shares(l, m), Share(l[x] - 1, m);
    assert Shares(l + [l[x] - 1], m) == k + [t];
    TotalMerge(a, k, x, y, t);
  }

  lemma MergeCost(a: set<nat>, w: seq<nat>, l: seq<nat>, x: nat, y: nat)
    requires |l| == |w| && forall i | i in a :: i < |w|
    requires x in a && y in a && x != y && l[x] == l[y] >= 1
    ensures Cost(a - {x, y} + {|w|}, w + [w[x] + w[y]], l + [l[x] - 1]) == Cost(a, w, l) - w[x] - w[y]
  {
    var c, t := Products(w, l), (w[x] + w[y]) * (l[x] - 1);
    assert Products(w + [w[x] + w[y]], l + [l[x] - 1]) == c + [t];
    TotalMerge(a, c, x, y, t);
    assert t == w[x] * l[x] + w[y] * l[x] - w[x] - w[y];
  }

  lemma LevelAndMerge(a: set<nat>, w: seq<nat>, l: seq<nat>, m: nat, x: nat, y: nat)
    returns (r: seq<nat>)
    requires |l| == |w| && Fits(a, l, m)
    requires x in a && y in a && x != y && l[y] <= l[x]
    requires forall i | i in a - {x} :: l[i] <= l[y]
    ensures |r| == |w| + 1 && Fits(a - {x, y} + {|w|}, r, m)
    ensures Cost(a - {x, y} + {|w|}, w + [w[x] + w[y]], r) + w[x] + w[y] <= Cost(a, w, l)
  {
    var l1 := l[x := l[y]];
    ShortenKraft(a, l, m, x, y);
    ShortenCost(a, w, l, x, l[y]);
    PairNeedsLength(a, l1, m, x, y);
    MergeKraft(a, l1, m, x, y);
    MergeCost(a, w, l1, x, y);
    r := l1 + [l1[x] - 1];
  }

  /** Any assignment that fits can be turned into one on the merged node set that is cheaper by at
      least the weight of the two lightest nodes x and y. */
  lemma MergeLightest(a: set<nat>, w: seq<nat>, l: seq<nat>, m: nat, x: nat, y: nat)
    returns (r: seq<nat>)
    requires |l| == |w| && Fits(a, l, m)
    requires x in a && y in a && x != y
    requires forall i | i in a :: w[x] <= w[i]
    requires forall i | i in a - {x} :: w[y] <= w[i]
    ensures |r| == |w| + 1 && Fits(a - {x, y} + {|w|}, r, m)
    ensures Cost(a - {x, y} + {|w|}, w + [w[x] + w[y]], r) + w[x] + w[y] <= Cost(a, w, l)
  {
    var l1 := LightestLongest(a, a, w, l, m, x);
    var l2 := LightestLongest(a, a - {x}, w, l1, m, y);
    assert l2[x] == l1[x];
    r := LevelAndMerge(a, w, l2, m, x, y);
  }
}
