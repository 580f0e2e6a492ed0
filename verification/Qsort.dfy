/** sort's quicksort: a partition into less, equal and greater that works from the middle outwards, with a
    recursive call for the smaller side only. Lines are known by their numbers, as sort knows them by
    pointers. */
module Qsort {
  import opened Basics
  import opened Sums

  type Order = (int, int) -> int

  /** A comparison by some total preorder: only the sign matters. */
  ghost predicate Preorder(cmp: Order) {
    && (forall x, y :: cmp(x, y) < 0 <==> cmp(y, x) > 0)
    && (forall x, y, z {:trigger cmp(x, y), cmp(y, z)} :: cmp(x, y) <= 0 && cmp(y, z) <= 0 ==> cmp(x, z) <= 0)
  }

  predicate Lt(cmp: Order, x: int, y: int) {
    cmp(x, y) < 0
  }

  predicate Eq(cmp: Order, x: int, y: int) {
    cmp(x, y) == 0
  }

  lemma Trichotomy(cmp: Order, x: int, y: int)
    requires Preorder(cmp)
    ensures Eq(cmp, x, y) <==> Eq(cmp, y, x)
    ensures cmp(x, y) > 0 <==> Lt(cmp, y, x)
    ensures Eq(cmp, x, x)
  {
  }

  /** Equal elements compare alike. */
  lemma LikePivot(cmp: Order, x: int, e: int, p: int)
    requires Preorder(cmp) && Eq(cmp, e, p)
    ensures Lt(cmp, x, e) <==> Lt(cmp, x, p)
    ensures Eq(cmp, x, e) <==> Eq(cmp, x, p)
    ensures Lt(cmp, e, x) <==> Lt(cmp, p, x)
  {
    assert cmp(e, p) == 0 && cmp(p, e) <= 0;
    assert cmp(x, e) <= 0 <==> cmp(x, p) <= 0;
    assert cmp(e, x) <= 0 <==> cmp(p, x) <= 0;
  }

  lemma LtTrans(cmp: Order, x: int, p: int, y: int)
    requires Preorder(cmp)
    ensures Lt(cmp, x, p) && !Lt(cmp, y, p) ==> Lt(cmp, x, y)
    ensures !Lt(cmp, p, x) && Lt(cmp, p, y) ==> Lt(cmp, x, y)
    ensures Lt(cmp, x, p) && Lt(cmp, p, y) ==> Lt(cmp, x, y)
    ensures !Lt(cmp, p, x) && !Lt(cmp, y, p) ==> !Lt(cmp, y, x)
  {
    assert cmp(x, p) <= 0 <==> cmp(p, x) >= 0;
    assert cmp(p, y) <= 0 <==> cmp(y, p) >= 0;
    assert cmp(y, x) <= 0 && cmp(x, p) <= 0 ==> cmp(y, p) <= 0;
    assert cmp(p, y) <= 0 && cmp(y, x) <= 0 ==> cmp(p, x) <= 0;
  }

  // ---- The partition

  /** Elements lo..i are less than the pivot, lp..hp equal to it, after j greater; i..lp and hp+1..j are still
      to be looked at. */
  ghost predicate Split(cmp: Order, s: seq<int>, lo: int, i: int, lp: int, hp: int, j: int, hi: int, p: int) {
    && 0 <= lo <= i <= lp <= hp <= j < hi <= |s|
    && (forall k | lo <= k < i :: Lt(cmp, s[k], p))
    && (forall k | lp <= k <= hp :: Eq(cmp, s[k], p))
    && (forall k | j < k < hi :: Lt(cmp, p, s[k]))
  }

  function Swap(s: seq<int>, p: int, q: int): (t: seq<int>)
    requires 0 <= p < |s| && 0 <= q < |s|
    ensures |t| == |s|
  {
    s[p := s[q]][q := s[p]]
  }

  lemma SwapPermutes(s: seq<int>, p: int, q: int)
    requires 0 <= p < |s| && 0 <= q < |s|
    ensures multiset(Swap(s, p, q)) == multiset(s)
  {
  }

  /** An equal element joins the middle on its left. */
  lemma JoinLeft(cmp: Order, s: seq<int>, lo: int, i: int, lp: int, hp: int, j: int, hi: int, p: int)
    requires Split(cmp, s, lo, i, lp, hp, j, hi, p) && i < lp && Eq(cmp, s[i], p)
    ensures Split(cmp, Swap(s, i, lp - 1), lo, i, lp - 1, hp, j, hi, p)
  {
  }

  /** An equal element joins the middle on its right. */
  lemma JoinRight(cmp: Order, s: seq<int>, lo: int, i: int, lp: int, hp: int, j: int, hi: int, p: int)
    requires Split(cmp, s, lo, i, lp, hp, j, hi, p) && hp < j && Eq(cmp, s[j], p)
    ensures Split(cmp, Swap(s, hp + 1, j), lo, i, lp, hp + 1, j, hi, p)
  {
  }

  /** A greater one on the left and a less one on the right change places. */
  lemma Cross(cmp: Order, s: seq<int>, lo: int, i: int, lp: int, hp: int, j: int, hi: int, p: int)
    requires Split(cmp, s, lo, i, lp, hp, j, hi, p) && i < lp && hp < j && Lt(cmp, p, s[i]) && Lt(cmp, s[j], p)
    ensures Split(cmp, Swap(s, i, j), lo, i + 1, lp, hp, j - 1, hi, p)
  {
  }

  /** Three elements change places: p gets r's, r gets q's, q gets p's. */
  function Rotate(s: seq<int>, p: int, q: int, r: int): (t: seq<int>)
    requires 0 <= p < |s| && 0 <= q < |s| && 0 <= r < |s|
    ensures |t| == |s|
  {
    var t := s[p := s[r]];
    t[r := t[q]][q := s[p]]
  }

  lemma RotatePermutes(s: seq<int>, p: int, q: int, r: int)
    requires 0 <= p < |s| && 0 <= q < |s| && 0 <= r < |s|
    requires p != r
    ensures multiset(Rotate(s, p, q, r)) == multiset(s)
  {
    RotateIs(s, p, q, r);
    hide Rotate, Swap;
    SwapPermutes(s, p, r);
    if p != q && q != r {
      SwapPermutes(Swap(s, p, r), r, q);
    }
  }

  lemma RotateIs(s: seq<int>, p: int, q: int, r: int)
    requires 0 <= p < |s| && 0 <= q < |s| && 0 <= r < |s| && p != r
    ensures Rotate(s, p, q, r) == if q == r then Swap(s, p, r) else if p == q then s else Swap(Swap(s, p, r), r, q)
  {
  }

  /** Nothing is left on the left: the middle moves up by one to let a less element in. */
  lemma ShiftUp(cmp: Order, s: seq<int>, lo: int, lp: int, hp: int, j: int, hi: int, p: int)
    requires Split(cmp, s, lo, lp, lp, hp, j, hi, p) && hp < j && Lt(cmp, s[j], p)
    ensures Split(cmp, Rotate(s, lp, hp + 1, j), lo, lp + 1, lp + 1, hp + 1, j, hi, p)
  {
  }

  /** Nothing is left on the right: the middle moves down by one to let a greater element out. */
  lemma ShiftDown(cmp: Order, s: seq<int>, lo: int, i: int, lp: int, hp: int, hi: int, p: int)
    requires Split(cmp, s, lo, i, lp, hp, hp, hi, p) && i < lp && Lt(cmp, p, s[i])
    ensures Split(cmp, Rotate(s, hp, lp - 1, i), lo, i, lp - 1, hp - 1, hp - 1, hi, p)
  {
  }

  // ---- Sorted ranges

  ghost predicate Sorted(cmp: Order, s: seq<int>, x: int, y: int) {
    0 <= x && y <= |s| && forall i, j | x <= i < j < y :: !Lt(cmp, s[j], s[i])
  }

  /** Everything in x..m is less than everything in m..y. */
  ghost predicate Apart(cmp: Order, s: seq<int>, x: int, m: int, y: int) {
    0 <= x <= m <= y <= |s| && forall i, j | x <= i < m <= j < y :: Lt(cmp, s[i], s[j])
  }

  lemma Glue(cmp: Order, s: seq<int>, x: int, m: int, y: int)
    requires Preorder(cmp) && Sorted(cmp, s, x, m) && Sorted(cmp, s, m, y) && Apart(cmp, s, x, m, y)
    ensures Sorted(cmp, s, x, y)
  {
    forall i, j | x <= i < j < y
      ensures !Lt(cmp, s[j], s[i])
    {
      Trichotomy(cmp, s[i], s[j]);
    }
  }

  lemma Narrow(cmp: Order, s: seq<int>, x: int, m: int, y: int, x': int, y': int)
    requires Apart(cmp, s, x, m, y) && x <= x' <= m <= y' <= y
    ensures Apart(cmp, s, x', m, y')
  {
  }

  /** The elements equal to the one before them. */
  function Repeats(cmp: Order, s: seq<int>, x: int, y: int): set<int>
    requires 0 <= x && y <= |s|
    decreases y - x
  {
    if y - x < 2 then {} else Repeats(cmp, s, x, y - 1) + if Eq(cmp, s[y - 2], s[y - 1]) then {s[y - 1]} else {}
  }

  lemma {:induction false} RepeatsGlue(cmp: Order, s: seq<int>, x: int, m: int, y: int)
    requires Preorder(cmp) && Apart(cmp, s, x, m, y)
    ensures Repeats(cmp, s, x, y) == Repeats(cmp, s, x, m) + Repeats(cmp, s, m, y)
    decreases y - m
  {
    if m < y {
      Narrow(cmp, s, x, m, y, x, y - 1);
      RepeatsGlue(cmp, s, x, m, y - 1);
      hide Preorder;
      if x < m && m == y - 1 {
        assert Lt(cmp, s[y - 2], s[y - 1]);
      }
    }
  }

  lemma {:induction false} RepeatsIn(cmp: Order, s: seq<int>, x: int, y: int)
    requires 0 <= x && y <= |s|
    ensures forall e | e in Repeats(cmp, s, x, y) :: exists k | x < k < y :: s[k] == e
    decreases y - x
  {
    if y - x >= 2 {
      RepeatsIn(cmp, s, x, y - 1);
    }
  }

  lemma {:induction false} RepeatsFrame(cmp: Order, s: seq<int>, t: seq<int>, x: int, y: int)
    requires 0 <= x && y <= |s| == |t| && forall k | x <= k < y :: t[k] == s[k]
    ensures Repeats(cmp, t, x, y) == Repeats(cmp, s, x, y)
    decreases y - x
  {
    if y - x >= 2 {
      RepeatsFrame(cmp, s, t, x, y - 1);
    }
  }

  lemma {:induction false} RepeatsAre(cmp: Order, s: seq<int>, x: int, y: int, k: int)
    requires 0 <= x <= k < y <= |s| && Distinct(s)
    ensures s[k] in Repeats(cmp, s, x, y) <==> k > x && Eq(cmp, s[k - 1], s[k])
    decreases y - x
  {
    hide Eq;
    if y - x >= 2 {
      if k < y - 1 {
        RepeatsAre(cmp, s, x, y - 1, k);
      } else {
        RepeatsIn(cmp, s, x, y - 1);
      }
    }
  }

  /** In a sorted range, the lines that repeat none are the first of their kind: one of each. */
  lemma OneOfEach(cmp: Order, s: seq<int>, x: int, y: int, k: int)
    requires Preorder(cmp) && Sorted(cmp, s, x, y) && Distinct(s) && 0 <= x <= k < y <= |s|
    ensures s[k] !in Repeats(cmp, s, x, y) <==> forall j | x <= j < k :: !Eq(cmp, s[j], s[k])
  {
    RepeatsAre(cmp, s, x, y, k);
    hide Repeats, Distinct;
    forall j | x <= j < k && Eq(cmp, s[j], s[k])
      ensures Eq(cmp, s[k - 1], s[k])
    {
      if j < k - 1 {
        Trichotomy(cmp, s[j], s[k - 1]);
        Trichotomy(cmp, s[k - 1], s[k]);
        LikePivot(cmp, s[k - 1], s[j], s[k]);
      }
    }
  }

  // ---- Permuting a range

  ghost predicate Permuted(s: seq<int>, t: seq<int>, u: int, v: int) {
    && 0 <= u <= v <= |s| == |t| && multiset(t) == multiset(s)
    && (forall k | 0 <= k < u || v <= k < |s| :: t[k] == s[k])
  }

  lemma PermutedInside(s: seq<int>, t: seq<int>, u: int, v: int)
    requires Permuted(s, t, u, v)
    ensures multiset(t[u..v]) == multiset(s[u..v])
  {
    assert s == s[..u] + s[u..v] + s[v..];
    assert t == t[..u] + t[u..v] + t[v..];
    assert t[..u] == s[..u] && t[v..] == s[v..];
    var a, b, c := multiset(s[..u]), multiset(s[v..]), multiset(s[u..v]);
    assert multiset(s) == a + c + b;
    assert multiset(t) == a + multiset(t[u..v]) + b;
    Cancel(a, b, multiset(t[u..v]), c);
  }

  lemma Cancel(a: multiset<int>, b: multiset<int>, x: multiset<int>, y: multiset<int>)
    requires a + x + b == a + y + b
    ensures x == y
  {
    forall e
      ensures x[e] == y[e]
    {
      assert (a + x + b)[e] == (a + y + b)[e];
    }
  }

  lemma PermutedFrom(s: seq<int>, t: seq<int>, u: int, v: int, k: int) returns (m: int)
    requires Permuted(s, t, u, v) && u <= k < v
    ensures u <= m < v && s[m] == t[k]
  {
    PermutedInside(s, t, u, v);
    assert t[u..v][k - u] in multiset(t[u..v]);
    assert t[k] in s[u..v];
    var i :| 0 <= i < |s[u..v]| && s[u..v][i] == t[k];
    m := i + u;
  }

  lemma PermutedTrans(s: seq<int>, t: seq<int>, w: seq<int>, u: int, v: int, x: int, y: int)
    requires Permuted(s, t, u, v) && Permuted(t, w, x, y) && u <= x && y <= v
    ensures Permuted(s, w, u, v)
  {
  }

  /** Permuting within one side keeps the sides apart. */
  lemma ApartPermuted(cmp: Order, s: seq<int>, t: seq<int>, x: int, m: int, y: int, u: int, v: int)
    requires Apart(cmp, s, x, m, y) && Permuted(s, t, u, v) && ((x <= u && v <= m) || (m <= u && v <= y))
    ensures Apart(cmp, t, x, m, y)
  {
    forall i, j | x <= i < m <= j < y
      ensures Lt(cmp, t[i], t[j])
    {
      if u <= i < v {
        var k := PermutedFrom(s, t, u, v, i);
        assert Lt(cmp, s[k], s[j]);
      } else if u <= j < v {
        var k := PermutedFrom(s, t, u, v, j);
        assert Lt(cmp, s[i], s[k]);
      }
    }
  }

  lemma DistinctCount(s: seq<int>)
    ensures Distinct(s) <==> forall e :: multiset(s)[e] <= 1
    decreases |s|
  {
    if s != [] {
      var n := |s| - 1;
      var t := s[..n];
      assert s == t + [s[n]];
      DistinctCount(t);
      assert forall e :: multiset(s)[e] == multiset(t)[e] + if e == s[n] then 1 else 0;
      assert multiset(t)[s[n]] > 0 <==> s[n] in t;
      assert Distinct(s) <==> Distinct(t) && s[n] !in t;
    }
  }

  lemma DistinctPermuted(s: seq<int>, t: seq<int>, u: int, v: int)
    requires Distinct(s) && Permuted(s, t, u, v)
    ensures Distinct(t)
  {
    DistinctCount(s);
    DistinctCount(t);
  }

  /** No line of the range has been marked. */
  ghost predicate Clean(s: seq<int>, x: int, y: int, marked: set<int>) {
    0 <= x && y <= |s| && forall k | x <= k < y :: s[k] !in marked
  }

  lemma CleanPermuted(s: seq<int>, t: seq<int>, u: int, v: int, x: int, y: int, marked: set<int>)
    requires Clean(s, x, y, marked) && Permuted(s, t, u, v) && x <= u && v <= y
    ensures Clean(t, x, y, marked)
  {
    forall k | x <= k < y
      ensures t[k] !in marked
    {
      if u <= k < v {
        var m := PermutedFrom(s, t, u, v, k);
      }
    }
  }

  /** Marking lines of another range leaves this one clean. */
  lemma CleanElsewhere(s: seq<int>, x: int, y: int, marked: set<int>, more: set<int>, u: int, v: int)
    requires Distinct(s) && Clean(s, x, y, marked) && 0 <= u && v <= |s| && (y <= u || v <= x)
    requires forall e | e in more :: exists k | u <= k < v :: s[k] == e
    ensures Clean(s, x, y, marked + more)
  {
  }

  // ---- The program

  class Sorter {
    const cmp: Order
    const uflg: bool
    const a: array<int>
    /** The lines whose text has been cut off. */
    var marked: set<int>

    constructor (cmp: Order, uflg: bool, a: array<int>)
      ensures this.cmp == cmp && this.uflg == uflg && this.a == a && marked == {}
    {
      this.cmp, this.uflg, this.a, marked := cmp, uflg, a, {};
    }

    /** Comparing looks at the text of the lines, which must not have been cut off. */
    method Compare(p: int, q: int) returns (c: int)
      requires p !in marked && q !in marked
      ensures c == cmp(p, q)
    {
      c := cmp(p, q);
    }

    /** A line on the left against one that is equal to the pivot p. */
    method CompareLeft(i: int, lp: int, ghost lo: int, ghost hi: int, ghost p: int) returns (c: int)
      requires Preorder(cmp) && Clean(a[..], lo, hi, marked) && 0 <= lo <= i < hi <= a.Length && lo <= lp < hi
      requires Eq(cmp, a[lp], p)
      ensures (c == 0 <==> Eq(cmp, a[i], p)) && (c < 0 <==> Lt(cmp, a[i], p)) && (c > 0 <==> Lt(cmp, p, a[i]))
    {
      hide Preorder, Clean, Eq, Lt;
      CleanAt(a[..], lo, hi, marked, i);
      CleanAt(a[..], lo, hi, marked, lp);
      Against(cmp, a[i], a[lp], p);
      c := Compare(a[i], a[lp]);
    }

    /** A line that is equal to the pivot against one on the right. */
    method CompareRight(hp: int, j: int, ghost lo: int, ghost hi: int, ghost p: int) returns (c: int)
      requires Preorder(cmp) && Clean(a[..], lo, hi, marked) && 0 <= lo <= hp < hi <= a.Length && lo <= j < hi
      requires Eq(cmp, a[hp], p)
      ensures (c == 0 <==> Eq(cmp, a[j], p)) && (c < 0 <==> Lt(cmp, p, a[j])) && (c > 0 <==> Lt(cmp, a[j], p))
    {
      hide Preorder, Clean, Eq, Lt;
      CleanAt(a[..], lo, hi, marked, hp);
      CleanAt(a[..], lo, hi, marked, j);
      Against(cmp, a[j], a[hp], p);
      c := Compare(a[hp], a[j]);
    }

    /** Exchanges two lines of the range; s0 is what the range was first. */
    method Exchange(p: int, q: int, ghost s0: seq<int>, ghost lo: int, ghost hi: int)
      requires 0 <= lo <= p < hi <= a.Length && lo <= q < hi
      requires Permuted(s0, a[..], lo, hi) && Clean(a[..], lo, hi, marked)
      modifies a
      ensures a[..] == Swap(old(a[..]), p, q) && Permuted(s0, a[..], lo, hi) && Clean(a[..], lo, hi, marked)
      ensures forall k | 0 <= k < a.Length && k != p && k != q :: a[k] == old(a[k])
    {
      hide Permuted, Clean;
      SwapKeeps(s0, a[..], lo, hi, p, q, marked);
      var t := a[p];
      a[p] := a[q];
      a[q] := t;
    }

    method Exchange3(p: int, q: int, r: int, ghost s0: seq<int>, ghost lo: int, ghost hi: int)
      requires 0 <= lo <= p < hi <= a.Length && lo <= q < hi && lo <= r < hi && p != r
      requires Permuted(s0, a[..], lo, hi) && Clean(a[..], lo, hi, marked)
      modifies a
      ensures a[..] == Rotate(old(a[..]), p, q, r) && Permuted(s0, a[..], lo, hi) && Clean(a[..], lo, hi, marked)
    {
      hide Permuted, Clean;
      RotateKeeps(s0, a[..], lo, hi, p, q, r, marked);
      var t := a[p];
      a[p] := a[r];
      a[r] := a[q];
      a[q] := t;
    }

    /** Splits a range of at least two lines about its middle one. */
    method Partition(lo: int, hi: int) returns (lp: int, hp: int)
      requires Preorder(cmp) && 0 <= lo && lo + 2 <= hi <= a.Length && Clean(a[..], lo, hi, marked)
      modifies a
      ensures lo <= lp <= hp < hi && Permuted(old(a[..]), a[..], lo, hi)
      ensures Apart(cmp, a[..], lo, lp, hi) && Apart(cmp, a[..], lo, hp + 1, hi)
      ensures forall k | lp <= k <= hp :: Eq(cmp, a[k], a[lp])
      ensures Eq(cmp, a[lp], old(a[lo + (hi - lo) / 2]))
    {
      hide Preorder, Split, Permuted, Clean, Swap, Rotate, Lt, Eq, Apart, Pow2;
      var n := (hi - lo) / 2;
      lp := lo + n;
      hp := lp;
      var i, j := lo, hi - 1;
      ghost var p, s0 := a[lp], a[..];
      SplitStart(cmp, s0, lo, lp, hi);
      var atLoop := false;
      while true
        invariant Split(cmp, a[..], lo, i, lp, hp, j, hi, p) && Permuted(s0, a[..], lo, hi)
        invariant Clean(a[..], lo, hi, marked)
        invariant atLoop ==> i == lp || (lo <= i < lp <= hi && Lt(cmp, p, a[i]))
        decreases lp - i + j - hp
      {
        ghost var s := a[..];
        SplitBounds(cmp, s, lo, i, lp, hp, j, hi, p);
        if !atLoop && i < lp {
          var c := CompareLeft(i, lp, lo, hi, p);
          if c == 0 {
            JoinLeft(cmp, s, lo, i, lp, hp, j, hi, p);
            lp := lp - 1;
            Exchange(i, lp, s0, lo, hi);
            continue;
          }
          if c < 0 {
            StepUp(cmp, s, lo, i, lp, hp, j, hi, p);
            i := i + 1;
            continue;
          }
        }
        if j > hp {
          var c := CompareRight(hp, j, lo, hi, p);
          if c == 0 {
            JoinRight(cmp, s, lo, i, lp, hp, j, hi, p);
            hp := hp + 1;
            Exchange(hp, j, s0, lo, hi);
            atLoop := true;
            continue;
          }
          if c > 0 {
            if i == lp {
              ShiftUp(cmp, s, lo, lp, hp, j, hi, p);
              hp := hp + 1;
              Exchange3(i, hp, j, s0, lo, hi);
              lp := lp + 1;
              i := lp;
              atLoop := true;
              continue;
            }
            Cross(cmp, s, lo, i, lp, hp, j, hi, p);
            Exchange(i, j, s0, lo, hi);
            j := j - 1;
            i := i + 1;
            atLoop := false;
            continue;
          }
          StepDown(cmp, s, lo, i, lp, hp, j, hi, p);
          j := j - 1;
          atLoop := true;
          continue;
        }
        if i == lp {
          SplitDone(cmp, s, lo, lp, hp, hi, p);
          return;
        }
        ShiftDown(cmp, s, lo, i, lp, hp, hi, p);
        lp := lp - 1;
        Exchange3(j, lp, i, s0, lo, hi);
        hp := hp - 1;
        j := hp;
        atLoop := false;
      }
    }

    /** Cuts off the text of every line of the middle but the first. */
    method CutOff(lp: int, hp: int)
      requires 0 <= lp <= hp < a.Length && forall k | lp <= k <= hp :: Eq(cmp, a[k], a[lp])
      requires Preorder(cmp)
      modifies this`marked
      ensures marked == old(marked) + Repeats(cmp, a[..], lp, hp + 1)
    {
      hide Preorder, Eq;
      var k := lp + 1;
      while k <= hp
        invariant lp + 1 <= k <= hp + 1 && marked == old(marked) + Repeats(cmp, a[..], lp, k)
      {
        MiddleAlike(cmp, a[..], lp, hp, k);
        marked := marked + {a[k]};
        k := k + 1;
      }
    }

    /** Sorts lines lo..hi; under -u, exactly the lines equal to the one before them are cut off. The calls within
        it are nested no deeper than room, which is enough for less than 2^(room + 1) lines. */
    method QSort(lo: int, hi: int, ghost room: nat)
      requires Preorder(cmp) && 0 <= lo <= hi <= a.Length && Distinct(a[..]) && Clean(a[..], lo, hi, marked)
      requires hi - lo < Pow2(room + 1)
      modifies a, this`marked
      ensures Permuted(old(a[..]), a[..], lo, hi) && Sorted(cmp, a[..], lo, hi)
      ensures marked == old(marked) + if uflg then Repeats(cmp, a[..], lo, hi) else {}
      decreases room
    {
      hide Preorder, Permuted, Clean, Sorted, Apart, Repeats, Distinct, Eq, Framed, Pow2;
      ghost var s0, m0 := a[..], marked;
      FramedStart(cmp, s0, lo, hi, marked, uflg);
      Deeper(room);
      var x, y := lo, hi;
      while y - x > 1
        invariant lo <= x <= y <= hi && Permuted(s0, a[..], lo, hi)
        invariant Framed(cmp, a[..], lo, x, y, hi, m0, marked, uflg)
        decreases y - x
      {
        ghost var s, m := a[..], marked;
        FramedClean(cmp, s, lo, x, y, hi, m0, m, uflg);
        var lp, hp := Partition(x, y);
        ghost var t := a[..];
        FramedPermuted(cmp, s, t, lo, x, y, hi, m0, m, uflg);
        PermutedTrans(s0, s, t, lo, hi, x, y);
        if uflg {
          CutOff(lp, hp);
        }
        ghost var m1 := marked;
        assert Parted(cmp, t, x, lp, hp, y);
        CutClean(cmp, t, lo, x, lp, hp, y, hi, m0, m, m1, uflg);
        SmallerSide(x, lp, hp, y);
        if lp - x >= y - hp {
          QSort(hp + 1, y, room - 1);
          Right(cmp, t, a[..], lo, x, lp, hp, y, hi, m0, m, m1, marked, uflg);
          PermutedTrans(s0, t, a[..], lo, hi, hp + 1, y);
          y := lp;
        } else {
          QSort(x, lp, room - 1);
          Left(cmp, t, a[..], lo, x, lp, hp, y, hi, m0, m, m1, marked, uflg);
          PermutedTrans(s0, t, a[..], lo, hi, x, lp);
          x := hp + 1;
        }
      }
      FramedDone(cmp, a[..], lo, x, y, hi, m0, marked, uflg);
    }
  }

  /** The base-2 logarithm of the number of lines. */
  lemma {:induction false} Logarithm(n: nat) returns (room: nat)
    ensures n < Pow2(room + 1) && (n > 0 ==> Pow2(room) <= n)
  {
    if n < 2 {
      room := 0;
    } else {
      room := Logarithm(n / 2);
      room := room + 1;
    }
  }

  /** Sorting all the lines: a sorted rearrangement, and under -u just the first line of each kind is kept. */
  method SortLines(sorter: Sorter)
    requires Preorder(sorter.cmp) && sorter.marked == {} && Distinct(sorter.a[..])
    modifies sorter, sorter.a
    ensures multiset(sorter.a[..]) == multiset(old(sorter.a[..]))
    ensures Sorted(sorter.cmp, sorter.a[..], 0, sorter.a.Length)
    ensures !sorter.uflg ==> sorter.marked == {}
    ensures sorter.uflg ==> forall k | 0 <= k < sorter.a.Length ::
              sorter.a[k] !in sorter.marked <==> forall j | 0 <= j < k :: !Eq(sorter.cmp, sorter.a[j], sorter.a[k])
  {
    hide Preorder, Sorted, Repeats, Distinct, Eq;
    ghost var s := sorter.a[..];
    ghost var room := Logarithm(sorter.a.Length);
    sorter.QSort(0, sorter.a.Length, room);
    ghost var t := sorter.a[..];
    DistinctPermuted(s, t, 0, |s|);
    assert {} + Repeats(sorter.cmp, t, 0, |t|) == Repeats(sorter.cmp, t, 0, |t|);
    forall k | 0 <= k < |t|
      ensures t[k] !in Repeats(sorter.cmp, t, 0, |t|) <==> forall j | 0 <= j < k :: !Eq(sorter.cmp, t[j], t[k])
    {
      OneOfEach(sorter.cmp, t, 0, |t|, k);
    }
  }

  /** The side sorted by a call has at most half of the lines beside the pivot. */
  lemma SmallerSide(x: int, lp: int, hp: int, y: int)
    requires x <= lp <= hp < y
    ensures lp - x >= y - hp ==> y - (hp + 1) <= (y - x - 1) / 2
    ensures lp - x < y - hp ==> lp - x <= (y - x - 1) / 2
  {
  }

  lemma Deeper(d: nat)
    ensures Pow2(d + 1) == 2 * Pow2(d) && Pow2(0) == 1
  {
  }

  lemma MiddleAlike(cmp: Order, s: seq<int>, lp: int, hp: int, k: int)
    requires Preorder(cmp) && 0 <= lp < k <= hp < |s| && forall i | lp <= i <= hp :: Eq(cmp, s[i], s[lp])
    ensures Repeats(cmp, s, lp, k + 1) == Repeats(cmp, s, lp, k) + {s[k]}
  {
    LikePivot(cmp, s[k - 1], s[k], s[lp]);
    assert Eq(cmp, s[k - 1], s[k]);
  }

  /** Both ends lo..x and y..hi are done, and what is between them lies between. */
  ghost predicate Framed(cmp: Order, s: seq<int>, lo: int, x: int, y: int, hi: int, m0: set<int>, m: set<int>, uflg: bool)
  {
    && 0 <= lo <= x <= y <= hi <= |s| && Distinct(s)
    && Sorted(cmp, s, lo, x) && Sorted(cmp, s, y, hi) && Apart(cmp, s, lo, x, hi) && Apart(cmp, s, lo, y, hi)
    && Clean(s, x, y, m) && m == m0 + if uflg then Repeats(cmp, s, lo, x) + Repeats(cmp, s, y, hi) else {}
  }

  lemma FramedStart(cmp: Order, s: seq<int>, lo: int, hi: int, m: set<int>, uflg: bool)
    requires 0 <= lo <= hi <= |s| && Distinct(s) && Clean(s, lo, hi, m)
    ensures Framed(cmp, s, lo, lo, hi, hi, m, m, uflg) && Permuted(s, s, lo, hi)
  {
  }

  lemma FramedClean(cmp: Order, s: seq<int>, lo: int, x: int, y: int, hi: int, m0: set<int>, m: set<int>, uflg: bool)
    requires Framed(cmp, s, lo, x, y, hi, m0, m, uflg)
    ensures Clean(s, x, y, m)
  {
  }

  lemma FramedDone(cmp: Order, s: seq<int>, lo: int, x: int, y: int, hi: int, m0: set<int>, m: set<int>, uflg: bool)
    requires Preorder(cmp) && Framed(cmp, s, lo, x, y, hi, m0, m, uflg) && y - x <= 1
    ensures Sorted(cmp, s, lo, hi) && m == m0 + if uflg then Repeats(cmp, s, lo, hi) else {}
  {
    assert Sorted(cmp, s, x, y) && Repeats(cmp, s, x, y) == {};
    hide Preorder, Sorted, Apart, Repeats, Distinct, Clean;
    Narrow(cmp, s, lo, x, hi, lo, y);
    Glue(cmp, s, lo, x, y);
    Glue(cmp, s, lo, y, hi);
    RepeatsGlue(cmp, s, lo, x, y);
    RepeatsGlue(cmp, s, lo, y, hi);
  }

  lemma FramedPermuted(cmp: Order, s: seq<int>, t: seq<int>, lo: int, x: int, y: int, hi: int, m0: set<int>,
                       m: set<int>, uflg: bool)
    requires Framed(cmp, s, lo, x, y, hi, m0, m, uflg) && Permuted(s, t, x, y)
    ensures Framed(cmp, t, lo, x, y, hi, m0, m, uflg)
  {
    SortedFrame(cmp, s, t, lo, x, x, y);
    SortedFrame(cmp, s, t, y, hi, x, y);
    ApartPermuted(cmp, s, t, lo, x, hi, x, y);
    ApartPermuted(cmp, s, t, lo, y, hi, x, y);
    CleanPermuted(s, t, x, y, x, y, m);
    DistinctPermuted(s, t, x, y);
    hide Sorted, Apart, Repeats, Distinct, Clean;
  }

  /** A range apart from the permuted one keeps its order and its repeats. */
  lemma SortedFrame(cmp: Order, s: seq<int>, t: seq<int>, x: int, y: int, u: int, v: int)
    requires Permuted(s, t, u, v) && 0 <= x && y <= |s| && (y <= u || v <= x) && Sorted(cmp, s, x, y)
    ensures Sorted(cmp, t, x, y) && Repeats(cmp, t, x, y) == Repeats(cmp, s, x, y)
  {
    RepeatsFrame(cmp, s, t, x, y);
  }

  /** After the middle has been cut off, the two sides are still clean. */
  lemma CutClean(cmp: Order, t: seq<int>, lo: int, x: int, lp: int, hp: int, y: int, hi: int, m0: set<int>, m: set<int>,
                 m': set<int>, uflg: bool)
    requires Framed(cmp, t, lo, x, y, hi, m0, m, uflg) && x <= lp <= hp < y
    requires m' == m + if uflg then Repeats(cmp, t, lp, hp + 1) else {}
    ensures Distinct(t) && Clean(t, x, lp, m') && Clean(t, hp + 1, y, m')
  {
    RepeatsIn(cmp, t, lp, hp + 1);
    hide Sorted, Apart, Repeats, Distinct;
    if uflg {
      assert Clean(t, x, lp, m) && Clean(t, hp + 1, y, m);
      CleanElsewhere(t, x, lp, m, Repeats(cmp, t, lp, hp + 1), lp, hp + 1);
      CleanElsewhere(t, hp + 1, y, m, Repeats(cmp, t, lp, hp + 1), lp, hp + 1);
    }
  }

  ghost predicate Middle(cmp: Order, s: seq<int>, lp: int, hp: int) {
    0 <= lp <= hp < |s| && forall k | lp <= k <= hp :: Eq(cmp, s[k], s[lp])
  }

  lemma MiddleSorted(cmp: Order, s: seq<int>, lp: int, hp: int)
    requires Preorder(cmp) && Middle(cmp, s, lp, hp)
    ensures Sorted(cmp, s, lp, hp + 1)
  {
    forall i, j | lp <= i < j < hp + 1
      ensures !Lt(cmp, s[j], s[i])
    {
      LikePivot(cmp, s[j], s[i], s[lp]);
    }
  }

  /** How the middle and the sides lie in the whole range. */
  lemma Nested(cmp: Order, s: seq<int>, lo: int, x: int, lp: int, hp: int, y: int, hi: int)
    requires Apart(cmp, s, lo, x, hi) && Apart(cmp, s, lo, y, hi)
    requires Apart(cmp, s, x, lp, y) && Apart(cmp, s, x, hp + 1, y) && lp <= hp
    ensures Apart(cmp, s, lo, lp, hi) && Apart(cmp, s, lo, hp + 1, hi)
  {
    forall i, j | lo <= i < j < hi && (i < lp <= j || i <= hp < j)
      ensures Lt(cmp, s[i], s[j])
    {
    }
  }

  /** Three sorted ranges side by side. */
  lemma Glue3(cmp: Order, s: seq<int>, a: int, b: int, c: int, d: int, lo: int, hi: int)
    requires Preorder(cmp) && Apart(cmp, s, lo, b, hi) && Apart(cmp, s, lo, c, hi) && lo <= a <= b <= c <= d <= hi
    requires Sorted(cmp, s, a, b) && Sorted(cmp, s, b, c) && Sorted(cmp, s, c, d)
    ensures Sorted(cmp, s, a, d)
    ensures Repeats(cmp, s, a, d) == Repeats(cmp, s, a, b) + Repeats(cmp, s, b, c) + Repeats(cmp, s, c, d)
  {
    hide Preorder, Sorted, Repeats, Apart;
    Narrow(cmp, s, lo, b, hi, a, c);
    Narrow(cmp, s, lo, c, hi, a, d);
    Glue(cmp, s, a, b, c);
    Glue(cmp, s, a, c, d);
    RepeatsGlue(cmp, s, a, b, c);
    RepeatsGlue(cmp, s, a, c, d);
  }

  lemma MiddleFrame(cmp: Order, t: seq<int>, u: seq<int>, lp: int, hp: int, p: int, q: int)
    requires Middle(cmp, t, lp, hp) && Permuted(t, u, p, q) && (hp < p || q <= lp)
    ensures Middle(cmp, u, lp, hp) && Repeats(cmp, u, lp, hp + 1) == Repeats(cmp, t, lp, hp + 1)
  {
    RepeatsFrame(cmp, t, u, lp, hp + 1);
  }

  lemma Widen(t: seq<int>, u: seq<int>, p: int, q: int, x: int, y: int)
    requires Permuted(t, u, p, q) && 0 <= x <= p && q <= y <= |t|
    ensures Permuted(t, u, x, y)
  {
  }

  /** What remains clean after one side has been sorted. */
  lemma OtherClean(cmp: Order, t: seq<int>, u: seq<int>, p: int, q: int, x: int, y: int, m: set<int>, uflg: bool)
    requires Permuted(t, u, p, q) && (y <= p || q <= x) && Clean(t, x, y, m) && Distinct(u)
    ensures Clean(u, x, y, m + if uflg then Repeats(cmp, u, p, q) else {})
  {
    assert Clean(u, x, y, m);
    RepeatsIn(cmp, u, p, q);
    hide Repeats, Permuted, Distinct;
    if uflg {
      CleanElsewhere(u, x, y, m, Repeats(cmp, u, p, q), p, q);
    }
  }

  ghost predicate Parted(cmp: Order, t: seq<int>, x: int, lp: int, hp: int, y: int) {
    x <= lp <= hp < y && Apart(cmp, t, x, lp, y) && Apart(cmp, t, x, hp + 1, y) && Middle(cmp, t, lp, hp)
  }

  /** Sorting one side p..q after the partition leaves the rest as it was. */
  lemma SideSorted(cmp: Order, t: seq<int>, u: seq<int>, lo: int, x: int, lp: int, hp: int, y: int, hi: int, m0: set<int>,
                   m: set<int>, uflg: bool, p: int, q: int)
    requires Preorder(cmp) && Framed(cmp, t, lo, x, y, hi, m0, m, uflg) && Parted(cmp, t, x, lp, hp, y)
    requires Permuted(t, u, p, q) && ((p == hp + 1 && q == y) || (p == x && q == lp))
    ensures Framed(cmp, u, lo, x, y, hi, m0, m, uflg) && Parted(cmp, u, x, lp, hp, y)
    ensures Sorted(cmp, u, lp, hp + 1) && Repeats(cmp, u, lp, hp + 1) == Repeats(cmp, t, lp, hp + 1)
  {
    hide Preorder, Sorted, Repeats, Apart, Distinct, Clean, Permuted, Middle, Framed;
    FramedIs(cmp, t, lo, x, y, hi, m0, m, uflg);
    Widen(t, u, p, q, x, y);
    FramedPermuted(cmp, t, u, lo, x, y, hi, m0, m, uflg);
    ApartPermuted(cmp, t, u, x, lp, y, p, q);
    ApartPermuted(cmp, t, u, x, hp + 1, y, p, q);
    MiddleFrame(cmp, t, u, lp, hp, p, q);
    MiddleSorted(cmp, u, lp, hp);
  }

  lemma PartedIs(cmp: Order, t: seq<int>, x: int, lp: int, hp: int, y: int)
    requires Parted(cmp, t, x, lp, hp, y)
    ensures x <= lp <= hp < y && Apart(cmp, t, x, lp, y) && Apart(cmp, t, x, hp + 1, y) && Middle(cmp, t, lp, hp)
  {
  }

  lemma FramedIs(cmp: Order, s: seq<int>, lo: int, x: int, y: int, hi: int, m0: set<int>, m: set<int>, uflg: bool)
    requires Framed(cmp, s, lo, x, y, hi, m0, m, uflg)
    ensures 0 <= lo <= x <= y <= hi <= |s| && Distinct(s)
    ensures Sorted(cmp, s, lo, x) && Sorted(cmp, s, y, hi) && Apart(cmp, s, lo, x, hi) && Apart(cmp, s, lo, y, hi)
    ensures m == m0 + if uflg then Repeats(cmp, s, lo, x) + Repeats(cmp, s, y, hi) else {}
  {
  }

  lemma IsFramed(cmp: Order, s: seq<int>, lo: int, x: int, y: int, hi: int, m0: set<int>, m: set<int>, uflg: bool)
    requires 0 <= lo <= x <= y <= hi <= |s| && Distinct(s) && Clean(s, x, y, m)
    requires Sorted(cmp, s, lo, x) && Sorted(cmp, s, y, hi) && Apart(cmp, s, lo, x, hi) && Apart(cmp, s, lo, y, hi)
    requires m == m0 + if uflg then Repeats(cmp, s, lo, x) + Repeats(cmp, s, y, hi) else {}
    ensures Framed(cmp, s, lo, x, y, hi, m0, m, uflg)
  {
  }

  /** The marks of the sides, the middle and the side just sorted, put together. */
  lemma Marks(a: set<int>, b: set<int>, c: set<int>, d: set<int>, m0: set<int>, m: set<int>, uflg: bool)
    requires m == m0 + if uflg then a + b else {}
    ensures m + (if uflg then c else {}) + (if uflg then d else {}) == m0 + if uflg then a + (c + d + b) else {}
    ensures m + (if uflg then c else {}) + (if uflg then d else {}) == m0 + if uflg then (a + d + c) + b else {}
  {
  }

  /** Sorting the right side after the partition. */
  lemma Right(cmp: Order, t: seq<int>, u: seq<int>, lo: int, x: int, lp: int, hp: int, y: int, hi: int, m0: set<int>,
              m: set<int>, m1: set<int>, m2: set<int>, uflg: bool)
    requires Preorder(cmp) && Framed(cmp, t, lo, x, y, hi, m0, m, uflg) && Parted(cmp, t, x, lp, hp, y)
    requires Permuted(t, u, hp + 1, y) && Sorted(cmp, u, hp + 1, y) && Clean(t, x, lp, m1)
    requires m1 == m + if uflg then Repeats(cmp, t, lp, hp + 1) else {}
    requires m2 == m1 + if uflg then Repeats(cmp, u, hp + 1, y) else {}
    ensures Framed(cmp, u, lo, x, lp, hi, m0, m2, uflg)
  {
    hide *;
    SideSorted(cmp, t, u, lo, x, lp, hp, y, hi, m0, m, uflg, hp + 1, y);
    PartedIs(cmp, u, x, lp, hp, y);
    FramedIs(cmp, u, lo, x, y, hi, m0, m, uflg);
    Nested(cmp, u, lo, x, lp, hp, y, hi);
    Glue3(cmp, u, lp, hp + 1, y, hi, lo, hi);
    OtherClean(cmp, t, u, hp + 1, y, x, lp, m1, uflg);
    Marks(Repeats(cmp, u, lo, x), Repeats(cmp, u, y, hi), Repeats(cmp, u, lp, hp + 1), Repeats(cmp, u, hp + 1, y), m0, m,
          uflg);
    IsFramed(cmp, u, lo, x, lp, hi, m0, m2, uflg);
  }

  /** Sorting the left side after the partition. */
  lemma Left(cmp: Order, t: seq<int>, u: seq<int>, lo: int, x: int, lp: int, hp: int, y: int, hi: int, m0: set<int>,
             m: set<int>, m1: set<int>, m2: set<int>, uflg: bool)
    requires Preorder(cmp) && Framed(cmp, t, lo, x, y, hi, m0, m, uflg) && Parted(cmp, t, x, lp, hp, y)
    requires Permuted(t, u, x, lp) && Sorted(cmp, u, x, lp) && Clean(t, hp + 1, y, m1)
    requires m1 == m + if uflg then Repeats(cmp, t, lp, hp + 1) else {}
    requires m2 == m1 + if uflg then Repeats(cmp, u, x, lp) else {}
    ensures Framed(cmp, u, lo, hp + 1, y, hi, m0, m2, uflg)
  {
    hide *;
    SideSorted(cmp, t, u, lo, x, lp, hp, y, hi, m0, m, uflg, x, lp);
    PartedIs(cmp, u, x, lp, hp, y);
    FramedIs(cmp, u, lo, x, y, hi, m0, m, uflg);
    Nested(cmp, u, lo, x, lp, hp, y, hi);
    Glue3(cmp, u, lo, x, lp, hp + 1, lo, hi);
    OtherClean(cmp, t, u, x, lp, hp + 1, y, m1, uflg);
    Marks(Repeats(cmp, u, lo, x), Repeats(cmp, u, y, hi), Repeats(cmp, u, lp, hp + 1), Repeats(cmp, u, x, lp), m0, m, uflg);
    IsFramed(cmp, u, lo, hp + 1, y, hi, m0, m2, uflg);
  }

  lemma SplitStart(cmp: Order, s: seq<int>, lo: int, m: int, hi: int)
    requires Preorder(cmp) && 0 <= lo <= m < hi <= |s|
    ensures Split(cmp, s, lo, lo, m, m, hi - 1, hi, s[m]) && Permuted(s, s, lo, hi)
  {
    Trichotomy(cmp, s[m], s[m]);
  }

  lemma SplitBounds(cmp: Order, s: seq<int>, lo: int, i: int, lp: int, hp: int, j: int, hi: int, p: int)
    requires Split(cmp, s, lo, i, lp, hp, j, hi, p)
    ensures 0 <= lo <= i <= lp <= hp <= j < hi <= |s| && Eq(cmp, s[lp], p) && Eq(cmp, s[hp], p)
  {
    hide Eq, Lt;
  }

  lemma CleanAt(s: seq<int>, lo: int, hi: int, marked: set<int>, k: int)
    requires Clean(s, lo, hi, marked) && lo <= k < hi
    ensures k < |s| && s[k] !in marked
  {
  }

  /** Comparing with an element of the middle is comparing with the pivot. */
  lemma Against(cmp: Order, x: int, e: int, p: int)
    requires Preorder(cmp) && Eq(cmp, e, p)
    ensures cmp(x, e) == 0 <==> Eq(cmp, x, p)
    ensures cmp(x, e) < 0 <==> Lt(cmp, x, p)
    ensures cmp(x, e) > 0 <==> Lt(cmp, p, x)
    ensures cmp(e, x) == 0 <==> Eq(cmp, x, p)
    ensures cmp(e, x) < 0 <==> Lt(cmp, p, x)
    ensures cmp(e, x) > 0 <==> Lt(cmp, x, p)
  {
    LikePivot(cmp, x, e, p);
    Trichotomy(cmp, x, e);
    Trichotomy(cmp, e, x);
  }

  lemma StepUp(cmp: Order, s: seq<int>, lo: int, i: int, lp: int, hp: int, j: int, hi: int, p: int)
    requires Split(cmp, s, lo, i, lp, hp, j, hi, p) && i < lp && Lt(cmp, s[i], p)
    ensures Split(cmp, s, lo, i + 1, lp, hp, j, hi, p)
  {
  }

  lemma StepDown(cmp: Order, s: seq<int>, lo: int, i: int, lp: int, hp: int, j: int, hi: int, p: int)
    requires Split(cmp, s, lo, i, lp, hp, j, hi, p) && hp < j && Lt(cmp, p, s[j])
    ensures Split(cmp, s, lo, i, lp, hp, j - 1, hi, p)
  {
  }

  lemma SplitDone(cmp: Order, s: seq<int>, lo: int, lp: int, hp: int, hi: int, p: int)
    requires Preorder(cmp) && Split(cmp, s, lo, lp, lp, hp, hp, hi, p)
    ensures lo <= lp <= hp < hi <= |s| && Apart(cmp, s, lo, lp, hi) && Apart(cmp, s, lo, hp + 1, hi)
    ensures forall k | lp <= k <= hp :: Eq(cmp, s[k], s[lp])
    ensures Eq(cmp, s[lp], p)
  {
    forall i, j | lo <= i < j < hi && (i < lp <= j || i <= hp < j)
      ensures Lt(cmp, s[i], s[j])
    {
      MiddleIsEqual(cmp, s, lo, lp, hp, hi, p, i, j);
    }
    forall k | lp <= k <= hp
      ensures Eq(cmp, s[k], s[lp])
    {
      LikePivot(cmp, s[k], s[lp], p);
    }
  }

  lemma MiddleIsEqual(cmp: Order, s: seq<int>, lo: int, lp: int, hp: int, hi: int, p: int, i: int, j: int)
    requires Preorder(cmp) && Split(cmp, s, lo, lp, lp, hp, hp, hi, p)
    requires lo <= i < j < hi && (i < lp <= j || i <= hp < j)
    ensures Lt(cmp, s[i], s[j])
  {
    Trichotomy(cmp, s[i], p);
    Trichotomy(cmp, s[j], p);
    LtTrans(cmp, s[i], p, s[j]);
  }

  lemma SwapKeeps(s0: seq<int>, s: seq<int>, lo: int, hi: int, p: int, q: int, marked: set<int>)
    requires Permuted(s0, s, lo, hi) && Clean(s, lo, hi, marked) && lo <= p < hi && lo <= q < hi
    ensures Permuted(s0, Swap(s, p, q), lo, hi) && Clean(Swap(s, p, q), lo, hi, marked)
    ensures forall k | 0 <= k < |s| && k != p && k != q :: Swap(s, p, q)[k] == s[k]
  {
    SwapPermutes(s, p, q);
  }

  lemma RotateKeeps(s0: seq<int>, s: seq<int>, lo: int, hi: int, p: int, q: int, r: int, marked: set<int>)
    requires Permuted(s0, s, lo, hi) && Clean(s, lo, hi, marked) && lo <= p < hi && lo <= q < hi && lo <= r < hi && p != r
    ensures Permuted(s0, Rotate(s, p, q, r), lo, hi) && Clean(Rotate(s, p, q, r), lo, hi, marked)
  {
    RotatePermutes(s, p, q, r);
  }
}
