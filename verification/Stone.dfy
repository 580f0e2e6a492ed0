/** Stone's k-candidate algorithm as diff uses it. After i lines of the first file, candidate l ends
    a common subsequence of length l at the smallest possible line of the second file. */
module Stone {
  import opened CommonLines

  datatype Cand = Cand(x: nat, y: nat, pred: nat)

  /** Candidate p of the pot ends a chain of l matches, increasing in both files. */
  ghost predicate Chain(pot: seq<Cand>, p: nat, l: nat, a: seq<int>, b: seq<int>)
    decreases l
  {
    && p < |pot|
    && if l == 0 then pot[p].x == 0 && pot[p].y == 0
       else
         && 1 <= pot[p].x <= |a| && 1 <= pot[p].y <= |b| && a[pot[p].x - 1] == b[pot[p].y - 1]
         && pot[p].pred < p && pot[pot[p].pred].x < pot[p].x && pot[pot[p].pred].y < pot[p].y
         && Chain(pot, pot[p].pred, l - 1, a, b)
  }

  lemma {:induction false} ChainKept(pot: seq<Cand>, q: Cand, p: nat, l: nat, a: seq<int>, b: seq<int>)
    requires Chain(pot, p, l, a, b)
    ensures Chain(pot + [q], p, l, a, b)
    decreases l
  {
    if l > 0 {
      ChainKept(pot, q, pot[p].pred, l - 1, a, b);
    }
  }

  // ---- The thresholds, as numbers

  ghost predicate Up(s: seq<nat>) {
    forall i, j | 0 <= i < j < |s| :: s[i] < s[j]
  }

  /** t[l] is the least line of b by which the first i lines of a have l lines in common with it. */
  ghost predicate Levels(t: seq<nat>, a: seq<int>, b: seq<int>, i: nat)
    requires i <= |a|
  {
    && |t| > 0 && t[0] == 0 && Up(t) && (forall l | 0 <= l < |t| :: t[l] <= |b|)
    && (forall l, j | 1 <= l < |t| && 0 <= j <= |b| :: Lcs(a, b, i, j) >= l <==> t[l] <= j)
    && Lcs(a, b, i, |b|) < |t|
  }

  /** ys lists the lines of b that match line i of a, in increasing order. */
  ghost predicate RowOf(ys: seq<nat>, a: seq<int>, b: seq<int>, i: nat)
    requires 1 <= i <= |a|
  {
    && Up(ys)
    && (forall y :: y in ys <==> 1 <= y <= |b| && a[i - 1] == b[y - 1])
  }

  /** v is the least of hi and of the entries above lo among the first p of ys. */
  ghost predicate Least(lo: nat, hi: nat, ys: seq<nat>, p: nat, v: nat)
    requires p <= |ys|
  {
    && v <= hi && (v == hi || (lo < v && exists q | 0 <= q < p :: ys[q] == v))
    && forall q | 0 <= q < p && lo < ys[q] :: v <= ys[q]
  }

  /** The thresholds of t, and one more if there is one, brought up to date for the row ys. */
  ghost predicate RowDone(t: seq<nat>, u: seq<nat>, ys: seq<nat>, top: nat) {
    && |t| > 0 && (|u| == |t| || |u| == |t| + 1) && u[0] == t[0] == 0
    && (forall l | 1 <= l < |t| :: Least(t[l - 1], t[l], ys, |ys|, u[l]))
    && Least(t[|t| - 1], top, ys, |ys|, if |u| == |t| then top else u[|t|])
    && (|u| > |t| ==> u[|t|] < top)
  }

  lemma Follows(t: seq<nat>, a: seq<int>, b: seq<int>, i: nat, l: nat, y: nat)
    requires 1 <= i <= |a| && Levels(t, a, b, i - 1) && 1 <= l <= |t| && 1 <= y <= |b|
    ensures Lcs(a, b, i - 1, y - 1) >= l - 1 <==> t[l - 1] < y
  {
    hide Lcs;
    if l > 1 {
      assert Lcs(a, b, i - 1, y - 1) >= l - 1 <==> t[l - 1] <= y - 1;
    }
  }

  lemma ReachedBefore(t: seq<nat>, a: seq<int>, b: seq<int>, i: nat, l: nat, j: nat)
    requires i <= |a| && Levels(t, a, b, i) && 1 <= l <= |t| && j <= |b|
    ensures Lcs(a, b, i, j) >= l <==> l < |t| && t[l] <= j
  {
    LcsMonotone(a, b, i, j, |b|);
    hide Lcs;
  }

  /** One step of the thresholds: level l is reached by line j, in row i, if it was before or some y
      of the row follows level l - 1. */
  lemma LevelStep(t: seq<nat>, ys: seq<nat>, a: seq<int>, b: seq<int>, i: nat, l: nat, j: nat)
    requires 1 <= i <= |a| && Levels(t, a, b, i - 1) && RowOf(ys, a, b, i)
    requires 1 <= l <= |t| && j <= |b|
    ensures Lcs(a, b, i, j) >= l <==>
            (l < |t| && t[l] <= j) || exists q | 0 <= q < |ys| :: t[l - 1] < ys[q] <= j
  {
    hide Lcs, Levels;
    LcsRow(a, b, i, j, l);
    ReachedBefore(t, a, b, i - 1, l, j);
    if y :| 1 <= y <= j && Extends(a, b, i, y, l) {
      assert y in ys;
      Follows(t, a, b, i, l, y);
    }
    forall q | 0 <= q < |ys| && t[l - 1] < ys[q] <= j
      ensures Extends(a, b, i, ys[q], l)
    {
      assert ys[q] in ys;
      Follows(t, a, b, i, l, ys[q]);
    }
  }

  lemma LeastMeaning(lo: nat, hi: nat, ys: seq<nat>, v: nat, j: nat)
    requires Least(lo, hi, ys, |ys|, v)
    ensures v <= j <==> hi <= j || exists q | 0 <= q < |ys| :: lo < ys[q] <= j
    ensures v <= hi && (lo < hi ==> lo < v)
  {
  }

  /** The update of level l. */
  lemma DoneAt(t: seq<nat>, u: seq<nat>, ys: seq<nat>, top: nat, l: nat)
    requires RowDone(t, u, ys, top) && 1 <= l < |u|
    ensures Least(t[l - 1], if l < |t| then t[l] else top, ys, |ys|, u[l])
    ensures l >= |t| ==> u[l] < top
  {
  }

  lemma LevelsAfterRow(t: seq<nat>, u: seq<nat>, ys: seq<nat>, a: seq<int>, b: seq<int>, i: nat)
    requires 1 <= i <= |a| && Levels(t, a, b, i - 1) && RowOf(ys, a, b, i) && RowDone(t, u, ys, |b| + 1)
    ensures Levels(u, a, b, i)
  {
    hide Lcs, Least, RowOf;
    forall l | 1 <= l < |u|
      ensures t[l - 1] < u[l] <= |b| && (l < |t| ==> u[l] <= t[l])
    {
      DoneAt(t, u, ys, |b| + 1, l);
      LeastMeaning(t[l - 1], if l < |t| then t[l] else |b| + 1, ys, u[l], 0);
    }
    forall k, l | 0 <= k < l < |u|
      ensures u[k] < u[l]
    {
      assert u[k] <= t[k] && t[k] <= t[l - 1];
    }
    forall l, j | 1 <= l < |u| && 0 <= j <= |b|
      ensures Lcs(a, b, i, j) >= l <==> u[l] <= j
    {
      LevelStep(t, ys, a, b, i, l, j);
      DoneAt(t, u, ys, |b| + 1, l);
      LeastMeaning(t[l - 1], if l < |t| then t[l] else |b| + 1, ys, u[l], j);
    }
    if |u| == |t| {
      LevelStep(t, ys, a, b, i, |t|, |b|);
      LeastMeaning(t[|t| - 1], |b| + 1, ys, |b| + 1, |b|);
    } else {
      LcsGrows(a, b, i, |b|);
    }
  }

  // ---- One row, as numbers

  /** The state inside a row, before entry p of ys. v is what has become of the thresholds t so far:
      those up to oldl may have been replaced. Level o is the one whose candidate is kept as the
      predecessor for the next replacement. */
  ghost predicate InRow(t: seq<nat>, ys: seq<nat>, p: nat, v: seq<nat>, oldl: nat, o: nat) {
    && Up(t) && Up(ys) && |v| == |t| && oldl <= o < |t| && p <= |ys| && v[0] == t[0] == 0
    && (forall l | 1 <= l < |t| :: Least(t[l - 1], t[l], ys, p, v[l]))
    && (forall l | oldl < l < |t| :: v[l] == t[l])
    && (forall q | 0 <= q < p :: ys[q] <= t[|t| - 1])
    && (oldl > 0 ==> p > 0 && v[oldl] <= ys[p - 1])
    && (o > oldl ==> p > 0 && o + 1 < |t| && ys[p - 1] == t[o + 1])
  }

  lemma InBetween(t: seq<nat>, ys: seq<nat>, p: nat, v: seq<nat>, oldl: nat, o: nat)
    requires InRow(t, ys, p, v, oldl, o)
    ensures forall l | 1 <= l < |t| :: t[l - 1] < v[l] <= t[l]
  {
    forall l | 1 <= l < |t|
      ensures t[l - 1] < v[l] <= t[l]
    {
      assert Least(t[l - 1], t[l], ys, p, v[l]);
    }
  }

  lemma LeastNext(lo: nat, hi: nat, ys: seq<nat>, p: nat, v: nat)
    requires p < |ys| && Least(lo, hi, ys, p, v) && (lo < ys[p] ==> v <= ys[p])
    ensures Least(lo, hi, ys, p + 1, v)
  {
  }

  lemma LeastNew(lo: nat, hi: nat, ys: seq<nat>, p: nat)
    requires p < |ys| && Least(lo, hi, ys, p, hi) && lo < ys[p] < hi
    ensures Least(lo, hi, ys, p + 1, ys[p])
  {
  }

  /** Entry p is no later than level o: every level it could improve has been improved already. */
  lemma SkipEntry(t: seq<nat>, ys: seq<nat>, p: nat, v: seq<nat>, oldl: nat, o: nat)
    requires InRow(t, ys, p, v, oldl, o) && p < |ys| && ys[p] <= t[o]
    ensures InRow(t, ys, p + 1, v, oldl, o)
  {
    hide Least;
    InBetween(t, ys, p, v, oldl, o);
    assert p > 0 ==> ys[p - 1] < ys[p];
    assert o == oldl;
    forall l | 1 <= l < |t|
      ensures Least(t[l - 1], t[l], ys, p + 1, v[l])
    {
      if t[l - 1] < ys[p] {
        assert l <= o;
        assert l < o ==> v[l] <= t[l] <= t[o - 1] < v[o];
      }
      LeastNext(t[l - 1], t[l], ys, p, v[l]);
    }
  }

  /** Entry p is exactly the threshold l. */
  lemma EqualEntry(t: seq<nat>, ys: seq<nat>, p: nat, v: seq<nat>, oldl: nat, o: nat, k: nat)
    requires InRow(t, ys, p, v, oldl, o) && p < |ys| && o < k < |t| && ys[p] == t[k]
    ensures InRow(t, ys, p + 1, v, oldl, k - 1)
  {
    hide Least;
    InBetween(t, ys, p, v, oldl, o);
    assert p > 0 ==> ys[p - 1] < ys[p];
    forall l | 1 <= l < |t|
      ensures Least(t[l - 1], t[l], ys, p + 1, v[l])
    {
      if t[l - 1] < ys[p] {
        assert l <= k;
      }
      LeastNext(t[l - 1], t[l], ys, p, v[l]);
    }
  }

  /** Entry p lies between levels k - 1 and k and becomes the new level k. */
  lemma NewEntry(t: seq<nat>, ys: seq<nat>, p: nat, v: seq<nat>, oldl: nat, o: nat, k: nat)
    requires InRow(t, ys, p, v, oldl, o) && p < |ys| && o < k < |t| && t[k - 1] < ys[p] < t[k]
    ensures InRow(t, ys, p + 1, v[k := ys[p]], k, k)
  {
    hide Least;
    InBetween(t, ys, p, v, oldl, o);
    forall l | 1 <= l < |t|
      ensures Least(t[l - 1], t[l], ys, p + 1, v[k := ys[p]][l])
    {
      if l == k {
        LeastNew(t[l - 1], t[l], ys, p);
      } else {
        if t[l - 1] < ys[p] {
          assert l < k;
          assert t[l] <= t[k - 1];
        }
        LeastNext(t[l - 1], t[l], ys, p, v[l]);
      }
    }
  }

  /** The row is exhausted. */
  lemma RowEnds(t: seq<nat>, ys: seq<nat>, v: seq<nat>, oldl: nat, o: nat, top: nat)
    requires InRow(t, ys, |ys|, v, oldl, o) && t[|t| - 1] < top
    ensures RowDone(t, v, ys, top)
  {
  }

  lemma {:induction false} LeastRest(lo: nat, hi: nat, ys: seq<nat>, p: nat, v: nat)
    requires p <= |ys| && Least(lo, hi, ys, p, v) && forall q | p <= q < |ys| :: v <= ys[q]
    ensures Least(lo, hi, ys, |ys|, v)
    decreases |ys| - p
  {
    if p < |ys| {
      LeastNext(lo, hi, ys, p, v);
      LeastRest(lo, hi, ys, p + 1, v);
    }
  }

  /** Entry p lies above all levels: it becomes a new one, and the rest of the row can be left out. */
  lemma RowExtends(t: seq<nat>, ys: seq<nat>, p: nat, v: seq<nat>, oldl: nat, o: nat, top: nat)
    requires InRow(t, ys, p, v, oldl, o) && p < |ys| && t[|t| - 1] < ys[p] < top
    ensures RowDone(t, v + [ys[p]], ys, top)
  {
    InBetween(t, ys, p, v, oldl, o);
    var u := v + [ys[p]];
    forall l | 1 <= l < |t|
      ensures Least(t[l - 1], t[l], ys, |ys|, u[l])
    {
      assert t[l] <= t[|t| - 1];
      assert forall q | p <= q < |ys| :: v[l] <= ys[q];
      LeastRest(t[l - 1], t[l], ys, p, v[l]);
    }
    assert Least(t[|t| - 1], top, ys, |ys|, ys[p]);
  }

  /** The level search finds for entry p is past level o, and lies where p falls among the old
      thresholds. */
  lemma SearchPlace(t: seq<nat>, ys: seq<nat>, p: nat, v: seq<nat>, oldl: nat, o: nat, k: nat)
    requires InRow(t, ys, p, v, oldl, o) && p < |ys| && t[o] < ys[p]
    requires 1 <= k <= |t| && v[k - 1] < ys[p] && (k < |t| ==> ys[p] <= v[k])
    ensures o < k && t[k - 1] < ys[p] && (k < |t| ==> v[k] == t[k]) && (k - 1 > oldl ==> k - 1 <= |t|)
    ensures k == oldl + 1 ==> o == oldl
  {
    InBetween(t, ys, p, v, oldl, o);
  }

  // ---- The thresholds, as candidates

  /** The candidate list: entry l is the end of a chain of length l at line t[l] of b, using lines up
      to x of a. */
  ghost predicate Holds(pot: seq<Cand>, c: seq<nat>, t: seq<nat>, x: nat, a: seq<int>, b: seq<int>) {
    && 0 < |t| <= |c| && t[0] == 0
    && forall l | 0 <= l < |t| ::
         c[l] < |pot| && pot[c[l]].y == t[l] && pot[c[l]].x <= x && Chain(pot, c[l], l, a, b)
  }

  /** The lines matched with one line of a: the class member at j, stored with a minus sign, and the
      positive ones after it. */
  function Positives(member: seq<int>, j: nat): seq<nat>
    decreases |member| - j
  {
    if j < |member| && member[j] > 0 then [member[j]] + Positives(member, j + 1) else []
  }

  function Members(member: seq<int>, j: nat): seq<nat>
    requires j < |member| && member[j] < 0
  {
    [-member[j]] + Positives(member, j + 1)
  }

  /** class and member stand for the lines of a and b: class[i] is the place in member of the class of
      line i, or 0, and that class lists the lines of b equal to line i. */
  ghost predicate Represents(cls: seq<int>, member: seq<int>, a: seq<int>, b: seq<int>) {
    && |cls| > |a|
    && forall i | 1 <= i <= |a| ::
         if cls[i] == 0 then RowOf([], a, b, i)
         else 0 < cls[i] < |member| && member[cls[i]] < 0 && RowOf(Members(member, cls[i]), a, b, i)
              && cls[i] + |Members(member, cls[i])| < |member|
  }

  lemma {:induction false} PositivesAt(member: seq<int>, j: nat, q: nat)
    requires q < |Positives(member, j)|
    ensures j + q < |member| && member[j + q] > 0 && Positives(member, j)[q] == member[j + q]
    decreases q
  {
    if q > 0 {
      PositivesAt(member, j + 1, q - 1);
    }
  }

  lemma {:induction false} PositivesEnd(member: seq<int>, j: nat)
    ensures j + |Positives(member, j)| < |member| ==> member[j + |Positives(member, j)|] <= 0
    decreases |member| - j
  {
    if j < |member| && member[j] > 0 {
      PositivesEnd(member, j + 1);
    }
  }

  /** Entry q of a class is found q places after its first one; then comes an entry that is not
      positive. */
  lemma MemberAt(member: seq<int>, j: nat, q: nat)
    requires j < |member| && member[j] < 0 && q <= |Members(member, j)| && j + |Members(member, j)| < |member|
    ensures |Members(member, j)| > 0 && (q == 0 ==> Members(member, j)[0] == -member[j])
    ensures 0 < q < |Members(member, j)| ==> member[j + q] > 0 && Members(member, j)[q] == member[j + q]
    ensures q == |Members(member, j)| ==> member[j + q] <= 0
  {
    if 0 < q < |Members(member, j)| {
      PositivesAt(member, j + 1, q - 1);
    }
    PositivesEnd(member, j + 1);
  }

  /** The candidates inside a row: c is what has become of the list c0 for the thresholds t. */
  ghost predicate RowCands(pot: seq<Cand>, c: seq<nat>, c0: seq<nat>, t: seq<nat>, v: seq<nat>, oldl: nat,
                           i: nat, a: seq<int>, b: seq<int>)
  {
    && i >= 1 && Holds(pot, c0, t, i - 1, a, b) && |c| == |c0| > |t| == |v|
    && Holds(pot, c, v, i, a, b)
    && (forall l | oldl < l < |c| :: c[l] == c0[l])
  }

  lemma RowStart(pot: seq<Cand>, c: seq<nat>, t: seq<nat>, ys: seq<nat>, i: nat, a: seq<int>, b: seq<int>)
    requires 1 <= i <= |a| && Holds(pot, c, t, i - 1, a, b) && |c| > |t|
    requires Levels(t, a, b, i - 1) && RowOf(ys, a, b, i)
    ensures RowCands(pot, c, c, t, t, 0, i, a, b) && InRow(t, ys, 0, t, 0, 0)
  {
  }

  lemma HoldsMore(pot: seq<Cand>, q: Cand, c: seq<nat>, t: seq<nat>, x: nat, a: seq<int>, b: seq<int>)
    requires Holds(pot, c, t, x, a, b)
    ensures Holds(pot + [q], c, t, x, a, b)
  {
    forall l | 0 <= l < |t|
      ensures Chain(pot + [q], c[l], l, a, b)
    {
      ChainKept(pot, q, c[l], l, a, b);
    }
  }

  /** A candidate for line y, chained to the candidate of level k - 1 from before the row. */
  lemma Chained(pot: seq<Cand>, c0: seq<nat>, t: seq<nat>, k: nat, y: nat, i: nat, a: seq<int>, b: seq<int>)
    requires 1 <= i <= |a| && Holds(pot, c0, t, i - 1, a, b) && 1 <= k <= |t| && t[k - 1] < y <= |b|
    requires a[i - 1] == b[y - 1]
    ensures Chain(pot + [Cand(i, y, c0[k - 1])], |pot|, k, a, b)
  {
    ChainKept(pot, Cand(i, y, c0[k - 1]), c0[k - 1], k - 1, a, b);
  }

  lemma Replaced(pot: seq<Cand>, c: seq<nat>, c0: seq<nat>, t: seq<nat>, v: seq<nat>, oldl: nat, k: nat, y: nat,
                 i: nat, a: seq<int>, b: seq<int>)
    requires RowCands(pot, c, c0, t, v, oldl, i, a, b) && oldl < k < |t| && t[k - 1] < y <= |b|
    requires i <= |a| && a[i - 1] == b[y - 1]
    ensures RowCands(pot + [Cand(i, y, c0[k - 1])], c[k := |pot|], c0, t, v[k := y], k, i, a, b)
  {
    hide Chain;
    Chained(pot, c0, t, k, y, i, a, b);
    HoldsMore(pot, Cand(i, y, c0[k - 1]), c0, t, i - 1, a, b);
    HoldsMore(pot, Cand(i, y, c0[k - 1]), c, v, i, a, b);
  }

  lemma Extended(pot: seq<Cand>, c: seq<nat>, c0: seq<nat>, t: seq<nat>, v: seq<nat>, oldl: nat, y: nat,
                 i: nat, a: seq<int>, b: seq<int>)
    requires RowCands(pot, c, c0, t, v, oldl, i, a, b) && t[|t| - 1] < y <= |b|
    requires i <= |a| && a[i - 1] == b[y - 1]
    ensures Holds(pot + [Cand(i, y, c0[|t| - 1])], c[|t| := |pot|], v + [y], i, a, b)
  {
    hide Chain;
    Chained(pot, c0, t, |t|, y, i, a, b);
    HoldsMore(pot, Cand(i, y, c0[|t| - 1]), c, v, i, a, b);
  }

  class Matcher {
    var clist: seq<Cand>

    constructor ()
      ensures clist == []
    {
      clist := [];
    }

    method NewCand(x: nat, y: nat, pred: nat) returns (p: nat)
      modifies this
      ensures clist == old(clist) + [Cand(x, y, pred)] && p == |old(clist)|
    {
      clist := clist + [Cand(x, y, pred)];
      p := |clist| - 1;
    }

    /** Finds the least level whose candidate is at y or later, or k + 1. */
    method Search(c: array<nat>, k: nat, y: nat, ghost v: seq<nat>) returns (l: nat)
      requires |v| == k + 1 <= c.Length && v[0] < y
      requires forall m | 0 <= m <= k :: c[m] < |clist| && clist[c[m]].y == v[m]
      requires forall m, n | 0 <= m < n <= k :: v[m] < v[n]
      ensures 1 <= l <= k + 1 && v[l - 1] < y && (l <= k ==> y <= v[l])
    {
      if clist[c[k]].y < y {
        return k + 1;
      }
      var i, j := 0, k + 1;
      l := (i + j) / 2;
      while l > i
        invariant 0 <= i < j <= k + 1 && l == (i + j) / 2
        invariant v[i] < y && (j <= k ==> y < v[j])
        decreases j - i
      {
        var t := clist[c[l]].y;
        if t > y {
          j := l;
        } else if t < y {
          i := l;
        } else {
          return l;
        }
        l := (i + j) / 2;
      }
      l := l + 1;
    }

    /** Brings the candidate list c up to date for line i of the first file, whose class starts at
        cls in member. */
    method StoneRow(i: nat, cls: nat, member: seq<int>, c: array<nat>, k: nat, ghost t: seq<nat>,
                    ghost a: seq<int>, ghost b: seq<int>)
      returns (k': nat, ghost u: seq<nat>)
      requires 1 <= i <= |a| && k + 2 <= c.Length && |t| == k + 1
      requires Levels(t, a, b, i - 1) && Holds(clist, c[..], t, i - 1, a, b)
      requires cls < |member| && member[cls] < 0 && cls + |Members(member, cls)| < |member|
      requires RowOf(Members(member, cls), a, b, i)
      modifies this, c
      ensures |u| == k' + 1 && Levels(u, a, b, i) && Holds(clist, c[..], u, i, a, b)
    {
      hide Levels, Holds, RowOf, RowCands, InRow, RowDone, Members, Chain;
      ghost var ys, c0 := Members(member, cls), c[..];
      ghost var v: seq<nat> := t;
      ghost var o, p := 0, 0;
      RowStart(clist, c0, t, ys, i, a, b);
      MemberAt(member, cls, 0);
      var j := cls;
      var y: nat := -member[j];
      var oldl, oldc := 0, c[0];
      k' := k;
      while true
        invariant k' == k && oldl <= o <= k && j == cls + p && p < |ys| && y == ys[p]
        invariant |v| == k + 1 && InRow(t, ys, p, v, oldl, o)
        invariant RowCands(clist, c[..], c0, t, v, oldl, i, a, b) && oldc == c0[o]
        decreases |ys| - p
      {
        RowFacts(clist, c[..], c0, t, v, ys, p, oldl, o, i, a, b);
        if y <= clist[oldc].y {
          SkipEntry(t, ys, p, v, oldl, o);
        } else {
          var l := Search(c, k, y, v);
          SearchPlace(t, ys, p, v, oldl, o, l);
          if l != oldl + 1 {
            oldc := c[l - 1];
          }
          if l <= k {
            if clist[c[l]].y <= y {
              EqualEntry(t, ys, p, v, oldl, o, l);
              o := l - 1;
            } else {
              NewEntry(t, ys, p, v, oldl, o, l);
              Replaced(clist, c[..], c0, t, v, oldl, l, y, i, a, b);
              ghost var cs := c[..];
              var tc := c[l];
              var q := NewCand(i, y, oldc);
              c[l] := q;
              assert c[..] == cs[l := q];
              oldc := tc;
              oldl := l;
              v, o := v[l := y], l;
            }
          } else {
            RowExtends(t, ys, p, v, oldl, o, |b| + 1);
            Extended(clist, c[..], c0, t, v, oldl, y, i, a, b);
            ghost var cs := c[..];
            var q := NewCand(i, y, oldc);
            c[l] := q;
            assert c[..] == cs[l := q];
            k' := k' + 1;
            u := v + [y];
            LevelsAfterRow(t, u, ys, a, b, i);
            return;
          }
        }
        j, p := j + 1, p + 1;
        MemberAt(member, cls, p);
        if member[j] <= 0 {
          break;
        }
        y := member[j];
      }
      RowFinished(clist, c[..], c0, t, v, ys, oldl, o, i, a, b);
      u := v;
      LevelsAfterRow(t, u, ys, a, b, i);
    }

    /** Finds the candidates; the last one ends a longest common subsequence. */
    method Stone(cls: seq<int>, n: nat, member: seq<int>, c: array<nat>, ghost a: seq<int>, ghost b: seq<int>)
      returns (k: nat)
      requires n == |a| && n + 2 <= c.Length && Represents(cls, member, a, b)
      modifies this, c
      ensures k == Lcs(a, b, |a|, |b|)
      ensures k < c.Length && c[k] < |clist| && Chain(clist, c[k], k, a, b)
    {
      hide Levels, Holds, RowOf, Members, Chain, Lcs, RowDone;
      k := 0;
      var q := NewCand(0, 0, 0);
      c[0] := q;
      ghost var t: seq<nat> := [0];
      NoLevels(clist, c[..], a, b);
      var i := 1;
      while i <= n
        invariant 1 <= i <= n + 1 && |t| == k + 1
        invariant Levels(t, a, b, i - 1) && Holds(clist, c[..], t, i - 1, a, b)
      {
        LevelCount(t, a, b, i - 1);
        var j := cls[i];
        if j != 0 {
          k, t := StoneRow(i, j, member, c, k, t, a, b);
        } else {
          EmptyRow(clist, c[..], t, i, a, b);
        }
        i := i + 1;
      }
      LevelCount(t, a, b, n);
      LastCandidate(clist, c[..], t, n, a, b);
    }
  }

  lemma NoLevels(pot: seq<Cand>, c: seq<nat>, a: seq<int>, b: seq<int>)
    requires |c| > 0 && |pot| > 0 && c[0] == |pot| - 1 && pot[c[0]] == Cand(0, 0, 0)
    ensures Levels([0], a, b, 0) && Holds(pot, c, [0], 0, a, b)
  {
  }

  lemma LevelCount(t: seq<nat>, a: seq<int>, b: seq<int>, i: nat)
    requires i <= |a| && Levels(t, a, b, i)
    ensures |t| - 1 == Lcs(a, b, i, |b|) <= i
  {
    hide Lcs;
    LcsSmall(a, b, i, |b|);
    if |t| > 1 {
      assert Lcs(a, b, i, |b|) >= |t| - 1 <==> t[|t| - 1] <= |b|;
    }
  }

  lemma EmptyRow(pot: seq<Cand>, c: seq<nat>, t: seq<nat>, i: nat, a: seq<int>, b: seq<int>)
    requires 1 <= i <= |a| && Levels(t, a, b, i - 1) && Holds(pot, c, t, i - 1, a, b) && RowOf([], a, b, i)
    ensures Levels(t, a, b, i) && Holds(pot, c, t, i, a, b)
  {
    hide Lcs, Chain;
    assert RowDone(t, t, [], |b| + 1);
    LevelsAfterRow(t, t, [], a, b, i);
  }

  lemma LastCandidate(pot: seq<Cand>, c: seq<nat>, t: seq<nat>, i: nat, a: seq<int>, b: seq<int>)
    requires Holds(pot, c, t, i, a, b)
    ensures |t| <= |c| && c[|t| - 1] < |pot| && Chain(pot, c[|t| - 1], |t| - 1, a, b)
  {
  }

  /** What the loop of StoneRow needs to know about its state. */
  lemma RowFacts(pot: seq<Cand>, c: seq<nat>, c0: seq<nat>, t: seq<nat>, v: seq<nat>, ys: seq<nat>, p: nat,
                 oldl: nat, o: nat, i: nat, a: seq<int>, b: seq<int>)
    requires 1 <= i <= |a| && RowCands(pot, c, c0, t, v, oldl, i, a, b) && InRow(t, ys, p, v, oldl, o) && p < |ys|
    requires RowOf(ys, a, b, i)
    ensures c0[o] < |pot| && pot[c0[o]].y == t[o] && v[0] == 0 && |v| == |t| < |c| == |c0|
    ensures 1 <= ys[p] <= |b| && a[i - 1] == b[ys[p] - 1]
    ensures forall m | 0 <= m < |t| :: c[m] < |pot| && pot[c[m]].y == v[m]
    ensures forall m, n | 0 <= m < n < |t| :: v[m] < v[n]
    ensures forall m | oldl < m < |c| :: c[m] == c0[m]
  {
    hide Chain, Least;
    assert ys[p] in ys;
    InBetween(t, ys, p, v, oldl, o);
    forall m, n | 0 <= m < n < |t|
      ensures v[m] < v[n]
    {
      assert v[m] <= t[m] <= t[n - 1] < v[n];
    }
  }

  lemma RowFinished(pot: seq<Cand>, c: seq<nat>, c0: seq<nat>, t: seq<nat>, v: seq<nat>, ys: seq<nat>,
                    oldl: nat, o: nat, i: nat, a: seq<int>, b: seq<int>)
    requires 1 <= i <= |a| && RowCands(pot, c, c0, t, v, oldl, i, a, b) && InRow(t, ys, |ys|, v, oldl, o)
    requires Levels(t, a, b, i - 1)
    ensures RowDone(t, v, ys, |b| + 1) && Holds(pot, c, v, i, a, b)
  {
    hide Chain, Least, Lcs;
    RowEnds(t, ys, v, oldl, o, |b| + 1);
  }
}
