/** The match vector of diff: pruning, sorting, classes, Stone's algorithm and unravelling, and the
    proof that it matches as many lines as any match vector can. */
module DiffMatch {
  import opened DiffSort
  import opened CommonLines
  import opened Stone
  import opened DiffClasses

  // ---- The classes stand for the lines

  /** The serial numbers of the lines from x on that have value v, up to the first other one. */
  function ClassFrom(f: seq<Line>, m: nat, v: int, x: nat): seq<int>
    requires m < |f|
    decreases m + 1 - x
  {
    if x <= m && f[x].value == v then [f[x].serial] + ClassFrom(f, m, v, x + 1) else []
  }

  lemma {:induction false} ClassFromAt(f: seq<Line>, m: nat, v: int, x: nat)
    requires m < |f| && x <= m + 1
    ensures x + |ClassFrom(f, m, v, x)| <= m + 1
    ensures forall k | x <= k < x + |ClassFrom(f, m, v, x)| ::
              f[k].value == v && ClassFrom(f, m, v, x)[k - x] == f[k].serial
    ensures x + |ClassFrom(f, m, v, x)| <= m ==> f[x + |ClassFrom(f, m, v, x)|].value != v
    decreases m + 1 - x
  {
    if x <= m && f[x].value == v {
      ClassFromAt(f, m, v, x + 1);
      forall k | x < k < x + |ClassFrom(f, m, v, x)|
        ensures f[k].value == v && ClassFrom(f, m, v, x)[k - x] == f[k].serial
      {
        assert ClassFrom(f, m, v, x)[k - x] == ClassFrom(f, m, v, x + 1)[k - (x + 1)];
      }
    }
  }

  lemma ValuesBetween(f: seq<Line>, m: nat, j: nat, v: int)
    requires SortedLines(f, m) && 1 <= j <= m && f[j].value == v
    ensures forall e, k | j <= e <= k <= m && f[k].value == v :: f[e].value == v
  {
    forall e, k | j <= e <= k <= m && f[k].value == v
      ensures f[e].value == v
    {
      assert j < e ==> Before(f[j], f[e]);
      assert e < k ==> Before(f[e], f[k]);
    }
  }

  lemma {:induction false} PositivesAreClass(c: seq<int>, f: seq<Line>, m: nat, v: int, x: nat)
    requires IsMember(c, f, m) && 2 <= x <= m + 1 && f[x - 1].value == v
    requires forall j | 1 <= j <= m :: f[j].serial >= 1
    ensures Positives(c, x) == ClassFrom(f, m, v, x)
    decreases m + 1 - x
  {
    if x <= m {
      assert c[x] == Squeezed(f, x);
      if f[x].value == v {
        PositivesAreClass(c, f, m, v, x + 1);
      }
    }
  }

  lemma MembersAreClass(c: seq<int>, f: seq<Line>, m: nat, v: int, j: nat)
    requires IsMember(c, f, m) && 1 <= j && IsFirst(f, m, v, j)
    requires forall k | 1 <= k <= m :: f[k].serial >= 1
    ensures c[j] < 0 && Members(c, j) == ClassFrom(f, m, v, j)
  {
    assert c[j] == Squeezed(f, j);
    PositivesAreClass(c, f, m, v, j + 1);
  }

  /** The class that starts at j lists the lines of b with value v, in increasing order. */
  lemma ClassIsRow(c: seq<int>, f: seq<Line>, v: int, j: nat, a: seq<int>, b: seq<int>, i: nat)
    requires IsMember(c, f, |b|) && SortedLines(f, |b|) && Numbered(f, b)
    requires 1 <= j && IsFirst(f, |b|, v, j) && 1 <= i <= |a| && a[i - 1] == v
    ensures c[j] < 0 && j + |Members(c, j)| < |c| && RowOf(Members(c, j), a, b, i)
  {
    var m := |b|;
    MembersAreClass(c, f, m, v, j);
    ClassFromAt(f, m, v, j);
    ValuesBetween(f, m, j, v);
    hide ClassFrom, Members, Positives;
    var ys := Members(c, j);
    forall p, q | 0 <= p < q < |ys|
      ensures ys[p] < ys[q]
    {
      assert Before(f[j + p], f[j + q]) && f[j + p].value == v && f[j + q].value == v;
      assert f[j + p].serial != f[j + q].serial;
    }
    forall y: nat
      ensures y in ys <==> 1 <= y <= m && b[y - 1] == v
    {
      if 1 <= y <= m && b[y - 1] == v {
        assert HasNumber(f, m, y);
        var k :| 1 <= k <= m && f[k].serial == y;
        assert j <= k < j + |ys|;
        assert ys[k - j] == y;
      }
      if y in ys {
        var q :| 0 <= q < |ys| && ys[q] == y;
        assert f[j + q].value == b[f[j + q].serial - 1];
      }
    }
  }

  lemma NoRow(f: seq<Line>, v: int, a: seq<int>, b: seq<int>, i: nat)
    requires Numbered(f, b) && IsFirst(f, |b|, v, 0) && 1 <= i <= |a| && a[i - 1] == v
    ensures RowOf([], a, b, i)
  {
    forall x | 0 <= x < |b|
      ensures b[x] != v
    {
      assert HasNumber(f, |b|, x + 1);
    }
  }

  /** What equiv and unsort make of two sorted files stands for the files. */
  lemma ClassesRepresent(cls: seq<int>, c: seq<int>, g: seq<Line>, g0: seq<Line>, f: seq<Line>,
                         a: seq<int>, b: seq<int>)
    requires Numbered(g0, a) && Numbered(f, b) && SortedLines(f, |b|) && IsMember(c, f, |b|)
    requires Classified(g, g0, |a|, f, |b|, |a| + 1)
    requires |cls| > |a| && forall k | 1 <= k <= |a| :: 0 <= g[k].serial < |cls| && cls[g[k].serial] == g[k].value
    ensures Represents(cls, c, a, b)
  {
    hide RowOf, IsFirst;
    forall i | 1 <= i <= |a|
      ensures if cls[i] == 0 then RowOf([], a, b, i)
              else 0 < cls[i] < |c| && c[cls[i]] < 0 && RowOf(Members(c, cls[i]), a, b, i)
                   && cls[i] + |Members(c, cls[i])| < |c|
    {
      assert HasNumber(g0, |a|, i);
      var k :| 1 <= k <= |a| && g0[k].serial == i;
      assert g[k].serial == i && cls[i] == g[k].value;
      var v, j := g0[k].value, cls[i];
      assert IsFirst(f, |b|, v, j);
      FirstInRange(f, |b|, v, j);
      if j == 0 {
        NoRow(f, v, a, b, i);
      } else {
        ClassIsRow(c, f, v, j, a, b, i);
      }
    }
  }

  lemma FirstInRange(f: seq<Line>, m: nat, v: int, j: int)
    requires m < |f| && IsFirst(f, m, v, j)
    ensures 0 <= j <= m
  {
  }

  // ---- Pruning and unravelling

  lemma OneMoreInFront(a: seq<int>, b: seq<int>, k: nat)
    requires k < |a| && k < |b| && a[..k] == b[..k] && a[k] == b[k]
    ensures a[..k + 1] == b[..k + 1]
  {
    assert a[..k + 1] == a[..k] + [a[k]] && b[..k + 1] == b[..k] + [b[k]];
  }

  lemma OneMoreBehind(a: seq<int>, b: seq<int>, i: nat, k: nat)
    requires i < |a| && k < |b| && a[i + 1..] == b[k + 1..] && a[i] == b[k]
    ensures a[i..] == b[k..]
  {
    assert a[i..] == [a[i]] + a[i + 1..] && b[k..] == [b[k]] + b[k + 1..];
  }

  /** The longest common prefix, and the longest common suffix of what is left. */
  method Prune(a: seq<int>, b: seq<int>) returns (pref: nat, suff: nat)
    ensures pref + suff <= |a| && pref + suff <= |b|
    ensures a[..pref] == b[..pref] && a[|a| - suff..] == b[|b| - suff..]
    ensures pref < |a| && pref < |b| ==> a[pref] != b[pref]
    ensures pref + suff < |a| && pref + suff < |b| ==> a[|a| - suff - 1] != b[|b| - suff - 1]
  {
    pref := 0;
    while pref < |a| && pref < |b| && a[pref] == b[pref]
      invariant pref <= |a| && pref <= |b| && a[..pref] == b[..pref]
    {
      OneMoreInFront(a, b, pref);
      pref := pref + 1;
    }
    suff := 0;
    while suff < |a| - pref && suff < |b| - pref && a[|a| - suff - 1] == b[|b| - suff - 1]
      invariant pref + suff <= |a| && pref + suff <= |b|
      invariant a[|a| - suff..] == b[|b| - suff..]
    {
      OneMoreBehind(a, b, |a| - suff - 1, |b| - suff - 1);
      suff := suff + 1;
    }
  }

  /** The pruned lines matched among themselves, nothing else. */
  ghost predicate PrunedOnly(j: seq<nat>, la: nat, lb: nat, pref: nat, suff: nat) {
    && pref + suff <= la && pref + suff <= lb && |j| > la
    && forall i | 0 <= i <= la ::
         j[i] == if i <= pref then i else if i > la - suff then i + lb - la else 0
  }

  lemma {:induction false} PrunedCount(j: seq<nat>, la: nat, lb: nat, pref: nat, suff: nat, n: nat)
    requires PrunedOnly(j, la, lb, pref, suff) && n <= la
    ensures Matched(j, n) == (if n <= pref then n else if n > la - suff then pref + n - (la - suff) else pref)
  {
    if n > 0 {
      PrunedCount(j, la, lb, pref, suff, n - 1);
    }
  }

  lemma PrunedMatching(j: seq<nat>, a: seq<int>, b: seq<int>, pref: nat, suff: nat)
    requires PrunedOnly(j, |a|, |b|, pref, suff)
    requires a[..pref] == b[..pref] && a[|a| - suff..] == b[|b| - suff..]
    ensures Matching(j, a, b) && Matched(j, |a|) == pref + suff
  {
    PrunedCount(j, |a|, |b|, pref, suff, |a|);
    forall i | 1 <= i <= |a| && j[i] != 0
      ensures j[i] <= |b| && a[i - 1] == b[j[i] - 1]
    {
      if i <= pref {
        assert a[i - 1] == a[..pref][i - 1] && b[i - 1] == b[..pref][i - 1];
      } else {
        var q := i - 1 - (|a| - suff);
        assert a[|a| - suff..][q] == a[i - 1] && b[|b| - suff..][q] == b[j[i] - 1];
      }
    }
  }

  lemma {:induction false} MatchedMore(j: seq<nat>, i: nat, v: nat, n: nat)
    requires 1 <= i < |j| && n < |j| && j[i] == 0 && v != 0
    ensures Matched(j[i := v], n) == Matched(j, n) + if i <= n then 1 else 0
  {
    if n > 0 {
      MatchedMore(j, i, v, n - 1);
    }
  }

  /** While a chain is unravelled: it is matched up from its end, and the part of the vector between
      the common prefix and the next match at (x, y) is still empty. */
  ghost predicate Unravelling(j: seq<nat>, a: seq<int>, b: seq<int>, pref: nat, x: nat, y: nat) {
    && Matching(j, a, b) && pref + x <= |a| && pref + y <= |b|
    && (forall i | 0 <= i <= pref :: j[i] == i)
    && (forall i | pref < i <= pref + x :: j[i] == 0)
    && (forall i | pref + x < i <= |a| && j[i] != 0 :: j[i] > pref + y)
  }

  lemma UnravelStep(j: seq<nat>, a: seq<int>, b: seq<int>, pref: nat, x: nat, y: nat, x': nat, y': nat)
    requires Unravelling(j, a, b, pref, x, y) && x' < x && y' < y && a[pref + x - 1] == b[pref + y - 1]
    ensures Unravelling(j[pref + x := pref + y], a, b, pref, x', y')
    ensures Matched(j[pref + x := pref + y], |a|) == Matched(j, |a|) + 1
  {
    MatchedMore(j, pref + x, pref + y, |a|);
  }

  lemma MiddleLine(s: seq<int>, pref: nat, suff: nat, x: nat)
    requires pref + suff <= |s| && 1 <= x <= |s| - pref - suff
    ensures s[pref..|s| - suff][x - 1] == s[pref + x - 1]
  {
  }

  /** The state of Unravel: candidate q ends the l matches that are still to be filled in. */
  ghost predicate UnravelState(clist: seq<Cand>, q: nat, l: nat, k: nat, j: seq<nat>, pref: nat, suff: nat,
                               a: seq<int>, b: seq<int>)
    requires pref + suff <= |a| && pref + suff <= |b|
  {
    && Chain(clist, q, l, a[pref..|a| - suff], b[pref..|b| - suff]) && l <= k
    && Unravelling(j, a, b, pref, clist[q].x, clist[q].y)
    && Matched(j, |a|) == pref + (k - l) + suff
  }

  lemma UnravelStart(clist: seq<Cand>, p: nat, k: nat, j: seq<nat>, pref: nat, suff: nat, a: seq<int>, b: seq<int>)
    requires PrunedOnly(j, |a|, |b|, pref, suff)
    requires a[..pref] == b[..pref] && a[|a| - suff..] == b[|b| - suff..]
    requires Chain(clist, p, k, a[pref..|a| - suff], b[pref..|b| - suff])
    ensures UnravelState(clist, p, k, k, j, pref, suff, a, b)
  {
    hide Matched;
    PrunedMatching(j, a, b, pref, suff);
  }

  lemma UnravelNext(clist: seq<Cand>, q: nat, l: nat, k: nat, j: seq<nat>, pref: nat, suff: nat,
                    a: seq<int>, b: seq<int>)
    requires pref + suff <= |a| && pref + suff <= |b| && UnravelState(clist, q, l, k, j, pref, suff, a, b)
    requires q < |clist| && clist[q].y != 0
    ensures l > 0 && clist[q].pred < q && clist[q].x + pref < |j|
    ensures UnravelState(clist, clist[q].pred, l - 1, k, j[clist[q].x + pref := clist[q].y + pref], pref, suff, a, b)
  {
    hide Matched;
    var c := clist[q];
    MiddleLine(a, pref, suff, c.x);
    MiddleLine(b, pref, suff, c.y);
    UnravelStep(j, a, b, pref, c.x, c.y, clist[c.pred].x, clist[c.pred].y);
    assert pref + c.x == c.x + pref && pref + c.y == c.y + pref;
  }

  lemma UnravelEnd(clist: seq<Cand>, q: nat, l: nat, k: nat, j: seq<nat>, pref: nat, suff: nat,
                   a: seq<int>, b: seq<int>)
    requires pref + suff <= |a| && pref + suff <= |b| && UnravelState(clist, q, l, k, j, pref, suff, a, b)
    requires q < |clist| && clist[q].y == 0
    ensures Matching(j, a, b) && Matched(j, |a|) == pref + k + suff
  {
    hide Matched;
  }

  /** Fills in the match vector from the pruned ends and the chain of candidates that ends at p. */
  method Unravel(clist: seq<Cand>, p: nat, j: array<nat>, pref: nat, suff: nat, ghost k: nat,
                 la: nat, lb: nat, ghost a: seq<int>, ghost b: seq<int>)
    requires la == |a| && lb == |b| && j.Length > la && pref + suff <= la && pref + suff <= lb
    requires a[..pref] == b[..pref] && a[la - suff..] == b[lb - suff..]
    requires p < |clist| && Chain(clist, p, k, a[pref..la - suff], b[pref..lb - suff])
    modifies j
    ensures Matching(j[..], a, b) && Matched(j[..], la) == pref + k + suff
  {
    hide Matched, Matching, Chain, UnravelState;
    var i := 0;
    while i <= la
      invariant 0 <= i <= la + 1
      invariant forall x | 0 <= x < i :: j[x] == if x <= pref then x else if x > la - suff then x + lb - la else 0
    {
      j[i] := if i <= pref then i else if i > la - suff then i + lb - la else 0;
      i := i + 1;
    }
    UnravelStart(clist, p, k, j[..], pref, suff, a, b);
    var q: nat := p;
    ghost var l: nat := k;
    while clist[q].y != 0
      invariant q < |clist| && UnravelState(clist, q, l, k, j[..], pref, suff, a, b)
      decreases q
    {
      ghost var s: seq<nat> := j[..];
      UnravelNext(clist, q, l, k, s, pref, suff, a, b);
      j[clist[q].x + pref] := clist[q].y + pref;
      assert j[..] == s[clist[q].x + pref := clist[q].y + pref];
      q, l := clist[q].pred, l - 1;
    }
    UnravelEnd(clist, q, l, k, j[..], pref, suff, a, b);
  }

  /** The lines of a pruned file, numbered from 1, with a spare line at either end. */
  method Numbering(a: seq<int>, pref: nat, suff: nat) returns (f: array<Line>)
    requires pref + suff <= |a|
    ensures fresh(f) && f.Length == |a| - pref - suff + 2
    ensures forall i | 1 <= i <= |a| - pref - suff :: f[i] == Line(i, a[pref..|a| - suff][i - 1])
  {
    var n := |a| - pref - suff;
    f := new Line[n + 2](_ => Line(0, 0));
    var i := 1;
    while i <= n
      invariant 1 <= i <= n + 1
      invariant forall k | 1 <= k < i :: f[k] == Line(k, a[pref..|a| - suff][k - 1])
    {
      f[i] := Line(i, a[pref + i - 1]);
      i := i + 1;
    }
  }

  /** The numbered lines of a pruned file, sorted. */
  method Prepared(a: seq<int>, pref: nat, suff: nat, garbage: int) returns (f: array<Line>)
    requires pref + suff <= |a|
    ensures fresh(f) && f.Length == |a| - pref - suff + 2
    ensures SortedLines(f[..], |a| - pref - suff) && Numbered(f[..], a[pref..|a| - suff])
  {
    hide *;
    f := Numbering(a, pref, suff);
    ghost var s := f[..];
    Sort(f, |a| - pref - suff, garbage);
    NumberedAfterSort(s, f[..], a[pref..|a| - suff]);
  }

  /** The classes of what is left of the first file, and the members of each in the second. */
  method ClassesOf(a: seq<int>, b: seq<int>, pref: nat, suff: nat, garbage: int) returns (cls: array<int>, member: array<int>)
    requires pref + suff <= |a| && pref + suff <= |b| && forall x | x in b :: x != 0
    ensures fresh(cls) && fresh(member) && Represents(cls[..], member[..], a[pref..|a| - suff], b[pref..|b| - suff])
  {
    hide *;
    ghost var ma, mb := a[pref..|a| - suff], b[pref..|b| - suff];
    var n, m := |a| - pref - suff, |b| - pref - suff;
    var f0 := Prepared(a, pref, suff, garbage);
    var f1 := Prepared(b, pref, suff, garbage);
    ghost var g0, g1 := f0[..], f1[..];
    NonZero(g1, mb, b, pref, suff);
    member := new int[m + 2];
    Equiv(f0, n, f1, m, member);
    ClassifiedNumbers(f0[..], g0, g1, ma, m);
    cls := new int[n + 2];
    Unsort(f0, n, cls, ma);
    MemberOfOld(member[..], f1[..], g1, m);
    ClassesRepresent(cls[..], member[..], f0[..], g0, g1, ma, mb);
  }

  /** The match vector of two files, given by the nonzero values of their lines. */
  method MatchLines(a: seq<int>, b: seq<int>, garbage: int) returns (j: array<nat>)
    requires forall x | x in b :: x != 0
    ensures fresh(j) && j.Length == |a| + 2
    ensures Matching(j[..], a, b) && Matched(j[..], |a|) == Lcs(a, b, |a|, |b|)
  {
    hide *;
    var pref, suff := Prune(a, b);
    ghost var ma, mb := a[pref..|a| - suff], b[pref..|b| - suff];
    var n := |a| - pref - suff;
    var cls, member := ClassesOf(a, b, pref, suff, garbage);
    var matcher := new Matcher();
    var klist := new nat[n + 2];
    var k := matcher.Stone(cls[..], n, member[..], klist, ma, mb);
    j := new nat[|a| + 2];
    Unravel(matcher.clist, klist[k], j, pref, suff, k, |a|, |b|, a, b);
    LcsPruned(a, b, pref, suff);
  }

  lemma NonZero(f: seq<Line>, m: seq<int>, b: seq<int>, pref: nat, suff: nat)
    requires pref + suff <= |b| && m == b[pref..|b| - suff] && Numbered(f, m) && forall x | x in b :: x != 0
    ensures forall j | 1 <= j <= |m| :: f[j].value != 0
  {
    forall j | 1 <= j <= |m|
      ensures f[j].value != 0
    {
      assert f[j].value == m[f[j].serial - 1] == b[pref + f[j].serial - 1];
      assert b[pref + f[j].serial - 1] in b;
    }
  }

  lemma ClassifiedNumbers(g: seq<Line>, g0: seq<Line>, f: seq<Line>, a: seq<int>, m: nat)
    requires Numbered(g0, a) && Classified(g, g0, |a|, f, m, |a| + 1)
    ensures forall i | 1 <= i <= |a| :: 1 <= g[i].serial <= |a|
    ensures forall i, k | 1 <= i < k <= |a| :: g[i].serial != g[k].serial
  {
    forall i | 1 <= i <= |a|
      ensures g[i].serial == g0[i].serial
    {
    }
  }

  lemma MemberOfOld(c: seq<int>, f: seq<Line>, g: seq<Line>, m: nat)
    requires IsMember(c, f, m) && m < |g| && f[..m + 1] == g[..m + 1]
    ensures IsMember(c, g, m)
  {
    forall j | 1 <= j <= m
      ensures c[j] == Squeezed(g, j)
    {
      assert f[j] == f[..m + 1][j] && g[j] == g[..m + 1][j];
      assert f[j - 1] == f[..m + 1][j - 1] && g[j - 1] == g[..m + 1][j - 1];
    }
  }

  /** Pruning loses no common lines. */
  lemma LcsPruned(a: seq<int>, b: seq<int>, pref: nat, suff: nat)
    requires pref + suff <= |a| && pref + suff <= |b|
    requires a[..pref] == b[..pref] && a[|a| - suff..] == b[|b| - suff..]
    ensures var ma, mb := a[pref..|a| - suff], b[pref..|b| - suff];
            Lcs(a, b, |a|, |b|) == pref + Lcs(ma, mb, |ma|, |mb|) + suff
  {
    hide Lcs;
    var ta, tb := a[..|a| - suff], b[..|b| - suff];
    LcsSuffix(a, b, suff);
    LcsCut(a, b, |a| - suff, |b| - suff, |a| - suff, |b| - suff);
    assert ta[..pref] == a[..pref] && tb[..pref] == b[..pref];
    LcsPrefix(ta, tb, pref, |ta| - pref, |tb| - pref);
    assert ta[pref..] == a[pref..|a| - suff] && tb[pref..] == b[pref..|b| - suff];
  }

  /** The vector of MatchLines matches as many lines as any match vector can. */
  lemma MatchesMost(j: seq<nat>, k: seq<nat>, a: seq<int>, b: seq<int>)
    requires Matching(j, a, b) && Matched(j, |a|) == Lcs(a, b, |a|, |b|)
    requires Matching(k, a, b)
    ensures Matched(k, |a|) <= Matched(j, |a|)
  {
    MatchedBound(k, a, b, |a|, |b|);
  }
}
