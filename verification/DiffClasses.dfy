/** diff's equivalence classes: file 0's lines get the place of their class in the sorted file 1, and
    file 1 is squeezed into the list of its serial numbers, with the first of each class negated. */
module DiffClasses {
  import opened DiffSort

  /** j is the first line of f with value v, or 0 if there is none. */
  ghost predicate IsFirst(f: seq<Line>, m: nat, v: int, j: int)
    requires m < |f|
  {
    if j == 0 then forall x | 1 <= x <= m :: f[x].value != v
    else 1 <= j <= m && f[j].value == v && forall x | 1 <= x < j :: f[x].value != v
  }

  /** The squeezed file: serial numbers, negated where a new value starts, and an end mark. */
  ghost predicate IsMember(c: seq<int>, f: seq<Line>, m: nat) {
    && m < |f| && m + 1 < |c| && c[m + 1] == -1
    && forall j | 1 <= j <= m :: c[j] == Squeezed(f, j)
  }

  /** Entry j of the squeezed file. */
  function Squeezed(f: seq<Line>, j: nat): int
    requires 1 <= j < |f|
  {
    if j == 1 || f[j - 1].value != f[j].value then -f[j].serial else f[j].serial
  }

  /** Lines i and later of file 0 are as in a0; the ones before have the place of their class. */
  ghost predicate Classified(a: seq<Line>, a0: seq<Line>, n: nat, f: seq<Line>, m: nat, i: nat) {
    && n < |a| && n < |a0| && m < |f| && 1 <= i
    && (forall k | i <= k <= n :: a[k] == a0[k])
    && forall k | 1 <= k < i && k <= n ::
         a[k].serial == a0[k].serial && IsFirst(f, m, a0[k].value, a[k].value)
  }

  lemma ClassifiedNext(a: seq<Line>, a0: seq<Line>, n: nat, f: seq<Line>, m: nat, i: nat, v: int)
    requires Classified(a, a0, n, f, m, i) && i <= n && IsFirst(f, m, a0[i].value, v)
    ensures Classified(a[i := a[i].(value := v)], a0, n, f, m, i + 1)
  {
    hide IsFirst;
  }

  /** The first half of equiv: the values of file 0 become places in file 1. */
  method Classify(a: array<Line>, n: nat, b: array<Line>, m: nat)
    requires n < a.Length && m < b.Length && a != b
    requires SortedLines(a[..], n) && SortedLines(b[..], m)
    modifies a
    ensures Classified(a[..], old(a[..]), n, b[..], m, n + 1)
  {
    hide IsFirst, Classified;
    ghost var a0, f := a[..], b[..];
    var i, j := 1, 1;
    NothingClassified(a0, n, f, m);
    while i <= n && j <= m
      invariant 1 <= i <= n + 1 && 1 <= j <= m + 1 && Classified(a[..], a0, n, f, m, i)
      invariant forall x | 1 <= x < j && i <= n :: f[x].value < a0[i].value
    {
      ghost var s := a[..];
      StillThere(s, a0, n, f, m, i);
      assert i + 1 <= n ==> Before(a0[i], a0[i + 1]);
      if a[i].value < b[j].value {
        NotThere(f, m, a0[i].value, j);
        ClassifiedNext(s, a0, n, f, m, i, 0);
        a[i] := a[i].(value := 0);
        assert a[..] == s[i := s[i].(value := 0)];
        i := i + 1;
      } else if a[i].value == b[j].value {
        FirstHere(f, m, a0[i].value, j);
        ClassifiedNext(s, a0, n, f, m, i, j);
        a[i] := a[i].(value := j);
        assert a[..] == s[i := s[i].(value := j)];
        i := i + 1;
      } else {
        j := j + 1;
      }
    }
    while i <= n
      invariant 1 <= i <= n + 1 && Classified(a[..], a0, n, f, m, i)
      invariant forall x | 1 <= x <= m && i <= n :: f[x].value < a0[i].value
    {
      ghost var s := a[..];
      assert i + 1 <= n ==> Before(a0[i], a0[i + 1]);
      NotThere(f, m, a0[i].value, m + 1);
      ClassifiedNext(s, a0, n, f, m, i, 0);
      StillThere(s, a0, n, f, m, i);
      a[i] := a[i].(value := 0);
      assert a[..] == s[i := s[i].(value := 0)];
      i := i + 1;
    }
  }

  lemma NothingClassified(a: seq<Line>, n: nat, f: seq<Line>, m: nat)
    requires n < |a| && m < |f|
    ensures Classified(a, a, n, f, m, 1)
  {
  }

  lemma StillThere(a: seq<Line>, a0: seq<Line>, n: nat, f: seq<Line>, m: nat, i: nat)
    requires Classified(a, a0, n, f, m, i) && i <= n
    ensures n < |a| && n < |a0| && a[i] == a0[i]
  {
  }

  lemma NotThere(f: seq<Line>, m: nat, v: int, j: nat)
    requires m < |f| && 1 <= j <= m + 1 && SortedLines(f, m)
    requires forall x | 1 <= x < j :: f[x].value < v
    requires j <= m ==> v < f[j].value
    ensures IsFirst(f, m, v, 0)
  {
    forall x | 1 <= x <= m
      ensures f[x].value != v
    {
      assert j < x ==> Before(f[j], f[x]);
    }
  }

  lemma FirstHere(f: seq<Line>, m: nat, v: int, j: nat)
    requires 1 <= j <= m < |f| && f[j].value == v
    requires forall x | 1 <= x < j :: f[x].value < v
    ensures IsFirst(f, m, v, j)
  {
  }

  method Equiv(a: array<Line>, n: nat, b: array<Line>, m: nat, c: array<int>)
    requires n < a.Length && m + 1 < b.Length && m + 1 < c.Length && a != b
    requires c as object != a && c as object != b
    requires SortedLines(a[..], n) && SortedLines(b[..], m)
    requires forall j | 1 <= j <= m :: b[j].value != 0
    modifies a, b, c
    ensures b[..][..m + 1] == old(b[..][..m + 1])
    ensures Classified(a[..], old(a[..]), n, old(b[..]), m, n + 1)
    ensures IsMember(c[..], b[..], m)
  {
    hide Classified, SortedLines, IsMember;
    Classify(a, n, b, m);
    b[m + 1] := b[m + 1].(value := 0);
    Squeeze(b, m, c);
  }

  /** The second half of equiv. */
  method Squeeze(b: array<Line>, m: nat, c: array<int>)
    requires m + 1 < b.Length && m + 1 < c.Length && b[m + 1].value == 0 && c as object != b
    requires forall j | 1 <= j <= m :: b[j].value != 0
    modifies c
    ensures IsMember(c[..], b[..], m)
  {
    ghost var f := b[..];
    var j := 1;
    while j <= m
      invariant 1 <= j <= m + 1 && b[..] == f
      invariant j > 1 ==> f[j - 1].value != f[j].value
      invariant forall k | 1 <= k < j :: c[k] == Squeezed(f, k)
    {
      c[j] := -b[j].serial;
      while b[j + 1].value == b[j].value
        invariant 1 <= j <= m && b[..] == f
        invariant forall k | 1 <= k <= j :: c[k] == Squeezed(f, k)
        decreases m - j
      {
        j := j + 1;
        c[j] := b[j].serial;
      }
      j := j + 1;
    }
    c[j] := -1;
  }

  ghost predicate HasNumber(f: seq<Line>, m: nat, y: int)
    requires m < |f|
  {
    exists j :: 1 <= j <= m && f[j].serial == y
  }

  /** f[1..m] holds each line of b once, with its number. */
  ghost predicate Numbered(f: seq<Line>, b: seq<int>) {
    && |f| > |b|
    && (forall j | 1 <= j <= |b| :: 1 <= f[j].serial <= |b| && f[j].value == b[f[j].serial - 1])
    && (forall j, k | 1 <= j < k <= |b| :: f[j].serial != f[k].serial)
    && (forall y | 1 <= y <= |b| :: HasNumber(f, |b|, y))
  }

  method Unsort(f: array<Line>, l: nat, b: array<int>, ghost a: seq<int>)
    requires l == |a| < f.Length && l < b.Length
    requires forall i | 1 <= i <= l :: 1 <= f[i].serial <= l
    requires forall i, k | 1 <= i < k <= l :: f[i].serial != f[k].serial
    modifies b
    ensures forall i | 1 <= i <= l :: b[f[i].serial] == f[i].value
  {
    var a' := new int[l + 1];
    var i := 1;
    while i <= l
      modifies a'
      invariant 1 <= i <= l + 1
      invariant forall k | 1 <= k < i :: a'[f[k].serial] == f[k].value
    {
      a'[f[i].serial] := f[i].value;
      i := i + 1;
    }
    i := 1;
    while i <= l
      modifies b
      invariant 1 <= i <= l + 1
      invariant forall k | 1 <= k < i :: b[k] == a'[k]
    {
      b[i] := a'[i];
      i := i + 1;
    }
  }

  // ---- Sorting keeps the numbering

  lemma {:induction false} OnceOnly(s: seq<Line>, x: Line)
    requires forall j, k | 0 <= j < k < |s| :: s[j] != s[k]
    ensures multiset(s)[x] <= 1
  {
    if s != [] {
      var k := |s| - 1;
      assert s == s[..k] + [s[k]];
      OnceOnly(s[..k], x);
      if s[k] == x {
        assert x !in s[..k];
        assert x !in multiset(s[..k]);
      }
    }
  }

  lemma Twice(s: seq<Line>, j: nat, k: nat)
    requires j < k < |s| && s[j] == s[k]
    ensures multiset(s)[s[j]] >= 2
  {
    assert s == s[..k] + [s[k]] + s[k + 1..];
    assert s[..k][j] == s[j];
    assert s[j] in multiset(s[..k]);
  }

  /** What is among the first n lines after the sort was there before, and the other way round. */
  lemma SameLines(f: seq<Line>, g: seq<Line>, n: nat, x: Line)
    requires Permuted(f, g, n)
    ensures x in g[1..n + 1] <==> x in f[1..n + 1]
  {
    assert x in g[1..n + 1] <==> x in multiset(g[1..n + 1]);
    assert x in f[1..n + 1] <==> x in multiset(f[1..n + 1]);
  }

  lemma LineAfterSort(f: seq<Line>, g: seq<Line>, b: seq<int>, j: nat)
    requires |f| > |b| && forall j | 1 <= j <= |b| :: f[j] == Line(j, b[j - 1])
    requires Permuted(f, g, |b|) && 1 <= j <= |b|
    ensures 1 <= g[j].serial <= |b| && g[j].value == b[g[j].serial - 1]
  {
    hide Permuted;
    var m := |b|;
    PermutedSize(f, g, m);
    SameLines(f, g, m, g[j]);
    assert g[j] == g[1..m + 1][j - 1];
    var k :| 0 <= k < m && f[1..m + 1][k] == g[j];
    assert f[k + 1] == g[j];
  }

  lemma PermutedSize(f: seq<Line>, g: seq<Line>, n: nat)
    requires Permuted(f, g, n)
    ensures n < |f| == |g|
  {
  }

  lemma NumberAfterSort(f: seq<Line>, g: seq<Line>, b: seq<int>, y: nat)
    requires |f| > |b| && forall j | 1 <= j <= |b| :: f[j] == Line(j, b[j - 1])
    requires Permuted(f, g, |b|) && 1 <= y <= |b|
    ensures |g| > |b| && HasNumber(g, |b|, y)
  {
    hide Permuted;
    var m := |b|;
    PermutedSize(f, g, m);
    assert f[y] == f[1..m + 1][y - 1];
    SameLines(f, g, m, f[y]);
    var k :| 0 <= k < m && g[1..m + 1][k] == f[y];
    assert g[k + 1].serial == y;
  }

  lemma NumberedAfterSort(f: seq<Line>, g: seq<Line>, b: seq<int>)
    requires |f| > |b| && forall j | 1 <= j <= |b| :: f[j] == Line(j, b[j - 1])
    requires Permuted(f, g, |b|)
    ensures Numbered(g, b)
  {
    var m := |b|;
    var s, t := f[1..m + 1], g[1..m + 1];
    forall j | 1 <= j <= m
      ensures 1 <= g[j].serial <= m && g[j].value == b[g[j].serial - 1]
    {
      LineAfterSort(f, g, b, j);
    }
    forall y | 1 <= y <= m
      ensures HasNumber(g, m, y)
    {
      NumberAfterSort(f, g, b, y);
    }
    hide HasNumber;
    forall j, k | 1 <= j < k <= m
      ensures g[j].serial != g[k].serial
    {
      if g[j].serial == g[k].serial {
        assert t[j - 1] == t[k - 1];
        Twice(t, j - 1, k - 1);
        OnceOnly(s, t[j - 1]);
      }
    }
  }
}
