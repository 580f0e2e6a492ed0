/** diff's shell sort of hashed lines, by value and then by serial number. Entry 0 is not used. */
module DiffSort {
  datatype Line = Line(serial: int, value: int)

  predicate Before(p: Line, q: Line) {
    p.value < q.value || (p.value == q.value && p.serial <= q.serial)
  }

  predicate SortedLines(s: seq<Line>, n: nat) {
    n < |s| && forall p, q | 1 <= p < q <= n :: Before(s[p], s[q])
  }

  /** t has the lines of s at 1..n, and is s elsewhere. */
  ghost predicate Permuted(s: seq<Line>, t: seq<Line>, n: nat) {
    && |s| == |t| && n < |s|
    && multiset(t[1..n + 1]) == multiset(s[1..n + 1])
    && t[0] == s[0] && t[n + 1..] == s[n + 1..]
  }

  lemma SwapPermutes(s: seq<Line>, n: nat, i: nat, k: nat)
    requires 1 <= i <= n < |s| && 1 <= k <= n
    ensures Permuted(s, Swapped(s, i, k), n)
  {
    var t := s[1..n + 1];
    assert s[i := s[k]][k := s[i]][1..n + 1] == t[i - 1 := t[k - 1]][k - 1 := t[i - 1]];
  }

  lemma PermutedTransitive(s: seq<Line>, t: seq<Line>, u: seq<Line>, n: nat)
    requires Permuted(s, t, n) && Permuted(t, u, n)
    ensures Permuted(s, u, n)
  {
  }

  /** C's division by two, which truncates towards zero. */
  function Half(m: int): int {
    if m >= 0 then m / 2 else -(-m / 2)
  }

  /** Lines 1..j are sorted, apart from the line at i + 1, which is on its way down from j + 1. */
  ghost predicate Sinking(s: seq<Line>, j: nat, i: nat) {
    && i <= j && j + 1 < |s|
    && (forall p, q | 1 <= p < q <= j + 1 && p != i + 1 && q != i + 1 :: Before(s[p], s[q]))
    && (forall q | i + 1 < q <= j + 1 :: Before(s[i + 1], s[q]))
  }

  lemma SinkOne(s: seq<Line>, j: nat, i: nat)
    requires Sinking(s, j, i) && i >= 1
    requires OutOfPlace(s, i, i + 1)
    ensures Sinking(Swapped(s, i, i + 1), j, i - 1)
  {
  }

  lemma Sunk(s: seq<Line>, j: nat, i: nat)
    requires Sinking(s, j, i)
    requires i >= 1 ==> s[i + 1].value > s[i].value || (s[i + 1].value == s[i].value && s[i + 1].serial > s[i].serial)
    ensures SortedLines(s, j + 1)
  {
    forall p, q | 1 <= p < q <= j + 1
      ensures Before(s[p], s[q])
    {
      if q == i + 1 && p < i {
        assert Before(s[p], s[i]);
      }
    }
  }

  /** The state of SiftLine: s is a permutation of s0, and in the last pass line j + 1 sinks. */
  ghost predicate Sifting(s0: seq<Line>, s: seq<Line>, n: nat, m: int, j: nat, i: int) {
    Permuted(s0, s, n) && (m == 1 ==> i >= 0 && Sinking(s, j, i))
  }

  lemma SiftStart(s: seq<Line>, n: nat, m: int, j: nat)
    requires n < |s| && (m >= 1 ==> j + m <= n) && (m == 1 ==> SortedLines(s, j))
    ensures Sifting(s, s, n, m, j, j)
  {
  }

  /** Line i + m does not come after line i. */
  predicate OutOfPlace(s: seq<Line>, i: nat, k: nat)
    requires i < |s| && k < |s|
  {
    !(s[k].value > s[i].value || (s[k].value == s[i].value && s[k].serial > s[i].serial))
  }

  function Swapped(s: seq<Line>, i: nat, k: nat): seq<Line>
    requires i < |s| && k < |s|
  {
    s[i := s[k]][k := s[i]]
  }

  lemma SiftStep(s0: seq<Line>, s: seq<Line>, n: nat, m: int, j: nat, i: int)
    requires Sifting(s0, s, n, m, j, i) && 1 <= i <= j && m >= 1 && j + m <= n < |s|
    requires OutOfPlace(s, i, i + m)
    ensures Sifting(s0, Swapped(s, i, i + m), n, m, j, i - m)
  {
    hide Permuted, Sinking, Swapped, OutOfPlace;
    SwapPermutes(s, n, i, i + m);
    PermutedTransitive(s0, s, Swapped(s, i, i + m), n);
    if m == 1 {
      SinkOne(s, j, i);
    }
  }

  lemma SiftEnd(s0: seq<Line>, s: seq<Line>, n: nat, m: int, j: nat, i: int)
    requires Sifting(s0, s, n, m, j, i) && i <= j && (m >= 1 ==> j + m <= n < |s|)
    requires i >= 1 && m == 1 ==>
               s[i + 1].value > s[i].value || (s[i + 1].value == s[i].value && s[i + 1].serial > s[i].serial)
    ensures Permuted(s0, s, n) && (m == 1 ==> SortedLines(s, j + 1))
  {
    if m == 1 {
      Sunk(s, j, i);
    }
  }

  /** Sifts line j + m down in steps of m; does nothing when the partner of a line lies before it. */
  method SiftLine(a: array<Line>, n: nat, m: int, j: nat)
    requires 1 <= j && n < a.Length && (m >= 0 ==> 1 <= m && j + m <= n)
    requires m == 1 ==> SortedLines(a[..], j)
    modifies a
    ensures Permuted(old(a[..]), a[..], n)
    ensures m == 1 ==> SortedLines(a[..], j + 1)
    ensures m < 0 ==> a[..] == old(a[..])
  {
    hide Permuted, Sifting, SortedLines;
    ghost var s0 := a[..];
    ghost var s := s0;
    SiftStart(s, n, m, j);
    var i: int := j;
    while i > 0
      invariant i <= j && s == a[..] && Sifting(s0, s, n, m, j, i)
      invariant m < 0 ==> s == s0
      decreases if m < 0 then 0 else i
    {
      if i + m < i {
        break; // wraparound
      }
      if a[i + m].value > a[i].value || (a[i + m].value == a[i].value && a[i + m].serial > a[i].serial) {
        break;
      }
      SiftStep(s0, s, n, m, j, i);
      s := Swapped(s, i, i + m);
      a[i], a[i + m] := a[i + m], a[i];
      i := i - m;
    }
    SiftEnd(s0, s, n, m, j, i);
  }

  lemma ShortIsSorted(s: seq<Line>)
    ensures |s| > 0 ==> SortedLines(s, 0)
    ensures |s| > 1 ==> SortedLines(s, 1)
  {
  }

  /** Sorts lines 1..n in place. With n = 0 the increment m is never set; whatever value it starts
      with, nothing is touched. */
  method Sort(a: array<Line>, n: nat, garbage: int)
    requires n < a.Length
    modifies a
    ensures SortedLines(a[..], n)
    ensures Permuted(old(a[..]), a[..], n)
  {
    hide Permuted, SortedLines;
    ghost var s0 := a[..];
    NothingMoved(s0, n);
    ShortIsSorted(a[..]);
    var m := garbage;
    var j := 1;
    while j <= n
      invariant 1 <= j && (j == 1 ==> m == garbage) && (j > 1 ==> m == j - 1 && m >= 1)
      invariant j > 2 ==> m >= 3
      invariant n >= 2 && j > n ==> j > 2
      decreases n - j
    {
      m := 2 * j - 1;
      j := 2 * j;
    }
    m := Half(m);
    while m != 0
      invariant n > 0 ==> m >= 0
      invariant Permuted(s0, a[..], n)
      invariant m == 0 || n == 0 ==> SortedLines(a[..], n)
      decreases if m >= 0 then m else -m
    {
      var k := n - m;
      j := 1;
      ShortIsSorted(a[..]);
      while j <= k
        invariant 1 <= j && Permuted(s0, a[..], n)
        invariant n == 0 ==> SortedLines(a[..], n)
        invariant m == 1 && n > 0 && j <= k + 1 ==> SortedLines(a[..], j)
        invariant k >= 0 ==> j <= k + 1
      {
        ghost var s := a[..];
        SiftLine(a, n, m, j);
        PermutedTransitive(s0, s, a[..], n);
        j := j + 1;
      }
      m := Half(m);
    }
  }

  lemma NothingMoved(s: seq<Line>, n: nat)
    requires n < |s|
    ensures Permuted(s, s, n)
  {
  }
}
