/** Longest common subsequences of two files of line values, and match vectors: J[i] is the line of
    the second file matched with line i of the first, or 0. Lines are numbered from 1. */
module CommonLines {
  function Max(a: nat, b: nat): nat {
    if a >= b then a else b
  }

  /** Length of a longest common subsequence of the first i lines of a and the first j lines of b. */
  function Lcs(a: seq<int>, b: seq<int>, i: nat, j: nat): nat
    requires i <= |a| && j <= |b|
  {
    if i == 0 || j == 0 then 0
    else if a[i - 1] == b[j - 1] then 1 + Lcs(a, b, i - 1, j - 1)
    else Max(Lcs(a, b, i - 1, j), Lcs(a, b, i, j - 1))
  }

  lemma LcsStep(a: seq<int>, b: seq<int>, i: nat, j: nat)
    requires i <= |a| && j <= |b|
    ensures i == 0 || j == 0 ==> Lcs(a, b, i, j) == 0
    ensures i > 0 && j > 0 && a[i - 1] == b[j - 1] ==> Lcs(a, b, i, j) == 1 + Lcs(a, b, i - 1, j - 1)
    ensures i > 0 && j > 0 && a[i - 1] != b[j - 1] ==>
              Lcs(a, b, i, j) == Max(Lcs(a, b, i - 1, j), Lcs(a, b, i, j - 1))
  {
  }

  /** Adding a line to either file adds at most one to the length. */
  lemma {:induction false} LcsGrows(a: seq<int>, b: seq<int>, i: nat, j: nat)
    requires i <= |a| && j <= |b|
    ensures j > 0 ==> Lcs(a, b, i, j - 1) <= Lcs(a, b, i, j) <= Lcs(a, b, i, j - 1) + 1
    ensures i > 0 ==> Lcs(a, b, i - 1, j) <= Lcs(a, b, i, j) <= Lcs(a, b, i - 1, j) + 1
    ensures i > 0 && j > 0 ==> Lcs(a, b, i, j) <= Lcs(a, b, i - 1, j - 1) + 1
    decreases i + j
  {
    if i > 0 && j > 0 {
      LcsGrows(a, b, i - 1, j);
      LcsGrows(a, b, i, j - 1);
      LcsGrows(a, b, i - 1, j - 1);
    }
  }

  lemma {:induction false} LcsMonotone(a: seq<int>, b: seq<int>, i: nat, j: nat, k: nat)
    requires i <= |a| && j <= k <= |b|
    ensures Lcs(a, b, i, j) <= Lcs(a, b, i, k)
    decreases k - j
  {
    if j < k {
      LcsGrows(a, b, i, k);
      LcsMonotone(a, b, i, j, k - 1);
    }
  }

  /** Line y of b matches line i of a and comes after at least l - 1 common lines. */
  predicate Extends(a: seq<int>, b: seq<int>, i: nat, y: nat, l: nat)
    requires 1 <= i <= |a| && l >= 1
  {
    1 <= y <= |b| && a[i - 1] == b[y - 1] && Lcs(a, b, i - 1, y - 1) >= l - 1
  }

  /** The length at (i, j) is at least l exactly if it was so one row up, or some line of b up to j
      extends l - 1 common lines. */
  lemma {:induction false} LcsRow(a: seq<int>, b: seq<int>, i: nat, j: nat, l: nat)
    requires 1 <= i <= |a| && j <= |b| && l >= 1
    ensures Lcs(a, b, i, j) >= l <==>
            Lcs(a, b, i - 1, j) >= l || exists y | 1 <= y <= j :: Extends(a, b, i, y, l)
  {
    if j > 0 {
      LcsRow(a, b, i, j - 1, l);
      LcsGrows(a, b, i, j);
      LcsGrows(a, b, i - 1, j);
      if Lcs(a, b, i, j) >= l && Lcs(a, b, i, j - 1) < l && Lcs(a, b, i - 1, j) < l {
        assert Extends(a, b, i, j, l);
      }
      forall y | 1 <= y <= j && Extends(a, b, i, y, l)
        ensures Lcs(a, b, i, j) >= l
      {
        if y == j {
          assert Lcs(a, b, i, j) == 1 + Lcs(a, b, i - 1, j - 1);
        }
      }
    }
  }

  // ---- Match vectors

  /** j[0..n] matches lines 1..n of a with equal lines of b, in increasing order. */
  ghost predicate Matching(j: seq<nat>, a: seq<int>, b: seq<int>) {
    && |j| > |a|
    && (forall i | 1 <= i <= |a| && j[i] != 0 :: j[i] <= |b| && a[i - 1] == b[j[i] - 1])
    && (forall i, k | 1 <= i < k <= |a| && j[i] != 0 && j[k] != 0 :: j[i] < j[k])
  }

  /** Number of matched lines among the first n. */
  function Matched(j: seq<nat>, n: nat): nat
    requires n < |j|
  {
    if n == 0 then 0 else Matched(j, n - 1) + if j[n] != 0 then 1 else 0
  }

  /** No match vector matches more lines than the longest common subsequence has. */
  lemma {:induction false} MatchedBound(j: seq<nat>, a: seq<int>, b: seq<int>, n: nat, m: nat)
    requires Matching(j, a, b) && n <= |a| && m <= |b|
    requires forall i | 1 <= i <= n :: j[i] <= m
    ensures Matched(j, n) <= Lcs(a, b, n, m)
    decreases n
  {
    if n > 0 {
      if j[n] == 0 {
        MatchedBound(j, a, b, n - 1, m);
        LcsGrows(a, b, n, m);
      } else {
        MatchedBound(j, a, b, n - 1, j[n] - 1);
        LcsMonotone(a, b, n, j[n], m);
      }
    }
  }

  // ---- Common prefix and suffix

  lemma {:induction false} LcsSmall(a: seq<int>, b: seq<int>, i: nat, j: nat)
    requires i <= |a| && j <= |b|
    ensures Lcs(a, b, i, j) <= i && Lcs(a, b, i, j) <= j
    decreases i + j
  {
    if i > 0 && j > 0 {
      LcsSmall(a, b, i - 1, j - 1);
      LcsSmall(a, b, i - 1, j);
      LcsSmall(a, b, i, j - 1);
    }
  }

  lemma {:induction false} LcsEqual(a: seq<int>, b: seq<int>, p: nat)
    requires p <= |a| && p <= |b| && a[..p] == b[..p]
    ensures Lcs(a, b, p, p) == p
  {
    if p > 0 {
      assert a[p - 1] == a[..p][p - 1] && b[p - 1] == b[..p][p - 1];
      assert a[..p - 1] == a[..p][..p - 1] && b[..p - 1] == b[..p][..p - 1];
      LcsEqual(a, b, p - 1);
    }
  }

  lemma {:induction false} LcsMonotoneRow(a: seq<int>, b: seq<int>, i: nat, k: nat, j: nat)
    requires i <= k <= |a| && j <= |b|
    ensures Lcs(a, b, i, j) <= Lcs(a, b, k, j)
    decreases k - i
  {
    if i < k {
      LcsGrows(a, b, k, j);
      LcsMonotoneRow(a, b, i, k - 1, j);
    }
  }

  /** A common prefix can be matched line by line. */
  lemma {:induction false} LcsPrefix(a: seq<int>, b: seq<int>, p: nat, i: nat, j: nat)
    requires p + i <= |a| && p + j <= |b| && a[..p] == b[..p]
    ensures Lcs(a, b, p + i, p + j) == p + Lcs(a[p..], b[p..], i, j)
    decreases i + j
  {
    hide Lcs;
    LcsStep(a, b, p + i, p + j);
    LcsStep(a[p..], b[p..], i, j);
    if i == 0 || j == 0 {
      LcsEqual(a, b, p);
      LcsMonotone(a, b, p, p, p + j);
      LcsMonotoneRow(a, b, p, p + i, p + j);
      LcsSmall(a, b, p + i, p + j);
    } else {
      LcsPrefix(a, b, p, i - 1, j - 1);
      LcsPrefix(a, b, p, i - 1, j);
      LcsPrefix(a, b, p, i, j - 1);
      assert a[p..][i - 1] == a[p + i - 1] && b[p..][j - 1] == b[p + j - 1];
    }
  }

  /** A common suffix can be matched line by line. */
  lemma {:induction false} LcsSuffix(a: seq<int>, b: seq<int>, s: nat)
    requires s <= |a| && s <= |b| && a[|a| - s..] == b[|b| - s..]
    ensures Lcs(a, b, |a|, |b|) == s + Lcs(a, b, |a| - s, |b| - s)
  {
    if s > 0 {
      assert a[|a| - s + 1..] == a[|a| - s..][1..] && b[|b| - s + 1..] == b[|b| - s..][1..];
      LcsSuffix(a, b, s - 1);
      assert a[|a| - s] == a[|a| - s..][0] && b[|b| - s] == b[|b| - s..][0];
    }
  }

  lemma {:induction false} LcsCut(a: seq<int>, b: seq<int>, k: nat, l: nat, i: nat, j: nat)
    requires i <= k <= |a| && j <= l <= |b|
    ensures Lcs(a[..k], b[..l], i, j) == Lcs(a, b, i, j)
    decreases i + j
  {
    if i > 0 && j > 0 {
      LcsCut(a, b, k, l, i - 1, j - 1);
      LcsCut(a, b, k, l, i - 1, j);
      LcsCut(a, b, k, l, i, j - 1);
    }
  }
}
