/** diff's output loops: the match vector becomes a list of hunks, forward for the normal format and
    backward for the editor script. The loops write into the vector as they go. */
module DiffOutput {
  import opened CommonLines

  /** Lines a..b of the first file are replaced by lines c..d of the second; a range is empty when its
      start is one past its end. */
  datatype Hunk = Hunk(a: int, b: int, c: int, d: int)

  function Part(s: seq<int>, lo: int, hi: int): seq<int> {
    if 0 <= lo <= hi <= |s| then s[lo..hi] else []
  }

  /** The lines of the first file used up by a forward list of hunks. */
  function UsedUp(hs: seq<Hunk>): int {
    if hs == [] then 0 else hs[|hs| - 1].b
  }

  /** The first i lines of x patched with a forward list of hunks, which take their lines from y. */
  function Glued(hs: seq<Hunk>, x: seq<int>, y: seq<int>): seq<int> {
    if hs == [] then []
    else
      var h, rest := hs[|hs| - 1], hs[..|hs| - 1];
      Glued(rest, x, y) + Part(x, UsedUp(rest), h.a - 1) + Part(y, h.c - 1, h.d)
  }

  function Patched(hs: seq<Hunk>, x: seq<int>, y: seq<int>, i: int): seq<int> {
    Glued(hs, x, y) + Part(x, UsedUp(hs), i)
  }

  /** The buffer x after the editor commands hs, in that order. */
  function Edited(hs: seq<Hunk>, x: seq<int>, y: seq<int>): seq<int> {
    if hs == [] then x
    else
      var h, buf := hs[|hs| - 1], Edited(hs[..|hs| - 1], x, y);
      Part(buf, 0, h.a - 1) + Part(y, h.c - 1, h.d) + Part(buf, h.b, |buf|)
  }

  predicate InOld(hs: seq<Hunk>, i: int) {
    exists h | h in hs :: h.a <= i <= h.b
  }

  predicate InNew(hs: seq<Hunk>, p: int) {
    exists h | h in hs :: h.c <= p <= h.d
  }

  /** Line p of the second file is matched. */
  predicate Hit(j: seq<nat>, m: nat, p: int)
    requires m < |j|
  {
    exists i | 1 <= i <= m :: j[i] == p
  }

  predicate Proper(h: Hunk) {
    1 <= h.a <= h.b + 1 && 1 <= h.c <= h.d + 1 && (h.a <= h.b || h.c <= h.d)
  }

  /** h comes after g, and both files keep a line between the two. */
  predicate Apart(g: Hunk, h: Hunk) {
    g.b + 1 < h.a && g.d + 1 < h.c
  }

  /** The lines before h are matched to each other, unless it is at the start of both files, and the
      lines after it are, unless it is at the end of both. */
  predicate Fits(h: Hunk, j: seq<nat>, m: nat, lb: nat)
    requires m < |j| && Proper(h) && h.b <= m
  {
    && (if h.a == 1 then h.c == 1 else h.c - 1 == j[h.a - 1])
    && (if h.b == m then h.d == lb else h.d + 1 == j[h.b + 1])
  }

  /** The hunks contain exactly the unmatched lines of both files, they are in order, and each reaches
      from one matched line to another. */
  ghost predicate Covers(hs: seq<Hunk>, j: seq<nat>, m: nat, lb: nat)
    requires m < |j|
  {
    && (forall h | h in hs :: Proper(h) && h.b <= m && h.d <= lb && Fits(h, j, m, lb))
    && (forall k, l | 0 <= k < l < |hs| :: Apart(hs[k], hs[l]))
    && (forall i | 1 <= i <= m :: InOld(hs, i) <==> j[i] == 0)
    && (forall p | 1 <= p <= lb :: InNew(hs, p) <==> !Hit(j, m, p))
  }

  /** The match vector with its two sentinels. */
  ghost predicate Sentinels(j: seq<nat>, x: seq<int>, y: seq<int>) {
    && |j| == |x| + 2 && j[0] == 0 && j[|x| + 1] == |y| + 1 && Matching(j, x, y)
  }

  // ---- Forward

  /** The hunks so far deal with the first i lines of x and the first p lines of y. */
  ghost predicate Upto(hs: seq<Hunk>, j: seq<nat>, x: seq<int>, y: seq<int>, i: int, p: int) {
    && Sentinels(j, x, y) && 0 <= i <= |x| && 0 <= p <= |y|
    && 0 <= UsedUp(hs) <= i && Patched(hs, x, y, i) == y[..p]
    && (forall h | h in hs :: Proper(h) && h.b <= i && h.d <= p && Fits(h, j, |x|, |y|))
    && (j[i + 1] == p + 1 || (j[i] == p && forall h | h in hs :: h.b < i && h.d < p))
    && (forall k, l | 0 <= k < l < |hs| :: Apart(hs[k], hs[l]))
    && (forall k | 1 <= k <= i :: j[k] <= p && (InOld(hs, k) <==> j[k] == 0))
    && (forall k | i < k <= |x| + 1 && j[k] != 0 :: j[k] > p)
    && (forall q | 1 <= q <= p :: InNew(hs, q) <==> !Hit(j, |x|, q))
  }

  lemma KeepPatch(hs: seq<Hunk>, x: seq<int>, y: seq<int>, i: int, p: int)
    requires 0 <= UsedUp(hs) <= i < |x| && 0 <= p < |y| && Patched(hs, x, y, i) == y[..p] && x[i] == y[p]
    ensures Patched(hs, x, y, i + 1) == y[..p + 1]
  {
    hide Glued, UsedUp;
    assert Part(x, UsedUp(hs), i + 1) == Part(x, UsedUp(hs), i) + [x[i]];
    assert Patched(hs, x, y, i + 1) == Patched(hs, x, y, i) + [x[i]];
  }

  lemma Keep(hs: seq<Hunk>, j: seq<nat>, x: seq<int>, y: seq<int>, i: int, p: int)
    requires Upto(hs, j, x, y, i, p) && i < |x| && j[i + 1] == p + 1
    ensures Upto(hs, j, x, y, i + 1, p + 1)
  {
    hide Patched, UsedUp;
    KeepPatch(hs, x, y, i, p);
    assert Hit(j, |x|, p + 1);
    forall h | h in hs
      ensures !(h.a <= i + 1 <= h.b) && !(h.c <= p + 1 <= h.d)
    {
    }
  }

  lemma CutPatch(hs: seq<Hunk>, x: seq<int>, y: seq<int>, i: int, p: int, i1: int, p1: int)
    requires 0 <= UsedUp(hs) <= i <= i1 <= |x| && 0 <= p <= p1 <= |y| && Patched(hs, x, y, i) == y[..p]
    ensures Patched(hs + [Hunk(i + 1, i1, p + 1, p1)], x, y, i1) == y[..p1]
  {
    var h := Hunk(i + 1, i1, p + 1, p1);
    assert (hs + [h])[..|hs|] == hs;
    assert Glued(hs + [h], x, y) == Patched(hs, x, y, i) + Part(y, p, p1);
    assert y[..p] + y[p..p1] == y[..p1];
    assert Part(x, i1, i1) == [];
  }

  lemma CutCovers(hs: seq<Hunk>, j: seq<nat>, x: seq<int>, y: seq<int>, i: int, p: int, i1: int, p1: int)
    requires |j| == |x| + 2 && Upto(hs, j, x, y, i, p) && i <= i1 <= |x|
    requires (forall k | i < k <= i1 :: j[k] == 0) && j[i1 + 1] == p1 + 1 > 0 && (i < i1 || p < p1)
    ensures var g := hs + [Hunk(i + 1, i1, p + 1, p1)];
            && p <= p1 <= |y|
            && (forall k | 1 <= k <= i1 :: j[k] <= p1 && (InOld(g, k) <==> j[k] == 0))
            && (forall k | i1 < k <= |x| + 1 && j[k] != 0 :: j[k] > p1)
            && (forall q | 1 <= q <= p1 :: InNew(g, q) <==> !Hit(j, |x|, q))
  {
    hide Patched, Part, UsedUp;
    var h := Hunk(i + 1, i1, p + 1, p1);
    var g := hs + [h];
    assert forall f :: f in g <==> f in hs || f == h;
    assert h in g;
    forall k | 1 <= k <= i1
      ensures InOld(g, k) <==> j[k] == 0
    {
      assert InOld(g, k) <==> InOld(hs, k) || h.a <= k <= h.b;
    }
    forall q | 1 <= q <= p1
      ensures InNew(g, q) <==> !Hit(j, |x|, q)
    {
      assert InNew(g, q) <==> InNew(hs, q) || h.c <= q <= h.d;
      assert q > p ==> !Hit(j, |x|, q);
    }
  }

  lemma Cut(hs: seq<Hunk>, j: seq<nat>, x: seq<int>, y: seq<int>, i: int, p: int, i1: int, p1: int)
    requires |j| == |x| + 2 && Upto(hs, j, x, y, i, p) && i <= i1 <= |x|
    requires (forall k | i < k <= i1 :: j[k] == 0) && j[i1 + 1] == p1 + 1 > 0 && (i < i1 || p < p1)
    ensures Upto(hs + [Hunk(i + 1, i1, p + 1, p1)], j, x, y, i1, p1)
  {
    hide Patched, InOld, InNew, Hit, Part, Matching;
    CutCovers(hs, j, x, y, i, p, i1, p1);
    CutPatch(hs, x, y, i, p, i1, p1);
    var h := Hunk(i + 1, i1, p + 1, p1);
    assert forall f :: f in hs + [h] <==> f in hs || f == h;
    forall k | 0 <= k < |hs|
      ensures Apart(hs[k], h)
    {
      assert hs[k] in hs;
    }
  }

  /** Prints a hunk unless it is empty. */
  method Change(hs: seq<Hunk>, a: int, b: int, c: int, d: int) returns (r: seq<Hunk>)
    ensures r == if a > b && c > d then hs else hs + [Hunk(a, b, c, d)]
  {
    if a > b && c > d {
      return hs;
    }
    r := hs + [Hunk(a, b, c, d)];
  }

  lemma UptoFacts(hs: seq<Hunk>, j: seq<nat>, x: seq<int>, y: seq<int>, i: int, p: int)
    requires Upto(hs, j, x, y, i, p)
    ensures |j| == |x| + 2 && 0 <= i <= |x| && 0 <= p <= |y| && j[|x| + 1] == |y| + 1
    ensures forall k | i < k <= |x| + 1 && j[k] != 0 :: j[k] > p
  {
  }

  lemma UptoStart(j: seq<nat>, x: seq<int>, y: seq<int>)
    requires Sentinels(j, x, y)
    ensures Upto([], j, x, y, 0, 0)
  {
    assert y[..0] == [];
  }

  lemma UptoEnd(hs: seq<Hunk>, j: seq<nat>, x: seq<int>, y: seq<int>)
    requires Upto(hs, j, x, y, |x|, |y|)
    ensures Patched(hs, x, y, |x|) == y && Covers(hs, j, |x|, |y|)
  {
    assert y[..|y|] == y;
  }

  /** Goes past the lines that are matched one after the other. */
  method SkipMatched(j: array<nat>, m: nat, from: nat, ghost hs: seq<Hunk>, ghost s: seq<nat>, ghost x: seq<int>,
                     ghost y: seq<int>) returns (i0: nat)
    requires 1 <= from <= m + 1 && m == |x| && j.Length == |s| == m + 2
    requires Upto(hs, s, x, y, from - 1, j[from - 1]) && forall k | from <= k <= m + 1 :: j[k] == s[k]
    ensures from <= i0 <= m + 1 && Upto(hs, s, x, y, i0 - 1, j[i0 - 1])
    ensures i0 <= m ==> j[i0] != j[i0 - 1] + 1
    ensures i0 == from || j[from] == j[from - 1] + 1
  {
    hide Upto;
    i0 := from;
    while i0 <= m && j[i0] == j[i0 - 1] + 1
      invariant from <= i0 <= m + 1 && Upto(hs, s, x, y, i0 - 1, j[i0 - 1])
      invariant i0 == from || j[from] == j[from - 1] + 1
    {
      assert j[i0] == s[i0];
      Keep(hs, s, x, y, i0 - 1, j[i0 - 1]);
      i0 := i0 + 1;
    }
  }

  /** Goes past the lines that have no match. */
  method SkipUnmatched(j: array<nat>, m: nat, i0: nat) returns (i1: nat)
    requires 1 <= i0 <= m + 1 && j.Length == m + 2
    ensures i0 - 1 <= i1 <= m && (forall k | i0 <= k <= i1 :: j[k] == 0) && (i1 < m ==> j[i1 + 1] != 0)
  {
    i1 := i0 - 1;
    while i1 < m && j[i1 + 1] == 0
      invariant i0 - 1 <= i1 <= m && forall k | i0 <= k <= i1 :: j[k] == 0
    {
      i1 := i1 + 1;
    }
  }

  /** One turn of the loop: matched lines are skipped, and the hunk up to the next matched line is written. */
  method NextHunk(j: array<nat>, m: nat, lb: nat, from: nat, hs: seq<Hunk>, ghost s: seq<nat>, ghost x: seq<int>,
                  ghost y: seq<int>) returns (more: seq<Hunk>, next: nat)
    requires 1 <= from <= m == |x| && lb == |y| && j.Length == |s| == m + 2
    requires Upto(hs, s, x, y, from - 1, j[from - 1]) && forall k | from <= k <= m + 1 :: j[k] == s[k]
    modifies j
    ensures from <= next <= m + 1 && Upto(more, s, x, y, next - 1, j[next - 1])
    ensures forall k | next <= k <= m + 1 :: j[k] == s[k]
    ensures next > m ==> j[next - 1] == lb
    ensures next > from || (old(j[from] != j[from - 1] + 1) && j[next] == j[next - 1] + 1)
  {
    hide Upto;
    var i0 := SkipMatched(j, m, from, hs, s, x, y);
    UptoFacts(hs, s, x, y, i0 - 1, j[i0 - 1]);
    var j0 := j[i0 - 1] + 1;
    var i1 := SkipUnmatched(j, m, i0);
    assert j[i1 + 1] == s[i1 + 1];
    var j1 := j[i1 + 1] - 1;
    if i0 <= i1 || j0 <= j1 {
      Cut(hs, s, x, y, i0 - 1, j[i0 - 1], i1, j1);
    }
    j[i1] := j1;
    more := Change(hs, i0, i1, j0, j1);
    next := i1 + 1;
  }

  /** The loop for the normal output format. */
  method OutputForward(j: array<nat>, m: nat, lb: nat, ghost x: seq<int>, ghost y: seq<int>) returns (hs: seq<Hunk>)
    requires m == |x| && lb == |y| && j.Length == m + 2 && Matching(j[..], x, y)
    modifies j
    ensures Patched(hs, x, y, m) == y
    ensures Covers(hs, old(j[..]), m, lb)
  {
    hide Upto, Covers, Patched, Matching;
    ghost var before := j[..];
    hs := [];
    j[0] := 0;
    j[m + 1] := lb + 1;
    ghost var s: seq<nat> := j[..];
    SetSentinels(before, s, x, y);
    UptoStart(s, x, y);
    var i0 := 1;
    while i0 <= m
      invariant 1 <= i0 <= m + 1 && Upto(hs, s, x, y, i0 - 1, j[i0 - 1])
      invariant forall k | i0 <= k <= m + 1 :: j[k] == s[k]
      invariant i0 > m ==> j[i0 - 1] == if m > 0 then lb else 0
      decreases m - i0, if j[i0] == j[i0 - 1] + 1 then 0 else 1
    {
      hs, i0 := NextHunk(j, m, lb, i0, hs, s, x, y);
    }
    if m == 0 {
      if lb > 0 {
        Cut(hs, s, x, y, 0, 0, 0, lb);
      }
      hs := Change(hs, 1, 0, 1, lb);
    }
    UptoEnd(hs, s, x, y);
    CoversBefore(hs, before, s, m, lb);
  }

  lemma SetSentinels(j: seq<nat>, s: seq<nat>, x: seq<int>, y: seq<int>)
    requires Matching(j, x, y) && |j| == |s| == |x| + 2
    requires s[0] == 0 && s[|x| + 1] == |y| + 1 && forall i | 1 <= i <= |x| :: s[i] == j[i]
    ensures Sentinels(s, x, y)
  {
  }

  lemma CoversBefore(hs: seq<Hunk>, j: seq<nat>, s: seq<nat>, m: nat, lb: nat)
    requires m < |j| && m < |s| && Covers(hs, s, m, lb) && forall i | 1 <= i <= m :: s[i] == j[i]
    ensures Covers(hs, j, m, lb)
  {
    forall p
      ensures Hit(s, m, p) <==> Hit(j, m, p)
    {
    }
  }

  // ---- Backward

  /** Like Covers, for a list that runs from the end of the files to their start. */
  ghost predicate CoversBackward(hs: seq<Hunk>, j: seq<nat>, m: nat, lb: nat)
    requires m < |j|
  {
    && (forall h | h in hs :: Proper(h) && h.b <= m && h.d <= lb && Fits(h, j, m, lb))
    && (forall k, l | 0 <= k < l < |hs| :: Apart(hs[l], hs[k]))
    && (forall i | 1 <= i <= m :: InOld(hs, i) <==> j[i] == 0)
    && (forall p | 1 <= p <= lb :: InNew(hs, p) <==> !Hit(j, m, p))
  }

  /** The commands so far deal with the lines of x after i and the lines of y after p. */
  ghost predicate Downto(hs: seq<Hunk>, j: seq<nat>, x: seq<int>, y: seq<int>, i: int, p: int) {
    && Sentinels(j, x, y) && 0 <= i <= |x| && 0 <= p <= |y|
    && Edited(hs, x, y) == x[..i] + y[p..]
    && (forall h | h in hs :: Proper(h) && i < h.a && h.b <= |x| && p < h.c && h.d <= |y| && Fits(h, j, |x|, |y|))
    && ((j[i] == p && (p > 0 || i == 0)) || (j[i + 1] == p + 1 && forall h | h in hs :: i + 1 < h.a && p + 1 < h.c))
    && (forall k, l | 0 <= k < l < |hs| :: Apart(hs[l], hs[k]))
    && (forall k | i < k <= |x| :: (j[k] == 0 || j[k] > p) && (InOld(hs, k) <==> j[k] == 0))
    && (forall k | 0 <= k <= i :: j[k] <= p)
    && (forall q | p < q <= |y| :: InNew(hs, q) <==> !Hit(j, |x|, q))
  }

  lemma KeepDown(hs: seq<Hunk>, j: seq<nat>, x: seq<int>, y: seq<int>, i: int, p: int)
    requires Downto(hs, j, x, y, i, p) && i >= 1 && j[i] == p >= 1
    ensures Downto(hs, j, x, y, i - 1, p - 1)
  {
    hide Edited;
    assert x[i - 1] == y[p - 1];
    assert x[..i] + y[p..] == x[..i - 1] + y[p - 1..];
    assert Hit(j, |x|, p);
    forall h | h in hs
      ensures !(h.a <= i <= h.b) && !(h.c <= p <= h.d)
    {
    }
  }

  lemma EditedStep(hs: seq<Hunk>, h: Hunk, x: seq<int>, y: seq<int>)
    ensures var buf := Edited(hs, x, y);
            Edited(hs + [h], x, y) == Part(buf, 0, h.a - 1) + Part(y, h.c - 1, h.d) + Part(buf, h.b, |buf|)
  {
    assert (hs + [h])[..|hs|] == hs;
  }

  lemma CutBuffer(x: seq<int>, y: seq<int>, i: int, p: int, i1: int, p1: int)
    requires 0 <= i1 <= i <= |x| && 0 <= p1 <= p <= |y|
    ensures var buf := x[..i] + y[p..];
            Part(buf, 0, i1) + Part(y, p1, p) + Part(buf, i, |buf|) == x[..i1] + y[p1..]
  {
    var buf := x[..i] + y[p..];
    assert Part(buf, 0, i1) == x[..i1];
    assert Part(buf, i, |buf|) == y[p..];
  }

  lemma CutEdit(hs: seq<Hunk>, x: seq<int>, y: seq<int>, i: int, p: int, i1: int, p1: int)
    requires 0 <= i1 <= i <= |x| && 0 <= p1 <= p <= |y| && Edited(hs, x, y) == x[..i] + y[p..]
    ensures Edited(hs + [Hunk(i1 + 1, i, p1 + 1, p)], x, y) == x[..i1] + y[p1..]
  {
    hide Edited, Part;
    EditedStep(hs, Hunk(i1 + 1, i, p1 + 1, p), x, y);
    CutBuffer(x, y, i, p, i1, p1);
  }

  lemma CutDownCovers(hs: seq<Hunk>, j: seq<nat>, x: seq<int>, y: seq<int>, i: int, p: int, i1: int, p1: int)
    requires |j| == |x| + 2 && Downto(hs, j, x, y, i, p) && 0 <= i1 <= i
    requires (forall k | i1 < k <= i :: j[k] == 0) && j[i1] == p1 && (p1 == 0 ==> i1 == 0) && (i1 < i || p1 < p)
    ensures var g := hs + [Hunk(i1 + 1, i, p1 + 1, p)];
            && 0 <= p1 <= p
            && (forall k | i1 < k <= |x| :: (j[k] == 0 || j[k] > p1) && (InOld(g, k) <==> j[k] == 0))
            && (forall k | 0 <= k <= i1 :: j[k] <= p1)
            && (forall q | p1 < q <= |y| :: InNew(g, q) <==> !Hit(j, |x|, q))
  {
    hide Edited, Part;
    var h := Hunk(i1 + 1, i, p1 + 1, p);
    var g := hs + [h];
    assert forall f :: f in g <==> f in hs || f == h;
    assert h in g;
    forall k | i1 < k <= |x|
      ensures InOld(g, k) <==> j[k] == 0
    {
      assert InOld(g, k) <==> InOld(hs, k) || h.a <= k <= h.b;
    }
    forall q | p1 < q <= |y|
      ensures InNew(g, q) <==> !Hit(j, |x|, q)
    {
      assert InNew(g, q) <==> InNew(hs, q) || h.c <= q <= h.d;
      assert q <= p ==> !Hit(j, |x|, q);
    }
  }

  lemma CutDown(hs: seq<Hunk>, j: seq<nat>, x: seq<int>, y: seq<int>, i: int, p: int, i1: int, p1: int)
    requires |j| == |x| + 2 && Downto(hs, j, x, y, i, p) && 0 <= i1 <= i
    requires (forall k | i1 < k <= i :: j[k] == 0) && j[i1] == p1 && (p1 == 0 ==> i1 == 0) && (i1 < i || p1 < p)
    ensures Downto(hs + [Hunk(i1 + 1, i, p1 + 1, p)], j, x, y, i1, p1)
  {
    hide Edited, InOld, InNew, Hit, Part, Matching;
    CutDownCovers(hs, j, x, y, i, p, i1, p1);
    CutEdit(hs, x, y, i, p, i1, p1);
    var h := Hunk(i1 + 1, i, p1 + 1, p);
    assert forall f :: f in hs + [h] <==> f in hs || f == h;
    forall k | 0 <= k < |hs|
      ensures Apart(h, hs[k])
    {
      assert hs[k] in hs;
    }
  }

  lemma DowntoFacts(hs: seq<Hunk>, j: seq<nat>, x: seq<int>, y: seq<int>, i: int, p: int)
    requires Downto(hs, j, x, y, i, p)
    ensures |j| == |x| + 2 && 0 <= i <= |x| && 0 <= p <= |y| && j[0] == 0
    ensures forall k | 0 <= k <= i :: j[k] <= p
  {
  }

  lemma DowntoStart(j: seq<nat>, x: seq<int>, y: seq<int>)
    requires Sentinels(j, x, y)
    ensures Downto([], j, x, y, |x|, |y|)
  {
    assert x[..|x|] + y[|y|..] == x;
  }

  lemma DowntoEnd(hs: seq<Hunk>, j: seq<nat>, x: seq<int>, y: seq<int>)
    requires Downto(hs, j, x, y, 0, 0)
    ensures Edited(hs, x, y) == y && CoversBackward(hs, j, |x|, |y|)
  {
    assert x[..0] + y[0..] == y;
  }

  /** Goes back past the lines that are matched one after the other. */
  method SkipMatchedBack(j: array<nat>, m: nat, from: nat, ghost hs: seq<Hunk>, ghost s: seq<nat>, ghost x: seq<int>,
                         ghost y: seq<int>) returns (i0: nat)
    requires from <= m == |x| && j.Length == |s| == m + 2 && j[from + 1] >= 1
    requires Downto(hs, s, x, y, from, j[from + 1] - 1) && forall k | 0 <= k <= from :: j[k] == s[k]
    ensures i0 <= from && j[i0 + 1] >= 1 && Downto(hs, s, x, y, i0, j[i0 + 1] - 1)
    ensures i0 >= 1 ==> j[i0] != j[i0 + 1] - 1 || j[i0] == 0
    ensures i0 == from || (j[from] == j[from + 1] - 1 && j[from] != 0)
  {
    hide Downto;
    i0 := from;
    while i0 >= 1 && j[i0] == j[i0 + 1] - 1 && j[i0] != 0
      invariant 0 <= i0 <= from && j[i0 + 1] >= 1 && Downto(hs, s, x, y, i0, j[i0 + 1] - 1)
      invariant i0 == from || (j[from] == j[from + 1] - 1 && j[from] != 0)
    {
      assert j[i0] == s[i0];
      KeepDown(hs, s, x, y, i0, j[i0 + 1] - 1);
      i0 := i0 - 1;
    }
  }

  /** Goes back past the lines that have no match. */
  method SkipUnmatchedBack(j: array<nat>, m: nat, i0: nat) returns (i1: nat)
    requires i0 <= m && j.Length == m + 2
    ensures 1 <= i1 <= i0 + 1 && (forall k | i1 <= k <= i0 :: j[k] == 0) && (i1 > 1 ==> j[i1 - 1] != 0)
  {
    i1 := i0 + 1;
    while i1 > 1 && j[i1 - 1] == 0
      invariant 1 <= i1 <= i0 + 1 && forall k | i1 <= k <= i0 :: j[k] == 0
    {
      i1 := i1 - 1;
    }
  }

  /** Line i is matched to the line before that of line i + 1. */
  predicate Joined(j: seq<nat>, i: nat)
    requires i + 1 < |j|
  {
    j[i] + 1 == j[i + 1] && j[i] != 0
  }

  /** One turn of the reverse loop. Where it does not get on, it makes the next turn get on. */
  method TurnBack(j: array<nat>, m: nat, from: nat, was: seq<Hunk>, ghost s: seq<nat>, ghost x: seq<int>,
                  ghost y: seq<int>) returns (i0: nat, hs: seq<Hunk>)
    requires 1 <= from <= m == |x| && j.Length == |s| == m + 2 && j[from + 1] >= 1
    requires Downto(was, s, x, y, from, j[from + 1] - 1) && forall k | 0 <= k <= from :: j[k] == s[k]
    modifies j
    ensures i0 <= from && j[i0 + 1] >= 1 && Downto(hs, s, x, y, i0, j[i0 + 1] - 1)
    ensures forall k | 0 <= k <= i0 :: j[k] == s[k]
    ensures i0 == 0 ==> j[1] == s[0] + 1
    ensures i0 == from ==> !Joined(old(j[..]), from) && (from == 0 || Joined(j[..], from))
  {
    hide Downto;
    i0 := SkipMatchedBack(j, m, from, was, s, x, y);
    DowntoFacts(was, s, x, y, i0, j[i0 + 1] - 1);
    var j0 := j[i0 + 1] - 1;
    var i1 := SkipUnmatchedBack(j, m, i0);
    assert j[i1 - 1] == s[i1 - 1];
    var j1 := j[i1 - 1] + 1;
    if i1 <= i0 || j1 <= j0 {
      CutDown(was, s, x, y, i0, j0, i1 - 1, j1 - 1);
    }
    j[i1] := j1;
    hs := Change(was, i1, i0, j1, j0);
    i0 := i1 - 1;
  }

  /** The loop for the editor script, -e. */
  method OutputBackward(j: array<nat>, m: nat, lb: nat, ghost x: seq<int>, ghost y: seq<int>) returns (hs: seq<Hunk>)
    requires m == |x| && lb == |y| && j.Length == m + 2 && Matching(j[..], x, y)
    modifies j
    ensures Edited(hs, x, y) == y
    ensures CoversBackward(hs, old(j[..]), m, lb)
  {
    hide Downto, CoversBackward, Edited, Matching, Joined;
    ghost var before := j[..];
    hs := [];
    j[0] := 0;
    j[m + 1] := lb + 1;
    ghost var s: seq<nat> := j[..];
    SetSentinels(before, s, x, y);
    DowntoStart(s, x, y);
    var i0 := m;
    while i0 >= 1
      invariant 0 <= i0 <= m && j[i0 + 1] >= 1 && Downto(hs, s, x, y, i0, j[i0 + 1] - 1)
      invariant forall k | 0 <= k <= i0 :: j[k] == s[k]
      invariant i0 == 0 ==> j[1] == if m > 0 then 1 else lb + 1
      decreases i0, if Joined(j[..], i0) then 0 else 1
    {
      i0, hs := TurnBack(j, m, i0, hs, s, x, y);
    }
    if m == 0 {
      if lb > 0 {
        CutDown(hs, s, x, y, 0, lb, 0, 0);
      }
      hs := Change(hs, 1, 0, 1, lb);
    }
    DowntoEnd(hs, s, x, y);
    CoversBackwardBefore(hs, before, s, m, lb);
  }

  lemma CoversBackwardBefore(hs: seq<Hunk>, j: seq<nat>, s: seq<nat>, m: nat, lb: nat)
    requires m < |j| && m < |s| && CoversBackward(hs, s, m, lb) && forall i | 1 <= i <= m :: s[i] == j[i]
    ensures CoversBackward(hs, j, m, lb)
  {
    forall p
      ensures Hit(s, m, p) <==> Hit(j, m, p)
    {
    }
  }
}
