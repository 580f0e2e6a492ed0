/** What a free list should be: the blocks of the data area that the block map leaves clear. */
module FreeMap {
  import opened Basics
  import opened FreeList

  predicate InRange(fmin: int, fmax: int, b: int) {
    fmin <= b < fmax
  }

  /** Block b is a data block that no file uses. */
  predicate Unused(map0: seq<bool>, fmin: int, fmax: int, b: int) {
    InRange(fmin, fmax, b) && 0 <= b < |map0| && !map0[b]
  }

  /** The list is sound and complete: it has exactly the unused blocks, each once. */
  ghost predicate Complete(l: seq<int>, map0: seq<bool>, fmin: int, fmax: int) {
    Distinct(l) && forall b :: b in l <==> Unused(map0, fmin, fmax, b)
  }

  ghost predicate Sound(l: seq<int>, map0: seq<bool>, fmin: int, fmax: int) {
    Distinct(l) && forall b | b in l :: Unused(map0, fmin, fmax, b)
  }

  /** Blocks of fmin..k that the map has set. */
  function CountUsed(map0: seq<bool>, fmin: nat, k: nat): nat
    requires k <= |map0|
  {
    if k <= fmin then 0 else CountUsed(map0, fmin, k - 1) + if map0[k - 1] then 1 else 0
  }

  function Without(l: seq<int>, i: nat): seq<int>
    requires i < |l|
  {
    l[..i] + l[i + 1..]
  }

  lemma WithoutOne(l: seq<int>, i: nat)
    requires i < |l| && Distinct(l)
    ensures Distinct(Without(l, i)) && |Without(l, i)| == |l| - 1
    ensures forall b :: b in Without(l, i) <==> b in l && b != l[i]
  {
    var w := Without(l, i);
    assert forall k | 0 <= k < |w| :: w[k] == if k < i then l[k] else l[k + 1];
    forall b | b in l && b != l[i]
      ensures b in w
    {
      var k :| 0 <= k < |l| && l[k] == b;
      assert b == w[if k < i then k else k - 1];
    }
  }

  /** A sound list has room only for the unused blocks, and has them all just when the counts add up. */
  lemma {:induction false} Counted(l: seq<int>, map0: seq<bool>, fmin: nat, k: nat)
    requires fmin <= k <= |map0| && Sound(l, map0, fmin, k)
    ensures |l| + CountUsed(map0, fmin, k) <= k - fmin
    ensures |l| + CountUsed(map0, fmin, k) == k - fmin <==> Complete(l, map0, fmin, k)
    decreases k
  {
    if k == fmin {
      assert |l| > 0 ==> l[0] in l && Unused(map0, fmin, k, l[0]);
      assert CountUsed(map0, fmin, k) == 0;
    } else {
      var last: int := k - 1;
      if last in l {
        var i: nat :| i < |l| && l[i] == last;
        WithoutOne(l, i);
        Counted(Without(l, i), map0, fmin, k - 1);
        hide CountUsed, Without;
        assert Complete(Without(l, i), map0, fmin, k - 1) <==> Complete(l, map0, fmin, k);
      } else {
        Counted(l, map0, fmin, k - 1);
        hide CountUsed;
        assert map0[last] ==> (Complete(l, map0, fmin, k - 1) <==> Complete(l, map0, fmin, k));
        assert !map0[last] ==> Unused(map0, fmin, k, last);
      }
    }
  }

  // ---- Walking a list batch by batch

  /** A batch in the order its blocks are taken off. */
  function Batch(nfree: nat, free: seq<int>): (b: seq<int>)
    requires 1 <= nfree <= |free|
    ensures |b| == nfree
  {
    seq(nfree, k requires 0 <= k < nfree => free[nfree - 1 - k])
  }

  lemma LastBatch(nfree: nat, free: seq<int>, disk: map<int, Block>, l: seq<int>)
    requires 1 <= nfree <= NICFREE == |free| && free[0] == 0
    ensures Lists(nfree, free, disk, l) <==> l == Batch(nfree, free)[..nfree - 1]
  {
  }

  lemma MoreBatches(nfree: nat, free: seq<int>, disk: map<int, Block>, rest: seq<int>)
    requires 1 <= nfree <= NICFREE == |free| && free[0] != 0 && free[0] in disk
    ensures Lists(nfree, free, disk, Batch(nfree, free) + rest)
       <==> Lists(BatchCount(disk[free[0]]), BatchNumbers(disk[free[0]]), disk, rest)
  {
    var l := Batch(nfree, free) + rest;
    assert l[nfree..] == rest && l[nfree - 1] == free[0];
  }

  lemma RestIsListed(nfree: nat, free: seq<int>, disk: map<int, Block>, l: seq<int>)
    requires Lists(nfree, free, disk, l) && free[0] != 0
    ensures 1 <= nfree <= |free| == NICFREE && nfree <= |l| && free[0] in disk
    ensures Lists(BatchCount(disk[free[0]]), BatchNumbers(disk[free[0]]), disk, l[nfree..])
  {
  }

  lemma FirstEntries(nfree: nat, free: seq<int>, disk: map<int, Block>, l: seq<int>, k: nat)
    requires Lists(nfree, free, disk, l) && free[0] != 0 && k < nfree
    ensures nfree <= |l| && l[k] == Batch(nfree, free)[k]
  {
    if k == nfree - 1 {
      assert l[nfree - 1] == free[0];
    }
  }

  lemma StartsWithBatch(nfree: nat, free: seq<int>, disk: map<int, Block>, l: seq<int>)
    requires Lists(nfree, free, disk, l) && free[0] != 0
    ensures free[0] in disk && nfree <= |l| && l == Batch(nfree, free) + l[nfree..]
    ensures Lists(BatchCount(disk[free[0]]), BatchNumbers(disk[free[0]]), disk, l[nfree..])
  {
    hide Lists, Batch;
    RestIsListed(nfree, free, disk, l);
    forall k | 0 <= k < nfree
      ensures l[k] == Batch(nfree, free)[k]
    {
      FirstEntries(nfree, free, disk, l, k);
    }
    assert l[..nfree] == Batch(nfree, free);
    assert l == l[..nfree] + l[nfree..];
  }

  /** What the batch lists, put after got, is what the first batch lists. */
  ghost predicate Continues(sNfree: int, sFree: seq<int>, nfree: int, free: seq<int>, disk: map<int, Block>, got: seq<int>) {
    forall rest | Lists(nfree, free, disk, rest) :: Lists(sNfree, sFree, disk, got + rest)
  }

  lemma ContinuesStart(nfree: int, free: seq<int>, disk: map<int, Block>)
    ensures Continues(nfree, free, nfree, free, disk, [])
  {
    hide Lists;
    forall rest | Lists(nfree, free, disk, rest)
      ensures Lists(nfree, free, disk, [] + rest)
    {
      assert [] + rest == rest;
    }
  }

  lemma ContinuesBatch(sNfree: int, sFree: seq<int>, nfree: nat, free: seq<int>, disk: map<int, Block>, got: seq<int>)
    requires Continues(sNfree, sFree, nfree, free, disk, got)
    requires 1 <= nfree <= NICFREE == |free| && free[0] != 0 && free[0] in disk
    ensures Continues(sNfree, sFree, BatchCount(disk[free[0]]), BatchNumbers(disk[free[0]]), disk,
                      got + Batch(nfree, free))
  {
    hide Lists, Batch;
    var next := disk[free[0]];
    forall rest | Lists(BatchCount(next), BatchNumbers(next), disk, rest)
      ensures Lists(sNfree, sFree, disk, got + Batch(nfree, free) + rest)
    {
      MoreBatches(nfree, free, disk, rest);
      assert got + Batch(nfree, free) + rest == got + (Batch(nfree, free) + rest);
    }
  }

  lemma ContinuesEnd(sNfree: int, sFree: seq<int>, nfree: nat, free: seq<int>, disk: map<int, Block>, got: seq<int>)
    requires Continues(sNfree, sFree, nfree, free, disk, got)
    requires 1 <= nfree <= NICFREE == |free| && free[0] == 0
    ensures Lists(sNfree, sFree, disk, got + Batch(nfree, free)[..nfree - 1])
  {
    hide Lists;
    LastBatch(nfree, free, disk, Batch(nfree, free)[..nfree - 1]);
  }

  /** One batch lists only one sequence of blocks. */
  lemma {:induction false} ListsOne(nfree: int, free: seq<int>, disk: map<int, Block>, l: seq<int>, m: seq<int>)
    requires Lists(nfree, free, disk, l) && Lists(nfree, free, disk, m)
    ensures l == m
    decreases |l|
  {
    if free[0] == 0 {
      LastBatch(nfree, free, disk, l);
      LastBatch(nfree, free, disk, m);
    } else {
      StartsWithBatch(nfree, free, disk, l);
      StartsWithBatch(nfree, free, disk, m);
      ListsOne(BatchCount(disk[free[0]]), BatchNumbers(disk[free[0]]), disk, l[nfree..], m[nfree..]);
    }
  }

  /** The superblock's free list has exactly the unused blocks, each once. */
  ghost predicate GoodList(nfree: int, free: seq<int>, disk: map<int, Block>, map0: seq<bool>, fmin: int, fmax: int) {
    exists l :: Complete(l, map0, fmin, fmax) && if nfree == 0 then l == [] else Lists(nfree, free, disk, l)
  }

  lemma GoodListIs(nfree: int, free: seq<int>, disk: map<int, Block>, map0: seq<bool>, fmin: int, fmax: int,
                   l: seq<int>)
    requires Complete(l, map0, fmin, fmax) && if nfree == 0 then l == [] else Lists(nfree, free, disk, l)
    ensures GoodList(nfree, free, disk, map0, fmin, fmax)
  {
  }

  // ---- The second map

  /** The second map has the blocks of the first one and those met on the list so far. */
  ghost predicate Marked(map0: seq<bool>, map1: seq<bool>, fmin: int, fmax: int, got: seq<int>) {
    && |map0| == |map1| == fmax && Sound(got, map0, fmin, fmax)
    && forall b | 0 <= b < fmax :: map1[b] <==> map0[b] || b in got
  }

  lemma MarkedStart(map0: seq<bool>, map1: seq<bool>, fmin: int, fmax: int)
    requires map1 == map0 && |map0| == fmax
    ensures Marked(map0, map1, fmin, fmax, [])
  {
  }

  lemma MarkOne(map0: seq<bool>, map1: seq<bool>, fmin: int, fmax: int, got: seq<int>, b: int)
    requires Marked(map0, map1, fmin, fmax, got) && 0 <= fmin <= b < fmax && !map1[b]
    ensures Marked(map0, map1[b := true], fmin, fmax, got + [b])
  {
  }

  lemma MarkedTwice(map0: seq<bool>, map1: seq<bool>, fmin: int, fmax: int, got: seq<int>, b: int)
    requires Marked(map0, map1, fmin, fmax, got) && 0 <= fmin <= b < fmax
    ensures |map1| == fmax
    ensures map1[b] <==> !Unused(map0, fmin, fmax, b) || b in got
  {
  }

  lemma MarkedCount(map0: seq<bool>, map1: seq<bool>, fmin: nat, fmax: nat, got: seq<int>)
    requires Marked(map0, map1, fmin, fmax, got) && fmin <= fmax
    ensures |got| <= fmax - fmin
  {
    Counted(got, map0, fmin, fmax);
  }
}
