/** fsck's free list: rebuilding it with the blocks spaced for rotation (phase 6) and checking it
    (phase 5). */
module FsckFree {
  import opened Basics
  import opened Fsck
  import opened FreeList
  import opened FreeMap

  const MAXCYL: nat := 500
  const STEPSIZE: nat := 9
  const CYLSIZE: nat := 400

  // ---- The spacing

  /** Number of true entries before k. */
  function Flagged(flg: seq<bool>, k: nat): nat
    requires k <= |flg|
  {
    if k == 0 then 0 else Flagged(flg, k - 1) + if flg[k - 1] then 1 else 0
  }

  lemma {:induction false} FlagOne(flg: seq<bool>, k: nat, i: nat)
    requires k <= |flg| && i < |flg| && !flg[i]
    ensures Flagged(flg[i := true], k) == Flagged(flg, k) + if i < k then 1 else 0
  {
    if k > 0 {
      FlagOne(flg, k - 1, i);
    }
  }

  lemma {:induction false} SomeClear(flg: seq<bool>, k: nat) returns (i: nat)
    requires k <= |flg| && Flagged(flg, k) < k
    ensures i < k && !flg[i]
  {
    if !flg[k - 1] {
      i := k - 1;
    } else {
      i := SomeClear(flg, k - 1);
    }
  }

  lemma {:induction false} FlaggedBound(flg: seq<bool>, k: nat)
    requires k <= |flg|
    ensures Flagged(flg, k) <= k
    ensures Flagged(flg, k) == k ==> forall i | 0 <= i < k :: flg[i]
  {
    if k > 0 {
      FlaggedBound(flg, k - 1);
    }
  }

  lemma {:induction false} NothingFlagged(flg: seq<bool>, k: nat)
    requires k <= |flg| && forall i | 0 <= i < k :: !flg[i]
    ensures Flagged(flg, k) == 0
  {
    if k > 0 {
      NothingFlagged(flg, k - 1);
    }
  }

  predicate HasOffset(addr: seq<int>, j: nat, x: int)
    requires j <= |addr|
  {
    exists i | 0 <= i < j :: addr[i] == x
  }

  /** addr[0..cyl] lists 1..cyl, each once. */
  ghost predicate Spaced(addr: seq<int>, cyl: nat) {
    && cyl <= |addr|
    && (forall i | 0 <= i < cyl :: 1 <= addr[i] <= cyl)
    && (forall i, j | 0 <= i < j < cyl :: addr[i] != addr[j])
    && (forall x | 1 <= x <= cyl :: HasOffset(addr, cyl, x))
  }

  /** d slots on from start, going round. */
  function Around(start: nat, d: nat, cyl: nat): (i: nat)
    requires cyl > 0
    ensures i < cyl
  {
    (start + d) % cyl
  }

  lemma {:induction false} AtLeastOnce(k: nat, c: nat)
    requires k >= 1
    ensures k * c >= c
  {
    if k > 1 {
      AtLeastOnce(k - 1, c);
      assert k * c == (k - 1) * c + c;
    }
  }

  lemma Remainder(q: nat, r: nat, c: nat)
    requires r < c
    ensures (q * c + r) % c == r
  {
    var x := q * c + r;
    var p, s := x / c, x % c;
    assert x == p * c + s;
    assert (q - p) * c == q * c - p * c && (p - q) * c == p * c - q * c;
    if p < q {
      AtLeastOnce(q - p, c);
    } else if q < p {
      AtLeastOnce(p - q, c);
    }
  }

  lemma AroundNext(start: nat, d: nat, cyl: nat)
    requires cyl > 0
    ensures Around(start, d + 1, cyl) == if Around(start, d, cyl) + 1 == cyl then 0 else Around(start, d, cyl) + 1
  {
    var x := start + d;
    var q, r := x / cyl, x % cyl;
    assert x == q * cyl + r;
    if r + 1 == cyl {
      assert x + 1 == (q + 1) * cyl + 0;
      Remainder(q + 1, 0, cyl);
    } else {
      Remainder(q, r + 1, cyl);
    }
  }

  lemma Wrap(i: nat, cyl: nat)
    requires i < cyl
    ensures (i + 1) % cyl == if i + 1 == cyl then 0 else i + 1
  {
  }

  /** The next slot from start on that is not flagged; d is how far it is. */
  method NextClear(flg: array<bool>, cyl: nat, start: nat) returns (i: nat, ghost d: nat)
    requires start < cyl <= flg.Length && Flagged(flg[..], cyl) < cyl
    ensures i < cyl && !flg[i] && i == Around(start, d, cyl)
    ensures forall e | 0 <= e < d :: flg[Around(start, e, cyl)]
  {
    hide Flagged, Around;
    ghost var free := SomeClear(flg[..], cyl);
    i, d := start, 0;
    AroundStart(start, cyl);
    while flg[i]
      invariant i < cyl && i == Around(start, d, cyl)
      invariant forall e | 0 <= e < d :: flg[Around(start, e, cyl)]
      decreases if i <= free then free - i else free + cyl - i
    {
      Wrap(i, cyl);
      AroundNext(start, d, cyl);
      i, d := (i + 1) % cyl, d + 1;
    }
  }

  lemma AroundStart(start: nat, cyl: nat)
    requires start < cyl
    ensures Around(start, 0, cyl) == start
  {
  }

  /** Offset at is d slots on from start, and the n offsets so far take the slots in between. */
  ghost predicate Probed(addr: seq<int>, n: nat, cyl: nat, start: nat, at: int, d: nat)
    requires n <= |addr| && cyl > 0
  {
    at == Around(start, d, cyl) + 1 && forall e | 0 <= e < d :: HasOffset(addr, n, Around(start, e, cyl) + 1)
  }

  /** Where the search for slot k of the order starts: step on from the slot before. */
  ghost function SearchFrom(addr: seq<int>, step: nat, cyl: nat, k: nat): nat
    requires k <= |addr| && cyl > 0 && (k > 0 ==> addr[k - 1] >= 1)
  {
    if k == 0 then 0 else Around(addr[k - 1] - 1, step, cyl)
  }

  /** Each of the first n offsets is the first free slot at least step on from the one before it. */
  ghost predicate Stepped(addr: seq<int>, step: nat, cyl: nat, n: nat) {
    && n <= |addr| && cyl > 0 && (forall k | 0 <= k < n :: addr[k] >= 1)
    && forall k: nat | k < n :: NextSlot(addr, step, cyl, k)
  }

  ghost predicate NextSlot(addr: seq<int>, step: nat, cyl: nat, k: nat)
    requires k < |addr| && cyl > 0 && (k > 0 ==> addr[k - 1] >= 1)
  {
    exists d :: Probed(addr, k, cyl, SearchFrom(addr, step, cyl, k), addr[k], d)
  }

  lemma SteppedNext(addr: seq<int>, step: nat, cyl: nat, n: nat, i: nat, d: nat)
    requires Stepped(addr, step, cyl, n) && n < |addr|
    requires Probed(addr, n, cyl, SearchFrom(addr, step, cyl, n), i + 1, d)
    ensures Stepped(addr[n := i + 1], step, cyl, n + 1)
  {
    hide Around;
    var a := addr[n := i + 1];
    forall k: nat | k < n + 1
      ensures NextSlot(a, step, cyl, k)
    {
      SameOffsets(addr, a, k);
      if k < n {
        assert NextSlot(addr, step, cyl, k);
        var e :| Probed(addr, k, cyl, SearchFrom(addr, step, cyl, k), addr[k], e);
        assert Probed(a, k, cyl, SearchFrom(a, step, cyl, k), a[k], e);
      } else {
        assert Probed(a, n, cyl, SearchFrom(a, step, cyl, n), a[n], d);
      }
    }
  }

  lemma SameOffsets(a: seq<int>, b: seq<int>, n: nat)
    requires n <= |a| && n <= |b| && forall k | 0 <= k < n :: a[k] == b[k]
    ensures forall x :: HasOffset(a, n, x) == HasOffset(b, n, x)
  {
  }

  /** The loop state of Spacing after j slots. */
  ghost predicate SpacedSoFar(flg: seq<bool>, addr: seq<int>, cyl: nat, j: nat) {
    && |flg| == |addr| == MAXCYL && j <= cyl <= MAXCYL
    && Flagged(flg, cyl) == j
    && (forall i | 0 <= i < j :: 1 <= addr[i] <= cyl && flg[addr[i] - 1])
    && (forall i, k | 0 <= i < k < j :: addr[i] != addr[k])
    && (forall x | 0 <= x < cyl && flg[x] :: HasOffset(addr, j, x + 1))
  }

  lemma OffsetAdded(addr: seq<int>, j: nat, n: nat, v: int)
    requires j < |addr| && n == j + 1
    ensures forall x :: HasOffset(addr[j := v], n, x) <==> HasOffset(addr, j, x) || x == v
  {
    forall x
      ensures HasOffset(addr[j := v], n, x) <==> HasOffset(addr, j, x) || x == v
    {
      OffsetAddedAt(addr, j, n, v, x);
    }
  }

  lemma OffsetAddedAt(addr: seq<int>, j: nat, n: nat, v: int, x: int)
    requires j < |addr| && n == j + 1
    ensures HasOffset(addr[j := v], n, x) <==> HasOffset(addr, j, x) || x == v
  {
    var a := addr[j := v];
    if HasOffset(addr, j, x) {
      var k :| 0 <= k < j && addr[k] == x;
      assert a[k] == x;
    }
    if HasOffset(a, n, x) {
      var k :| 0 <= k < n && a[k] == x;
      if k < j {
        assert addr[k] == x;
      } else {
        assert a[j] == v;
      }
    }
    if x == v {
      assert a[j] == x;
    }
  }

  lemma SpacedNext(flg: seq<bool>, addr: seq<int>, cyl: nat, j: nat, i: nat)
    requires SpacedSoFar(flg, addr, cyl, j) && j < cyl && i < cyl && !flg[i]
    ensures SpacedSoFar(flg[i := true], addr[j := i + 1], cyl, j + 1)
  {
    hide Flagged, HasOffset;
    FlagOne(flg, cyl, i);
    OffsetAdded(addr, j, j + 1, i + 1);
  }

  lemma SpacedDone(flg: seq<bool>, addr: seq<int>, cyl: nat)
    requires SpacedSoFar(flg, addr, cyl, cyl)
    ensures Spaced(addr, cyl)
  {
    FlaggedBound(flg, cyl);
    hide Flagged, HasOffset;
    forall x | 1 <= x <= cyl
      ensures HasOffset(addr, cyl, x)
    {
      assert flg[x - 1];
    }
  }

  lemma SpacedStart(flg: seq<bool>, addr: seq<int>, cyl: nat)
    requires |flg| == |addr| == MAXCYL && cyl <= MAXCYL && forall i | 0 <= i < MAXCYL :: !flg[i]
    ensures SpacedSoFar(flg, addr, cyl, 0)
  {
    NothingFlagged(flg, cyl);
  }

  lemma FlaggedOffset(flg: seq<bool>, addr: seq<int>, cyl: nat, j: nat, start: nat, d: nat, i: nat)
    requires SpacedSoFar(flg, addr, cyl, j) && cyl > 0 && i == Around(start, d, cyl)
    requires forall e | 0 <= e < d :: flg[Around(start, e, cyl)]
    ensures Probed(addr, j, cyl, start, i + 1, d)
  {
    hide Around, Flagged, HasOffset;
  }

  /** The order of the blocks of a cylinder, step apart, each block once. */
  method Spacing(step: nat, cyl: nat) returns (addr: array<int>)
    requires 1 <= cyl <= MAXCYL
    ensures fresh(addr) && addr.Length == MAXCYL && Spaced(addr[..], cyl) && Stepped(addr[..], step, cyl, cyl)
  {
    hide SpacedSoFar, Flagged, Around, Probed, Stepped;
    var flg := new bool[MAXCYL](_ => false);
    addr := new int[MAXCYL](_ => 0);
    SpacedStart(flg[..], addr[..], cyl);
    var i: nat := 0;
    var j := 0;
    NotStepped(addr[..], step, cyl);
    while j < cyl
      invariant 0 <= j <= cyl && i < cyl && SpacedSoFar(flg[..], addr[..], cyl, j)
      invariant Stepped(addr[..], step, cyl, j) && (j > 0 ==> addr[j - 1] >= 1)
      invariant i == SearchFrom(addr[..], step, cyl, j)
    {
      SpacedCount(flg[..], addr[..], cyl, j);
      ghost var d;
      ghost var start := i;
      i, d := NextClear(flg, cyl, i);
      ghost var f, a := flg[..], addr[..];
      FlaggedOffset(f, a, cyl, j, start, d, i);
      SteppedNext(a, step, cyl, j, i, d);
      SpacedNext(f, a, cyl, j, i);
      addr[j] := i + 1;
      flg[i] := true;
      assert flg[..] == f[i := true] && addr[..] == a[j := i + 1];
      StepBound(i, step, cyl);
      AroundIs(i, step, cyl);
      i := (i + step) % cyl;
      j := j + 1;
    }
    SpacedDone(flg[..], addr[..], cyl);
  }

  lemma SpacedCount(flg: seq<bool>, addr: seq<int>, cyl: nat, j: nat)
    requires SpacedSoFar(flg, addr, cyl, j)
    ensures cyl <= |flg| && Flagged(flg, cyl) == j
  {
  }

  lemma AroundIs(i: nat, step: nat, cyl: nat)
    requires cyl > 0
    ensures Around(i, step, cyl) == (i + step) % cyl
  {
  }

  lemma NotStepped(addr: seq<int>, step: nat, cyl: nat)
    requires cyl > 0
    ensures Stepped(addr, step, cyl, 0)
  {
  }

  lemma StepBound(i: nat, step: nat, cyl: nat)
    requires cyl > 0
    ensures 0 <= (i + step) % cyl < cyl
  {
  }

  // ---- Rebuilding the list

  predicate LegalSpacing(step: int, cyl: int) {
    0 < step <= cyl <= MAXCYL
  }

  /** step and cyl are the spacing asked for or, if none is, that of the superblock, provided it is legal; if it
      is not, they are the default. */
  predicate SpacingTaken(stepsize: int, cylsize: int, step0: int, cyl0: int, step: int, cyl: int) {
    && (stepsize != 0 && cylsize != 0 && LegalSpacing(stepsize, cylsize) ==> step == stepsize && cyl == cylsize)
    && ((stepsize == 0 || cylsize == 0) && LegalSpacing(step0, cyl0) ==> step == step0 && cyl == cyl0)
    && (stepsize != 0 && cylsize != 0 && !LegalSpacing(stepsize, cylsize) ==> step == STEPSIZE && cyl == CYLSIZE)
    && ((stepsize == 0 || cylsize == 0) && !LegalSpacing(step0, cyl0) ==> step == STEPSIZE && cyl == CYLSIZE)
  }

  /** The scan has been past block b: it lies in a finished cylinder, or is one of the first i of the
      current one, which ends before base. */
  predicate Visited(addr: seq<int>, base: int, i: nat, b: int)
    requires i <= |addr|
  {
    b >= base || exists x | 0 <= x < i :: addr[x] == base - b
  }

  /** The list l so far: the unused blocks visited, each once, with nothing else on the disk changed. */
  ghost predicate Listed(l: seq<int>, map0: seq<bool>, fmin: int, fmax: int, addr: seq<int>, base: int, i: nat)
    requires i <= |addr|
  {
    && Distinct(l)
    && forall b :: b in l <==> Unused(map0, fmin, fmax, b) && Visited(addr, base, i, b)
  }

  ghost predicate SameElsewhere(disk: map<int, Block>, disk': map<int, Block>, l: seq<int>) {
    && disk.Keys <= disk'.Keys
    && forall b :: b !in l ==> (b in disk <==> b in disk') && (b in disk ==> disk'[b] == disk[b])
  }

  lemma VisitSkip(l: seq<int>, map0: seq<bool>, fmin: int, fmax: int, addr: seq<int>, base: int, i: nat)
    requires i < |addr| && Listed(l, map0, fmin, fmax, addr, base, i)
    requires !Unused(map0, fmin, fmax, base - addr[i])
    ensures Listed(l, map0, fmin, fmax, addr, base, i + 1)
  {
    forall b
      ensures b in l <==> Unused(map0, fmin, fmax, b) && Visited(addr, base, i + 1, b)
    {
      assert Visited(addr, base, i + 1, b) <==> Visited(addr, base, i, b) || addr[i] == base - b;
    }
  }

  lemma VisitAdd(l: seq<int>, map0: seq<bool>, fmin: int, fmax: int, addr: seq<int>, base: int, i: nat, cyl: nat)
    requires i < cyl && Spaced(addr, cyl) && Listed(l, map0, fmin, fmax, addr, base, i)
    requires Unused(map0, fmin, fmax, base - addr[i])
    ensures base - addr[i] !in l
    ensures Listed([base - addr[i]] + l, map0, fmin, fmax, addr, base, i + 1)
  {
    var blk := base - addr[i];
    assert !Visited(addr, base, i, blk);
    var g := [blk] + l;
    forall b
      ensures b in g <==> Unused(map0, fmin, fmax, b) && Visited(addr, base, i + 1, b)
    {
      assert Visited(addr, base, i + 1, b) <==> Visited(addr, base, i, b) || addr[i] == base - b;
      assert b in g <==> b == blk || b in l;
    }
  }

  /** Going on to the cylinder before. */
  lemma CylinderDone(l: seq<int>, map0: seq<bool>, fmin: int, fmax: int, addr: seq<int>, base: int, cyl: nat)
    requires Spaced(addr, cyl) && Listed(l, map0, fmin, fmax, addr, base, cyl)
    ensures Listed(l, map0, fmin, fmax, addr, base - cyl, 0)
  {
    forall b
      ensures Visited(addr, base, cyl, b) <==> Visited(addr, base - cyl, 0, b)
    {
      if base - cyl <= b < base {
        assert HasOffset(addr, cyl, base - b);
      }
    }
  }

  lemma NothingListed(map0: seq<bool>, fmin: int, fmax: int, addr: seq<int>, base: int)
    requires base >= fmax
    ensures Listed([], map0, fmin, fmax, addr, base, 0)
  {
  }

  lemma AllListed(l: seq<int>, map0: seq<bool>, fmin: int, fmax: int, addr: seq<int>, base: int)
    requires base <= 0 <= fmin && Listed(l, map0, fmin, fmax, addr, base, 0)
    ensures Distinct(l) && forall b :: b in l <==> Unused(map0, fmin, fmax, b)
  {
  }

  function RoundUp(x: nat, y: nat): nat
    requires y > 0
  {
    (x + (y - 1)) / y * y
  }

  lemma RoundUpBound(x: nat, y: nat)
    requires y > 0
    ensures RoundUp(x, y) >= x
  {
    var q := (x + (y - 1)) / y;
    assert x + (y - 1) == q * y + (x + (y - 1)) % y;
  }

  lemma WholeBatch(n: nat, f: seq<int>, got0: seq<int>)
    requires 1 <= n <= |f|
    ensures got0 + Batch(n, f)[..n - 1] + [f[0]] == got0 + Batch(n, f) && f[0] in Batch(n, f)
    ensures got0 == [] ==> got0 + Batch(n, f) == Batch(n, f)
  {
    assert Batch(n, f)[n - 1] == f[0];
  }

  /** What is left of the list once a batch is done. */
  lemma RestAfter(list: seq<int>, got0: seq<int>, n: nat, f: seq<int>, disk: map<int, Block>, rest: seq<int>)
    requires list == got0 + rest && Lists(n, f, disk, rest) && f[0] != 0
    ensures 1 <= n <= |rest| && n <= |f| && f[0] in disk && list == got0 + Batch(n, f) + rest[n..]
    ensures Lists(BatchCount(disk[f[0]]), BatchNumbers(disk[f[0]]), disk, rest[n..])
  {
    RestIsListed(n, f, disk, rest);
    hide Lists;
    StartsWithBatch(n, f, disk, rest);
    assert got0 + (Batch(n, f) + rest[n..]) == got0 + Batch(n, f) + rest[n..];
  }

  lemma OnList(list: seq<int>, map0: seq<bool>, fmin: int, fmax: int, got0: seq<int>, rest: seq<int>,
               n: nat, f: seq<int>, disk: map<int, Block>, ap: nat)
    requires Sound(list, map0, fmin, fmax) && list == got0 + rest && Lists(n, f, disk, rest)
    requires ap < n && (ap == 0 ==> f[0] != 0)
    ensures Unused(map0, fmin, fmax, f[ap]) && f[ap] !in got0 + Batch(n, f)[..n - 1 - ap]
  {
    hide Unused;
    var before := got0 + Batch(n, f)[..n - 1 - ap];
    assert list[|before|] == f[ap];
    assert forall k | 0 <= k < |before| :: before[k] == list[k];
  }

  lemma BatchNext(n: nat, f: seq<int>, got0: seq<int>, ap: nat)
    requires ap < n <= |f|
    ensures got0 + Batch(n, f)[..n - 1 - ap] + [f[ap]] == got0 + Batch(n, f)[..n - ap]
    ensures Batch(n, f)[..n] == Batch(n, f)
  {
    assert Batch(n, f)[n - 1 - ap] == f[ap];
  }

  /** The buffer is marked with the first link of the list, which will therefore not be read. */
  predicate Stale(n0: int, f0: seq<int>, bno: int)
    requires |f0| == NICFREE
  {
    n0 != 0 && f0[0] != 0 && bno == f0[0]
  }

  /** A batch met a second time has nothing new in it. */
  lemma SecondTime(map0: seq<bool>, map1: seq<bool>, fmin: int, fmax: int, n: nat, f: seq<int>)
    requires 1 <= n <= |f|
    ensures Marked(map0, map1, fmin, fmax, Batch(n, f) + Batch(n, f)[..n - 1]) ==> n == 1
    ensures f[0] in Batch(n, f)
  {
    var got := Batch(n, f) + Batch(n, f)[..n - 1];
    assert Batch(n, f)[n - 1] == f[0];
    assert n > 1 ==> got[0] == got[n];
  }

  ghost predicate HasSound(n0: int, f0: seq<int>, disk: map<int, Block>, map0: seq<bool>, fmin: int, fmax: int) {
    exists l :: Lists(n0, f0, disk, l) && Sound(l, map0, fmin, fmax)
  }

  lemma PickList(n0: int, f0: seq<int>, disk: map<int, Block>, map0: seq<bool>, fmin: int, fmax: int, bno: int)
    returns (right: bool, l: seq<int>)
    requires |f0| == NICFREE
    ensures right ==> Lists(n0, f0, disk, l) && Sound(l, map0, fmin, fmax)
    ensures right <==> HasSound(n0, f0, disk, map0, fmin, fmax) && !Stale(n0, f0, bno)
  {
    hide Lists, Sound;
    right := HasSound(n0, f0, disk, map0, fmin, fmax) && !Stale(n0, f0, bno);
    l := [];
    if right {
      l :| Lists(n0, f0, disk, l) && Sound(l, map0, fmin, fmax);
    }
  }

  /** What the walk found, together with the count of blocks, decides whether the list is right. */
  lemma PassedIffGood(n0: int, f0: seq<int>, disk: map<int, Block>, map0: seq<bool>, fmin: nat, fmax: nat,
                      got: seq<int>, stale: bool, fixfree: bool, nBlks: nat)
    requires fmin <= fmax == |map0| && nBlks == CountUsed(map0, fmin, fmax) && Sound(got, map0, fmin, fmax)
    requires !fixfree ==> (n0 == 0 && got == []) || Lists(n0, f0, disk, got)
    requires HasSound(n0, f0, disk, map0, fmin, fmax) && !stale ==> !fixfree
    requires n0 == 0 ==> !fixfree && got == []
    requires stale ==> fixfree
    ensures !fixfree && nBlks + |got| == fmax - fmin <==> GoodList(n0, f0, disk, map0, fmin, fmax) && !stale
  {
    hide Lists, CountUsed, Unused;
    Counted(got, map0, fmin, fmax);
    if !stale && GoodList(n0, f0, disk, map0, fmin, fmax) {
      var l :| Complete(l, map0, fmin, fmax) && if n0 == 0 then l == [] else Lists(n0, f0, disk, l);
      assert Sound(l, map0, fmin, fmax);
      if n0 != 0 {
        ListsOne(n0, f0, disk, l, got);
      }
    }
    if !fixfree && nBlks + |got| == fmax - fmin {
      NotEmptyBatch(f0, disk, got);
      GoodListIs(n0, f0, disk, map0, fmin, fmax, got);
    }
  }

  lemma NotEmptyBatch(f0: seq<int>, disk: map<int, Block>, got: seq<int>)
    ensures !Lists(0, f0, disk, got)
  {
  }

  lemma MarkedSound(map0: seq<bool>, map1: seq<bool>, fmin: int, fmax: int, got: seq<int>)
    requires Marked(map0, map1, fmin, fmax, got)
    ensures Sound(got, map0, fmin, fmax) && |map0| == fmax
  {
  }

  /** The unused ones among the first i blocks of a cylinder, the last one first. */
  ghost function Cylinder(map0: seq<bool>, fmin: int, fmax: int, addr: seq<int>, base: int, i: nat): seq<int>
    requires i <= |addr|
  {
    if i == 0 then []
    else (if Unused(map0, fmin, fmax, base - addr[i - 1]) then [base - addr[i - 1]] else [])
         + Cylinder(map0, fmin, fmax, addr, base, i - 1)
  }

  /** The list of the cylinders from base up to top: the lowest cylinder comes off it first. */
  ghost function Built(map0: seq<bool>, fmin: int, fmax: int, addr: seq<int>, cyl: nat, top: int, base: int): seq<int>
    requires 0 < cyl <= |addr|
    decreases top - base
  {
    if base >= top then []
    else Cylinder(map0, fmin, fmax, addr, base + cyl, cyl) + Built(map0, fmin, fmax, addr, cyl, top, base + cyl)
  }

  /** A complete list in the order of rotation: it is built from an order of the cylinder's blocks that is
      step apart. */
  ghost predicate Interleaved(l: seq<int>, map0: seq<bool>, fmin: int, fmax: nat, step: nat, cyl: nat) {
    exists addr: seq<int> :: IsBuilt(l, map0, fmin, fmax, step, cyl, addr)
  }

  ghost predicate IsBuilt(l: seq<int>, map0: seq<bool>, fmin: int, fmax: nat, step: nat, cyl: nat, addr: seq<int>) {
    && 0 < cyl <= |addr| && Spaced(addr, cyl) && Stepped(addr, step, cyl, cyl)
    && l == Built(map0, fmin, fmax, addr, cyl, RoundUp(fmax, cyl), 0)
  }

  lemma CylinderNext(map0: seq<bool>, fmin: int, fmax: int, addr: seq<int>, base: int, i: nat)
    requires i < |addr|
    ensures Cylinder(map0, fmin, fmax, addr, base, i + 1) ==
            (if Unused(map0, fmin, fmax, base - addr[i]) then [base - addr[i]] else [])
            + Cylinder(map0, fmin, fmax, addr, base, i)
  {
  }

  lemma BuiltNext(l: seq<int>, map0: seq<bool>, fmin: int, fmax: int, addr: seq<int>, cyl: nat, top: int, base: int,
                  i: nat, blk: int)
    requires i < cyl <= |addr| && blk == base - addr[i]
    requires l == Cylinder(map0, fmin, fmax, addr, base, i) + Built(map0, fmin, fmax, addr, cyl, top, base)
    ensures Unused(map0, fmin, fmax, blk) ==>
              [blk] + l == Cylinder(map0, fmin, fmax, addr, base, i + 1) + Built(map0, fmin, fmax, addr, cyl, top, base)
    ensures !Unused(map0, fmin, fmax, blk) ==>
              l == Cylinder(map0, fmin, fmax, addr, base, i + 1) + Built(map0, fmin, fmax, addr, cyl, top, base)
  {
    hide Unused, Built, Cylinder;
    CylinderNext(map0, fmin, fmax, addr, base, i);
  }

  lemma BuiltCylinder(map0: seq<bool>, fmin: int, fmax: int, addr: seq<int>, cyl: nat, top: int, base: int)
    requires 0 < cyl <= |addr|
    requires base <= top
    ensures Built(map0, fmin, fmax, addr, cyl, top, base - cyl)
         == Cylinder(map0, fmin, fmax, addr, base, cyl) + Built(map0, fmin, fmax, addr, cyl, top, base)
  {
    hide Cylinder;
  }

  /** The scan after i blocks of the cylinder that ends before base: what is listed, and in which order. */
  ghost predicate Going(l: seq<int>, map0: seq<bool>, fmin: int, fmax: int, addr: seq<int>, cyl: nat, top: int, base: int,
                        i: nat)
  {
    && i <= cyl && 0 < cyl <= |addr| && base <= top && Spaced(addr, cyl)
    && Listed(l, map0, fmin, fmax, addr, base, i)
    && l == Cylinder(map0, fmin, fmax, addr, base, i) + Built(map0, fmin, fmax, addr, cyl, top, base)
  }

  lemma GoStart(map0: seq<bool>, fmin: int, fmax: int, addr: seq<int>, cyl: nat, top: int)
    requires 0 < cyl <= |addr| && Spaced(addr, cyl) && top >= fmax
    ensures Going([], map0, fmin, fmax, addr, cyl, top, top, 0)
  {
    NothingListed(map0, fmin, fmax, addr, top);
  }

  lemma GoAdd(l: seq<int>, map0: seq<bool>, fmin: int, fmax: int, addr: seq<int>, cyl: nat, top: int, base: int, i: nat)
    requires Going(l, map0, fmin, fmax, addr, cyl, top, base, i) && i < cyl && Unused(map0, fmin, fmax, base - addr[i])
    ensures base - addr[i] !in l && Going([base - addr[i]] + l, map0, fmin, fmax, addr, cyl, top, base, i + 1)
  {
    hide Unused, Built, Cylinder, Listed, Spaced;
    BuiltNext(l, map0, fmin, fmax, addr, cyl, top, base, i, base - addr[i]);
    VisitAdd(l, map0, fmin, fmax, addr, base, i, cyl);
  }

  lemma GoSkip(l: seq<int>, map0: seq<bool>, fmin: int, fmax: int, addr: seq<int>, cyl: nat, top: int, base: int, i: nat)
    requires Going(l, map0, fmin, fmax, addr, cyl, top, base, i) && i < cyl && !Unused(map0, fmin, fmax, base - addr[i])
    ensures Going(l, map0, fmin, fmax, addr, cyl, top, base, i + 1)
  {
    hide Unused, Built, Cylinder, Listed, Spaced;
    BuiltNext(l, map0, fmin, fmax, addr, cyl, top, base, i, base - addr[i]);
    VisitSkip(l, map0, fmin, fmax, addr, base, i);
  }

  lemma GoOn(l: seq<int>, map0: seq<bool>, fmin: int, fmax: int, addr: seq<int>, cyl: nat, top: int, base: int)
    requires Going(l, map0, fmin, fmax, addr, cyl, top, base, cyl)
    ensures Going(l, map0, fmin, fmax, addr, cyl, top, base - cyl, 0)
  {
    BuiltCylinder(map0, fmin, fmax, addr, cyl, top, base);
    CylinderDone(l, map0, fmin, fmax, addr, base, cyl);
    assert Cylinder(map0, fmin, fmax, addr, base - cyl, 0) == [];
    hide Built, Listed, Spaced, Unused;
  }

  lemma GoEnd(l: seq<int>, map0: seq<bool>, fmin: nat, fmax: nat, addr: seq<int>, step: nat, cyl: nat)
    requires cyl > 0 && Going(l, map0, fmin, fmax, addr, cyl, RoundUp(fmax, cyl), 0, 0) && Stepped(addr, step, cyl, cyl)
    ensures Complete(l, map0, fmin, fmax) && Interleaved(l, map0, fmin, fmax, step, cyl)
  {
    AllListed(l, map0, fmin, fmax, addr, 0);
    assert Cylinder(map0, fmin, fmax, addr, 0, 0) == [];
    hide Built, Listed, Spaced, Unused, Stepped, RoundUp;
    IsComplete(l, map0, fmin, fmax);
    IsInterleaved(l, map0, fmin, fmax, step, cyl, addr);
  }

  lemma GoingBounds(l: seq<int>, map0: seq<bool>, fmin: int, fmax: int, addr: seq<int>, cyl: nat, top: int, base: int,
                    i: nat)
    requires Going(l, map0, fmin, fmax, addr, cyl, top, base, i)
    ensures 0 < cyl <= |addr| && i <= cyl
  {
  }

  lemma WholeCylinders(x: nat, cyl: nat)
    requires cyl > 0
    ensures RoundUp(x, cyl) % cyl == 0
  {
    Remainder((x + (cyl - 1)) / cyl, 0, cyl);
  }

  lemma OneCylinderLess(base: nat, cyl: nat)
    requires 0 < cyl && base > 0 && base % cyl == 0
    ensures base >= cyl && (base - cyl) % cyl == 0
  {
    var q := base / cyl;
    assert base == q * cyl + 0;
    assert q >= 1;
    AtLeastOnce(q, cyl);
    assert base - cyl == (q - 1) * cyl + 0;
    Remainder(q - 1, 0, cyl);
  }

  class Checker {
    const fmin: nat
    const fmax: nat
    const blkmap: array<bool>
    const freemap: array<bool>
    /** The volume, and the buffer for one free-list block with the number of the block it holds. */
    var disk: map<int, Block>
    var bno: int
    var nfree: int
    const free: array<int>
    /** The superblock. */
    var sNfree: int
    const sFree: array<int>
    var sTfree: nat
    var sStep: int
    var sCyl: int
    /** Counters of phase 5. */
    var nFree: nat
    var badblk: nat
    var dupblk: nat
    var fixfree: bool

    /** A checker that has read the superblock of a volume and has the block map of its files. */
    constructor (fmin: nat, fmax: nat, blkmap: array<bool>, disk: map<int, Block>,
                 nfree: int, batch: seq<int>, tfree: nat, step: int, cyl: int)
      requires 0 < fmin < fmax == blkmap.Length && |batch| == NICFREE
      ensures Shape() && this.fmin == fmin && this.fmax == fmax && this.blkmap == blkmap && this.disk == disk
      ensures sNfree == nfree && sFree[..] == batch && sTfree == tfree && sStep == step && sCyl == cyl
      ensures !fixfree && bno == -1 && fresh(freemap) && fresh(free) && fresh(sFree)
    {
      this.fmin, this.fmax, this.blkmap, this.disk := fmin, fmax, blkmap, disk;
      freemap := new bool[fmax];
      free := new int[NICFREE];
      sFree := new int[NICFREE](k requires 0 <= k < NICFREE => batch[k]);
      bno, this.nfree := -1, 0;
      sNfree, sTfree, sStep, sCyl := nfree, tfree, step, cyl;
      nFree, badblk, dupblk, fixfree := 0, 0, 0, false;
    }

    ghost predicate Shape() {
      && 0 < fmin < fmax == blkmap.Length == freemap.Length && free.Length == sFree.Length == NICFREE
      && free != sFree && blkmap != freemap
    }

    // ---- Phase 5

    /** One block of the free list; got is what the list has had so far. */
    method Pass5(blk: int, ghost got: seq<int>) returns (r: Action, ghost more: seq<int>)
      requires Shape() && Marked(blkmap[..], freemap[..], fmin, fmax, got) && nFree == |got|
      requires badblk < MAXBAD && dupblk < DUPTBLSIZE
      modifies this`fixfree, this`badblk, this`dupblk, this`nFree, freemap
      ensures Marked(blkmap[..], freemap[..], fmin, fmax, more) && nFree == |more|
      ensures r != Stop ==> badblk < MAXBAD && dupblk < DUPTBLSIZE
      ensures if Unused(blkmap[..], fmin, fmax, blk) && blk !in got
              then r == KeepOn && more == got + [blk] && fixfree == old(fixfree)
                   && badblk == old(badblk) && dupblk == old(dupblk)
              else more == got && fixfree && badblk + dupblk == old(badblk + dupblk) + 1
      ensures badblk == old(badblk) + if InRange(fmin, fmax, blk) then 0 else 1
      ensures r == if badblk >= MAXBAD || dupblk >= DUPTBLSIZE then Stop else if InRange(fmin, fmax, blk) then KeepOn else Skip
    {
      hide Marked;
      more := got;
      if blk < fmin || blk >= fmax {
        fixfree := true;
        badblk := badblk + 1;
        return if badblk >= MAXBAD then Stop else Skip, more;
      }
      ghost var map1 := freemap[..];
      MarkedTwice(blkmap[..], map1, fmin, fmax, got, blk);
      if freemap[blk] {
        fixfree := true;
        dupblk := dupblk + 1;
        if dupblk >= DUPTBLSIZE {
          return Stop, more;
        }
      } else {
        nFree := nFree + 1;
        MarkOne(blkmap[..], map1, fmin, fmax, got, blk);
        freemap[blk] := true;
        assert freemap[..] == map1[blk := true];
        more := got + [blk];
      }
      r := KeepOn;
    }

    /** Reads a block of the list into the buffer, unless the buffer is marked as holding it. */
    method GetBlk(blk: int) returns (ok: bool)
      requires Shape()
      modifies this`bno, this`nfree, free
      ensures ok <==> old(bno) == blk || blk in disk
      ensures ok <==> old(bno) == blk || blk in disk
      ensures bno == if ok then blk else -1
      ensures ok && old(bno) != blk ==> nfree == BatchCount(disk[blk]) && free[..] == BatchNumbers(disk[blk])
      ensures old(bno) == blk ==> nfree == old(nfree) && free[..] == old(free[..])
    {
      ok := true;
      if bno != blk {
        if blk in disk {
          bno := blk;
          var b := disk[blk];
          nfree := BatchCount(b);
          var k := 0;
          while k < NICFREE
            modifies free
            invariant 0 <= k <= NICFREE && forall j | 0 <= j < k :: free[j] == BatchNumbers(b)[j]
          {
            free[k] := b[k + 1];
            k := k + 1;
          }
        } else {
          bno := -1;
          ok := false;
        }
      }
    }

    /** The blocks of the batch in the buffer but for its first number. When the list is right, there is
        nothing wrong with them. */
    method ScanBatch(ghost got0: seq<int>, ghost right: bool, ghost list: seq<int>, ghost rest: seq<int>)
      returns (r: Action, ghost got: seq<int>)
      requires Shape() && Marked(blkmap[..], freemap[..], fmin, fmax, got0) && nFree == |got0|
      requires badblk < MAXBAD && dupblk < DUPTBLSIZE && 1 <= nfree <= NICFREE
      requires right ==> Sound(list, blkmap[..], fmin, fmax) && list == got0 + rest
                         && Lists(nfree, free[..], disk, rest) && !fixfree
      modifies this`fixfree, this`badblk, this`dupblk, this`nFree, freemap
      ensures Marked(blkmap[..], freemap[..], fmin, fmax, got) && nFree == |got|
      ensures r != Stop ==> badblk < MAXBAD && dupblk < DUPTBLSIZE
      ensures |got| + badblk + dupblk >= |got0| + old(badblk + dupblk)
      ensures !fixfree ==> r != Stop && !old(fixfree) && got == got0 + Batch(nfree, free[..])[..nfree - 1]
      ensures right ==> !fixfree
    {
      hide Lists, Marked, Unused, Batch, Sound;
      got, r := got0, KeepOn;
      ghost var map0, f := blkmap[..], free[..];
      var ap := nfree - 1;
      while ap > 0
        modifies this`fixfree, this`badblk, this`dupblk, this`nFree, freemap
        invariant 0 <= ap < nfree
        invariant Marked(map0, freemap[..], fmin, fmax, got) && nFree == |got|
        invariant badblk < MAXBAD && dupblk < DUPTBLSIZE
        invariant |got| + badblk + dupblk >= |got0| + old(badblk + dupblk)
        invariant !fixfree ==> !old(fixfree) && got == got0 + Batch(nfree, f)[..nfree - 1 - ap]
        invariant right ==> !fixfree
        invariant r != Stop
      {
        if right {
          OnList(list, map0, fmin, fmax, got0, rest, nfree, f, disk, ap);
        }
        BatchNext(nfree, f, got0, ap);
        r, got := Pass5(free[ap], got);
        if r == Stop {
          return;
        }
        ap := ap - 1;
      }
    }

    /** The walk along the list, before the batch in the buffer is looked at. In the stale case the second
        turn finds the first batch again. */
    ghost predicate Walking(n0: int, f0: seq<int>, bno0: int, first: bool, right: bool, list: seq<int>, rest: seq<int>,
                            got: seq<int>)
      reads this, blkmap, free, freemap
      requires Shape() && |f0| == NICFREE
    {
      && Marked(blkmap[..], freemap[..], fmin, fmax, got) && nFree == |got| <= fmax - fmin
      && badblk < MAXBAD && dupblk < DUPTBLSIZE
      && (!fixfree && !Stale(n0, f0, bno0) ==> Continues(n0, f0, nfree, free[..], disk, got))
      && (first ==> got == [])
      && (first || Stale(n0, f0, bno0) ==> nfree == n0 && free[..] == f0 && bno == bno0)
      && (!first && !fixfree ==> bno in got)
      && (!first && !fixfree && Stale(n0, f0, bno0) ==> 1 <= n0 <= NICFREE && got == Batch(n0, f0))
      && (right ==> !fixfree && list == got + rest && Lists(nfree, free[..], disk, rest))
    }

    /** The walk at the first link of the batch in the buffer, the rest of which has been scanned. */
    ghost predicate AtLink(n0: int, f0: seq<int>, bno0: int, first: bool, right: bool, list: seq<int>, rest: seq<int>,
                           got0: seq<int>, got: seq<int>)
      reads this, blkmap, free, freemap
      requires Shape() && |f0| == NICFREE
    {
      && 1 <= nfree <= NICFREE && Marked(blkmap[..], freemap[..], fmin, fmax, got) && nFree == |got|
      && badblk < MAXBAD && dupblk < DUPTBLSIZE
      && (!fixfree ==> got == got0 + Batch(nfree, free[..])[..nfree - 1])
      && (!fixfree && !Stale(n0, f0, bno0) ==> Continues(n0, f0, nfree, free[..], disk, got0))
      && (first ==> got0 == [])
      && (first || Stale(n0, f0, bno0) ==> nfree == n0 && free[..] == f0 && bno == bno0)
      && (!first && !fixfree ==> bno in got0)
      && (!first && !fixfree && Stale(n0, f0, bno0) ==> got0 == Batch(n0, f0))
      && (right ==> !fixfree && list == got0 + rest && Lists(nfree, free[..], disk, rest))
    }

    /** Reads the batch the first link leads to, unless the buffer is marked with it. */
    method ReadNext(ghost n0: int, ghost f0: seq<int>, ghost bno0: int, ghost right: bool, ghost list: seq<int>,
                    ghost rest: seq<int>, ghost got: seq<int>)
      requires Shape() && |f0| == NICFREE && free[0] in disk && (!fixfree ==> free[0] in got)
      requires Marked(blkmap[..], freemap[..], fmin, fmax, got) && nFree == |got| <= fmax - fmin
      requires badblk < MAXBAD && dupblk < DUPTBLSIZE
      requires !fixfree && !Stale(n0, f0, bno0) ==>
                 bno != free[0]
                 && Continues(n0, f0, BatchCount(disk[free[0]]), BatchNumbers(disk[free[0]]), disk, got)
      requires Stale(n0, f0, bno0) ==> nfree == n0 && free[..] == f0 && bno == bno0
      requires !fixfree && Stale(n0, f0, bno0) ==> 1 <= n0 <= NICFREE && got == Batch(n0, f0)
      requires right ==> !fixfree && !Stale(n0, f0, bno0) && list == got + rest
                         && Lists(BatchCount(disk[free[0]]), BatchNumbers(disk[free[0]]), disk, rest)
      modifies this`bno, this`nfree, free
      ensures Walking(n0, f0, bno0, false, right, list, rest, got)
    {
      hide Lists, Marked, Continues, Batch, BatchCount, BatchNumbers;
      var ok := GetBlk(free[0]);
    }

    /** Counts the first link. */
    method CountLink(ghost n0: int, ghost f0: seq<int>, ghost bno0: int, ghost first: bool, ghost right: bool,
                     ghost list: seq<int>, ghost rest: seq<int>, ghost got0: seq<int>, ghost got1: seq<int>)
      returns (r: Action, ghost got: seq<int>)
      requires Shape() && |f0| == NICFREE && AtLink(n0, f0, bno0, first, right, list, rest, got0, got1) && free[0] != 0
      requires right ==> Sound(list, blkmap[..], fmin, fmax) && !Stale(n0, f0, bno0)
      modifies this`fixfree, this`badblk, this`dupblk, this`nFree, freemap
      ensures Marked(blkmap[..], freemap[..], fmin, fmax, got) && nFree == |got| <= fmax - fmin
      ensures r != KeepOn ==> fixfree
      ensures r == KeepOn ==> InRange(fmin, fmax, free[0]) && badblk < MAXBAD && dupblk < DUPTBLSIZE
      ensures r == KeepOn ==> |got| + badblk + dupblk > |got1| + old(badblk + dupblk)
      ensures !fixfree ==> !old(fixfree) && got == got0 + Batch(nfree, free[..]) && free[0] in got && free[0] !in got0
      ensures !fixfree && Stale(n0, f0, bno0) ==> first
      ensures right ==> !fixfree
    {
      hide Lists, Marked, Continues, Unused, Batch, Sound;
      ghost var n, f, map0 := nfree, free[..], blkmap[..];
      if right {
        OnList(list, map0, fmin, fmax, got0, rest, n, f, disk, 0);
      }
      WholeBatch(n, f, got0);
      if Stale(n0, f0, bno0) {
        SecondTime(map0, freemap[..], fmin, fmax, n, f);
      }
      r, got := Pass5(free[0], got1);
      MarkedCount(map0, freemap[..], fmin, fmax, got);
      assert !fixfree ==> free[0] !in got1 && got1 == got0 + Batch(n, f)[..n - 1];
    }

    /** Counts the first link and reads the batch it leads to. */
    method TakeLink(ghost n0: int, ghost f0: seq<int>, ghost bno0: int, ghost first: bool, ghost right: bool,
                    ghost list: seq<int>, ghost rest: seq<int>, ghost got0: seq<int>, ghost got1: seq<int>)
      returns (done: bool, ghost got: seq<int>, ghost more: seq<int>)
      requires Shape() && |f0| == NICFREE && AtLink(n0, f0, bno0, first, right, list, rest, got0, got1)
      requires free[0] != 0 && forall b | InRange(fmin, fmax, b) :: b in disk
      requires right ==> Sound(list, blkmap[..], fmin, fmax) && !Stale(n0, f0, bno0)
      modifies this`bno, this`nfree, this`fixfree, this`badblk, this`dupblk, this`nFree, free, freemap
      ensures !done ==> Walking(n0, f0, bno0, false, right, list, more, got)
      ensures !done ==> |got| + badblk + dupblk > |got1| + old(badblk + dupblk)
      ensures !done ==> |got| <= fmax - fmin && badblk < MAXBAD && dupblk < DUPTBLSIZE
      ensures Marked(blkmap[..], freemap[..], fmin, fmax, got) && nFree == |got|
      ensures done ==> fixfree
      ensures right ==> !fixfree
    {
      hide Lists, Marked, Continues, Unused, Batch, Sound, BatchCount, BatchNumbers, Walking;
      more := rest;
      ghost var n, f, stale := nfree, free[..], Stale(n0, f0, bno0);
      var r;
      r, got := CountLink(n0, f0, bno0, first, right, list, rest, got0, got1);
      if r != KeepOn {
        return true, got, more;
      }
      if !fixfree && !stale {
        ContinuesBatch(n0, f0, n, f, disk, got0);
        if right {
          RestAfter(list, got0, n, f, disk, rest);
          more := rest[n..];
        }
      }
      if stale {
        WholeBatch(n, f, []);
      }
      ReadNext(n0, f0, bno0, right, list, more, got);
      done := false;
    }

    /** One turn of the walk: the batch in the buffer, its first link and the next batch. */
    method NextBatch(ghost n0: int, ghost f0: seq<int>, ghost bno0: int, ghost first: bool, ghost right: bool,
                     ghost list: seq<int>, ghost rest: seq<int>, ghost got0: seq<int>)
      returns (done: bool, ghost got: seq<int>, ghost more: seq<int>)
      requires Shape() && |f0| == NICFREE && n0 != 0 && Walking(n0, f0, bno0, first, right, list, rest, got0)
      requires forall b | InRange(fmin, fmax, b) :: b in disk
      requires right ==> Sound(list, blkmap[..], fmin, fmax) && !Stale(n0, f0, bno0)
      modifies this`bno, this`nfree, this`fixfree, this`badblk, this`dupblk, this`nFree, free, freemap
      ensures !done ==> Walking(n0, f0, bno0, false, right, list, more, got)
      ensures !done ==> |got| + badblk + dupblk > |got0| + old(badblk + dupblk)
      ensures !done ==> |got| <= fmax - fmin && badblk < MAXBAD && dupblk < DUPTBLSIZE
      ensures Marked(blkmap[..], freemap[..], fmin, fmax, got) && nFree == |got|
      ensures done && !fixfree ==> Lists(n0, f0, disk, got) && !Stale(n0, f0, bno0)
      ensures right ==> !fixfree
    {
      hide Lists, Marked, Continues, Unused, Batch, Sound, BatchCount, BatchNumbers;
      done, got, more := true, got0, rest;
      if right {
        BatchSize(nfree, free[..], disk, rest);
      }
      if nfree <= 0 || nfree > NICFREE {
        fixfree := true;
        return;
      }
      ghost var n, f := nfree, free[..];
      var r;
      r, got := ScanBatch(got0, right, list, rest);
      if r == Stop {
        return;
      }
      if free[0] == 0 {
        if !fixfree {
          ContinuesEnd(n0, f0, n, f, disk, got0);
        }
        return;
      }
      done, got, more := TakeLink(n0, f0, bno0, first, right, list, rest, got0, got);
    }

    /** Follows the free list from the batch in the buffer; got is what it found on it. */
    method FreeChk(ghost n0: int, ghost f0: seq<int>, ghost right: bool, ghost list: seq<int>)
      returns (ghost got: seq<int>)
      requires Shape() && nfree == n0 && free[..] == f0
      requires Marked(blkmap[..], freemap[..], fmin, fmax, []) && nFree == badblk == dupblk == 0 && !fixfree
      requires forall b | InRange(fmin, fmax, b) :: b in disk
      requires right ==> Lists(n0, f0, disk, list) && Sound(list, blkmap[..], fmin, fmax) && !Stale(n0, f0, bno)
      modifies this`bno, this`nfree, this`fixfree, this`badblk, this`dupblk, this`nFree, free, freemap
      ensures Marked(blkmap[..], freemap[..], fmin, fmax, got) && nFree == |got|
      ensures !fixfree ==> (n0 == 0 && got == []) || Lists(n0, f0, disk, got)
      ensures n0 == 0 ==> !fixfree && got == []
      ensures right ==> !fixfree
      ensures Stale(n0, f0, old(bno)) ==> fixfree
    {
      hide Lists, Marked, Continues, Unused, Batch, Sound;
      got := [];
      if nfree == 0 {
        return;
      }
      ContinuesStart(n0, f0, disk);
      ghost var bno0, rest, first := bno, list, true;
      assert got + rest == rest;
      assert Walking(n0, f0, bno0, true, right, list, rest, got);
      hide Walking;
      var done := false;
      while !done
        modifies this`bno, this`nfree, this`fixfree, this`badblk, this`dupblk, this`nFree, free, freemap
        invariant !done ==> Walking(n0, f0, bno0, first, right, list, rest, got)
        invariant !done ==> |got| <= fmax - fmin && badblk < MAXBAD && dupblk < DUPTBLSIZE
        invariant Marked(blkmap[..], freemap[..], fmin, fmax, got) && nFree == |got|
        invariant done && !fixfree ==> Lists(n0, f0, disk, got) && !Stale(n0, f0, bno0)
        invariant right ==> !fixfree
        decreases if done then 0 else 1, fmax - fmin - |got| + MAXBAD - badblk + DUPTBLSIZE - dupblk
      {
        done, got, rest := NextBatch(n0, f0, bno0, first, right, list, rest, got);
        first := false;
      }
    }

    /** Phase 5. It finds nothing wrong exactly when the free list is right and the buffer is not marked with
        its first link; nBlks is phase 1's count. */
    method Phase5(nBlks: nat) returns (wrongCount: bool, ghost got: seq<int>)
      requires Shape() && !fixfree && nBlks == CountUsed(blkmap[..], fmin, fmax)
      requires forall b | InRange(fmin, fmax, b) :: b in disk
      modifies this`bno, this`nfree, this`fixfree, this`badblk, this`dupblk, this`nFree, free, freemap
      ensures !fixfree <==> GoodList(sNfree, sFree[..], disk, blkmap[..], fmin, fmax)
                            && !(sNfree != 0 && sFree[0] != 0 && old(bno) == sFree[0])
      ensures !fixfree ==> nBlks + nFree == fmax - fmin && Complete(got, blkmap[..], fmin, fmax) && nFree == |got|
      ensures wrongCount <==> !fixfree && nFree != sTfree
    {
      hide Lists, Marked, CountUsed, GoodList, Sound, Complete, Unused, HasSound;
      ghost var map0 := blkmap[..];
      var k := 0;
      while k < fmax
        modifies freemap
        invariant 0 <= k <= fmax && forall j | 0 <= j < k :: freemap[j] == map0[j]
      {
        freemap[k] := blkmap[k];
        k := k + 1;
      }
      assert freemap[..] == map0;
      MarkedStart(map0, freemap[..], fmin, fmax);
      badblk, dupblk := 0, 0;
      // n_free was cleared when the check of this volume began
      nFree := 0;
      nfree := sNfree;
      CopyBatch(sFree, free);
      ghost var right, list := PickList(sNfree, sFree[..], disk, map0, fmin, fmax, bno);
      got := FreeChk(sNfree, sFree[..], right, list);
      wrongCount := false;
      MarkedSound(map0, freemap[..], fmin, fmax, got);
      Counted(got, map0, fmin, fmax);
      PassedIffGood(sNfree, sFree[..], disk, map0, fmin, fmax, got, Stale(sNfree, sFree[..], old(bno)), fixfree, nBlks);
      if !fixfree {
        if nBlks + nFree != fmax - fmin {
          fixfree := true;
        } else if nFree != sTfree {
          wrongCount := true;
        }
      }
    }

    /** Puts block blk at the front of the list being built. */
    method AddFree(blk: int, ghost l: seq<int>)
      requires Shape() && Lists(nfree, free[..], disk, l) && blk !in l && blk != 0
      modifies this`disk, this`bno, this`nfree, this`sTfree, free
      ensures Lists(nfree, free[..], disk, [blk] + l) && sTfree == old(sTfree) + 1
      ensures old(nfree) < NICFREE ==> nfree == old(nfree) + 1 && free[..] == old(free[..])[old(nfree) := blk]
                                       && disk == old(disk) && bno == old(bno)
      ensures old(nfree) >= NICFREE ==> nfree == 1 && (forall k | 0 <= k < NICFREE :: free[k] == if k == 0 then blk else 0)
                                        && disk == old(disk)[blk := BatchBlock(old(nfree), old(free[..]))] && bno == blk
      ensures old(disk).Keys <= disk.Keys
      ensures forall b | b != blk :: (b in old(disk) <==> b in disk) && (b in disk ==> disk[b] == old(disk)[b])
    {
      hide Lists;
      BatchSize(nfree, free[..], disk, l);
      sTfree := sTfree + 1;
      ghost var f, n, d := free[..], nfree, disk;
      if nfree >= NICFREE {
        bno := blk;
        disk := disk[blk := BatchBlock(nfree, free[..])];
        nfree := 0;
        var k := 0;
        while k < NICFREE
          modifies free
          invariant 0 <= k <= NICFREE && forall j | 0 <= j < k :: free[j] == 0
        {
          free[k] := 0;
          k := k + 1;
        }
      }
      free[nfree] := blk;
      nfree := nfree + 1;
      if n < NICFREE {
        Push(n, f, d, l, blk);
        assert free[..] == f[n := blk];
      } else {
        Spill(n, f, free[..], d, l, blk);
      }
    }

    /** One cylinder: its unused blocks go to the front of the list. */
    method PutCylinder(addr: array<int>, cyl: nat, base: int, ghost top: int, ghost was: seq<int>) returns (ghost l: seq<int>)
      requires Shape() && addr.Length == MAXCYL && addr != free && Lists(nfree, free[..], disk, was)
      requires Going(was, blkmap[..], fmin, fmax, addr[..], cyl, top, base, 0)
      modifies this`disk, this`bno, this`nfree, this`sTfree, free
      ensures Lists(nfree, free[..], disk, l) && Going(l, blkmap[..], fmin, fmax, addr[..], cyl, top, base, cyl)
      ensures sTfree == old(sTfree) + |l| - |was|
      ensures exists more :: l == more + was && SameElsewhere(old(disk), disk, more)
    {
      hide Lists, Going, SameElsewhere, Unused;
      ghost var offs, map0, d0 := addr[..], blkmap[..], disk;
      GoingBounds(was, map0, fmin, fmax, offs, cyl, top, base, 0);
      l := was;
      ghost var more: seq<int> := [];
      Unchanged(disk);
      var i := 0;
      while i < cyl
        invariant 0 <= i <= cyl && Lists(nfree, free[..], disk, l) && sTfree == old(sTfree) + |l| - |was|
        invariant l == more + was && SameElsewhere(d0, disk, more)
        invariant Going(l, map0, fmin, fmax, offs, cyl, top, base, i)
      {
        var blk := base - addr[i];
        IsUnused(map0, fmin, fmax, blk);
        if !(blk < fmin || blk >= fmax) && !blkmap[blk] {
          GoAdd(l, map0, fmin, fmax, offs, cyl, top, base, i);
          ghost var d := disk;
          AddFree(blk, l);
          ChangedOnly(d0, d, disk, more, blk);
          l, more := [blk] + l, [blk] + more;
        } else {
          GoSkip(l, map0, fmin, fmax, offs, cyl, top, base, i);
        }
        i := i + 1;
      }
    }

    /** Rebuilds the free list from the block map; l is what it lists, in the order it is taken off. */
    method MakeFree(stepsize: int, cylsize: int) returns (ghost l: seq<int>)
      requires Shape()
      modifies this`disk, this`bno, this`nfree, this`sNfree, this`sTfree, this`sStep, this`sCyl, free, sFree
      ensures Lists(sNfree, sFree[..], disk, l) && Complete(l, blkmap[..], fmin, fmax) && sTfree == |l|
      ensures SameElsewhere(old(disk), disk, l)
      ensures LegalSpacing(sStep, sCyl) && Interleaved(l, blkmap[..], fmin, fmax, sStep, sCyl)
      ensures SpacingTaken(stepsize, cylsize, old(sStep), old(sCyl), sStep, sCyl)
    {
      hide Lists, Going, Complete, Spaced, SameElsewhere, RoundUp, Stepped, Interleaved;
      sNfree, sTfree := 0, 0;
      var step, cyl := stepsize, cylsize;
      if cylsize == 0 || stepsize == 0 {
        step, cyl := sStep, sCyl;
      }
      if step > cyl || step <= 0 || cyl <= 0 || cyl > MAXCYL {
        step, cyl := STEPSIZE, CYLSIZE;
      }
      sStep, sCyl := step, cyl;
      var addr := Spacing(step, cyl);
      ghost var offs, map0, disk0 := addr[..], blkmap[..], disk;
      var baseblk: int := RoundUp(fmax, cyl);
      ghost var top := baseblk;
      RoundUpBound(fmax, cyl);
      WholeCylinders(fmax, cyl);
      ClearBuffer();
      nfree := 1;
      l := [];
      EmptyList(free[..], disk);
      GoStart(map0, fmin, fmax, offs, cyl, top);
      Unchanged(disk);
      while baseblk > 0
        modifies this`disk, this`bno, this`nfree, this`sTfree, free
        invariant Lists(nfree, free[..], disk, l) && sTfree == |l| && SameElsewhere(disk0, disk, l)
        invariant Going(l, map0, fmin, fmax, offs, cyl, top, baseblk, 0)
        invariant baseblk >= 0 && baseblk % cyl == 0 && addr[..] == offs && blkmap[..] == map0
      {
        ghost var d, was := disk, l;
        l := PutCylinder(addr, cyl, baseblk, top, l);
        ghost var more :| l == more + was && SameElsewhere(d, disk, more);
        BothChanged(disk0, d, disk, was, more);
        GoOn(l, map0, fmin, fmax, offs, cyl, top, baseblk);
        OneCylinderLess(baseblk, cyl);
        baseblk := baseblk - cyl;
      }
      GoEnd(l, map0, fmin, fmax, offs, step, cyl);
      sNfree := nfree;
      CopyBatch(free, sFree);
    }

    static method CopyBatch(from: array<int>, to: array<int>)
      requires from.Length == to.Length == NICFREE && from != to
      modifies to
      ensures to[..] == from[..]
    {
      var k := 0;
      while k < NICFREE
        invariant 0 <= k <= NICFREE && forall j | 0 <= j < k :: to[j] == from[j]
        invariant from[..] == old(from[..])
      {
        to[k] := from[k];
        k := k + 1;
      }
    }

    method ClearBuffer()
      requires Shape()
      modifies free
      ensures free[..] == seq(NICFREE, _ => 0)
    {
      var k := 0;
      while k < NICFREE
        invariant 0 <= k <= NICFREE && forall j | 0 <= j < k :: free[j] == 0
      {
        free[k] := 0;
        k := k + 1;
      }
    }
  }

  lemma BothChanged(d0: map<int, Block>, d1: map<int, Block>, d2: map<int, Block>, l: seq<int>, more: seq<int>)
    requires SameElsewhere(d0, d1, l) && SameElsewhere(d1, d2, more)
    ensures SameElsewhere(d0, d2, more + l)
  {
  }

  lemma IsInterleaved(l: seq<int>, map0: seq<bool>, fmin: int, fmax: nat, step: nat, cyl: nat, addr: seq<int>)
    requires 0 < cyl <= |addr| && Spaced(addr, cyl) && Stepped(addr, step, cyl, cyl)
    requires l == Built(map0, fmin, fmax, addr, cyl, RoundUp(fmax, cyl), 0)
    ensures Interleaved(l, map0, fmin, fmax, step, cyl)
  {
    assert IsBuilt(l, map0, fmin, fmax, step, cyl, addr);
  }

  lemma IsUnused(map0: seq<bool>, fmin: nat, fmax: int, b: int)
    ensures fmin <= b < fmax <= |map0| && !map0[b] ==> Unused(map0, fmin, fmax, b)
    ensures !(fmin <= b < fmax) || (b < |map0| && map0[b]) ==> !Unused(map0, fmin, fmax, b)
  {
  }

  lemma Unchanged(disk: map<int, Block>)
    ensures SameElsewhere(disk, disk, [])
  {
  }

  lemma ChangedOnly(disk0: map<int, Block>, d: map<int, Block>, disk: map<int, Block>, l: seq<int>, blk: int)
    requires SameElsewhere(disk0, d, l) && d.Keys <= disk.Keys
    requires forall b | b != blk :: (b in d <==> b in disk) && (b in disk ==> disk[b] == d[b])
    ensures SameElsewhere(disk0, disk, [blk] + l)
  {
    forall b | b !in [blk] + l
      ensures b !in l && b != blk
    {
      assert blk == ([blk] + l)[0];
      assert b in l ==> b in [blk] + l;
    }
  }

  lemma IsComplete(l: seq<int>, map0: seq<bool>, fmin: int, fmax: int)
    requires Distinct(l) && forall b :: b in l <==> Unused(map0, fmin, fmax, b)
    ensures Complete(l, map0, fmin, fmax)
  {
  }

  /** Salvaging the free list and checking the volume afresh: the check finds nothing wrong, and counts as
      many free blocks as the superblock says. */
  method SalvageThenCheck(c: Checker, stepsize: int, cylsize: int, nBlks: nat)
    returns (again: Checker, wrongCount: bool, ghost l: seq<int>)
    requires c.Shape() && nBlks == CountUsed(c.blkmap[..], c.fmin, c.fmax)
    requires forall b | InRange(c.fmin, c.fmax, b) :: b in c.disk
    modifies c, c.free, c.sFree
    ensures GoodList(c.sNfree, c.sFree[..], c.disk, c.blkmap[..], c.fmin, c.fmax)
    ensures Lists(c.sNfree, c.sFree[..], c.disk, l) && Complete(l, c.blkmap[..], c.fmin, c.fmax)
    ensures SameElsewhere(old(c.disk), c.disk, l) && LegalSpacing(c.sStep, c.sCyl)
    ensures Interleaved(l, c.blkmap[..], c.fmin, c.fmax, c.sStep, c.sCyl)
    ensures SpacingTaken(stepsize, cylsize, old(c.sStep), old(c.sCyl), c.sStep, c.sCyl)
    ensures fresh(again) && again.disk == c.disk && again.sNfree == c.sNfree && again.sFree[..] == c.sFree[..]
    ensures !again.fixfree && !wrongCount
    ensures nBlks + c.sTfree == c.fmax - c.fmin && again.nFree == c.sTfree
  {
    hide Lists, CountUsed, GoodList, Complete, Unused;
    ghost var disk0 := c.disk;
    l := c.MakeFree(stepsize, cylsize);
    StillReadable(disk0, c.disk, l, c.fmin, c.fmax, c.blkmap[..]);
    NotEmptyBatch(c.sFree[..], c.disk, l);
    GoodListIs(c.sNfree, c.sFree[..], c.disk, c.blkmap[..], c.fmin, c.fmax, l);
    LinkIsUnused(c.sNfree, c.sFree[..], c.disk, l, c.blkmap[..], c.fmin, c.fmax);
    again := new Checker(c.fmin, c.fmax, c.blkmap, c.disk, c.sNfree, c.sFree[..], c.sTfree, c.sStep, c.sCyl);
    ghost var got;
    wrongCount, got := again.Phase5(nBlks);
    SameSize(l, got, c.blkmap[..], c.fmin, c.fmax);
  }

  /** The first link of a right list is a block of the data area. */
  lemma LinkIsUnused(nfree: int, free: seq<int>, disk: map<int, Block>, l: seq<int>, map0: seq<bool>, fmin: nat,
                     fmax: int)
    requires Lists(nfree, free, disk, l) && Complete(l, map0, fmin, fmax)
    ensures free[0] == 0 || free[0] >= fmin
  {
    if free[0] != 0 {
      assert l[nfree - 1] == free[0] && l[nfree - 1] in l;
    }
  }

  // ---- A right list that phase 5 condemns

  /** Two free blocks: block 1 holds the batch that lists block 2. */
  function TwoBatches(): map<int, Block> {
    map[1 := BatchBlock(2, [0, 2] + seq(NICFREE - 2, _ => 0)), 2 := ZeroBlock()]
  }

  function FirstBatch(): seq<int> {
    [1] + seq(NICFREE - 1, _ => 0)
  }

  /** A volume of three blocks, with nothing in use. */
  lemma TwoBatchesAreGood()
    ensures GoodList(1, FirstBatch(), TwoBatches(), [false, false, false], 1, 3)
    ensures CountUsed([false, false, false], 1, 3) == 0
  {
    var l, free := [1, 2], [0, 2] + seq(NICFREE - 2, _ => 0);
    BatchRoundTrip(2, free);
    assert l[1..] == [2];
    assert Lists(2, free, TwoBatches(), [2]);
    assert Lists(1, FirstBatch(), TwoBatches(), l);
    assert Distinct(l);
    forall b
      ensures b in l <==> Unused([false, false, false], 1, 3, b)
    {
      assert b in l <==> b == 1 || b == 2;
    }
    GoodListIs(1, FirstBatch(), TwoBatches(), [false, false, false], 1, 3, l);
  }

  /** With the buffer marked as holding block 1, phase 5 condemns that list. */
  method GoodListCondemned() returns (c: Checker)
    ensures GoodList(c.sNfree, c.sFree[..], c.disk, c.blkmap[..], c.fmin, c.fmax) && c.fixfree
  {
    hide GoodList, Lists;
    TwoBatchesAreGood();
    var blkmap := new bool[3](_ => false);
    c := new Checker(1, 3, blkmap, TwoBatches(), 1, FirstBatch(), 2, STEPSIZE, CYLSIZE);
    assert blkmap[..] == [false, false, false];
    c.bno := 1;
    var wrongCount, got := c.Phase5(0);
  }

  lemma SameSize(l: seq<int>, m: seq<int>, map0: seq<bool>, fmin: nat, fmax: nat)
    requires fmin <= fmax == |map0| && Complete(l, map0, fmin, fmax) && Complete(m, map0, fmin, fmax)
    ensures |l| == |m|
  {
    hide CountUsed, Unused;
    Counted(l, map0, fmin, fmax);
    Counted(m, map0, fmin, fmax);
  }

  lemma StillReadable(disk0: map<int, Block>, disk: map<int, Block>, l: seq<int>, fmin: int, fmax: int, map0: seq<bool>)
    requires SameElsewhere(disk0, disk, l) && forall b | InRange(fmin, fmax, b) :: b in disk0
    ensures forall b | InRange(fmin, fmax, b) :: b in disk
  {
  }
}
