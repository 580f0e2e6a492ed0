/** restor's disk: a write-through cache of three blocks, the free list of the superblock, and the address
    table of the file being restored. */
module Restor {
  import opened Basics
  import opened Sums
  import opened FreeList
  import opened BlockTree
  import opened FileTable
  import opened FileNeeds
  import BlockCount

  const NCACHE: nat := 3

  /** Every slot that holds a block holds what is on the disk, and no two hold the same block. */
  ghost predicate Agrees(bnos: seq<int>, blocks: seq<Block>, disk: map<int, Block>) {
    && |bnos| == |blocks| == NCACHE
    && (forall i | 0 <= i < NCACHE && bnos[i] != 0 :: blocks[i] == Get(disk, bnos[i]))
    && (forall i, j | 0 <= i < j < NCACHE && bnos[i] == bnos[j] :: bnos[i] == 0)
  }

  lemma Hit(bnos: seq<int>, blocks: seq<Block>, disk: map<int, Block>, i: nat)
    requires Agrees(bnos, blocks, disk) && i < NCACHE && bnos[i] != 0
    ensures blocks[i] == Get(disk, bnos[i])
  {
  }

  lemma Load(bnos: seq<int>, blocks: seq<Block>, disk: map<int, Block>, j: nat, bno: int)
    requires Agrees(bnos, blocks, disk) && j < NCACHE && bno !in bnos
    ensures Agrees(bnos[j := bno], blocks[j := Get(disk, bno)], disk)
  {
    hide Get;
  }

  lemma WriteHit(bnos: seq<int>, blocks: seq<Block>, disk: map<int, Block>, i: nat, b: Block)
    requires Agrees(bnos, blocks, disk) && i < NCACHE
    ensures Agrees(bnos, blocks[i := b], disk[bnos[i] := b])
  {
    GetSet(disk, bnos[i], b);
    hide Get;
  }

  lemma WriteMiss(bnos: seq<int>, blocks: seq<Block>, disk: map<int, Block>, bno: int, b: Block)
    requires Agrees(bnos, blocks, disk) && bno !in bnos
    ensures Agrees(bnos, blocks, disk[bno := b])
  {
    GetSet(disk, bno, b);
    hide Get;
  }

  lemma GetSet(disk: map<int, Block>, bno: int, b: Block)
    ensures Get(disk[bno := b], bno) == b && ChangedAt(disk, disk[bno := b], bno)
  {
  }

  lemma Shifts()
    ensures Pow2(0) == Size(0) && Pow2(7) == Size(1) && Pow2(14) == Size(2)
  {
    assert Pow2(7) == 128 * Pow2(0);
    assert Pow2(14) == 128 * Pow2(7);
  }

  // ---- The free list as a multiset

  lemma TakeHead(list: seq<int>)
    requires list != []
    ensures multiset(list) == multiset{list[0]} + multiset(list[1..])
    ensures Single(multiset(list)) ==> Single(multiset(list[1..])) && list[0] != 0 && list[0] !in list[1..]
  {
    assert list == [list[0]] + list[1..];
    var all, rest := multiset(list), multiset(list[1..]);
    assert forall b :: all[b] == rest[b] + if b == list[0] then 1 else 0;
    assert rest[list[0]] > 0 <==> list[0] in list[1..];
    assert all[list[0]] > 0;
  }

  lemma PutHead(list: seq<int>, b: int)
    requires Single(multiset(list)) && b != 0 && b !in multiset(list)
    ensures Single(multiset([b] + list)) && multiset([b] + list) == multiset(list) + multiset{b}
    ensures b !in list
  {
  }

  // ---- What bmap keeps

  /** The file and the free list share the blocks total; blocks elsewhere are as they were, and so is
      every logical block but bn. */
  ghost predicate Kept(disk0: map<int, Block>, table0: Table, disk: map<int, Block>, table: Table, list: seq<int>,
                       total: multiset<int>, bn: nat)
  {
    && Single(total) && Owned(disk, table) + multiset(list) == total
    && (forall b | b !in total :: Get(disk, b) == Get(disk0, b))
    && forall y | y != bn :: SameBlock(disk0, table0, disk, table, y)
  }

  ghost predicate SameBlock(disk0: map<int, Block>, table0: Table, disk: map<int, Block>, table: Table, y: nat) {
    var w := Walk(disk0, table0, y);
    Walk(disk, table, y) == w && (w != 0 ==> Get(disk, w) == Get(disk0, w))
  }

  lemma KeptStart(disk: map<int, Block>, table: Table, list: seq<int>, bn: nat)
    requires Single(Owned(disk, table) + multiset(list))
    ensures Kept(disk, table, disk, table, list, Owned(disk, table) + multiset(list), bn)
  {
  }

  /** A block off the free list is no block of the file. */
  lemma KeptApart(disk0: map<int, Block>, table0: Table, disk: map<int, Block>, table: Table, list: seq<int>,
                  total: multiset<int>, bn: nat)
    requires Kept(disk0, table0, disk, table, list, total, bn)
    ensures Single(Owned(disk, table)) && Single(multiset(list))
    ensures list != [] ==> list[0] !in Owned(disk, table) && list[0] != 0 && list[0] in total
    ensures forall b :: b in Owned(disk, table) ==> b in total && b !in list
  {
    hide Owned, Get, Walk, SameBlock;
    var o := Owned(disk, table);
    assert forall b :: o[b] + multiset(list)[b] == total[b];
    assert multiset(list)[0] == 0;
    if list != [] {
      var h := list[0];
      assert total[h] == o[h] + multiset(list)[h] && multiset(list)[h] > 0;
    }
    assert list != [] ==> list[0] in multiset(list);
    assert forall b :: b in list <==> b in multiset(list);
  }

  lemma KeptRoot(disk0: map<int, Block>, table0: Table, disk: map<int, Block>, table: Table, list: seq<int>,
                 total: multiset<int>, bn: nat, disk': map<int, Block>, s: nat)
    requires s < NADDR && list != [] && Kept(disk0, table0, disk, table, list, total, bn) && table[s] == 0
    requires Get(disk', list[0]) == ZeroBlock() && ChangedAt(disk, disk', list[0])
    requires Depth(s) > 0 || Root(bn) == s
    ensures Kept(disk0, table0, disk', table[s := list[0]], list[1..], total, bn)
  {
    hide Owned, Get, Walk, SameBlock, Depth, Root, ZeroBlock;
    var nnb := list[0];
    var table': Table := table[s := nnb];
    KeptApart(disk0, table0, disk, table, list, total, bn);
    TakeHead(list);
    assert NewRoot(disk, disk', table, s, nnb);
    NewRootOwned(disk, disk', table, s, nnb);
    forall y: nat | y != bn
      ensures SameBlock(disk0, table0, disk', table', y)
    {
      assert SameBlock(disk0, table0, disk, table, y);
      DirectRoot(y, bn, s);
      NewRootWalk(disk, disk', table, s, nnb, y);
      StillSame(disk0, table0, disk, table, disk', table', y, nnb);
    }
    assert Owned(disk', table') + multiset(list[1..]) == total;
  }

  lemma DirectRoot(y: nat, bn: nat, s: nat)
    requires s < NADDR && y != bn && (Depth(s) > 0 || Root(bn) == s)
    ensures !(Root(y) == s && Depth(s) == 0)
  {
  }

  lemma StillSame(disk0: map<int, Block>, table0: Table, disk: map<int, Block>, table: Table,
                  disk': map<int, Block>, table': Table, y: nat, nnb: int)
    requires SameBlock(disk0, table0, disk, table, y) && Walk(disk', table', y) == Walk(disk, table, y)
    requires ChangedAt(disk, disk', nnb) && nnb !in Owned(disk, table)
    ensures SameBlock(disk0, table0, disk', table', y)
  {
    hide Owned, Get, Walk;
    if Walk(disk, table, y) != 0 {
      WalkIn(disk, table, y);
    }
  }

  lemma KeptNode(disk0: map<int, Block>, table0: Table, disk: map<int, Block>, table: Table, list: seq<int>,
                 total: multiset<int>, bn: nat, disk1: map<int, Block>, d: nat, nb: int, ib: Block)
    requires Kept(disk0, table0, disk, table, list, total, bn) && list != []
    requires Root(bn) < NADDR && d < Depth(Root(bn))
    requires nb == Node(disk, table[Root(bn)], Depth(Root(bn)), d, Offset(bn)) != 0
    requires Slot(disk, nb, Digit(Offset(bn), Depth(Root(bn)) - d - 1)) == 0
    requires Get(disk1, list[0]) == ZeroBlock() && ChangedAt(disk, disk1, list[0])
    requires ib == Get(disk, nb)[Digit(Offset(bn), Depth(Root(bn)) - d - 1) := list[0]]
    ensures Kept(disk0, table0, disk1[nb := ib], table, list[1..], total, bn)
    ensures Node(disk1[nb := ib], table[Root(bn)], Depth(Root(bn)), d + 1, Offset(bn)) == list[0]
  {
    hide *;
    var nnb, s, x := list[0], Root(bn), Offset(bn);
    RootRange(s);
    KeptApart(disk0, table0, disk, table, list, total, bn);
    NodeOwned(disk, table, s, d, x);
    FilledBy(disk, disk1, nb, Digit(x, Depth(s) - d - 1), nnb, ib);
    IsNewNode(disk, disk1[nb := ib], table, s, d, x, nnb);
    NewNodeOwned(disk, disk1[nb := ib], table, s, d, x, nnb);
    KeptWith(disk0, table0, disk, table, list, total, bn, disk1[nb := ib], d);
  }

  lemma RootUseful(disk0: map<int, Block>, table0: Table, disk: map<int, Block>, table: Table, list: seq<int>,
                   total: multiset<int>, bn: nat, disk': map<int, Block>, s: nat, want: set<nat>)
    requires s < NADDR && list != [] && Kept(disk0, table0, disk, table, list, total, bn) && table[s] == 0
    requires Get(disk', list[0]) == ZeroBlock() && ChangedAt(disk, disk', list[0])
    requires Root(bn) == s && bn in want && UsefulFile(disk, table, want)
    ensures UsefulFile(disk', table[s := list[0]], want)
  {
    hide Owned, Get, Walk, SameBlock, Depth, Root, ZeroBlock, UsefulFile;
    KeptApart(disk0, table0, disk, table, list, total, bn);
    RootOf(bn);
    UsefulRoot(disk, disk', table, s, list[0], want, bn);
  }

  lemma NodeUseful(disk0: map<int, Block>, table0: Table, disk: map<int, Block>, table: Table, list: seq<int>,
                   total: multiset<int>, bn: nat, disk1: map<int, Block>, d: nat, nb: int, ib: Block, want: set<nat>)
    requires Kept(disk0, table0, disk, table, list, total, bn) && list != []
    requires Root(bn) < NADDR && d < Depth(Root(bn)) && bn in want && UsefulFile(disk, table, want)
    requires nb == Node(disk, table[Root(bn)], Depth(Root(bn)), d, Offset(bn)) != 0
    requires Slot(disk, nb, Digit(Offset(bn), Depth(Root(bn)) - d - 1)) == 0
    requires Get(disk1, list[0]) == ZeroBlock() && ChangedAt(disk, disk1, list[0])
    requires ib == Get(disk, nb)[Digit(Offset(bn), Depth(Root(bn)) - d - 1) := list[0]]
    ensures UsefulFile(disk1[nb := ib], table, want)
  {
    hide *;
    var nnb, s, x := list[0], Root(bn), Offset(bn);
    RootRange(s);
    OffsetFits(bn);
    KeptApart(disk0, table0, disk, table, list, total, bn);
    NodeOwned(disk, table, s, d, x);
    FilledBy(disk, disk1, nb, Digit(x, Depth(s) - d - 1), nnb, ib);
    IsNewNode(disk, disk1[nb := ib], table, s, d, x, nnb);
    UsefulNode(disk, disk1[nb := ib], table, d, nnb, want, bn);
  }

  /** When the way to bn ends before, there is no block there. */
  lemma NoWay(disk: map<int, Block>, table: Table, bn: nat, d: nat)
    requires Root(bn) < NADDR && d <= Depth(Root(bn))
    requires Node(disk, table[Root(bn)], Depth(Root(bn)), d, Offset(bn)) == 0
    ensures Walk(disk, table, bn) == 0
  {
    hide Node, Root, Depth, Offset, Walk;
    WayEnds(disk, table[Root(bn)], Depth(Root(bn)), d, Offset(bn));
    WalkIs(disk, table, bn);
  }

  lemma IsNewNode(disk: map<int, Block>, disk': map<int, Block>, table: Table, s: nat, d: nat, x: nat, nnb: int)
    requires s < NADDR && Single(Owned(disk, table)) && nnb !in Owned(disk, table)
    requires d < Depth(s) && Node(disk, table[s], Depth(s), d, x) != 0
    requires Filled(disk, disk', Node(disk, table[s], Depth(s), d, x), Digit(x, Depth(s) - d - 1), nnb)
    ensures NewNode(disk, disk', table, s, d, x, nnb)
  {
  }

  lemma KeptWith(disk0: map<int, Block>, table0: Table, disk: map<int, Block>, table: Table, list: seq<int>,
                 total: multiset<int>, bn: nat, disk': map<int, Block>, d: nat)
    requires Kept(disk0, table0, disk, table, list, total, bn) && list != [] && Root(bn) < NADDR
    requires NewNode(disk, disk', table, Root(bn), d, Offset(bn), list[0])
    ensures Kept(disk0, table0, disk', table, list[1..], total, bn)
  {
    hide Owned, Get, Walk, SameBlock, Depth, Root, ZeroBlock, Node, Digit, Filled, Slot, Offset, Single;
    var nnb, s, x := list[0], Root(bn), Offset(bn);
    KeptApart(disk0, table0, disk, table, list, total, bn);
    TakeHead(list);
    NewNodeOwned(disk, disk', table, s, d, x, nnb);
    assert Owned(disk', table) + multiset(list[1..]) == total;
    NodeOwned(disk, table, s, d, x);
    FilledOutside(disk, disk', Node(disk, table[s], Depth(s), d, x), Digit(x, Depth(s) - d - 1), nnb, disk0, total);
    forall y: nat | y != bn
      ensures SameBlock(disk0, table0, disk', table, y)
    {
      KeptOne(disk0, table0, disk, table, list, total, bn, y);
      OneNode(disk, disk', table, bn, d, nnb, y);
      OneStays(disk0, table0, disk, table, disk', y);
    }
  }

  lemma NodeOwned(disk: map<int, Block>, table: Table, s: nat, d: nat, x: nat)
    requires s < NADDR && d <= Depth(s) && Node(disk, table[s], Depth(s), d, x) != 0
    ensures Node(disk, table[s], Depth(s), d, x) in Owned(disk, table)
  {
    hide Owned, Node, Blocks, Depth;
    NodeIn(disk, table[s], Depth(s), d, x);
    RootWithin(disk, table, s);
  }

  lemma KeptOne(disk0: map<int, Block>, table0: Table, disk: map<int, Block>, table: Table, list: seq<int>,
                total: multiset<int>, bn: nat, y: nat)
    requires Kept(disk0, table0, disk, table, list, total, bn) && y != bn
    ensures SameBlock(disk0, table0, disk, table, y)
  {
  }

  lemma FilledBy(disk: map<int, Block>, disk1: map<int, Block>, nb: int, i: nat, nnb: int, ib: Block)
    requires i < NINDIR && nb != nnb && nnb != 0 && Slot(disk, nb, i) == 0
    requires Get(disk1, nnb) == ZeroBlock() && ChangedAt(disk, disk1, nnb) && ib == Get(disk, nb)[i := nnb]
    ensures Filled(disk, disk1[nb := ib], nb, i, nnb)
  {
    GetSet(disk1, nb, ib);
    hide Get, ZeroBlock;
    var disk' := disk1[nb := ib];
    assert Get(disk', nnb) == ZeroBlock();
    forall j | 0 <= j < NINDIR
      ensures Slot(disk', nb, j) == if j == i then nnb else Slot(disk, nb, j)
    {
    }
  }

  lemma FilledOutside(disk: map<int, Block>, disk': map<int, Block>, nb: int, i: nat, nnb: int, disk0: map<int, Block>,
                      total: multiset<int>)
    requires i < NINDIR && Filled(disk, disk', nb, i, nnb) && nb in total && nnb in total
    requires forall b | b !in total :: Get(disk, b) == Get(disk0, b)
    ensures forall b | b !in total :: Get(disk', b) == Get(disk0, b)
  {
    hide Get, Slot;
  }

  /** Another logical block than bn is where it was, with what it had. */
  lemma OneNode(disk: map<int, Block>, disk': map<int, Block>, table: Table, bn: nat, d: nat, nnb: int, y: nat)
    requires Root(bn) < NADDR && NewNode(disk, disk', table, Root(bn), d, Offset(bn), nnb) && y != bn
    ensures Walk(disk', table, y) == Walk(disk, table, y)
    ensures Walk(disk, table, y) != 0 ==> Get(disk', Walk(disk, table, y)) == Get(disk, Walk(disk, table, y))
  {
    hide *;
    var s, x := Root(bn), Offset(bn);
    RootRange(s);
    NewNodeWalk(disk, disk', table, s, d, x, nnb, y);
    if Root(y) == s && SamePath(x, Offset(y), Depth(s)) {
      OffsetFits(bn);
      OffsetFits(y);
      PathIsNumber(x, Offset(y), Depth(s));
      NumberFromRoot(bn, y);
    }
    if Walk(disk, table, y) != 0 {
      NewNodeData(disk, disk', table, s, d, x, nnb, y);
    }
  }

  lemma OneStays(disk0: map<int, Block>, table0: Table, disk: map<int, Block>, table: Table, disk': map<int, Block>, y: nat)
    requires SameBlock(disk0, table0, disk, table, y) && Walk(disk', table, y) == Walk(disk, table, y)
    requires Walk(disk, table, y) != 0 ==> Get(disk', Walk(disk, table, y)) == Get(disk, Walk(disk, table, y))
    ensures SameBlock(disk0, table0, disk', table, y)
  {
  }

  // ---- The block freed first

  /** The block of the tree that is freed first: the last kid's first, and the block itself when it has none. */
  function First(disk: map<int, Block>, nb: int, depth: nat): int
    decreases 2 * depth, 0
  {
    if nb == 0 || depth == 0 then nb
    else
      var f := FirstFrom(disk, Get(disk, nb), depth - 1, 0);
      if f != 0 then f else nb
  }

  /** The first block freed of the subtrees from the last one down to the k'th; 0 if there are none. */
  function FirstFrom(disk: map<int, Block>, b: Block, depth: nat, k: nat): int
    requires k <= NINDIR
    decreases 2 * depth + 1, NINDIR - k
  {
    if k == NINDIR then 0
    else
      var f := FirstFrom(disk, b, depth, k + 1);
      if f != 0 then f else First(disk, b[k], depth)
  }

  /** The same for the entries of the block table. */
  function FirstFreed(disk: map<int, Block>, table: Table, k: nat): int
    requires k <= NADDR
    decreases NADDR - k
  {
    if k == NADDR then 0
    else
      var f := FirstFreed(disk, table, k + 1);
      if f != 0 then f else First(disk, table[k], Depth(k))
  }

  lemma FirstStep(disk: map<int, Block>, b: Block, depth: nat, k: nat)
    requires k < NINDIR
    ensures FirstFrom(disk, b, depth, k) ==
            var f := FirstFrom(disk, b, depth, k + 1); if f != 0 then f else First(disk, b[k], depth)
  {
  }

  lemma FirstFreedStep(disk: map<int, Block>, table: Table, k: nat)
    requires k < NADDR
    ensures FirstFreed(disk, table, k) ==
            var f := FirstFreed(disk, table, k + 1); if f != 0 then f else First(disk, table[k], Depth(k))
  {
  }

  lemma NoneFreed(disk: map<int, Block>, b: Block, depth: nat)
    ensures FirstFrom(disk, b, depth, NINDIR) == 0
  {
  }

  lemma NoneFreedYet(disk: map<int, Block>, table: Table)
    ensures FirstFreed(disk, table, NADDR) == 0
  {
  }

  lemma FirstOfData(disk: map<int, Block>, nb: int)
    ensures First(disk, nb, 0) == nb
  {
  }

  lemma NoFirst(disk: map<int, Block>, depth: nat)
    ensures First(disk, 0, depth) == 0
  {
  }

  lemma FirstIs(disk: map<int, Block>, nb: int, depth: nat)
    requires nb != 0 && depth > 0
    ensures First(disk, nb, depth) == var f := FirstFrom(disk, Get(disk, nb), depth - 1, 0); if f != 0 then f else nb
  {
  }

  lemma FirstNotZero(disk: map<int, Block>, nb: int, depth: nat)
    ensures First(disk, nb, depth) != 0 <==> nb != 0
  {
  }

  /** The block freed first is one of the tree's, and depends on the tree only. */
  lemma {:induction false} FirstFrame(disk: map<int, Block>, disk': map<int, Block>, nb: int, depth: nat)
    requires SameOn(disk, disk', Blocks(disk, nb, depth))
    ensures First(disk', nb, depth) == First(disk, nb, depth)
    ensures nb != 0 ==> First(disk, nb, depth) in Blocks(disk, nb, depth)
    decreases 2 * depth, 0
  {
    if nb != 0 && depth > 0 {
      hide First, FirstFrom, Get, Blocks, Kids;
      BlocksAre(disk, nb, depth);
      FirstIs(disk, nb, depth);
      FirstIs(disk', nb, depth);
      FirstFromFrame(disk, disk', Get(disk, nb), depth - 1, 0);
    }
  }

  lemma {:induction false} FirstFromFrame(disk: map<int, Block>, disk': map<int, Block>, b: Block, depth: nat, k: nat)
    requires k <= NINDIR && SameOn(disk, disk', Kids(disk, b, depth, NINDIR))
    ensures FirstFrom(disk', b, depth, k) == FirstFrom(disk, b, depth, k)
    ensures FirstFrom(disk, b, depth, k) != 0 ==> FirstFrom(disk, b, depth, k) in Kids(disk, b, depth, NINDIR)
    decreases 2 * depth + 1, NINDIR - k
  {
    hide First, FirstFrom, Get, Blocks, Kids;
    if k == NINDIR {
      NoneFreed(disk, b, depth);
      NoneFreed(disk', b, depth);
    } else {
      FirstStep(disk, b, depth, k);
      FirstStep(disk', b, depth, k);
      KidHas(disk, b, depth, NINDIR, k);
      FirstFromFrame(disk, disk', b, depth, k + 1);
      FirstFrame(disk, disk', b[k], depth);
      NoFirst(disk, depth);
    }
  }

  /** Where the batches lead to once the blocks from f on have been freed: a block that is freed when there is
      no batch becomes the link to a batch that nobody writes. */
  function EndAfter(end: int, nfree: int, f: int): int {
    if end == 0 && nfree == 0 then f else end
  }

  /** The blocks freed so far, f the first of them, have taken end, nfree to end', nfree'. */
  ghost predicate Freed(disk0: map<int, Block>, disk: map<int, Block>, end: int, nfree: int, end': int, nfree': int, f: int) {
    && end' == EndAfter(end, nfree, f) && (end' != 0 ==> Get(disk, end') == Get(disk0, end'))
    && (f != 0 ==> nfree' != 0) && (f == 0 ==> nfree' == nfree)
  }

  lemma FreedStart(disk: map<int, Block>, end: int, nfree: int)
    ensures Freed(disk, disk, end, nfree, end, nfree, 0)
  {
  }

  lemma FreedStep(disk0: map<int, Block>, d: map<int, Block>, disk: map<int, Block>, end: int, nfree: int, e: int, n: int,
                  end': int, nfree': int, f: int, nb: int, depth: nat)
    requires Freed(disk0, d, end, nfree, e, n, f) && nb != 0 && SameOn(disk0, d, Blocks(disk0, nb, depth))
    requires nfree' != 0 && end' == EndAfter(e, n, First(d, nb, depth)) && (end' != 0 ==> Get(disk, end') == Get(d, end'))
    ensures Freed(disk0, disk, end, nfree, end', nfree', if f != 0 then f else First(disk0, nb, depth))
  {
    hide First, Blocks, Get;
    FirstFrame(disk0, d, nb, depth);
    FirstNotZero(disk0, nb, depth);
  }

  lemma FreedLast(disk0: map<int, Block>, d: map<int, Block>, disk: map<int, Block>, end: int, nfree: int, e: int, n: int,
                  end': int, nfree': int, f: int, bn: int)
    requires Freed(disk0, d, end, nfree, e, n, f) && bn != 0 && Get(d, bn) == Get(disk0, bn)
    requires nfree' != 0 && end' == (if e == 0 && n == 0 then bn else e) && (end' != 0 ==> Get(disk, end') == Get(d, end'))
    ensures nfree' != 0 && end' == EndAfter(end, nfree, if f != 0 then f else bn)
    ensures end' != 0 ==> Get(disk, end') == Get(disk0, end')
  {
    hide Get;
  }

  // ---- The batches while blocks are freed

  ghost predicate Linked(nfree: int, free: seq<int>, disk: map<int, Block>, list: seq<int>, end: int) {
    if end == 0 then Stands(nfree, free, disk, list) else Chained(nfree, free, disk, list, end)
  }

  lemma LinkedSize(nfree: int, free: seq<int>, disk: map<int, Block>, list: seq<int>, end: int)
    requires Linked(nfree, free, disk, list, end)
    ensures |free| == NICFREE && 0 <= nfree <= NICFREE && (nfree == 0 ==> end == 0 && list == [])
    ensures end != 0 ==> end in list
  {
    if end != 0 {
      EndOfChain(nfree, free, disk, list, end);
    } else {
      StandsSize(nfree, free, disk, list);
    }
  }

  lemma PushLinked(nfree: nat, free: seq<int>, disk: map<int, Block>, list: seq<int>, b: int, end: int)
    requires Linked(nfree, free, disk, list, end) && nfree < NICFREE && b != 0
    ensures Linked(nfree + 1, free[nfree := b], disk, [b] + list, if end == 0 && nfree == 0 then b else end)
  {
    if end != 0 {
      PushChained(nfree, free, disk, list, end, b);
    } else if nfree != 0 {
      Push(nfree, free, disk, list, b);
    }
  }

  lemma SpillLinked(nfree: int, free: seq<int>, free': seq<int>, disk: map<int, Block>, list: seq<int>, b: int, end: int)
    requires Linked(nfree, free, disk, list, end) && nfree == NICFREE && b !in list && b != 0
    requires |free'| == NICFREE && free'[0] == b
    ensures Linked(1, free', disk[b := BatchBlock(nfree, free)], [b] + list, end)
  {
    hide BatchBlock, Lists, Chained;
    if end != 0 {
      SpillChained(nfree, free, free', disk, list, end, b);
    } else {
      Spill(nfree, free, free', disk, list, b);
    }
  }

  lemma OtherBlock(disk: map<int, Block>, disk': map<int, Block>, b: int, end: int, list: seq<int>)
    requires ChangedAt(disk, disk', b) && b !in list && (end != 0 ==> end in list)
    ensures end != 0 ==> Get(disk', end) == Get(disk, end)
  {
    hide Get;
  }

  // ---- What freeing keeps

  /** Of the blocks all, those in todo are still to be freed and are untouched; the rest are on the list. */
  ghost predicate Loosed(disk0: map<int, Block>, list0: seq<int>, disk: map<int, Block>, list: seq<int>,
                         all: multiset<int>, todo: multiset<int>)
  {
    && Single(multiset(list0) + all) && multiset(list) + todo == multiset(list0) + all
    && (forall b :: todo[b] <= all[b])
    && (forall b | b !in all :: Get(disk, b) == Get(disk0, b)) && SameOn(disk0, disk, todo)
  }

  ghost predicate ChangedWithin(disk: map<int, Block>, disk': map<int, Block>, m: multiset<int>) {
    forall b | b !in m :: Get(disk', b) == Get(disk, b)
  }

  lemma LoosedStart(disk: map<int, Block>, list: seq<int>, all: multiset<int>)
    requires Single(multiset(list) + all)
    ensures Loosed(disk, list, disk, list, all, all)
  {
  }

  lemma LoosedPart(disk0: map<int, Block>, list0: seq<int>, disk: map<int, Block>, list: seq<int>, all: multiset<int>,
                   todo: multiset<int>, rest: multiset<int>, nb: int, depth: nat)
    requires Loosed(disk0, list0, disk, list, all, todo) && todo == rest + Blocks(disk0, nb, depth)
    ensures Blocks(disk, nb, depth) == Blocks(disk0, nb, depth)
    ensures Single(multiset(list) + Blocks(disk0, nb, depth)) && SameOn(disk0, disk, Blocks(disk0, nb, depth))
  {
    hide Get, Blocks;
    var part := Blocks(disk0, nb, depth);
    BlocksFrame(disk0, disk, nb, depth);
    var now, total := multiset(list) + part, multiset(list0) + all;
    assert forall b :: now[b] + rest[b] == total[b];
  }

  lemma LoosedStep(disk0: map<int, Block>, list0: seq<int>, disk: map<int, Block>, list: seq<int>, all: multiset<int>,
                   todo: multiset<int>, rest: multiset<int>, part: multiset<int>,
                   disk': map<int, Block>, list': seq<int>)
    requires Loosed(disk0, list0, disk, list, all, todo) && todo == rest + part
    requires multiset(list') == multiset(list) + part && ChangedWithin(disk, disk', part)
    ensures Loosed(disk0, list0, disk', list', all, rest)
  {
    hide Get;
    var total := multiset(list0) + all;
    assert forall b :: multiset(list)[b] + rest[b] + part[b] == total[b];
    forall b | b in rest
      ensures b !in part && b in todo
    {
      assert total[b] <= 1;
    }
    assert forall b :: todo[b] == rest[b] + part[b];
  }

  lemma LoosedEnd(disk0: map<int, Block>, list0: seq<int>, disk: map<int, Block>, list: seq<int>, all: multiset<int>)
    requires Loosed(disk0, list0, disk, list, all, multiset{})
    ensures multiset(list) == multiset(list0) + all && ChangedWithin(disk0, disk, all)
  {
  }

  /** The slot k places after start, going round. */
  ghost function Ahead(start: nat, k: nat): (i: nat)
    ensures i < NCACHE
  {
    (start + k) % NCACHE
  }

  ghost function TreeDepth(f1: bool, f2: bool): nat {
    if f1 then if f2 then 3 else 2 else 1
  }

  class Restorer {
    /** The volume, and the cache: block number, age and contents of each slot. */
    var disk: map<int, Block>
    const cBno: array<int>
    const cTime: array<int>
    const cBlock: array<Block>
    var curcache: nat
    /** The free list of the superblock, and the blocks it stands for. */
    var sNfree: int
    const sFree: array<int>
    ghost var list: seq<int>

    constructor (disk: map<int, Block>, nfree: int, free: seq<int>, ghost list: seq<int>)
      requires Stands(nfree, free, disk, list) && Single(multiset(list))
      ensures Ready() && this.disk == disk && this.list == list && sNfree == nfree && sFree[..] == free
      ensures fresh(cBno) && fresh(cTime) && fresh(cBlock) && fresh(sFree)
    {
      hide Get, Single, Lists;
      StandsSize(nfree, free, disk, list);
      this.disk := disk;
      cBno, cTime := new int[NCACHE](_ => 0), new int[NCACHE](_ => 0);
      cBlock := new Block[NCACHE](_ => ZeroBlock());
      curcache := 0;
      sNfree := nfree;
      sFree := new int[NICFREE](k requires 0 <= k < NICFREE => free[k]);
      this.list := list;
      new;
      assert sFree[..] == free;
    }

    ghost predicate Shape() {
      && cBno.Length == cTime.Length == cBlock.Length == NCACHE && sFree.Length == NICFREE
      && cBno != cTime && cBno != sFree && cTime != sFree
    }

    ghost predicate Cached()
      reads this, cBno, cBlock
    {
      Shape() && curcache < NCACHE && Agrees(cBno[..], cBlock[..], disk)
    }

    ghost predicate Ready()
      reads this, cBno, cBlock, sFree
    {
      Cached() && Stands(sNfree, sFree[..], disk, list) && Single(multiset(list))
    }

    /** The superblock's batches list the blocks of list; if end is not 0, they go on to whatever block end holds. */
    ghost predicate Freeing(end: int)
      reads this, cBno, cBlock, sFree
    {
      Cached() && Linked(sNfree, sFree[..], disk, list, end) && Single(multiset(list))
    }

    // ---- The cache

    method DWrite(bno: int, b: Block)
      requires Cached()
      modifies this`disk, cBlock, cTime
      ensures Cached() && disk == old(disk)[bno := b]
      ensures forall k | 0 <= k < NCACHE ::
                cTime[k] == if bno in cBno[..k] then old(cTime[k]) else if cBno[k] == bno then 0 else old(cTime[k]) + 1
    {
      hide Agrees, Get;
      AgreesShape(cBno[..], cBlock[..], disk);
      ghost var bnos, blocks, times := cBno[..], cBlock[..], cTime[..];
      var i := 0;
      while i < NCACHE
        modifies cBlock, cTime
        invariant 0 <= i <= NCACHE && cBlock[..] == blocks && forall j | 0 <= j < i :: bnos[j] != bno
        invariant forall k | 0 <= k < NCACHE :: cTime[k] == times[k] + if k < i then 1 else 0
      {
        if cBno[i] == bno {
          WriteHit(bnos, blocks, disk, i, b);
          cBlock[i] := b;
          cTime[i] := 0;
          assert cBlock[..] == blocks[i := b];
          break;
        } else {
          cTime[i] := cTime[i] + 1;
        }
        i := i + 1;
      }
      if i == NCACHE {
        WriteMiss(bnos, blocks, disk, bno, b);
      }
      disk := disk[bno := b];
    }

    /** Goes round the cache from the slot used last. When the block is not there, every slot has become older and
        j is the oldest one. */
    method FindSlot(bno: int) returns (hit: bool, j: nat)
      requires Cached()
      modifies this`curcache, cTime
      ensures Cached() && j < NCACHE && (hit <==> bno in cBno[..])
      ensures hit ==> cBno[j] == bno && cTime[j] == 0
      ensures !hit ==> forall k | 0 <= k < NCACHE :: cTime[k] == old(cTime[k]) + 1 && old(cTime[k]) <= old(cTime[j])
    {
      hide Agrees, Ahead, Gone;
      AgreesShape(cBno[..], cBlock[..], disk);
      ghost var start, times := curcache, cTime[..];
      GoneStart(start, cBno[..], times, bno);
      hit, j := false, 0;
      var i := 0;
      while i < NCACHE
        invariant 0 <= i <= NCACHE && curcache == Ahead(start, i) && 0 <= j < NCACHE
        invariant Gone(start, i, cBno[..], times, cTime[..], j, bno)
      {
        NextAhead(start, i);
        i := i + 1;
        curcache := curcache + 1;
        if curcache >= NCACHE {
          curcache := 0;
        }
        if cBno[curcache] == bno {
          cTime[curcache] := 0;
          return true, curcache;
        }
        GoneOn(start, i - 1, cBno[..], times, cTime[..], j, bno);
        ghost var now := cTime[..];
        cTime[curcache] := cTime[curcache] + 1;
        assert cTime[..] == now[curcache := now[curcache] + 1];
        if cTime[j] < cTime[curcache] {
          j := curcache;
        }
      }
      GoneRound(start, cBno[..], times, cTime[..], j, bno);
    }

    method DRead(bno: int) returns (b: Block)
      requires Cached() && bno != 0
      modifies this`curcache, cBno, cBlock, cTime
      ensures Cached() && b == Get(disk, bno)
      ensures Evicts(old(cBno[..]), old(cTime[..]), cBno[..], cTime[..], bno)
    {
      hide Agrees, Get;
      AgreesShape(cBno[..], cBlock[..], disk);
      ghost var bnos, blocks, times := cBno[..], cBlock[..], cTime[..];
      var hit, j := FindSlot(bno);
      if hit {
        Hit(bnos, blocks, disk, j);
        return cBlock[j];
      }
      Load(bnos, blocks, disk, j, bno);
      b := if bno in disk then disk[bno] else ZeroBlock();
      IsGet(disk, bno);
      cBlock[j] := b;
      cTime[j] := 0;
      cBno[j] := bno;
      assert cBno[..] == bnos[j := bno] && cBlock[..] == blocks[j := b];
      assert Oldest(times, j);
    }

    // ---- The free list

    /** Takes a block off the free list and zeroes it; 0 when there is none left. */
    method BAlloc() returns (bno: int)
      requires Ready()
      modifies this, cBno, cBlock, cTime, sFree
      ensures bno == 0 ==> list == old(list) == [] && disk == old(disk)
      ensures bno != 0 ==> Ready() && old(list) != [] && bno == old(list)[0] && list == old(list)[1..] && sNfree != 0
      ensures bno != 0 ==> Get(disk, bno) == ZeroBlock() && ChangedAt(old(disk), disk, bno)
    {
      hide Agrees, Get, Lists, Single;
      ghost var f := sFree[..];
      if sNfree == 0 {
        return 0;
      }
      BatchSize(sNfree, f, disk, list);
      sNfree := sNfree - 1;
      bno := sFree[sNfree];
      TopOf(sNfree + 1, f, disk, list, bno);
      if bno == 0 {
        return 0;
      }
      if sNfree == 0 {
        PopLast(f, disk, list);
        var b := DRead(bno);
        IsGet(disk, bno);
        sNfree := BatchCount(b);
        CopyNumbers(b);
      } else {
        Pop(sNfree + 1, f, disk, list);
      }
      TakeHead(list);
      list := list[1..];
      ghost var d := disk;
      DWrite(bno, ZeroBlock());
      GetSet(d, bno, ZeroBlock());
      BatchSize(sNfree, sFree[..], d, list);
      ListsFrame(sNfree, sFree[..], d, disk, list);
    }

    method CopyNumbers(b: Block)
      requires Shape()
      modifies sFree
      ensures sFree[..] == BatchNumbers(b)
    {
      var i := 0;
      while i < NICFREE
        invariant 0 <= i <= NICFREE && forall j | 0 <= j < i :: sFree[j] == BatchNumbers(b)[j]
      {
        sFree[i] := b[i + 1];
        i := i + 1;
      }
    }

    /** Puts a block back. A superblock with no batch gets one that consists of the link to the block, into
        which nothing is written. */
    method BFree(bn: int, ghost end: int) returns (ghost end': int)
      requires Freeing(end) && bn != 0 && bn !in multiset(list)
      modifies this, cBlock, cTime, sFree
      ensures Freeing(end') && list == [bn] + old(list) && ChangedAt(old(disk), disk, bn)
      ensures multiset(list) == multiset(old(list)) + multiset{bn}
      ensures sNfree != 0 && end' == (if end == 0 && old(sNfree) == 0 then bn else end)
      ensures end' != 0 ==> Get(disk, end') == Get(old(disk), end')
    {
      hide Agrees, Get, Lists, Chained, Single, ChangedAt, BatchBlock;
      ghost var f, n, d := sFree[..], sNfree, disk;
      LinkedSize(sNfree, f, disk, list, end);
      PutHead(list, bn);
      if sNfree >= NICFREE {
        var b := BatchBlock(sNfree, sFree[..]);
        sNfree := 0;
        DWrite(bn, b);
        GetSet(d, bn, b);
      } else {
        Unwritten(d, bn);
      }
      sFree[sNfree] := bn;
      sNfree := sNfree + 1;
      end' := if end == 0 && n == 0 then bn else end;
      if n < NICFREE {
        assert sFree[..] == f[n := bn];
        PushLinked(n, f, d, list, bn, end);
      } else {
        SpillLinked(n, f, sFree[..], d, list, bn, end);
        OtherBlock(d, disk, bn, end, list);
      }
      list := [bn] + list;
    }

    // ---- Freeing a file

    method ReadFreeing(bno: int, ghost end: int) returns (b: Block)
      requires Freeing(end) && bno != 0
      modifies this`curcache, cBno, cBlock, cTime
      ensures Freeing(end) && b == Get(disk, bno)
    {
      hide Agrees, Get, Linked, Single;
      b := DRead(bno);
    }

    /** Frees what a slot of an indirect block leads to. */
    method FreeKid(nb: int, f1: bool, f2: bool, ghost end: int) returns (ghost end': int)
      requires Freeing(end) && nb != 0 && Single(multiset(list) + Blocks(disk, nb, TreeDepth(f1, f2) - 1))
      modifies this, cBno, cBlock, cTime, sFree
      ensures Freeing(end') && multiset(list) == multiset(old(list)) + Blocks(old(disk), nb, TreeDepth(f1, f2) - 1)
      ensures ChangedWithin(old(disk), disk, Blocks(old(disk), nb, TreeDepth(f1, f2) - 1))
      ensures sNfree != 0 && end' == EndAfter(end, old(sNfree), First(old(disk), nb, TreeDepth(f1, f2) - 1))
      ensures end' != 0 ==> Get(disk, end') == Get(old(disk), end')
      decreases TreeDepth(f1, f2), 0
    {
      hide Agrees, Get, Lists, Single, ChangedAt, Blocks, ChangedWithin, Freeing, Cached, Linked, First;
      ghost var d := disk;
      if f1 {
        end' := TLoop(nb, f2, false, end);
      } else {
        OneBlock(d, nb, list);
        end' := BFree(nb, end);
        OnlyThat(d, disk, nb);
        FirstOfData(d, nb);
      }
    }

    /** Frees a tree: every block of it goes to the free list, once, and no other block is written. */
    method TLoop(bn: int, f1: bool, f2: bool, ghost end: int) returns (ghost end': int)
      requires Freeing(end) && bn != 0 && Single(multiset(list) + Blocks(disk, bn, TreeDepth(f1, f2)))
      modifies this, cBno, cBlock, cTime, sFree
      ensures Freeing(end') && multiset(list) == multiset(old(list)) + Blocks(old(disk), bn, TreeDepth(f1, f2))
      ensures ChangedWithin(old(disk), disk, Blocks(old(disk), bn, TreeDepth(f1, f2)))
      ensures sNfree != 0 && end' == EndAfter(end, old(sNfree), First(old(disk), bn, TreeDepth(f1, f2)))
      ensures end' != 0 ==> Get(disk, end') == Get(old(disk), end')
      decreases TreeDepth(f1, f2), 1
    {
      hide Agrees, Get, Lists, Single, ChangedAt, Loosed, Kids, Blocks, ChangedWithin, Linked, First, FirstFrom, SameOn;
      hide Freed, Freeing, Cached, EndAfter;
      ghost var depth, disk0, list0, n0 := TreeDepth(f1, f2), disk, list, sNfree;
      ghost var all := Blocks(disk0, bn, depth);
      LoosedStart(disk0, list0, all);
      BlocksAre(disk0, bn, depth);
      var ibuf := ReadFreeing(bn, end);
      end' := end;
      NoneFreed(disk0, ibuf, depth - 1);
      FreedStart(disk0, end, n0);
      var i := NINDIR - 1;
      while i >= 0
        invariant -1 <= i < NINDIR && Freeing(end')
        invariant Loosed(disk0, list0, disk, list, all, Kids(disk0, ibuf, depth - 1, i + 1) + multiset{bn})
        invariant Freed(disk0, disk, end, n0, end', sNfree, FirstFrom(disk0, ibuf, depth - 1, i + 1))
      {
        var nb := ibuf[i];
        ghost var rest := Kids(disk0, ibuf, depth - 1, i) + multiset{bn};
        ghost var todo := Kids(disk0, ibuf, depth - 1, i + 1) + multiset{bn};
        TodoStep(disk0, ibuf, depth - 1, i, bn);
        FirstStep(disk0, ibuf, depth - 1, i);
        if nb != 0 {
          LoosedPart(disk0, list0, disk, list, all, todo, rest, nb, depth - 1);
          ghost var part, d, l, e, n := Blocks(disk0, nb, depth - 1), disk, list, end', sNfree;
          end' := FreeKid(nb, f1, f2, end');
          LoosedStep(disk0, list0, d, l, all, todo, rest, part, disk, list);
          FreedStep(disk0, d, disk, end, n0, e, n, end', sNfree, FirstFrom(disk0, ibuf, depth - 1, i + 1), nb, depth - 1);
        } else {
          NoBlocks(disk0, depth - 1);
          NoFirst(disk0, depth - 1);
          assert rest + multiset{} == rest;
        }
        i := i - 1;
      }
      NoKids(disk0, ibuf, depth - 1);
      BfreeLast(disk0, list0, disk, list, all, bn);
      ghost var d, l, e, n := disk, list, end', sNfree;
      end' := BFree(bn, end');
      OnlyThat(d, disk, bn);
      LoosedStep(disk0, list0, d, l, all, multiset{bn}, multiset{}, multiset{bn}, disk, list);
      LoosedEnd(disk0, list0, disk, list, all);
      FirstIs(disk0, bn, depth);
      FreedLast(disk0, d, disk, end, n0, e, n, end', sNfree, FirstFrom(disk0, ibuf, depth - 1, 0), bn);
    }

    /** Frees what the i'th entry of the block table leads to. */
    method FreeEntry(i: nat, bn: int, ghost end: int) returns (ghost end': int)
      requires Freeing(end) && bn != 0 && i < NADDR && Single(multiset(list) + Blocks(disk, bn, Depth(i)))
      modifies this, cBno, cBlock, cTime, sFree
      ensures Freeing(end') && multiset(list) == multiset(old(list)) + Blocks(old(disk), bn, Depth(i))
      ensures ChangedWithin(old(disk), disk, Blocks(old(disk), bn, Depth(i)))
      ensures sNfree != 0 && end' == EndAfter(end, old(sNfree), First(old(disk), bn, Depth(i)))
      ensures end' != 0 ==> Get(disk, end') == Get(old(disk), end')
    {
      hide Agrees, Get, Lists, Single, ChangedAt, Blocks, ChangedWithin, Depth, Freeing, Cached, Linked, First;
      DepthOf(i);
      if i == NADDR - 3 {
        end' := TLoop(bn, false, false, end);
      } else if i == NADDR - 2 {
        end' := TLoop(bn, true, false, end);
      } else if i == NADDR - 1 {
        end' := TLoop(bn, true, true, end);
      } else {
        ghost var d := disk;
        OneBlock(d, bn, list);
        end' := BFree(bn, end);
        OnlyThat(d, disk, bn);
        FirstOfData(d, bn);
      }
    }

    /** Frees a file: every block it owns goes to the superblock's batches, once. They are a free list again if
        and only if there was a batch to begin with, nothing has been freed, or the block freed first reads as
        an empty batch. */
    method ITrunc(table: array<int>, hasBlocks: bool, ghost end: int) returns (ghost end': int)
      requires Freeing(end) && table.Length == NADDR && table != cBno && table != cTime && table != sFree
      requires Single(multiset(list) + Owned(disk, table[..]))
      modifies this, cBno, cBlock, cTime, sFree
      ensures Freeing(end')
      ensures end' == EndAfter(end, old(sNfree), if hasBlocks then FirstFreed(old(disk), table[..], 0) else 0)
      ensures end' != 0 ==> Get(disk, end') == Get(old(disk), end')
      ensures Ready() <==> end' == 0 || ReadsEmpty(Get(old(disk), end'))
      ensures end == 0 ==> (Ready() <==> old(sNfree) != 0 || !hasBlocks || Owned(old(disk), table[..]) == multiset{}
                                         || ReadsEmpty(Get(old(disk), FirstFreed(old(disk), table[..], 0))))
      ensures hasBlocks ==> multiset(list) == multiset(old(list)) + Owned(old(disk), table[..])
      ensures hasBlocks ==> ChangedWithin(old(disk), disk, Owned(old(disk), table[..]))
      ensures !hasBlocks ==> list == old(list) && disk == old(disk)
    {
      hide Agrees, Get, Lists, Single, ChangedAt, Loosed, FileBlocks, Blocks, ChangedWithin, Depth, Freeing, Ready, Cached;
      hide Linked, Chained, First, FirstFreed, SameOn;
      end' := end;
      if hasBlocks {
        FirstIsOwned(disk, table[..]);
        end' := FreeAll(table, end);
      }
      RightAgain(end');
    }

    method FreeAll(table: array<int>, ghost end: int) returns (ghost end': int)
      requires Freeing(end) && table.Length == NADDR && table != cBno && table != cTime && table != sFree
      requires Single(multiset(list) + Owned(disk, table[..]))
      modifies this, cBno, cBlock, cTime, sFree
      ensures Freeing(end') && end' == EndAfter(end, old(sNfree), FirstFreed(old(disk), table[..], 0))
      ensures end' != 0 ==> Get(disk, end') == Get(old(disk), end')
      ensures multiset(list) == multiset(old(list)) + Owned(old(disk), table[..])
      ensures ChangedWithin(old(disk), disk, Owned(old(disk), table[..]))
    {
      hide Agrees, Get, Lists, Single, ChangedAt, Loosed, FileBlocks, Blocks, ChangedWithin, Depth, Freeing, Ready, Cached;
      hide Linked, Chained, First, FirstFreed, SameOn;
      ghost var disk0, list0, t, n0 := disk, list, table[..], sNfree;
      ghost var all := Owned(disk0, t);
      LoosedStart(disk0, list0, all);
      end' := end;
      NoneFreedYet(disk0, t);
      FreedStart(disk0, end, n0);
      var i := NADDR - 1;
      while i >= 0
        invariant -1 <= i < NADDR && Freeing(end')
        invariant Loosed(disk0, list0, disk, list, all, FileBlocks(disk0, t, i + 1))
        invariant Freed(disk0, disk, end, n0, end', sNfree, FirstFreed(disk0, t, i + 1))
      {
        var bn := table[i];
        ghost var rest, todo := FileBlocks(disk0, t, i), FileBlocks(disk0, t, i + 1);
        FileStep(disk0, t, i + 1);
        FirstFreedStep(disk0, t, i);
        if bn != 0 {
          LoosedPart(disk0, list0, disk, list, all, todo, rest, bn, Depth(i));
          ghost var part, d, l, e, n := Blocks(disk0, bn, Depth(i)), disk, list, end', sNfree;
          end' := FreeEntry(i, bn, end');
          LoosedStep(disk0, list0, d, l, all, todo, rest, part, disk, list);
          FreedStep(disk0, d, disk, end, n0, e, n, end', sNfree, FirstFreed(disk0, t, i + 1), bn, Depth(i));
        } else {
          NoBlocks(disk0, Depth(i));
          NoFirst(disk0, Depth(i));
          assert rest + multiset{} == rest;
        }
        i := i - 1;
      }
      NoFileBlocks(disk0, t);
      LoosedEnd(disk0, list0, disk, list, all);
    }

    /** The superblock's batches list what has been freed, and then whatever the unwritten batch lists. */
    lemma WhatIsListed(end: int, l: seq<int>)
      requires Freeing(end) && end != 0
      ensures Stands(sNfree, sFree[..], disk, l) <==>
              list <= l && end in disk && Lists(BatchCount(disk[end]), BatchNumbers(disk[end]), disk, l[|list|..])
    {
      hide Lists, Chained, Single, Agrees;
      EndOfChain(sNfree, sFree[..], disk, list, end);
      ChainLists(sNfree, sFree[..], disk, list, end, l);
    }

    lemma RightAgain(end: int)
      requires Freeing(end)
      ensures Ready() <==> end == 0 || ReadsEmpty(Get(disk, end))
    {
      hide Lists, Chained, Single, Agrees;
      if end != 0 {
        EndOfChain(sNfree, sFree[..], disk, list, end);
        ChainLists(sNfree, sFree[..], disk, list, end, list);
        if end in disk {
          EndsList(disk[end], disk);
        }
        assert list[|list|..] == [];
      }
    }

    // ---- Mapping a logical block

    /** One step through indirect block nb, which is d steps down the way to bn: the block in its slot i,
        a new one if there was none. */
    method Fetch(nb: int, i: nat, ghost disk0: map<int, Block>, ghost table0: Table, ghost table: Table,
                 ghost total: multiset<int>, ghost bn: nat, ghost d: nat, ghost want: set<nat>) returns (nnb: int)
      requires Ready() && Kept(disk0, table0, disk, table, list, total, bn)
      requires Root(bn) < NADDR && d < Depth(Root(bn)) && i == Digit(Offset(bn), Depth(Root(bn)) - d - 1)
      requires nb == Node(disk, table[Root(bn)], Depth(Root(bn)), d, Offset(bn)) != 0
      modifies this, cBno, cBlock, cTime, sFree
      ensures nnb == 0 ==> list == [] && Node(disk, table[Root(bn)], Depth(Root(bn)), d + 1, Offset(bn)) == 0
      ensures Kept(disk0, table0, disk, table, list, total, bn)
      ensures bn in want && old(UsefulFile(disk, table, want)) ==> UsefulFile(disk, table, want)
      ensures nnb != 0 ==> Ready() && nnb == Node(disk, table[Root(bn)], Depth(Root(bn)), d + 1, Offset(bn))
      ensures nnb != 0 && old(sNfree) != 0 ==> sNfree != 0
    {
      hide Agrees, Get, Lists, Single, Kept, Node, Root, Offset, Depth, Digit, ChangedAt, ZeroBlock, UsefulFile, Stands;
      var indir := DRead(nb);
      nnb := indir[i];
      NodeStep(disk, table[Root(bn)], Depth(Root(bn)), d, Offset(bn));
      if nnb == 0 {
        ghost var dk, l := disk, list;
        KeptApart(disk0, table0, dk, table, l, total, bn);
        NodeOwned(dk, table, Root(bn), d, Offset(bn));
        nnb := BAlloc();
        if nnb == 0 {
          return;
        }
        indir := indir[i := nnb];
        KeptNode(disk0, table0, dk, table, l, total, bn, disk, d, nb, indir);
        if bn in want && UsefulFile(dk, table, want) {
          NodeUseful(disk0, table0, dk, table, l, total, bn, disk, d, nb, indir, want);
        }
        ghost var d1 := disk;
        DWrite(nb, indir);
        InTail(l, nb);
        GetSet(d1, nb, indir);
        StandsFrame(sNfree, sFree[..], d1, disk, list);
      }
    }

    /** The number of levels of indirection: entry NADDR - j, and the offset x below it. */
    static method FindLevel(bn: nat) returns (j: nat, sh: int, x: nat)
      requires bn >= DIRECT
      ensures if j == 0 then bn >= MAX_FILE else LevelFound(bn, j, sh, x)
    {
      sh, x, j := 0, bn - (NADDR - 3), 3;
      var nb := 1;
      while j > 0
        invariant 0 <= j <= 3 && LevelAt(bn, j, sh, nb, x)
      {
        sh := sh + NSHIFT;
        nb := nb * NINDIR;
        if x < nb {
          break;
        }
        x := x - nb;
        j := j - 1;
      }
    }

    method MapDirect(table: array<int>, bn: nat, ghost want: set<nat>) returns (nb: int)
      requires Ready() && table.Length == NADDR && table != cBno && table != cTime && table != sFree && bn < DIRECT
      requires Single(Owned(disk, table[..]) + multiset(list))
      modifies this, cBno, cBlock, cTime, sFree, table
      ensures nb != 0 ==> Ready() && Walk(disk, table[..], bn) == nb && sNfree != 0
      ensures nb != 0 ==> Kept(old(disk), old(Without(table[..], bn)), disk, table[..], list,
                               old(Owned(disk, Without(table[..], bn)) + multiset(list)), bn)
      ensures nb != 0 && bn in want && old(UsefulFile(disk, Without(table[..], bn), want)) ==>
                UsefulFile(disk, table[..], want)
      ensures nb == 0 ==> table[..] == old(table[..]) && disk == old(disk) && list == old(list) == []
    {
      hide Agrees, Get, Lists, Single, Kept, Node, Root, Depth, ChangedAt, ZeroBlock, Owned, Walk, Without;
      hide Ready, Cached, Stands, UsefulFile;
      ghost var disk0, t0 := disk, Without(table[..], bn);
      ghost var total := Owned(disk, t0) + multiset(list);
      WithoutDirect(disk, table[..], bn);
      FewerBlocks(Owned(disk, table[..]), Owned(disk, t0), Lost(table[..], bn), multiset(list));
      KeptStart(disk, t0, list, bn);
      RootOf(bn);
      nb := BAlloc();
      if nb == 0 {
        return;
      }
      table[bn] := nb;
      WithoutIs(old(table[..]), bn);
      assert table[..] == t0[bn := nb];
      KeptRoot(disk0, t0, disk0, t0, old(list), total, bn, disk, bn);
      if bn in want && UsefulFile(disk0, t0, want) {
        RootUseful(disk0, t0, disk0, t0, old(list), total, bn, disk, bn, want);
      }
      DirectWalk(disk, table[..], bn);
    }

    /** The indirect block in entry s of the table, a new one if there was none. */
    method Enter(table: array<int>, s: nat, ghost bn: nat, ghost want: set<nat>) returns (nb: int)
      requires Ready() && table.Length == NADDR && table != cBno && table != cTime && table != sFree
      requires DIRECT <= s < NADDR && Root(bn) == s && Single(Owned(disk, table[..]) + multiset(list))
      modifies this, cBno, cBlock, cTime, sFree, table
      ensures nb != 0 ==> Ready() && table[s] == nb && (old(sNfree) != 0 ==> sNfree != 0)
      ensures Kept(old(disk), old(table[..]), disk, table[..], list, old(Owned(disk, table[..]) + multiset(list)), bn)
      ensures bn in want && old(UsefulFile(disk, table[..], want)) ==> UsefulFile(disk, table[..], want)
      ensures nb == 0 ==> list == [] && Walk(disk, table[..], bn) == 0
    {
      hide Agrees, Get, Lists, Single, Kept, Node, Root, Offset, Depth, ChangedAt, ZeroBlock, Owned, Walk;
      hide Ready, Cached, Stands, UsefulFile;
      ghost var disk0, t0, l0: seq<int> := disk, table[..], list;
      ghost var total := Owned(disk, t0) + multiset(list);
      KeptStart(disk, t0, list, bn);
      nb := table[s];
      if nb == 0 {
        nb := BAlloc();
        if nb == 0 {
          NodeStart(disk, table[s], Depth(s), Offset(bn));
          NoWay(disk, table[..], bn, 0);
          return;
        }
        table[s] := nb;
        assert table[..] == t0[s := nb];
        DepthOf(s);
        KeptRoot(disk0, t0, disk0, t0, l0, total, bn, disk, s);
        if bn in want && UsefulFile(disk0, t0, want) {
          RootUseful(disk0, t0, disk0, t0, l0, total, bn, disk, s, want);
        }
      }
    }

    /** Down the indirect blocks from entry NADDR - j to the block with offset x below it. */
    method Descend(first: int, level: nat, shift: int, x: nat, ghost disk0: map<int, Block>, ghost t0: Table, ghost t: Table,
                   ghost total: multiset<int>, ghost bn: nat, ghost want: set<nat>) returns (nb: int)
      requires Ready() && Kept(disk0, t0, disk, t, list, total, bn)
      requires 1 <= level <= 3 && Root(bn) == NADDR - level && Depth(Root(bn)) == 4 - level && Offset(bn) == x
      requires shift == NSHIFT * (4 - level) && t[NADDR - level] == first != 0
      modifies this, cBno, cBlock, cTime, sFree
      ensures Kept(disk0, t0, disk, t, list, total, bn)
      ensures bn in want && old(UsefulFile(disk, t, want)) ==> UsefulFile(disk, t, want)
      ensures nb != 0 ==> Ready() && Walk(disk, t, bn) == nb && (old(sNfree) != 0 ==> sNfree != 0)
      ensures nb == 0 ==> list == [] && Walk(disk, t, bn) == 0
    {
      hide Agrees, Get, Lists, Single, Kept, Node, Root, Offset, Depth, Digit, Owned, Walk, Size, Pow2;
      hide Ready, Cached, Stands, UsefulFile;
      nb := first;
      var j, sh := level, shift;
      ghost var s, depth, d: nat := Root(bn), Depth(Root(bn)), 0;
      NodeStart(disk, t[s], depth, x);
      while j <= 3
        invariant d <= depth && j == 4 - (depth - d) && sh == NSHIFT * (depth - d)
        invariant Ready() && nb == Node(disk, t[s], depth, d, x) != 0
        invariant Kept(disk0, t0, disk, t, list, total, bn)
        invariant old(sNfree) != 0 ==> sNfree != 0
        invariant bn in want && old(UsefulFile(disk, t, want)) ==> UsefulFile(disk, t, want)
        decreases 4 - j
      {
        sh := sh - NSHIFT;
        DigitShift(x, sh, depth - d - 1);
        var i := (x / Pow2(sh)) % (NMASK + 1);
        nb := Fetch(nb, i, disk0, t0, t, total, bn, d, want);
        if nb == 0 {
          NoWay(disk, t, bn, d + 1);
          return;
        }
        d := d + 1;
        j := j + 1;
      }
      WalkIs(disk, t, bn);
    }

    /** The block for logical block bn, with the indirect blocks that lead to it; 0 when the file cannot be
        that long. It stops when every free block has been used. A direct block always gets a new block. */
    method BMap(table: array<int>, bn: nat, ghost want: set<nat>) returns (nb: int, ok: bool)
      requires Ready() && table.Length == NADDR && table != cBno && table != cTime && table != sFree
      requires Single(Owned(disk, table[..]) + multiset(list))
      modifies this, cBno, cBlock, cTime, sFree, table
      ensures ok ==> Ready() && Walk(disk, table[..], bn) == nb && (nb == 0 <==> bn >= MAX_FILE)
      ensures ok && old(sNfree) != 0 ==> sNfree != 0
      ensures ok ==> Kept(old(disk), old(Without(table[..], bn)), disk, table[..], list,
                          old(Owned(disk, Without(table[..], bn)) + multiset(list)), bn)
      ensures bn in want && old(UsefulFile(disk, Without(table[..], bn), want)) && (ok || bn >= DIRECT) ==>
                UsefulFile(disk, table[..], want)
      ensures !ok ==> list == [] && (bn >= DIRECT ==> Walk(disk, table[..], bn) == 0)
      ensures bn >= MAX_FILE ==> ok && table[..] == old(table[..]) && disk == old(disk) && list == old(list)
      ensures !ok && bn < DIRECT ==> table[..] == old(table[..]) && disk == old(disk) && old(list) == []
      ensures !ok && bn >= DIRECT ==> Kept(old(disk), old(table[..]), disk, table[..], list,
                                           old(Owned(disk, table[..]) + multiset(list)), bn)
    {
      hide Agrees, Get, Lists, Single, Kept, Node, Root, Offset, Depth, Owned, Walk, Without;
      hide Ready, Cached, Stands, LevelFound, UsefulFile;
      ghost var disk0, t0: Table := disk, table[..];
      ghost var total := Owned(disk, t0) + multiset(list);
      RootOf(bn);
      ok := true;
      if bn < NADDR - 3 {
        nb := MapDirect(table, bn, want);
        ok := nb != 0;
        return;
      }
      WithoutIs(t0, bn);
      var j, sh, x := FindLevel(bn);
      if j == 0 {
        KeptStart(disk, t0, list, bn);
        WalkNone(disk, table[..], bn);
        return 0, true;
      }
      FoundRoot(bn, j, sh, x);
      nb := Enter(table, NADDR - j, bn, want);
      if nb == 0 {
        return nb, false;
      }
      nb := Descend(nb, j, sh, x, disk0, t0, table[..], total, bn, want);
      ok := nb != 0;
    }

    // ---- Restoring a file

    /** Restores a file from its blocks on the tape, where None is a block that was never written. What
        the tape has beyond the greatest length of a file is written to block 0. */
    method RestoreFile(table: array<int>, tape: seq<Option<Block>>) returns (ok: bool)
      requires Ready() && table.Length == NADDR && table != cBno && table != cTime && table != sFree
      requires table[..] == EmptyTable()
      modifies this, cBno, cBlock, cTime, sFree, table
      ensures ok ==> Ready() && Restored(disk, table[..], InFile(tape), |InFile(tape)|)
      ensures ok && old(sNfree) != 0 ==> sNfree != 0
      ensures ok ==> Owned(disk, table[..]) + multiset(list) == multiset(old(list))
      ensures ok <==> |old(list)| >= Needs(Wanted(tape, |tape|))
      ensures ok ==> |Owned(disk, table[..])| == Needs(Wanted(tape, |tape|))
      ensures ok ==> ChangedWithin(old(disk), disk, multiset(old(list)) + multiset{0})
      ensures ok ==> Get(disk, 0) == LastBeyond(tape, |tape|, Get(old(disk), 0))
      ensures !ok ==> list == [] && Owned(disk, table[..]) == multiset(old(list))
    {
      hide Agrees, Get, Lists, Single, Kept, ChangedAt, Owned, Walk, ChangedWithin, Restored, Without, Restoring;
      hide UsefulFile, Needs, Wanted, Stands;
      ghost var disk0, total := disk, multiset(list);
      RestoringStart(disk, table[..], list, tape);
      ok := true;
      var curbno := 0;
      while curbno < |tape|
        invariant 0 <= curbno <= |tape| && Ready()
        invariant Restoring(disk0, disk, table[..], list, tape, curbno, total)
        invariant old(sNfree) != 0 ==> sNfree != 0
      {
        if tape[curbno].Some? {
          ok := RestoreBlock(table, tape, curbno, disk0, total);
          if !ok {
            return;
          }
        } else {
          RestoringSkip(disk0, disk, table[..], list, tape, curbno, total);
        }
        curbno := curbno + 1;
      }
      RestoringEnd(disk0, disk, table[..], list, tape, total);
    }

    method RestoreBlock(table: array<int>, tape: seq<Option<Block>>, curbno: nat, ghost disk0: map<int, Block>,
                        ghost total: multiset<int>)
      returns (ok: bool)
      requires Ready() && table.Length == NADDR && table != cBno && table != cTime && table != sFree
      requires curbno < |tape| && tape[curbno].Some? && Restoring(disk0, disk, table[..], list, tape, curbno, total)
      modifies this, cBno, cBlock, cTime, sFree, table
      ensures ok ==> Ready() && Restoring(disk0, disk, table[..], list, tape, curbno + 1, total)
      ensures ok && old(sNfree) != 0 ==> sNfree != 0
      ensures !ok ==> list == [] && Owned(disk, table[..]) == total && |total| < Needs(Wanted(tape, |tape|))
    {
      hide Agrees, Get, Lists, Single, Kept, ChangedAt, Owned, Walk, ChangedWithin, Restored, Without, Restoring;
      hide UsefulFile, Needs, Stands;
      ghost var d0, t0, l0 := disk, table[..], list;
      RestoringNext(disk0, d0, t0, l0, tape, curbno, total);
      var d;
      d, ok := BMap(table, curbno, Wanted(tape, curbno + 1));
      if !ok {
        OutOfSpace(d0, t0, disk, table[..], list, total, curbno);
        TooFewBlocks(disk, table[..], tape, curbno);
        return;
      }
      ghost var d1 := disk;
      var b := tape[curbno].value;
      if curbno < MAX_FILE {
        KeptApart(d0, t0, d1, table[..], list, total, curbno);
        WalkIn(d1, table[..], curbno);
      } else {
        NoZero(list);
      }
      DWrite(d, b);
      GetSet(d1, d, b);
      StandsFrame(sNfree, sFree[..], d1, disk, list);
      if curbno < MAX_FILE {
        RestoringOne(disk0, d0, t0, l0, d1, table[..], list, total, tape, curbno, disk);
      } else {
        RestoringBeyond(disk0, d1, table[..], list, total, tape, curbno, disk);
      }
    }
  }

  /** The part of the tape that a file can hold. */
  function InFile(tape: seq<Option<Block>>): (file: seq<Option<Block>>) {
    if |tape| <= MAX_FILE then tape else tape[..MAX_FILE]
  }

  /** The last of the first n blocks of the tape that does not fit into the file, or b if they all fit. */
  function LastBeyond(tape: seq<Option<Block>>, n: nat, b: Block): Block
    requires n <= |tape|
  {
    if n <= MAX_FILE then b
    else if tape[n - 1].Some? then tape[n - 1].value
    else LastBeyond(tape, n - 1, b)
  }

  /** The logical blocks that the first n blocks of the tape are for. */
  function Wanted(tape: seq<Option<Block>>, n: nat): set<nat> {
    set y: nat | y < n && y < |tape| && y < MAX_FILE && tape[y].Some?
  }

  /** How far the file has got after the first n blocks of the tape; total is what it and the free list have. */
  ghost predicate Restoring(was: map<int, Block>, disk: map<int, Block>, table: Table, list: seq<int>,
                            tape: seq<Option<Block>>, n: nat, total: multiset<int>)
  {
    && n <= |tape| && Restored(disk, table, InFile(tape), if n < |InFile(tape)| then n else |InFile(tape)|)
    && Single(total) && Owned(disk, table) + multiset(list) == total
    && ChangedWithin(was, disk, total + multiset{0}) && Get(disk, 0) == LastBeyond(tape, n, Get(was, 0))
    && UsefulFile(disk, table, Wanted(tape, n))
  }

  lemma RestoringStart(disk: map<int, Block>, table: Table, list: seq<int>, tape: seq<Option<Block>>)
    requires table == EmptyTable() && Single(multiset(list))
    ensures Restoring(disk, disk, table, list, tape, 0, multiset(list))
  {
    NothingRestored(disk, table, InFile(tape));
    UsefulStart(disk, Wanted(tape, 0));
    hide Owned, Get, Walk, UsefulFile;
    NothingWritten(disk, multiset(list) + multiset{0});
    assert multiset{} + multiset(list) == multiset(list);
  }

  lemma RestoringSkip(was: map<int, Block>, disk: map<int, Block>, table: Table, list: seq<int>,
                      tape: seq<Option<Block>>, n: nat, total: multiset<int>)
    requires n < |tape| && tape[n].None? && Restoring(was, disk, table, list, tape, n, total)
    ensures Restoring(was, disk, table, list, tape, n + 1, total)
  {
    hide Owned, Get, Restored, ChangedWithin, Single, UsefulFile;
    assert Wanted(tape, n + 1) == Wanted(tape, n);
    if n < |InFile(tape)| {
      SkippedOne(disk, table, InFile(tape), n);
    }
  }

  lemma RestoringEnd(was: map<int, Block>, disk: map<int, Block>, table: Table, list: seq<int>,
                     tape: seq<Option<Block>>, total: multiset<int>)
    requires Restoring(was, disk, table, list, tape, |tape|, total)
    ensures Restored(disk, table, InFile(tape), |InFile(tape)|) && Owned(disk, table) + multiset(list) == total
    ensures ChangedWithin(was, disk, total + multiset{0}) && Get(disk, 0) == LastBeyond(tape, |tape|, Get(was, 0))
    ensures |Owned(disk, table)| == Needs(Wanted(tape, |tape|)) <= |total|
  {
    hide Owned, Get, ChangedWithin, Single, LastBeyond, UsefulFile, Walk, Needs;
    var want := Wanted(tape, |tape|);
    CountFile(disk, table, want);
    forall y | y in want
      ensures Walk(disk, table, y) != 0
    {
      assert HoldsBlock(disk, table, Walk(disk, table, y), InFile(tape)[y]);
    }
    assert |Owned(disk, table) + multiset(list)| == |Owned(disk, table)| + |multiset(list)|;
  }

  /** Without the block for n, the file takes fewer blocks than the tape needs. */
  lemma TooFewBlocks(disk: map<int, Block>, table: Table, tape: seq<Option<Block>>, n: nat)
    requires n < |tape| && n < MAX_FILE && tape[n].Some?
    requires UsefulFile(disk, table, Wanted(tape, n + 1)) && Walk(disk, table, n) == 0
    ensures |Owned(disk, table)| < Needs(Wanted(tape, |tape|))
  {
    hide Owned, UsefulFile, Walk, NeedEntries;
    CountFile(disk, table, Wanted(tape, n + 1));
    assert n in Wanted(tape, n + 1);
    NeedMoreEntries(Wanted(tape, n + 1), Wanted(tape, |tape|), NADDR);
  }

  /** For a tape without holes the blocks needed are those du counts. */
  lemma WithoutHoles(tape: seq<Option<Block>>)
    requires forall y | 0 <= y < |tape| :: tape[y].Some?
    ensures Needs(Wanted(tape, |tape|)) == BlockCount.Total(if |tape| < MAX_FILE then |tape| else MAX_FILE)
  {
    hide Needs;
    var n := if |tape| < MAX_FILE then |tape| else MAX_FILE;
    assert Wanted(tape, |tape|) == UpTo(n);
    NeedsUpTo(n);
  }

  /** What bmap asks for. */
  lemma RestoringNext(was: map<int, Block>, disk: map<int, Block>, table: Table, list: seq<int>,
                      tape: seq<Option<Block>>, n: nat, total: multiset<int>)
    requires n < |tape| && Restoring(was, disk, table, list, tape, n, total)
    ensures Single(Owned(disk, table) + multiset(list)) && Owned(disk, table) + multiset(list) == total
    ensures Without(table, n) == table && UsefulFile(disk, table, Wanted(tape, n + 1))
    ensures n < DIRECT ==> Walk(disk, table, n) == 0
  {
    hide Owned, Get, ChangedWithin, Single, LastBeyond, Walk, UsefulFile;
    UsefulFileMore(disk, table, Wanted(tape, n), Wanted(tape, n + 1));
    if n < DIRECT {
      DirectWalk(disk, table, n);
      ToRestore(disk, table, InFile(tape), n);
      assert table[n := 0] == table;
    }
  }

  lemma NoZero(list: seq<int>)
    requires Single(multiset(list))
    ensures 0 !in list
  {
    assert 0 in list <==> 0 in multiset(list);
  }

  lemma RestoringOne(was: map<int, Block>, d0: map<int, Block>, t0: Table, l0: seq<int>, d1: map<int, Block>, table: Table,
                     list: seq<int>, total: multiset<int>, tape: seq<Option<Block>>, n: nat, disk: map<int, Block>)
    requires n < |tape| && n < MAX_FILE && tape[n].Some? && Restoring(was, d0, t0, l0, tape, n, total)
    requires Kept(d0, t0, d1, table, list, total, n) && Walk(d1, table, n) != 0
    requires ChangedAt(d1, disk, Walk(d1, table, n)) && Get(disk, Walk(d1, table, n)) == tape[n].value
    requires UsefulFile(d1, table, Wanted(tape, n + 1))
    ensures Restoring(was, disk, table, list, tape, n + 1, total)
  {
    hide Walk, Get, Owned, Restored, ChangedWithin, Kept, ChangedAt, UsefulFile;
    KeptApart(d0, t0, d1, table, list, total, n);
    UsefulData(d1, disk, table, n, Wanted(tape, n + 1));
    WroteOne(was, d0, t0, d1, table, list, total, InFile(tape), n, disk);
    ZeroStays(d0, t0, d1, table, list, total, n, disk);
  }

  lemma ZeroStays(d0: map<int, Block>, t0: Table, d1: map<int, Block>, table: Table, list: seq<int>, total: multiset<int>,
                  n: nat, disk: map<int, Block>)
    requires Kept(d0, t0, d1, table, list, total, n) && Walk(d1, table, n) != 0 && ChangedAt(d1, disk, Walk(d1, table, n))
    ensures Get(disk, 0) == Get(d0, 0)
  {
    hide Walk, Get, Owned, SameBlock;
  }

  /** A block the file does not own can be written without changing the file. */
  lemma RestoringBeyond(was: map<int, Block>, d1: map<int, Block>, table: Table, list: seq<int>, total: multiset<int>,
                        tape: seq<Option<Block>>, n: nat, disk: map<int, Block>)
    requires MAX_FILE <= n < |tape| && tape[n].Some? && Restoring(was, d1, table, list, tape, n, total)
    requires ChangedAt(d1, disk, 0) && Get(disk, 0) == tape[n].value
    ensures Restoring(was, disk, table, list, tape, n + 1, total)
  {
    hide Walk, Get, Owned, UsefulFile;
    var file := InFile(tape);
    OnlyOwned(d1, table, list, total);
    assert SameOn(d1, disk, Owned(d1, table));
    assert Wanted(tape, n + 1) == Wanted(tape, n);
    UsefulFileFrame(d1, disk, table, Wanted(tape, n));
    forall y: nat
      ensures HoldsBlock(disk, table, Walk(disk, table, y), if y < |file| then file[y] else None)
    {
      FileFrame(d1, disk, table, y);
      assert HoldsBlock(d1, table, Walk(d1, table, y), if y < |file| then file[y] else None);
      if Walk(d1, table, y) != 0 {
        WalkIn(d1, table, y);
      }
    }
    FileFrame(d1, disk, table, 0);
  }

  lemma OnlyOwned(disk: map<int, Block>, table: Table, list: seq<int>, total: multiset<int>)
    requires Single(total) && Owned(disk, table) + multiset(list) == total
    ensures 0 !in Owned(disk, table)
  {
    hide Owned;
    assert total[0] == Owned(disk, table)[0] + multiset(list)[0];
  }

  /** The file has the first n blocks of the tape, and no others. */
  ghost predicate Restored(disk: map<int, Block>, table: Table, tape: seq<Option<Block>>, n: nat)
    requires n <= |tape|
  {
    forall y: nat :: HoldsBlock(disk, table, Walk(disk, table, y), if y < n then tape[y] else None)
  }

  ghost predicate HoldsBlock(disk: map<int, Block>, table: Table, w: int, b: Option<Block>) {
    if b.Some? then w != 0 && Get(disk, w) == b.value else w == 0
  }

  /** The file has the whole tape if and only if nothing was written to the tape beyond the greatest
      length of a file. */
  lemma AllRestored(disk: map<int, Block>, table: Table, tape: seq<Option<Block>>)
    requires Restored(disk, table, InFile(tape), |InFile(tape)|)
    ensures Restored(disk, table, tape, |tape|) <==> forall k | MAX_FILE <= k < |tape| :: tape[k].None?
  {
    hide Get, Walk;
    var file := InFile(tape);
    forall y: nat
      ensures HoldsBlock(disk, table, Walk(disk, table, y), if y < |file| then file[y] else None)
      ensures y >= MAX_FILE ==> Walk(disk, table, y) == 0
    {
      if y >= MAX_FILE {
        OffsetFits(y);
        WalkNone(disk, table, y);
      }
    }
    if k :| MAX_FILE <= k < |tape| && tape[k].Some? {
      assert !HoldsBlock(disk, table, Walk(disk, table, k), tape[k]);
    }
  }

  lemma NothingRestored(disk: map<int, Block>, table: Table, tape: seq<Option<Block>>)
    requires table == EmptyTable()
    ensures Restored(disk, table, tape, 0) && Owned(disk, table) == multiset{}
  {
    NoneOwned(disk, table, NADDR);
    hide Node, Get, Digit, Blocks;
    forall y: nat
      ensures Walk(disk, table, y) == 0
    {
      if Root(y) < NADDR {
        WalkIs(disk, table, y);
        NoNode(disk, Depth(Root(y)), Offset(y));
      }
    }
  }

  lemma {:induction false} NoneOwned(disk: map<int, Block>, table: Table, k: nat)
    requires k <= NADDR && forall i | 0 <= i < k :: table[i] == 0
    ensures FileBlocks(disk, table, k) == multiset{}
  {
    if k > 0 {
      NoneOwned(disk, table, k - 1);
    }
  }

  lemma OutOfSpace(d0: map<int, Block>, t0: Table, disk: map<int, Block>, table: Table, list: seq<int>,
                   total: multiset<int>, bn: nat)
    requires list == [] && (Kept(d0, t0, disk, table, list, total, bn) || Owned(disk, table) == total)
    ensures Owned(disk, table) == total
  {
    hide Owned, Walk, Get, SameBlock;
    assert Owned(disk, table) + multiset{} == Owned(disk, table);
  }

  lemma NothingWritten(disk: map<int, Block>, m: multiset<int>)
    ensures ChangedWithin(disk, disk, m)
  {
  }

  /** A direct block that is still to be restored has no block yet. */
  lemma ToRestore(disk: map<int, Block>, table: Table, tape: seq<Option<Block>>, n: nat)
    requires n < |tape| && Restored(disk, table, tape, n)
    ensures n < DIRECT ==> table[n] == 0
  {
    assert HoldsBlock(disk, table, Walk(disk, table, n), None);
    if n < DIRECT {
      DirectWalk(disk, table, n);
    }
  }

  lemma SkippedOne(disk: map<int, Block>, table: Table, tape: seq<Option<Block>>, n: nat)
    requires n < |tape| && Restored(disk, table, tape, n) && tape[n].None?
    ensures Restored(disk, table, tape, n + 1)
  {
    hide Walk, Get;
  }

  lemma WroteOne(was: map<int, Block>, d0: map<int, Block>, t0: Table, d1: map<int, Block>, table: Table, list: seq<int>,
                 total: multiset<int>, tape: seq<Option<Block>>, n: nat, disk: map<int, Block>)
    requires n < |tape| && tape[n].Some? && Restored(d0, t0, tape, n) && Kept(d0, t0, d1, table, list, total, n)
    requires ChangedWithin(was, d0, total + multiset{0}) && Walk(d1, table, n) != 0
    requires ChangedAt(d1, disk, Walk(d1, table, n)) && Get(disk, Walk(d1, table, n)) == tape[n].value
    ensures Restored(disk, table, tape, n + 1) && Owned(disk, table) + multiset(list) == total
    ensures ChangedWithin(was, disk, total + multiset{0})
  {
    hide Walk, Get, Owned, Single;
    var w := Walk(d1, table, n);
    KeptApart(d0, t0, d1, table, list, total, n);
    WalkIn(d1, table, n);
    WriteData(d1, disk, table, n, n);
    forall y: nat
      ensures HoldsBlock(disk, table, Walk(disk, table, y), if y < n + 1 then tape[y] else None)
    {
      WriteData(d1, disk, table, n, y);
      if y != n {
        KeptOne(d0, t0, d1, table, list, total, n, y);
        assert HoldsBlock(d0, t0, Walk(d0, t0, y), if y < n then tape[y] else None);
        if Walk(d1, table, y) == w {
          WalkApart(d1, table, n, y);
        }
      }
    }
  }

  /** The block freed first is one of the file's; there is none when the file has no blocks. */
  lemma FirstIsOwned(disk: map<int, Block>, table: Table)
    ensures FirstFreed(disk, table, 0) == 0 <==> Owned(disk, table) == multiset{}
    ensures FirstFreed(disk, table, 0) != 0 ==> FirstFreed(disk, table, 0) in Owned(disk, table)
  {
    hide Owned, FirstFreed;
    FirstWithin(disk, table, 0);
    if Owned(disk, table) == multiset{} {
      NothingTaken(disk, table, []);
    } else if FirstFreed(disk, table, 0) == 0 {
      NoneOwned(disk, table, NADDR);
      OwnedIs(disk, table);
    }
  }

  lemma OwnedIs(disk: map<int, Block>, table: Table)
    ensures Owned(disk, table) == FileBlocks(disk, table, NADDR)
  {
  }

  lemma {:induction false} FirstWithin(disk: map<int, Block>, table: Table, k: nat)
    requires k <= NADDR
    ensures FirstFreed(disk, table, k) != 0 ==> FirstFreed(disk, table, k) in Owned(disk, table)
    ensures FirstFreed(disk, table, k) == 0 ==> forall i | k <= i < NADDR :: table[i] == 0
    decreases NADDR - k
  {
    hide Owned, First, FirstFreed, Blocks, Depth;
    if k == NADDR {
      NoneFreedYet(disk, table);
    } else {
      FirstWithin(disk, table, k + 1);
      FirstFreedStep(disk, table, k);
      FirstFrame(disk, disk, table[k], Depth(k));
      FirstNotZero(disk, table[k], Depth(k));
      RootWithin(disk, table, k);
    }
  }

  lemma NothingTaken(disk: map<int, Block>, table: Table, list: seq<int>)
    requires Owned(disk, table) + multiset(list) == multiset{}
    ensures FirstFreed(disk, table, 0) == 0
  {
    hide Owned, First;
    forall i | 0 <= i < NADDR
      ensures First(disk, table[i], Depth(i)) == 0
    {
      NoneOfIt(disk, table, list, i);
      NoFirst(disk, Depth(i));
    }
    NothingFreed(disk, table, 0);
  }

  lemma NoneOfIt(disk: map<int, Block>, table: Table, list: seq<int>, i: nat)
    requires Owned(disk, table) + multiset(list) == multiset{} && i < NADDR
    ensures table[i] == 0
  {
    hide Owned, First, Blocks;
    assert (Owned(disk, table) + multiset(list))[table[i]] == 0;
    RootWithin(disk, table, i);
    if table[i] != 0 {
      NodeIn(disk, table[i], Depth(i), 0, 0);
    }
  }

  lemma {:induction false} NothingFreed(disk: map<int, Block>, table: Table, k: nat)
    requires k <= NADDR && forall i | k <= i < NADDR :: First(disk, table[i], Depth(i)) == 0
    ensures FirstFreed(disk, table, k) == 0
    decreases NADDR - k
  {
    hide First, Depth;
    if k < NADDR {
      NothingFreed(disk, table, k + 1);
    }
  }

  /** A file restored and then freed gives back exactly the blocks it took. */
  method RestoreThenTruncate(r: Restorer, tape: seq<Option<Block>>) returns (ok: bool)
    requires r.Ready()
    modifies r, r.cBno, r.cBlock, r.cTime, r.sFree
    ensures ok ==> r.Ready() && multiset(r.list) == multiset(old(r.list))
    ensures !ok ==> r.list == []
  {
    hide Agrees, Get, Lists, Owned, Walk, ChangedWithin, Restored, Chained, FirstFreed, Single;
    var table := new int[NADDR](_ => 0);
    ok := r.RestoreFile(table, tape);
    if ok {
      assert multiset(r.list) + Owned(r.disk, table[..]) == Owned(r.disk, table[..]) + multiset(r.list);
      if r.sNfree == 0 {
        NothingTaken(r.disk, table[..], r.list);
      }
      ghost var end := r.ITrunc(table, true, 0);
    }
  }

  /** A full volume as the kernel leaves it, with no batch in the superblock. Its file has block 5, whose first
      word is 777. Freed, the block is the link to a batch of 777 blocks, and the superblock stands for no list. */
  method FullVolume() returns (r: Restorer)
    ensures multiset(r.list) == multiset{5} && !r.Ready() && forall l :: !Stands(r.sNfree, r.sFree[..], r.disk, l)
  {
    hide Agrees, Chained, FileBlocks, FirstFreed, ChangedWithin;
    var disk: map<int, Block> := map[5 := ZeroBlock()[0 := 777]];
    var table := new int[NADDR](_ => 0);
    table[0] := 5;
    r := new Restorer(disk, 0, seq(NICFREE, _ => 0), []);
    OneBlockFile(disk, table[..]);
    assert multiset(r.list) == multiset{};
    ghost var end := r.ITrunc(table, true, 0);
    assert end == 5 && BatchCount(Get(disk, 5)) == 777;
    assert multiset{} + multiset{5} == multiset{5};
    forall l
      ensures !Stands(r.sNfree, r.sFree[..], r.disk, l)
    {
      r.WhatIsListed(end, l);
      IsGet(r.disk, end);
    }
  }

  lemma OneBlockFile(disk: map<int, Block>, table: Table)
    requires table == EmptyTable()[0 := 5]
    ensures Owned(disk, table) == multiset{5} && FirstFreed(disk, table, 0) == 5
  {
    var empty := EmptyTable();
    NoneOwned(disk, empty, NADDR);
    NoBlocks(disk, 0);
    forall i | 1 <= i < NADDR
      ensures table[i] == 0 && First(disk, table[i], Depth(i)) == 0
    {
      NoFirst(disk, Depth(i));
    }
    NothingFreed(disk, table, 1);
    FirstFreedStep(disk, table, 0);
    FirstOfData(disk, 5);
    hide FileBlocks, FirstFreed;
    FileGain(disk, disk, empty, table, NADDR, 0, multiset{5});
  }

  /** The table as bmap takes it: the entry of a direct block counts as empty. */
  function Without(table: Table, bn: nat): Table {
    if bn < DIRECT then table[bn := 0] else table
  }

  /** The block that was in the entry. */
  function Lost(table: Table, bn: nat): multiset<int> {
    if bn < DIRECT && table[bn] != 0 then multiset{table[bn]} else multiset{}
  }

  lemma WithoutIs(table: Table, bn: nat)
    ensures Without(table, bn) == if bn < DIRECT then table[bn := 0] else table
  {
  }

  lemma WithoutDirect(disk: map<int, Block>, table: Table, bn: nat)
    ensures Owned(disk, table) == Owned(disk, Without(table, bn)) + Lost(table, bn)
    ensures forall y: nat | y != bn :: Walk(disk, Without(table, bn), y) == Walk(disk, table, y)
  {
    hide Blocks, FileBlocks, Node, Lost, Walk, Without, Depth;
    WithoutIs(table, bn);
    if bn < DIRECT {
      var t: Table := table[bn := 0];
      LostBlock(disk, table, bn);
      FileGain(disk, disk, t, table, NADDR, bn, Lost(table, bn));
      forall y: nat | y != bn
        ensures Walk(disk, t, y) == Walk(disk, table, y)
      {
        OtherWalk(disk, table, bn, y);
      }
    } else {
      assert Owned(disk, table) + multiset{} == Owned(disk, table);
      NothingIn(table, bn);
    }
  }

  lemma NothingIn(table: Table, bn: nat)
    ensures bn >= DIRECT ==> Lost(table, bn) == multiset{}
  {
  }

  lemma LostBlock(disk: map<int, Block>, table: Table, bn: nat)
    requires bn < DIRECT
    ensures Blocks(disk, table[bn], Depth(bn)) == Blocks(disk, 0, Depth(bn)) + Lost(table, bn)
  {
    NoBlocks(disk, 0);
  }

  lemma OtherWalk(disk: map<int, Block>, table: Table, bn: nat, y: nat)
    requires bn < DIRECT && y != bn
    ensures Walk(disk, table[bn := 0], y) == Walk(disk, table, y)
  {
    hide Node;
  }

  lemma FewerBlocks(all: multiset<int>, rest: multiset<int>, lost: multiset<int>, list: multiset<int>)
    requires all == rest + lost && Single(all + list)
    ensures Single(rest + list)
  {
    assert forall b :: (rest + list)[b] + lost[b] == (all + list)[b];
  }

  /** Mapping a block loses no block of the file and the free list, except when it maps a direct block
      that is already there: then the old one is in neither. */
  lemma NothingLost(disk0: map<int, Block>, table0: Table, list0: seq<int>, disk: map<int, Block>, table: Table,
                    list: seq<int>, bn: nat)
    requires Single(Owned(disk0, table0) + multiset(list0))
    requires Kept(disk0, Without(table0, bn), disk, table, list, Owned(disk0, Without(table0, bn)) + multiset(list0), bn)
    ensures Owned(disk, table) + multiset(list) == Owned(disk0, table0) + multiset(list0)
       <==> bn >= DIRECT || table0[bn] == 0
  {
    hide Owned, Without, Walk, SameBlock, Get;
    WithoutDirect(disk0, table0, bn);
    var was, now := Owned(disk0, table0) + multiset(list0), Owned(disk, table) + multiset(list);
    assert was == now + Lost(table0, bn);
    if bn < DIRECT && table0[bn] != 0 {
      assert was[table0[bn]] == now[table0[bn]] + 1;
    }
  }

  lemma InTail(l: seq<int>, b: int)
    requires b !in l && l != []
    ensures b !in l[1..]
  {
  }

  lemma RootOf(bn: nat)
    ensures bn < DIRECT ==> Root(bn) == bn && Depth(bn) == 0
    ensures Root(bn) < NADDR <==> bn < MAX_FILE
  {
  }

  lemma DirectWalk(disk: map<int, Block>, table: Table, bn: nat)
    requires bn < DIRECT
    ensures Walk(disk, table, bn) == table[bn]
  {
  }

  lemma DigitShift(x: nat, sh: int, k: int)
    requires sh == NSHIFT * k && 0 <= k <= 2
    ensures sh >= 0 && (x / Pow2(sh)) % (NMASK + 1) == Digit(x, k)
  {
    Shifts();
    hide Pow2, Size;
  }

  ghost predicate LevelFound(bn: nat, j: nat, sh: int, x: int) {
    || (j == 3 && sh == 7 && x == bn - 10 && 0 <= x < 128)
    || (j == 2 && sh == 14 && x == bn - 138 && 0 <= x < 16384)
    || (j == 1 && sh == 21 && x == bn - 16522 && 0 <= x < 2097152)
  }

  lemma FoundRoot(bn: nat, j: nat, sh: int, x: int)
    requires LevelFound(bn, j, sh, x)
    ensures 1 <= j <= 3 && Root(bn) == NADDR - j && Depth(Root(bn)) == 4 - j && Offset(bn) == x && bn < MAX_FILE
    ensures sh == NSHIFT * (4 - j)
  {
  }

  /** The search for the level: what has been taken off bn so far. */
  ghost predicate LevelAt(bn: nat, j: nat, sh: int, nb: int, x: int) {
    || (j == 3 && sh == 0 && nb == 1 && x == bn - 10)
    || (j == 2 && sh == 7 && nb == 128 && x == bn - 138)
    || (j == 1 && sh == 14 && nb == 16384 && x == bn - 16522)
    || (j == 0 && sh == 21 && nb == 2097152 && x == bn - MAX_FILE)
  }

  lemma TodoStep(disk: map<int, Block>, ibuf: Block, depth: nat, i: nat, bn: int)
    requires i < NINDIR
    ensures Kids(disk, ibuf, depth, i + 1) + multiset{bn}
         == Kids(disk, ibuf, depth, i) + multiset{bn} + Blocks(disk, ibuf[i], depth)
  {
    KidsStep(disk, ibuf, depth, i + 1);
    hide Kids, Blocks;
  }

  lemma NoFileBlocks(disk: map<int, Block>, table: Table)
    ensures FileBlocks(disk, table, 0) == multiset{}
  {
  }

  lemma OneBlock(disk: map<int, Block>, nb: int, list: seq<int>)
    requires nb != 0 && Single(multiset(list) + Blocks(disk, nb, 0))
    ensures Blocks(disk, nb, 0) == multiset{nb} && nb !in multiset(list)
  {
    assert (multiset(list) + multiset{nb})[nb] <= 1;
  }

  lemma BfreeLast(disk0: map<int, Block>, list0: seq<int>, disk: map<int, Block>, list: seq<int>, all: multiset<int>,
                  bn: int)
    requires Loosed(disk0, list0, disk, list, all, multiset{} + multiset{bn})
    ensures Loosed(disk0, list0, disk, list, all, multiset{bn}) && bn !in multiset(list) && Get(disk, bn) == Get(disk0, bn)
  {
    hide Get;
    assert multiset{} + multiset{bn} == multiset{bn};
    assert (multiset(list) + multiset{bn})[bn] <= 1;
  }

  lemma OnlyThat(disk: map<int, Block>, disk': map<int, Block>, b: int)
    requires ChangedAt(disk, disk', b)
    ensures ChangedWithin(disk, disk', multiset{b})
  {
  }

  lemma DepthOf(i: nat)
    ensures i < DIRECT ==> Depth(i) == 0
    ensures Depth(10) == TreeDepth(false, false) && Depth(11) == TreeDepth(true, false) && Depth(12) == TreeDepth(true, true)
  {
  }

  lemma Unwritten(disk: map<int, Block>, bn: int)
    ensures ChangedAt(disk, disk, bn)
  {
  }

  lemma AgreesShape(bnos: seq<int>, blocks: seq<Block>, disk: map<int, Block>)
    requires Agrees(bnos, blocks, disk)
    ensures |bnos| == |blocks| == NCACHE
  {
  }

  /** After i slots of the round the block has not been found, these slots are older by 1, and none of them is
      older than slot j. */
  ghost predicate Gone(start: nat, i: nat, bnos: seq<int>, times: seq<int>, now: seq<int>, j: nat, bno: int) {
    && |bnos| == |times| == |now| == NCACHE && i <= NCACHE && j < NCACHE
    && (forall k | 1 <= k <= i :: bnos[Ahead(start, k)] != bno)
    && (forall k | 1 <= k <= NCACHE :: now[Ahead(start, k)] == times[Ahead(start, k)] + if k <= i then 1 else 0)
    && (forall k | 1 <= k <= i :: now[Ahead(start, k)] <= now[j])
  }

  lemma GoneStart(start: nat, bnos: seq<int>, times: seq<int>, bno: int)
    requires |bnos| == |times| == NCACHE && start < NCACHE
    ensures Gone(start, 0, bnos, times, times, 0, bno) && Ahead(start, 0) == start
  {
  }

  lemma GoneOn(start: nat, i: nat, bnos: seq<int>, times: seq<int>, now: seq<int>, j: nat, bno: int)
    requires Gone(start, i, bnos, times, now, j, bno) && start < NCACHE && i < NCACHE
    requires bnos[Ahead(start, i + 1)] != bno
    ensures var c := Ahead(start, i + 1);
            var then' := now[c := now[c] + 1];
            Gone(start, i + 1, bnos, times, then', if then'[j] < then'[c] then c else j, bno)
  {
    AheadRound(start);
    hide Ahead;
  }

  lemma GoneRound(start: nat, bnos: seq<int>, times: seq<int>, now: seq<int>, j: nat, bno: int)
    requires Gone(start, NCACHE, bnos, times, now, j, bno) && start < NCACHE
    ensures bno !in bnos && forall k | 0 <= k < NCACHE :: now[k] == times[k] + 1 && now[k] <= now[j]
  {
    hide Ahead;
    AllMissed(bnos, start, bno);
    forall k: nat | k < NCACHE
      ensures now[k] == times[k] + 1 && now[k] <= now[j]
    {
      AheadAll(start, k);
    }
  }

  lemma AheadRound(start: nat)
    requires start < NCACHE
    ensures forall k, l | 1 <= k < l <= NCACHE :: Ahead(start, k) != Ahead(start, l)
  {
  }

  lemma AheadAll(start: nat, i: nat)
    requires start < NCACHE && i < NCACHE
    ensures i == Ahead(start, 1) || i == Ahead(start, 2) || i == Ahead(start, 3)
  {
  }

  lemma NextAhead(start: nat, k: nat)
    ensures Ahead(start, k + 1) == if Ahead(start, k) + 1 >= NCACHE then 0 else Ahead(start, k) + 1
  {
  }

  /** No slot has been unused for longer than slot j. */
  predicate Oldest(times: seq<int>, j: nat)
    requires j < |times|
  {
    forall k | 0 <= k < |times| :: times[k] <= times[j]
  }

  /** A block found leaves every slot as it is; one that is not takes the place of the slot unused for longest. */
  ghost predicate Evicts(bnos: seq<int>, times: seq<int>, bnos': seq<int>, times': seq<int>, bno: int)
    requires |bnos| == |times| == |times'|
  {
    if bno in bnos then bnos' == bnos && exists j | 0 <= j < |bnos| :: bnos[j] == bno && times'[j] == 0
    else exists j | 0 <= j < |bnos| && Oldest(times, j) :: bnos' == bnos[j := bno] && times'[j] == 0
  }

  lemma AllMissed(bnos: seq<int>, start: nat, bno: int)
    requires |bnos| == NCACHE && start < NCACHE
    requires forall k | 1 <= k <= NCACHE :: bnos[Ahead(start, k)] != bno
    ensures bno !in bnos
  {
    assert bnos[Ahead(start, 1)] != bno && bnos[Ahead(start, 2)] != bno && bnos[Ahead(start, 3)] != bno;
  }

  lemma IsGet(disk: map<int, Block>, bno: int)
    ensures Get(disk, bno) == if bno in disk then disk[bno] else ZeroBlock()
  {
  }

  /** The top of the batch is 0 only when the list is empty. */
  lemma TopOf(nfree: int, free: seq<int>, disk: map<int, Block>, l: seq<int>, bno: int)
    requires Lists(nfree, free, disk, l) && Single(multiset(l)) && bno == free[nfree - 1]
    ensures bno == 0 ==> l == []
    ensures bno != 0 ==> l != [] && l[0] == bno
  {
    if l != [] {
      assert l[0] in multiset(l);
    }
  }
}
