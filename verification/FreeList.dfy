/** Disk blocks and the chained free list: up to NICFREE block numbers in the superblock, the first of
    which names the block that holds the next batch. */
module FreeList {
  const NICFREE: nat := 50
  const NINDIR: nat := 128

  /** A block as words: a free-list block has the count in word 0 and the numbers in the next NICFREE,
      an indirect block has NINDIR block numbers. */
  type Block = b: seq<int> | |b| == NINDIR witness seq(NINDIR, _ => 0)

  function ZeroBlock(): Block {
    seq(NINDIR, _ => 0)
  }

  /** The block that holds a batch. */
  function BatchBlock(nfree: int, free: seq<int>): Block
    requires |free| == NICFREE
  {
    [nfree] + free + seq(NINDIR - NICFREE - 1, _ => 0)
  }

  function BatchCount(b: Block): int {
    b[0]
  }

  function BatchNumbers(b: Block): seq<int> {
    b[1..NICFREE + 1]
  }

  lemma BatchRoundTrip(nfree: int, free: seq<int>)
    requires |free| == NICFREE
    ensures BatchCount(BatchBlock(nfree, free)) == nfree && BatchNumbers(BatchBlock(nfree, free)) == free
  {
  }

  /** The batch and the batches it leads to list the blocks l, in the order they are taken off. A batch
      whose first number is 0 is the last one. */
  ghost predicate Lists(nfree: int, free: seq<int>, disk: map<int, Block>, l: seq<int>)
    decreases |l|
  {
    && |free| == NICFREE && 1 <= nfree <= NICFREE && nfree - 1 <= |l|
    && (forall k | 0 <= k < nfree - 1 :: l[k] == free[nfree - 1 - k])
    && if |l| == nfree - 1 then free[0] == 0
       else
         var next := l[nfree - 1];
         && free[0] == next != 0 && next in disk
         && Lists(BatchCount(disk[next]), BatchNumbers(disk[next]), disk, l[nfree..])
  }

  /** Writing a block that is not on the list does not disturb it. */
  lemma {:induction false} ListsFrame(nfree: int, free: seq<int>, disk: map<int, Block>, disk': map<int, Block>, l: seq<int>)
    requires Lists(nfree, free, disk, l)
    requires forall b | b in l && b in disk :: b in disk' && disk'[b] == disk[b]
    ensures Lists(nfree, free, disk', l)
    decreases |l|
  {
    if |l| != nfree - 1 {
      var next := l[nfree - 1];
      assert next in l;
      forall b | b in l[nfree..]
        ensures b in l
      {
      }
      ListsFrame(BatchCount(disk[next]), BatchNumbers(disk[next]), disk, disk', l[nfree..]);
    }
  }

  lemma EmptyList(free: seq<int>, disk: map<int, Block>)
    requires |free| == NICFREE && free[0] == 0
    ensures Lists(1, free, disk, [])
  {
  }

  /** Putting a block on a batch that has room. */
  lemma Push(nfree: int, free: seq<int>, disk: map<int, Block>, l: seq<int>, b: int)
    requires Lists(nfree, free, disk, l) && nfree < NICFREE
    ensures Lists(nfree + 1, free[nfree := b], disk, [b] + l)
  {
    if |l| != nfree - 1 {
      assert ([b] + l)[nfree + 1..] == l[nfree..];
    }
  }

  /** Putting a block on a full batch: the batch goes into the block, which starts a new one. */
  lemma Spill(nfree: int, free: seq<int>, free': seq<int>, disk: map<int, Block>, l: seq<int>, b: int)
    requires Lists(nfree, free, disk, l) && nfree == NICFREE && b !in l && b != 0
    requires |free'| == NICFREE && free'[0] == b
    ensures Lists(1, free', disk[b := BatchBlock(nfree, free)], [b] + l)
  {
    var disk' := disk[b := BatchBlock(nfree, free)];
    ListsFrame(nfree, free, disk, disk', l);
    BatchRoundTrip(nfree, free);
    assert ([b] + l)[1..] == l;
  }

  /** Taking a block off a batch that has more. */
  lemma Pop(nfree: int, free: seq<int>, disk: map<int, Block>, l: seq<int>)
    requires Lists(nfree, free, disk, l) && nfree >= 2
    ensures l != [] && free[nfree - 1] == l[0]
    ensures Lists(nfree - 1, free, disk, l[1..])
  {
    if |l| != nfree - 1 {
      assert l[1..][nfree - 1..] == l[nfree..];
    }
  }

  /** Taking the last block of a batch, which holds the next one. */
  lemma PopLast(free: seq<int>, disk: map<int, Block>, l: seq<int>)
    requires Lists(1, free, disk, l) && free[0] != 0
    ensures l != [] && l[0] == free[0] && l[0] in disk
    ensures Lists(BatchCount(disk[l[0]]), BatchNumbers(disk[l[0]]), disk, l[1..])
  {
  }

  lemma BatchSize(nfree: int, free: seq<int>, disk: map<int, Block>, l: seq<int>)
    requires Lists(nfree, free, disk, l)
    ensures |free| == NICFREE && 1 <= nfree <= NICFREE
  {
  }

  // ---- A superblock with no batch

  /** The free list of a superblock: a count of 0 stands for no blocks. */
  ghost predicate Stands(nfree: int, free: seq<int>, disk: map<int, Block>, l: seq<int>) {
    if nfree == 0 then |free| == NICFREE && l == [] else Lists(nfree, free, disk, l)
  }

  lemma StandsFrame(nfree: int, free: seq<int>, disk: map<int, Block>, disk': map<int, Block>, l: seq<int>)
    requires Stands(nfree, free, disk, l)
    requires forall b | b in l && b in disk :: b in disk' && disk'[b] == disk[b]
    ensures Stands(nfree, free, disk', l)
  {
    hide Lists;
    if nfree != 0 {
      ListsFrame(nfree, free, disk, disk', l);
    }
  }

  lemma StandsSize(nfree: int, free: seq<int>, disk: map<int, Block>, l: seq<int>)
    requires Stands(nfree, free, disk, l)
    ensures |free| == NICFREE && 0 <= nfree <= NICFREE && (nfree == 0 ==> l == [])
    ensures nfree != 0 ==> Lists(nfree, free, disk, l)
  {
  }

  /** The batches list the blocks l and then lead to block e, the last of them, whatever that holds. */
  ghost predicate Chained(nfree: int, free: seq<int>, disk: map<int, Block>, l: seq<int>, e: int)
    decreases |l|
  {
    && |free| == NICFREE && 1 <= nfree <= NICFREE && nfree <= |l| && free[0] != 0
    && (forall k | 0 <= k < nfree :: l[k] == free[nfree - 1 - k])
    && if |l| == nfree then free[0] == e
       else free[0] in disk && Chained(BatchCount(disk[free[0]]), BatchNumbers(disk[free[0]]), disk, l[nfree..], e)
  }

  lemma {:induction false} ChainedFrame(nfree: int, free: seq<int>, disk: map<int, Block>, disk': map<int, Block>,
                                        l: seq<int>, e: int)
    requires Chained(nfree, free, disk, l, e)
    requires forall b | b in l && b in disk :: b in disk' && disk'[b] == disk[b]
    ensures Chained(nfree, free, disk', l, e)
    decreases |l|
  {
    if |l| != nfree {
      assert l[nfree - 1] == free[0];
      forall b | b in l[nfree..]
        ensures b in l
      {
      }
      ChainedFrame(BatchCount(disk[free[0]]), BatchNumbers(disk[free[0]]), disk, disk', l[nfree..], e);
    }
  }

  lemma {:induction false} EndOfChain(nfree: int, free: seq<int>, disk: map<int, Block>, l: seq<int>, e: int)
    requires Chained(nfree, free, disk, l, e)
    ensures e != 0 && e in l && |free| == NICFREE && 1 <= nfree <= NICFREE
    decreases |l|
  {
    if |l| == nfree {
      assert l[nfree - 1] == e;
    } else {
      EndOfChain(BatchCount(disk[free[0]]), BatchNumbers(disk[free[0]]), disk, l[nfree..], e);
    }
  }

  lemma PushChained(nfree: int, free: seq<int>, disk: map<int, Block>, l: seq<int>, e: int, b: int)
    requires Chained(nfree, free, disk, l, e) && nfree < NICFREE
    ensures Chained(nfree + 1, free[nfree := b], disk, [b] + l, e)
  {
    assert ([b] + l)[nfree + 1..] == l[nfree..];
  }

  lemma SpillChained(nfree: int, free: seq<int>, free': seq<int>, disk: map<int, Block>, l: seq<int>, e: int, b: int)
    requires Chained(nfree, free, disk, l, e) && nfree == NICFREE && b !in l && b != 0
    requires |free'| == NICFREE && free'[0] == b
    ensures Chained(1, free', disk[b := BatchBlock(nfree, free)], [b] + l, e)
  {
    var disk' := disk[b := BatchBlock(nfree, free)];
    ChainedFrame(nfree, free, disk, disk', l, e);
    BatchRoundTrip(nfree, free);
    hide BatchBlock;
    assert ([b] + l)[1..] == l;
  }

  /** What such batches list is l, and then whatever the batch in block e lists. */
  lemma {:induction false} ChainLists(nfree: int, free: seq<int>, disk: map<int, Block>, l: seq<int>, e: int, m: seq<int>)
    requires Chained(nfree, free, disk, l, e)
    ensures Lists(nfree, free, disk, m) <==>
            l <= m && e in disk && Lists(BatchCount(disk[e]), BatchNumbers(disk[e]), disk, m[|l|..])
    decreases |l|
  {
    ChainStep(nfree, free, disk, l, e, m);
    if |l| != nfree {
      hide Lists;
      var b := disk[free[0]];
      if nfree <= |m| {
        ChainLists(BatchCount(b), BatchNumbers(b), disk, l[nfree..], e, m[nfree..]);
        LaterPart(l, m, nfree);
      }
    }
  }

  lemma ChainStep(nfree: int, free: seq<int>, disk: map<int, Block>, l: seq<int>, e: int, m: seq<int>)
    requires Chained(nfree, free, disk, l, e)
    ensures 1 <= nfree <= |l|
    ensures Lists(nfree, free, disk, m) <==>
            nfree <= |m| && m[..nfree] == l[..nfree] && free[0] in disk
            && Lists(BatchCount(disk[free[0]]), BatchNumbers(disk[free[0]]), disk, m[nfree..])
  {
    assert l[nfree - 1] == free[0];
    if nfree <= |m| && m[..nfree] == l[..nfree] {
      assert forall k | 0 <= k < nfree :: m[k] == m[..nfree][k] && l[k] == l[..nfree][k];
    }
    if Lists(nfree, free, disk, m) {
      assert forall k | 0 <= k < nfree :: m[k] == l[k];
      assert m[..nfree] == l[..nfree];
    }
  }

  lemma LaterPart(l: seq<int>, m: seq<int>, n: nat)
    requires n <= |l| && n <= |m|
    ensures l <= m <==> m[..n] == l[..n] && l[n..] <= m[n..]
    ensures l <= m ==> m[n..][|l| - n..] == m[|l|..]
  {
    assert l == l[..n] + l[n..] && m == m[..n] + m[n..];
  }

  /** Read as a batch, the block ends the list. */
  predicate ReadsEmpty(b: Block) {
    BatchCount(b) == 1 && BatchNumbers(b)[0] == 0
  }

  lemma EndsList(b: Block, disk: map<int, Block>)
    ensures Lists(BatchCount(b), BatchNumbers(b), disk, []) <==> ReadsEmpty(b)
  {
  }
}
