/** The whole address table: which block holds a logical block of the file, and which blocks the file owns. */
module FileTable {
  import opened FreeList
  import opened BlockTree

  const DIRECT: nat := NADDR - 3
  const MAX_FILE: nat := 10 + 128 + 16384 + 2097152

  type Table = t: seq<int> | |t| == NADDR witness seq(NADDR, _ => 0)

  function EmptyTable(): Table {
    seq(NADDR, _ => 0)
  }

  /** The table entry logical block x is under, or NADDR when the file cannot be that long. */
  function Root(x: nat): (s: nat)
    ensures s <= NADDR
  {
    if x < 10 then x else if x < 10 + 128 then 10 else if x < 10 + 128 + 16384 then 11
    else if x < MAX_FILE then 12 else NADDR
  }

  /** The number of the block within its tree. */
  function Offset(x: nat): nat {
    if x < 10 then 0 else if x < 10 + 128 then x - 10 else if x < 10 + 128 + 16384 then x - 138
    else x - 16522
  }

  function Depth(s: nat): (d: nat)
    ensures s < NADDR ==> d <= 3
  {
    if s < DIRECT then 0 else s - DIRECT + 1
  }

  lemma OffsetFits(x: nat)
    ensures Root(x) < NADDR ==> Offset(x) < Size(Depth(Root(x)))
    ensures Root(x) < NADDR <==> x < MAX_FILE
  {
    Digits(x);
  }

  lemma NumberFromRoot(x: nat, y: nat)
    requires Root(x) == Root(y) && Offset(x) == Offset(y)
    ensures x == y
  {
  }

  /** The block that holds logical block x, or 0 when there is none. */
  function Walk(disk: map<int, Block>, table: Table, x: nat): int {
    if Root(x) == NADDR then 0 else Leaf(disk, table[Root(x)], Depth(Root(x)), Offset(x))
  }

  /** Every block under the first k entries. */
  function FileBlocks(disk: map<int, Block>, table: Table, k: nat): multiset<int>
    requires k <= NADDR
  {
    if k == 0 then multiset{} else FileBlocks(disk, table, k - 1) + Blocks(disk, table[k - 1], Depth(k - 1))
  }

  function Owned(disk: map<int, Block>, table: Table): multiset<int> {
    FileBlocks(disk, table, NADDR)
  }

  // ---- Entries and the whole

  lemma FileStep(disk: map<int, Block>, table: Table, k: nat)
    requires 0 < k <= NADDR
    ensures FileBlocks(disk, table, k) == FileBlocks(disk, table, k - 1) + Blocks(disk, table[k - 1], Depth(k - 1))
  {
  }

  lemma {:induction false} RootHas(disk: map<int, Block>, table: Table, k: nat, s: nat)
    requires s < k <= NADDR
    ensures forall b :: Blocks(disk, table[s], Depth(s))[b] <= FileBlocks(disk, table, k)[b]
    decreases k
  {
    FileStep(disk, table, k);
    hide Blocks, FileBlocks, Depth;
    if s < k - 1 {
      RootHas(disk, table, k - 1, s);
    }
  }

  lemma {:induction false} RootsApart(disk: map<int, Block>, table: Table, k: nat, s: nat, t: nat, b: int)
    requires s < k <= NADDR && t < k && s != t
    ensures FileBlocks(disk, table, k)[b] >= Blocks(disk, table[s], Depth(s))[b] + Blocks(disk, table[t], Depth(t))[b]
    decreases k
  {
    FileStep(disk, table, k);
    hide Blocks, FileBlocks, Depth;
    if s < k - 1 && t < k - 1 {
      RootsApart(disk, table, k - 1, s, t, b);
    } else {
      RootHas(disk, table, k - 1, if s < k - 1 then s else t);
    }
  }

  lemma RootWithin(disk: map<int, Block>, table: Table, s: nat)
    requires s < NADDR
    ensures forall b | b in Blocks(disk, table[s], Depth(s)) :: b in Owned(disk, table)
    ensures Single(Owned(disk, table)) ==> Single(Blocks(disk, table[s], Depth(s)))
  {
    RootHas(disk, table, NADDR, s);
    hide Blocks, FileBlocks, Depth;
    assert forall b :: Blocks(disk, table[s], Depth(s))[b] <= Owned(disk, table)[b];
  }

  lemma OtherRoots(disk: map<int, Block>, table: Table, s: nat, t: nat, b: int)
    requires s < NADDR && t < NADDR && s != t && Single(Owned(disk, table)) && b in Blocks(disk, table[s], Depth(s))
    ensures b !in Blocks(disk, table[t], Depth(t))
  {
    RootsApart(disk, table, NADDR, s, t, b);
    hide Blocks, FileBlocks, Depth;
    assert Owned(disk, table)[b] <= 1;
  }

  lemma {:induction false} FileGain(disk: map<int, Block>, disk': map<int, Block>, table: Table, table': Table,
                                    k: nat, s: nat, gain: multiset<int>)
    requires k <= NADDR && s < NADDR
    requires forall t | 0 <= t < k && t != s :: Blocks(disk', table'[t], Depth(t)) == Blocks(disk, table[t], Depth(t))
    requires s < k ==> Blocks(disk', table'[s], Depth(s)) == Blocks(disk, table[s], Depth(s)) + gain
    ensures FileBlocks(disk', table', k) == FileBlocks(disk, table, k) + if s < k then gain else multiset{}
    decreases k
  {
    if k > 0 {
      FileStep(disk, table, k);
      FileStep(disk', table', k);
      hide Blocks, FileBlocks, Depth;
      FileGain(disk, disk', table, table', k - 1, s, gain);
      SumGain(FileBlocks(disk, table, k - 1), Blocks(disk, table[k - 1], Depth(k - 1)), gain);
    }
  }

  lemma WalkIs(disk: map<int, Block>, table: Table, x: nat)
    requires Root(x) < NADDR
    ensures Walk(disk, table, x) == Node(disk, table[Root(x)], Depth(Root(x)), Depth(Root(x)), Offset(x))
  {
    hide Node;
  }

  lemma WalkNone(disk: map<int, Block>, table: Table, x: nat)
    requires Root(x) == NADDR
    ensures Walk(disk, table, x) == 0
  {
  }

  lemma WalkIn(disk: map<int, Block>, table: Table, x: nat)
    requires Walk(disk, table, x) != 0
    ensures Root(x) < NADDR && Walk(disk, table, x) in Owned(disk, table)
  {
    var s := Root(x);
    if s < NADDR {
      NodeIn(disk, table[s], Depth(s), Depth(s), Offset(x));
      RootWithin(disk, table, s);
    }
  }

  /** Two logical blocks are never kept in the same block. */
  lemma WalkApart(disk: map<int, Block>, table: Table, x: nat, y: nat)
    requires Single(Owned(disk, table)) && Walk(disk, table, x) == Walk(disk, table, y) != 0
    ensures x == y
  {
    hide Node, Blocks, Owned, Single, Root, Depth, Offset, Size, SamePath;
    WalkIn(disk, table, x);
    WalkIn(disk, table, y);
    var s, t := Root(x), Root(y);
    WalkIs(disk, table, x);
    WalkIs(disk, table, y);
    NodeIn(disk, table[s], Depth(s), Depth(s), Offset(x));
    NodeIn(disk, table[t], Depth(t), Depth(t), Offset(y));
    if s != t {
      OtherRoots(disk, table, s, t, Walk(disk, table, x));
    }
    RootWithin(disk, table, s);
    LeafApart(disk, table[s], Depth(s), Offset(x), Offset(y));
    OffsetFits(x);
    OffsetFits(y);
    PathIsNumber(Offset(x), Offset(y), Depth(s));
    NumberFromRoot(x, y);
  }

  // ---- The steps of the allocator

  /** A new block goes into an empty entry. */
  ghost predicate NewRoot(disk: map<int, Block>, disk': map<int, Block>, table: Table, s: nat, nnb: int)
    requires s < NADDR
  {
    && table[s] == 0 && nnb != 0 && nnb !in Owned(disk, table)
    && Get(disk', nnb) == ZeroBlock() && ChangedAt(disk, disk', nnb)
  }

  lemma OtherRootsStay(disk: map<int, Block>, disk': map<int, Block>, table: Table, s: nat, nnb: int)
    requires s < NADDR && NewRoot(disk, disk', table, s, nnb)
    ensures forall t | 0 <= t < NADDR :: SameOn(disk, disk', Blocks(disk, table[t], Depth(t)))
                                         && Blocks(disk', table[t], Depth(t)) == Blocks(disk, table[t], Depth(t))
  {
    hide Blocks, Owned, Depth, Get;
    forall t | 0 <= t < NADDR
      ensures SameOn(disk, disk', Blocks(disk, table[t], Depth(t)))
      ensures Blocks(disk', table[t], Depth(t)) == Blocks(disk, table[t], Depth(t))
    {
      RootWithin(disk, table, t);
      BlocksFrame(disk, disk', table[t], Depth(t));
    }
  }

  lemma NewRootOwned(disk: map<int, Block>, disk': map<int, Block>, table: Table, s: nat, nnb: int)
    requires s < NADDR && NewRoot(disk, disk', table, s, nnb)
    ensures Owned(disk', table[s := nnb]) == Owned(disk, table) + multiset{nnb}
  {
    OtherRootsStay(disk, disk', table, s, nnb);
    FreshTree(disk', nnb, Depth(s), 0);
    NoBlocks(disk, Depth(s));
    hide Blocks, FileBlocks, Depth, Get;
    FileGain(disk, disk', table, table[s := nnb], NADDR, s, multiset{nnb});
  }

  lemma NewRootWalk(disk: map<int, Block>, disk': map<int, Block>, table: Table, s: nat, nnb: int, y: nat)
    requires s < NADDR && NewRoot(disk, disk', table, s, nnb)
    ensures Walk(disk', table[s := nnb], y) == if Root(y) == s && Depth(s) == 0 then nnb else Walk(disk, table, y)
  {
    OtherRootsStay(disk, disk', table, s, nnb);
    var t := Root(y);
    FreshLeaf(disk', nnb, Depth(s), Offset(y));
    NoNode(disk, Depth(s), Offset(y));
    hide Blocks, FileBlocks, Depth, Get, Node, Root, Offset, Owned, SameOn;
    if t < NADDR {
      WalkIs(disk, table, y);
      WalkIs(disk', table[s := nnb], y);
      NodeFrame(disk, disk', table[t], Depth(t), Depth(t), Offset(y));
    } else {
      WalkNone(disk, table, y);
      WalkNone(disk', table[s := nnb], y);
    }
  }

  /** A new block goes into the empty slot that is d steps down the way to offset x of entry s. */
  ghost predicate NewNode(disk: map<int, Block>, disk': map<int, Block>, table: Table, s: nat, d: nat, x: nat, nnb: int)
    requires s < NADDR
  {
    && Single(Owned(disk, table)) && nnb !in Owned(disk, table)
    && d < Depth(s) && Node(disk, table[s], Depth(s), d, x) != 0
    && Filled(disk, disk', Node(disk, table[s], Depth(s), d, x), Digit(x, Depth(s) - d - 1), nnb)
  }

  lemma NewNodeAt(disk: map<int, Block>, disk': map<int, Block>, table: Table, s: nat, d: nat, x: nat, nnb: int)
    requires s < NADDR && NewNode(disk, disk', table, s, d, x, nnb)
    ensures FilledAt(disk, disk', table[s], Depth(s), d, x, nnb)
    ensures forall t | 0 <= t < NADDR && t != s ::
              && SameOn(disk, disk', Blocks(disk, table[t], Depth(t)))
              && Blocks(disk', table[t], Depth(t)) == Blocks(disk, table[t], Depth(t))
  {
    hide Blocks, Owned, Depth, Get, Node, Digit, SameOn, Filled;
    RootWithin(disk, table, s);
    var p := Node(disk, table[s], Depth(s), d, x);
    NodeIn(disk, table[s], Depth(s), d, x);
    forall t | 0 <= t < NADDR && t != s
      ensures SameOn(disk, disk', Blocks(disk, table[t], Depth(t)))
      ensures Blocks(disk', table[t], Depth(t)) == Blocks(disk, table[t], Depth(t))
    {
      RootWithin(disk, table, t);
      OtherRoots(disk, table, s, t, p);
      FillOthers(disk, disk', p, Digit(x, Depth(s) - d - 1), nnb, table[t], Depth(t));
    }
  }

  lemma NewNodeOwned(disk: map<int, Block>, disk': map<int, Block>, table: Table, s: nat, d: nat, x: nat, nnb: int)
    requires s < NADDR && NewNode(disk, disk', table, s, d, x, nnb)
    ensures Owned(disk', table) == Owned(disk, table) + multiset{nnb}
    ensures d < Depth(s) && Node(disk', table[s], Depth(s), d + 1, x) == nnb
  {
    hide Blocks, FileBlocks, Depth, Node, SameOn, FilledAt, NewNode;
    NewNodeAt(disk, disk', table, s, d, x, nnb);
    FillBlocks(disk, disk', table[s], Depth(s), d, x, nnb);
    FillPath(disk, disk', table[s], Depth(s), d, x, nnb);
    FileGain(disk, disk', table, table, NADDR, s, multiset{nnb});
  }

  lemma NewNodeWalk(disk: map<int, Block>, disk': map<int, Block>, table: Table, s: nat, d: nat, x: nat, nnb: int, y: nat)
    requires s < NADDR && NewNode(disk, disk', table, s, d, x, nnb)
    ensures Walk(disk', table, y)
         == if Root(y) == s && d + 1 == Depth(s) && SamePath(x, Offset(y), Depth(s)) then nnb else Walk(disk, table, y)
  {
    hide *;
    var t := Root(y);
    NewNodeAt(disk, disk', table, s, d, x, nnb);
    RootRange(t);
    if t == NADDR {
      WalkNone(disk, table, y);
      WalkNone(disk', table, y);
    } else {
      WalkIs(disk, table, y);
      WalkIs(disk', table, y);
      if t == s {
        FillLeaf(disk, disk', table[s], Depth(s), d, x, nnb, Offset(y));
      } else {
        NodeFrame(disk, disk', table[t], Depth(t), Depth(t), Offset(y));
      }
    }
  }

  lemma RootRange(t: nat)
    ensures NADDR == 13
  {
  }

  /** The data blocks keep their contents. */
  lemma NewNodeData(disk: map<int, Block>, disk': map<int, Block>, table: Table, s: nat, d: nat, x: nat, nnb: int, y: nat)
    requires s < NADDR && NewNode(disk, disk', table, s, d, x, nnb) && Walk(disk, table, y) != 0
    ensures Get(disk', Walk(disk, table, y)) == Get(disk, Walk(disk, table, y))
  {
    hide Blocks, FileBlocks, Owned, Depth, Node, Get, Digit, Root, Offset, Single, ZeroBlock, Slot, Walk;
    var p, t := Node(disk, table[s], Depth(s), d, x), Root(y);
    WalkIn(disk, table, y);
    WalkIs(disk, table, y);
    RootWithin(disk, table, s);
    NodeIn(disk, table[s], Depth(s), d, x);
    NodeIn(disk, table[t], Depth(t), Depth(t), Offset(y));
    if t == s {
      InnerIsNoLeaf(disk, table[s], Depth(s), d, x, Offset(y));
    } else {
      OtherRoots(disk, table, s, t, p);
    }
  }

  // ---- Writing data

  /** A file depends on no other blocks than those it owns. */
  lemma FileFrame(disk: map<int, Block>, disk': map<int, Block>, table: Table, y: nat)
    requires SameOn(disk, disk', Owned(disk, table))
    ensures Owned(disk', table) == Owned(disk, table) && Walk(disk', table, y) == Walk(disk, table, y)
  {
    hide Blocks, FileBlocks, Depth, Node, Get, Digit, Root, Offset, Walk;
    forall t | 0 <= t < NADDR
      ensures SameOn(disk, disk', Blocks(disk, table[t], Depth(t)))
      ensures Blocks(disk', table[t], Depth(t)) == Blocks(disk, table[t], Depth(t))
    {
      RootWithin(disk, table, t);
      BlocksFrame(disk, disk', table[t], Depth(t));
    }
    assert Blocks(disk, table[0], Depth(0)) + multiset{} == Blocks(disk, table[0], Depth(0));
    FileGain(disk, disk', table, table, NADDR, 0, multiset{});
    if Root(y) < NADDR {
      WalkIs(disk, table, y);
      WalkIs(disk', table, y);
      NodeFrame(disk, disk', table[Root(y)], Depth(Root(y)), Depth(Root(y)), Offset(y));
    } else {
      OffsetFits(y);
      WalkNone(disk, table, y);
      WalkNone(disk', table, y);
    }
  }

  lemma WriteData(disk: map<int, Block>, disk': map<int, Block>, table: Table, x: nat, y: nat)
    requires Single(Owned(disk, table)) && Walk(disk, table, x) != 0 && ChangedAt(disk, disk', Walk(disk, table, x))
    ensures Owned(disk', table) == Owned(disk, table) && Walk(disk', table, y) == Walk(disk, table, y)
  {
    hide Blocks, FileBlocks, Depth, Node, Get, Digit, Root, Offset, Single, Walk;
    var s, p := Root(x), Walk(disk, table, x);
    WalkIn(disk, table, x);
    WalkIs(disk, table, x);
    NodeIn(disk, table[s], Depth(s), Depth(s), Offset(x));
    RootWithin(disk, table, s);
    WriteBlocks(disk, disk', table[s], Depth(s), Offset(x));
    forall t | 0 <= t < NADDR && t != s
      ensures SameOn(disk, disk', Blocks(disk, table[t], Depth(t)))
      ensures Blocks(disk', table[t], Depth(t)) == Blocks(disk, table[t], Depth(t))
    {
      OtherRoots(disk, table, s, t, p);
      BlocksFrame(disk, disk', table[t], Depth(t));
    }
    FileGain(disk, disk', table, table, NADDR, s, multiset{});
    WriteWalk(disk, disk', table, x, y);
  }

  lemma WriteWalk(disk: map<int, Block>, disk': map<int, Block>, table: Table, x: nat, y: nat)
    requires Root(x) < NADDR && Walk(disk, table, x) != 0 && ChangedAt(disk, disk', Walk(disk, table, x))
    requires Single(Blocks(disk, table[Root(x)], Depth(Root(x))))
    requires forall t | 0 <= t < NADDR && t != Root(x) :: SameOn(disk, disk', Blocks(disk, table[t], Depth(t)))
    ensures Walk(disk', table, y) == Walk(disk, table, y)
  {
    hide Blocks, FileBlocks, Depth, Node, Get, Digit, Root, Offset, Single, Walk, SameOn, ChangedAt;
    var s, t := Root(x), Root(y);
    WalkIs(disk, table, x);
    if t == NADDR {
      WalkNone(disk, table, y);
      WalkNone(disk', table, y);
    } else {
      WalkIs(disk, table, y);
      WalkIs(disk', table, y);
      if t == s {
        WriteLeaf(disk, disk', table[s], Depth(s), Offset(x), Offset(y));
      } else {
        NodeFrame(disk, disk', table[t], Depth(t), Depth(t), Offset(y));
      }
    }
  }
}
