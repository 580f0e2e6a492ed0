/** How many blocks a file takes that has some of its logical blocks and not others: a tree has an indirect block
    just where some block below it is wanted. */
module FileNeeds {
  import opened FreeList
  import opened BlockTree
  import opened FileTable
  import opened BlockCount

  /** Some wanted block is below a tree of this depth whose first logical block is base. */
  ghost predicate Has(want: set<nat>, base: nat, depth: nat) {
    exists y | y in want :: base <= y < base + Size(depth)
  }

  /** The first logical block of the i'th subtree, of this depth. */
  function Kid(base: nat, depth: nat, i: nat): nat {
    base + i * Size(depth)
  }

  ghost function NeedTree(want: set<nat>, base: nat, depth: nat): nat
    decreases 2 * depth, 0
  {
    if !Has(want, base, depth) then 0 else if depth == 0 then 1 else 1 + NeedKids(want, base, depth - 1, NINDIR)
  }

  ghost function NeedKids(want: set<nat>, base: nat, depth: nat, k: nat): nat
    requires k <= NINDIR
    decreases 2 * depth + 1, k
  {
    if k == 0 then 0 else NeedKids(want, base, depth, k - 1) + NeedTree(want, Kid(base, depth, k - 1), depth)
  }

  /** The first logical block under an entry of the block table. */
  function Start(s: nat): nat {
    if s <= 10 then s else if s == 11 then 138 else 16522
  }

  ghost function NeedEntries(want: set<nat>, k: nat): nat {
    if k == 0 then 0 else NeedEntries(want, k - 1) + NeedTree(want, Start(k - 1), Depth(k - 1))
  }

  /** Blocks of a file with the logical blocks `want`. */
  ghost function Needs(want: set<nat>): nat {
    NeedEntries(want, NADDR)
  }

  // ---- Trees without needless blocks

  ghost predicate Useful(disk: map<int, Block>, nb: int, depth: nat, want: set<nat>, base: nat)
    decreases depth
  {
    nb != 0 ==>
      && Has(want, base, depth)
      && (depth > 0 ==> forall i | 0 <= i < NINDIR ::
            Useful(disk, Slot(disk, nb, i), depth - 1, want, Kid(base, depth - 1, i)))
  }

  /** A wanted block is not in the tree. */
  ghost predicate Missing(disk: map<int, Block>, nb: int, depth: nat, want: set<nat>, base: nat)
    decreases depth
  {
    && Has(want, base, depth)
    && (nb == 0 || (depth > 0 && exists i | 0 <= i < NINDIR ::
          Missing(disk, Slot(disk, nb, i), depth - 1, want, Kid(base, depth - 1, i))))
  }

  lemma UsefulIs(disk: map<int, Block>, nb: int, depth: nat, want: set<nat>, base: nat)
    requires depth > 0
    ensures Useful(disk, nb, depth, want, base) <==>
            nb != 0 ==> Has(want, base, depth) && forall i | 0 <= i < NINDIR ::
              Useful(disk, Slot(disk, nb, i), depth - 1, want, Kid(base, depth - 1, i))
  {
  }

  lemma NoTree(disk: map<int, Block>, depth: nat, want: set<nat>, base: nat)
    ensures Useful(disk, 0, depth, want, base)
  {
  }

  lemma SlotIs(disk: map<int, Block>, nb: int, i: nat)
    requires i < NINDIR
    ensures Slot(disk, nb, i) == Get(disk, nb)[i]
  {
  }

  /** A useful tree has no more blocks than are needed, and as many unless something is missing. */
  lemma {:induction false} CountTree(disk: map<int, Block>, nb: int, depth: nat, want: set<nat>, base: nat)
    requires Useful(disk, nb, depth, want, base)
    ensures |Blocks(disk, nb, depth)| <= NeedTree(want, base, depth)
    ensures Missing(disk, nb, depth, want, base) <==> |Blocks(disk, nb, depth)| < NeedTree(want, base, depth)
    decreases 2 * depth, 0
  {
    if nb != 0 && depth > 0 {
      hide Get, Has, Kid;
      forall i | 0 <= i < NINDIR
        ensures Slot(disk, nb, i) == Get(disk, nb)[i]
      {
        SlotIs(disk, nb, i);
      }
      CountKids(disk, Get(disk, nb), depth - 1, want, base, NINDIR);
    }
  }

  lemma {:induction false} CountKids(disk: map<int, Block>, b: Block, depth: nat, want: set<nat>, base: nat, k: nat)
    requires k <= NINDIR && forall i | 0 <= i < k :: Useful(disk, b[i], depth, want, Kid(base, depth, i))
    ensures |Kids(disk, b, depth, k)| <= NeedKids(want, base, depth, k)
    ensures (exists i | 0 <= i < k :: Missing(disk, b[i], depth, want, Kid(base, depth, i)))
       <==> |Kids(disk, b, depth, k)| < NeedKids(want, base, depth, k)
    decreases 2 * depth + 1, k
  {
    hide Blocks, Useful, Missing, NeedTree, Kid;
    if k > 0 {
      var j := k - 1;
      CountKids(disk, b, depth, want, base, j);
      CountTree(disk, b[j], depth, want, Kid(base, depth, j));
      KidsStep(disk, b, depth, k);
    }
  }

  lemma {:induction false} UsefulFrame(disk: map<int, Block>, disk': map<int, Block>, nb: int, depth: nat,
                                       want: set<nat>, base: nat)
    requires SameOn(disk, disk', Blocks(disk, nb, depth)) && Useful(disk, nb, depth, want, base)
    ensures Useful(disk', nb, depth, want, base)
    decreases depth
  {
    if nb != 0 && depth > 0 {
      hide Blocks, Get, Slot, Has, Kid, Useful;
      UsefulIs(disk, nb, depth, want, base);
      UsefulIs(disk', nb, depth, want, base);
      BlocksAre(disk, nb, depth);
      SameSlots(disk, disk', nb);
      forall i | 0 <= i < NINDIR
        ensures Useful(disk', Slot(disk', nb, i), depth - 1, want, Kid(base, depth - 1, i))
      {
        KidWithin(disk, nb, depth, i);
        UsefulFrame(disk, disk', Slot(disk, nb, i), depth - 1, want, Kid(base, depth - 1, i));
      }
    }
  }

  lemma {:induction false} UsefulMore(disk: map<int, Block>, nb: int, depth: nat, want: set<nat>, more: set<nat>, base: nat)
    requires want <= more && Useful(disk, nb, depth, want, base)
    ensures Useful(disk, nb, depth, more, base)
    decreases depth
  {
    if nb != 0 && depth > 0 {
      hide Get, Slot, Kid, Size;
      forall i | 0 <= i < NINDIR
        ensures Useful(disk, Slot(disk, nb, i), depth - 1, more, Kid(base, depth - 1, i))
      {
        UsefulMore(disk, Slot(disk, nb, i), depth - 1, want, more, Kid(base, depth - 1, i));
      }
    }
  }

  lemma {:induction false} NeedMore(want: set<nat>, more: set<nat>, base: nat, depth: nat)
    requires want <= more
    ensures NeedTree(want, base, depth) <= NeedTree(more, base, depth)
    decreases 2 * depth, 0
  {
    if Has(want, base, depth) && depth > 0 {
      NeedMoreKids(want, more, base, depth - 1, NINDIR);
    }
  }

  lemma {:induction false} NeedMoreKids(want: set<nat>, more: set<nat>, base: nat, depth: nat, k: nat)
    requires want <= more && k <= NINDIR
    ensures NeedKids(want, base, depth, k) <= NeedKids(more, base, depth, k)
    decreases 2 * depth + 1, k
  {
    hide Kid, NeedTree;
    if k > 0 {
      NeedMoreKids(want, more, base, depth, k - 1);
      NeedMore(want, more, Kid(base, depth, k - 1), depth);
    }
  }

  lemma {:induction false} NeedMoreEntries(want: set<nat>, more: set<nat>, k: nat)
    requires want <= more
    ensures NeedEntries(want, k) <= NeedEntries(more, k)
  {
    hide NeedTree, Start, Depth;
    if k > 0 {
      NeedMoreEntries(want, more, k - 1);
      NeedMore(want, more, Start(k - 1), Depth(k - 1));
    }
  }

  // ---- The way to a logical block

  /** Below a tree that starts at base, the way x leads to logical block y. */
  predicate Leads(base: nat, depth: nat, x: nat, y: nat) {
    Positive(depth);
    base + x % Size(depth) == y
  }

  lemma LeadsOn(base: nat, depth: nat, x: nat, y: nat)
    requires 0 < depth <= 3 && Leads(base, depth, x, y)
    ensures Leads(Kid(base, depth - 1, Digit(x, depth - 1)), depth - 1, x, y)
  {
    Digits(x);
    TopDigit(x);
  }

  lemma TopDigit(x: nat)
    ensures x % 16384 == (x / 128) % 128 * 128 + x % 128
    ensures x % 2097152 == (x / 16384) % 128 * 16384 + x % 16384
  {
    assert x / 16384 == x / 128 / 128 && x / 2097152 == x / 16384 / 128;
  }

  lemma LeadsWithin(base: nat, depth: nat, x: nat, y: nat, want: set<nat>)
    requires Leads(base, depth, x, y)
    ensures base <= y < base + Size(depth) && (y in want ==> Has(want, base, depth))
  {
    Positive(depth);
  }

  lemma KidsDisjoint(base: nat, depth: nat, i: nat, j: nat, y: nat)
    requires depth <= 2 && Kid(base, depth, i) <= y < Kid(base, depth, i) + Size(depth)
    requires Kid(base, depth, j) <= y < Kid(base, depth, j) + Size(depth)
    ensures i == j
  {
    Digits(y);
  }

  /** The way does not lead to a wanted block. */
  lemma {:induction false} NotThere(disk: map<int, Block>, nb: int, depth: nat, want: set<nat>, base: nat, x: nat, y: nat)
    requires depth <= 3 && y in want && Leads(base, depth, x, y) && Leaf(disk, nb, depth, x) == 0
    ensures Missing(disk, nb, depth, want, base)
    decreases depth
  {
    hide Get, Slot, Has, Kid, Leads, Digit, Node;
    LeadsWithin(base, depth, x, y, want);
    if nb != 0 {
      if depth == 0 {
        NodeStart(disk, nb, depth, x);
      } else {
        var i := Digit(x, depth - 1);
        NodeIs(disk, nb, depth, depth, x);
        LeadsOn(base, depth, x, y);
        NotThere(disk, Slot(disk, nb, i), depth - 1, want, Kid(base, depth - 1, i), x, y);
      }
    }
  }

  /** What is missing is a wanted block to which the way does not lead. */
  lemma {:induction false} WhatIsMissing(disk: map<int, Block>, nb: int, depth: nat, want: set<nat>, base: nat) returns (y: nat)
    requires depth <= 3 && Missing(disk, nb, depth, want, base)
    ensures y in want && base <= y < base + Size(depth)
    ensures forall x: nat | Leads(base, depth, x, y) :: Leaf(disk, nb, depth, x) == 0
    decreases depth
  {
    hide Get, Slot, Kid, Leads, Digit, Node, Size;
    if nb == 0 {
      y :| y in want && base <= y < base + Size(depth);
      forall x: nat | Leads(base, depth, x, y)
        ensures Leaf(disk, nb, depth, x) == 0
      {
        NoNode(disk, depth, x);
      }
    } else {
      var k := depth - 1;
      var i: nat :| i < NINDIR && Missing(disk, Slot(disk, nb, i), k, want, Kid(base, k, i));
      y := WhatIsMissing(disk, Slot(disk, nb, i), k, want, Kid(base, k, i));
      KidInside(base, k, i, y);
      forall x: nat | Leads(base, depth, x, y)
        ensures Leaf(disk, nb, depth, x) == 0
      {
        LeadsOn(base, depth, x, y);
        LeadsWithin(Kid(base, k, Digit(x, k)), k, x, y, want);
        KidsDisjoint(base, k, i, Digit(x, k), y);
        NodeIs(disk, nb, depth, depth, x);
      }
    }
  }

  lemma KidInside(base: nat, depth: nat, i: nat, y: nat)
    requires depth <= 2 && i < NINDIR && Kid(base, depth, i) <= y < Kid(base, depth, i) + Size(depth)
    ensures base <= y < base + Size(depth + 1)
  {
    Digits(y);
  }

  // ---- What keeps a tree useful

  lemma FreshUseful(disk: map<int, Block>, nb: int, depth: nat, want: set<nat>, base: nat)
    requires nb != 0 && Get(disk, nb) == ZeroBlock() && Has(want, base, depth)
    ensures Useful(disk, nb, depth, want, base)
  {
    hide Has, Kid;
    if depth > 0 {
      forall i | 0 <= i < NINDIR
        ensures Useful(disk, Slot(disk, nb, i), depth - 1, want, Kid(base, depth - 1, i))
      {
        assert Slot(disk, nb, i) == 0;
        NoTree(disk, depth - 1, want, Kid(base, depth - 1, i));
      }
    }
  }

  /** A new block on the way to a wanted one. */
  lemma {:induction false} UsefulFill(disk: map<int, Block>, disk': map<int, Block>, nb: int, depth: nat, d: nat, x: nat,
                                      nnb: int, want: set<nat>, base: nat, y: nat)
    requires FilledAt(disk, disk', nb, depth, d, x, nnb) && Useful(disk, nb, depth, want, base)
    requires depth <= 3 && y in want && Leads(base, depth, x, y)
    ensures Useful(disk', nb, depth, want, base)
    decreases d
  {
    hide *;
    FilledDepth(disk, disk', nb, depth, d, x, nnb);
    FillBelow(disk, disk', nb, depth, d, x, nnb);
    UsefulIs(disk, nb, depth, want, base);
    UsefulIs(disk', nb, depth, want, base);
    LeadsOn(base, depth, x, y);
    var i, k := Digit(x, depth - 1), depth - 1;
    LeadsWithin(Kid(base, k, i), k, x, y, want);
    if d == 0 {
      FilledSlots(disk, disk', nb, depth, x, nnb);
      FreshUseful(disk', nnb, k, want, Kid(base, k, i));
    } else {
      UsefulFill(disk, disk', Slot(disk, nb, i), k, d - 1, x, nnb, want, Kid(base, k, i), y);
    }
    forall j: nat | j < NINDIR
      ensures Useful(disk', Slot(disk', nb, j), k, want, Kid(base, k, j))
    {
      if j != i {
        UsefulFrame(disk, disk', Slot(disk, nb, j), k, want, Kid(base, k, j));
      }
    }
  }

  /** A data block is written. */
  lemma {:induction false} UsefulWrite(disk: map<int, Block>, disk': map<int, Block>, nb: int, depth: nat, x: nat,
                                       want: set<nat>, base: nat)
    requires Node(disk, nb, depth, depth, x) != 0 && Single(Blocks(disk, nb, depth))
    requires ChangedAt(disk, disk', Node(disk, nb, depth, depth, x)) && Useful(disk, nb, depth, want, base)
    ensures Useful(disk', nb, depth, want, base)
    decreases depth
  {
    if depth > 0 {
      hide *;
      WriteBelow(disk, disk', nb, depth, x);
      UsefulIs(disk, nb, depth, want, base);
      UsefulIs(disk', nb, depth, want, base);
      var i, k := Digit(x, depth - 1), depth - 1;
      UsefulWrite(disk, disk', Slot(disk, nb, i), k, x, want, Kid(base, k, i));
      forall j: nat | j < NINDIR
        ensures Useful(disk', Slot(disk', nb, j), k, want, Kid(base, k, j))
      {
        if j != i {
          UsefulFrame(disk, disk', Slot(disk, nb, j), k, want, Kid(base, k, j));
        }
      }
    }
  }

  // ---- The whole file

  ghost predicate UsefulFile(disk: map<int, Block>, table: Table, want: set<nat>) {
    forall s | 0 <= s < NADDR :: Useful(disk, table[s], Depth(s), want, Start(s))
  }

  lemma UsefulStart(disk: map<int, Block>, want: set<nat>)
    ensures UsefulFile(disk, EmptyTable(), want)
  {
    hide Useful;
    forall s | 0 <= s < NADDR
      ensures Useful(disk, EmptyTable()[s], Depth(s), want, Start(s))
    {
      NoTree(disk, Depth(s), want, Start(s));
    }
  }

  lemma UsefulFileMore(disk: map<int, Block>, table: Table, want: set<nat>, more: set<nat>)
    requires want <= more && UsefulFile(disk, table, want)
    ensures UsefulFile(disk, table, more)
  {
    hide Useful, Start, Depth;
    forall s | 0 <= s < NADDR
      ensures Useful(disk, table[s], Depth(s), more, Start(s))
    {
      UsefulMore(disk, table[s], Depth(s), want, more, Start(s));
    }
  }

  lemma RootLeads(y: nat)
    requires y < MAX_FILE
    ensures Root(y) < NADDR && Depth(Root(y)) <= 3 && Leads(Start(Root(y)), Depth(Root(y)), Offset(y), y)
  {
    Digits(0);
    OffsetFits(y);
  }

  lemma RootOfStart(s: nat, y: nat)
    requires s < NADDR && Start(s) <= y < Start(s) + Size(Depth(s))
    ensures Root(y) == s && y < MAX_FILE && Depth(s) <= 3
  {
    Digits(0);
  }

  lemma {:induction false} CountEntries(disk: map<int, Block>, table: Table, want: set<nat>, k: nat)
    requires k <= NADDR && UsefulFile(disk, table, want)
    ensures |FileBlocks(disk, table, k)| <= NeedEntries(want, k)
    ensures (exists s | 0 <= s < k :: Missing(disk, table[s], Depth(s), want, Start(s)))
       <==> |FileBlocks(disk, table, k)| < NeedEntries(want, k)
  {
    hide Blocks, Useful, Missing, NeedTree, Start, Depth;
    if k > 0 {
      var s := k - 1;
      CountEntries(disk, table, want, s);
      CountTree(disk, table[s], Depth(s), want, Start(s));
      FileStep(disk, table, k);
    }
  }

  /** A file without needless blocks has as many as it needs, unless a wanted block is not there. */
  lemma CountFile(disk: map<int, Block>, table: Table, want: set<nat>)
    requires UsefulFile(disk, table, want) && forall y | y in want :: y < MAX_FILE
    ensures |Owned(disk, table)| <= Needs(want)
    ensures (exists y | y in want :: Walk(disk, table, y) == 0) <==> |Owned(disk, table)| < Needs(want)
  {
    hide UsefulFile, Missing, Walk, Root, Start, Depth, Offset, Leads, NeedEntries, FileBlocks, Node, Size;
    CountEntries(disk, table, want, NADDR);
    if y :| y in want && Walk(disk, table, y) == 0 {
      RootLeads(y);
      WalkIs(disk, table, y);
      NotThere(disk, table[Root(y)], Depth(Root(y)), want, Start(Root(y)), Offset(y), y);
    }
    if s: nat :| s < NADDR && Missing(disk, table[s], Depth(s), want, Start(s)) {
      DepthBelow(s);
      var y := WhatIsMissing(disk, table[s], Depth(s), want, Start(s));
      RootOfStart(s, y);
      RootLeads(y);
      WalkIs(disk, table, y);
    }
  }

  lemma DepthBelow(s: nat)
    requires s < NADDR
    ensures Depth(s) <= 3
  {
  }

  lemma UsefulFileFrame(disk: map<int, Block>, disk': map<int, Block>, table: Table, want: set<nat>)
    requires SameOn(disk, disk', Owned(disk, table)) && UsefulFile(disk, table, want)
    ensures UsefulFile(disk', table, want)
  {
    hide Owned, Useful, Start, Depth, Get, Blocks;
    forall s | 0 <= s < NADDR
      ensures Useful(disk', table[s], Depth(s), want, Start(s))
    {
      RootWithin(disk, table, s);
      UsefulFrame(disk, disk', table[s], Depth(s), want, Start(s));
    }
  }

  /** Only the tree under entry s changes, and stays useful. */
  lemma OneEntry(disk: map<int, Block>, disk': map<int, Block>, table: Table, table': Table, s: nat, want: set<nat>)
    requires s < NADDR && UsefulFile(disk, table, want) && Useful(disk', table'[s], Depth(s), want, Start(s))
    requires forall t | 0 <= t < NADDR && t != s ::
               table'[t] == table[t] && SameOn(disk, disk', Blocks(disk, table[t], Depth(t)))
    ensures UsefulFile(disk', table', want)
  {
    hide Useful, Start, Depth, SameOn, Blocks;
    forall t | 0 <= t < NADDR
      ensures Useful(disk', table'[t], Depth(t), want, Start(t))
    {
      if t != s {
        UsefulFrame(disk, disk', table[t], Depth(t), want, Start(t));
      }
    }
  }

  lemma UsefulRoot(disk: map<int, Block>, disk': map<int, Block>, table: Table, s: nat, nnb: int, want: set<nat>, y: nat)
    requires s < NADDR && NewRoot(disk, disk', table, s, nnb) && UsefulFile(disk, table, want)
    requires y in want && y < MAX_FILE && Root(y) == s
    ensures UsefulFile(disk', table[s := nnb], want)
  {
    hide UsefulFile, Useful, Start, Depth, Blocks, SameOn, Root, Offset, Leads, ZeroBlock, Has;
    OtherRootsStay(disk, disk', table, s, nnb);
    RootLeads(y);
    LeadsWithin(Start(s), Depth(s), Offset(y), y, want);
    IsNewRoot(disk, disk', table, s, nnb);
    FreshUseful(disk', nnb, Depth(s), want, Start(s));
    OneEntry(disk, disk', table, table[s := nnb], s, want);
  }

  lemma IsNewRoot(disk: map<int, Block>, disk': map<int, Block>, table: Table, s: nat, nnb: int)
    requires s < NADDR && NewRoot(disk, disk', table, s, nnb)
    ensures nnb != 0 && Get(disk', nnb) == ZeroBlock()
  {
  }

  lemma UsefulNode(disk: map<int, Block>, disk': map<int, Block>, table: Table, d: nat, nnb: int, want: set<nat>, y: nat)
    requires y in want && y < MAX_FILE && UsefulFile(disk, table, want)
    requires Root(y) < NADDR && NewNode(disk, disk', table, Root(y), d, Offset(y), nnb)
    ensures UsefulFile(disk', table, want)
  {
    hide *;
    var s := Root(y);
    RootRange(s);
    RootLeads(y);
    NewNodeAt(disk, disk', table, s, d, Offset(y), nnb);
    EntryUseful(disk, table, want, s);
    UsefulFill(disk, disk', table[s], Depth(s), d, Offset(y), nnb, want, Start(s), y);
    OneEntry(disk, disk', table, table, s, want);
  }

  lemma EntryUseful(disk: map<int, Block>, table: Table, want: set<nat>, s: nat)
    requires s < NADDR && UsefulFile(disk, table, want)
    ensures Useful(disk, table[s], Depth(s), want, Start(s))
  {
  }

  lemma UsefulData(disk: map<int, Block>, disk': map<int, Block>, table: Table, x: nat, want: set<nat>)
    requires Single(Owned(disk, table)) && Walk(disk, table, x) != 0 && ChangedAt(disk, disk', Walk(disk, table, x))
    requires UsefulFile(disk, table, want)
    ensures UsefulFile(disk', table, want)
  {
    hide *;
    var s, p := Root(x), Walk(disk, table, x);
    RootRange(s);
    WalkIn(disk, table, x);
    WalkIs(disk, table, x);
    NodeIn(disk, table[s], Depth(s), Depth(s), Offset(x));
    RootWithin(disk, table, s);
    EntryUseful(disk, table, want, s);
    UsefulWrite(disk, disk', table[s], Depth(s), Offset(x), want, Start(s));
    forall t: nat | t < NADDR && t != s
      ensures SameOn(disk, disk', Blocks(disk, table[t], Depth(t)))
    {
      OtherRoots(disk, table, s, t, p);
      NotWritten(disk, disk', p, Blocks(disk, table[t], Depth(t)));
    }
    OneEntry(disk, disk', table, table, s, want);
  }

  lemma NotWritten(disk: map<int, Block>, disk': map<int, Block>, p: int, m: multiset<int>)
    requires ChangedAt(disk, disk', p) && p !in m
    ensures SameOn(disk, disk', m)
  {
    hide Get;
  }

  // ---- A file without holes

  function UpTo(n: nat): (r: set<nat>)
    ensures forall y: nat :: y in r <==> y < n
  {
    if n == 0 then {} else UpTo(n - 1) + {n - 1}
  }

  lemma HasUpTo(n: nat, base: nat, depth: nat)
    ensures Has(UpTo(n), base, depth) <==> n > base
  {
    Positive(depth);
    if n > base {
      assert base in UpTo(n);
    }
  }

  lemma {:induction false} ForestAppend(d: nat, j: nat, r: nat)
    requires r <= Size(d)
    ensures Forest(d, j * Size(d) + r) == Forest(d, j * Size(d)) + Nodes(d, r)
  {
    hide Nodes, Size;
    Positive(d);
    NoneOfNodes(d);
    if j > 0 {
      OneMore(j, Size(d));
      ForestAppend(d, j - 1, r);
    }
  }

  lemma NoneOfNodes(d: nat)
    ensures Nodes(d, 0) == 0
  {
  }

  lemma OneMore(j: nat, s: nat)
    requires j > 0
    ensures j * s == (j - 1) * s + s && (j - 1) * s >= 0
  {
  }

  lemma {:induction false} NeedUpTo(n: nat, base: nat, depth: nat)
    ensures NeedTree(UpTo(n), base, depth) == Nodes(depth, Min(Past(n, base), Size(depth)))
    decreases 2 * depth, 0
  {
    HasUpTo(n, base, depth);
    Positive(depth);
    if n > base && depth > 0 {
      hide Has, UpTo, NeedKids, Forest;
      NeedKidsUpTo(n, base, depth - 1, NINDIR);
    }
  }

  lemma {:induction false} NeedKidsUpTo(n: nat, base: nat, d: nat, k: nat)
    requires k <= NINDIR
    ensures NeedKids(UpTo(n), base, d, k) == Forest(d, Min(Past(n, base), k * Size(d)))
    decreases 2 * d + 1, k
  {
    hide NeedTree, UpTo, Size, Nodes;
    NoForest(d);
    if k > 0 {
      var j := k - 1;
      Positive(d);
      OneMore(k, Size(d));
      NeedKidsUpTo(n, base, d, j);
      NeedUpTo(n, Kid(base, d, j), d);
      NoneOfNodes(d);
      hide Forest;
      ForestAppend(d, j, Min(Past(n, Kid(base, d, j)), Size(d)));
    }
  }

  lemma NoForest(d: nat)
    ensures Forest(d, 0) == 0
  {
  }

  lemma {:induction false} DirectUpTo(n: nat, k: nat)
    requires k <= 10
    ensures NeedEntries(UpTo(n), k) == Min(n, k)
  {
    hide NeedTree, UpTo;
    if k > 0 {
      DirectUpTo(n, k - 1);
      NeedUpTo(n, k - 1, 0);
    }
  }

  /** Without holes it is the number that du computes. */
  lemma NeedsUpTo(n: nat)
    requires n <= MAX_FILE
    ensures Needs(UpTo(n)) == Total(n)
  {
    hide NeedTree, UpTo, Nodes, Size, NeedEntries;
    Digits(0);
    DirectUpTo(n, 10);
    EntryStep(UpTo(n), 10);
    EntryStep(UpTo(n), 11);
    EntryStep(UpTo(n), 12);
    NeedUpTo(n, 10, 1);
    NeedUpTo(n, 138, 2);
    NeedUpTo(n, 16522, 3);
  }

  lemma EntryStep(want: set<nat>, k: nat)
    ensures NeedEntries(want, k + 1) == NeedEntries(want, k) + NeedTree(want, Start(k), Depth(k))
  {
  }
}
