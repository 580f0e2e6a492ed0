/** The address table of a file: ten direct blocks, then one single, one double and one triple indirect
    tree of blocks. A tree of depth 0 is a data block. */
module BlockTree {
  import opened FreeList

  const NADDR: nat := 13
  const NSHIFT: nat := 7
  const NMASK: nat := 127

  /** The contents of block b; a block nobody wrote reads as zeroes. */
  function Get(disk: map<int, Block>, b: int): Block {
    if b in disk then disk[b] else ZeroBlock()
  }

  function Slot(disk: map<int, Block>, nb: int, i: nat): int
    requires i < NINDIR
  {
    Get(disk, nb)[i]
  }

  /** Data blocks a tree of depth d can hold. */
  function Size(d: nat): nat {
    if d == 0 then 1 else Size(d - 1) * NINDIR
  }

  lemma Positive(d: nat)
    ensures Size(d) > 0
  {
  }

  /** The slot that leads to data block x from a block whose kids have depth k. */
  function Digit(x: nat, k: nat): (i: nat)
    ensures i < NINDIR
  {
    Positive(k);
    (x / Size(k)) % NINDIR
  }

  /** The node d steps down the way to data block x, or 0 when the way ends before. */
  function Node(disk: map<int, Block>, nb: int, depth: nat, d: nat, x: nat): int
    requires d <= depth
    decreases d
  {
    if nb == 0 || d == 0 then nb else Node(disk, Slot(disk, nb, Digit(x, depth - 1)), depth - 1, d - 1, x)
  }

  function Leaf(disk: map<int, Block>, nb: int, depth: nat, x: nat): int {
    Node(disk, nb, depth, depth, x)
  }

  /** Every block of the tree, indirect blocks and data. */
  function Blocks(disk: map<int, Block>, nb: int, depth: nat): multiset<int>
    decreases 2 * depth, 0
  {
    if nb == 0 then multiset{} else if depth == 0 then multiset{nb}
    else multiset{nb} + Kids(disk, Get(disk, nb), depth - 1, NINDIR)
  }

  /** Every block of the first k subtrees of b. */
  function Kids(disk: map<int, Block>, b: Block, depth: nat, k: nat): multiset<int>
    requires k <= NINDIR
    decreases 2 * depth + 1, k
  {
    if k == 0 then multiset{} else Kids(disk, b, depth, k - 1) + Blocks(disk, b[k - 1], depth)
  }

  /** No block occurs twice, and 0 is none. */
  ghost predicate Single(m: multiset<int>) {
    m[0] == 0 && forall b :: m[b] <= 1
  }

  ghost predicate SameOn(disk: map<int, Block>, disk': map<int, Block>, m: multiset<int>) {
    forall b | b in m :: Get(disk', b) == Get(disk, b)
  }

  // ---- What a tree depends on

  lemma {:induction false} KidHas(disk: map<int, Block>, b: Block, depth: nat, k: nat, i: nat)
    requires i < k <= NINDIR
    ensures forall x :: Blocks(disk, b[i], depth)[x] <= Kids(disk, b, depth, k)[x]
    decreases k
  {
    KidsStep(disk, b, depth, k);
    hide Blocks, Kids;
    if i < k - 1 {
      KidHas(disk, b, depth, k - 1, i);
    }
  }

  lemma {:induction false} KidsApart(disk: map<int, Block>, b: Block, depth: nat, k: nat, i: nat, j: nat, x: int)
    requires i < k <= NINDIR && j < k && i != j
    ensures Kids(disk, b, depth, k)[x] >= Blocks(disk, b[i], depth)[x] + Blocks(disk, b[j], depth)[x]
    decreases k
  {
    hide Blocks;
    if i < k - 1 && j < k - 1 {
      KidsApart(disk, b, depth, k - 1, i, j, x);
    } else {
      KidHas(disk, b, depth, k - 1, if i < k - 1 then i else j);
    }
  }

  lemma {:induction false} BlocksFrame(disk: map<int, Block>, disk': map<int, Block>, nb: int, depth: nat)
    requires SameOn(disk, disk', Blocks(disk, nb, depth))
    ensures Blocks(disk', nb, depth) == Blocks(disk, nb, depth)
    decreases 2 * depth, 0
  {
    if nb != 0 && depth > 0 {
      assert nb in Blocks(disk, nb, depth);
      KidsFrame(disk, disk', Get(disk, nb), depth - 1, NINDIR);
    }
  }

  lemma {:induction false} KidsFrame(disk: map<int, Block>, disk': map<int, Block>, b: Block, depth: nat, k: nat)
    requires k <= NINDIR && SameOn(disk, disk', Kids(disk, b, depth, k))
    ensures Kids(disk', b, depth, k) == Kids(disk, b, depth, k)
    decreases 2 * depth + 1, k
  {
    if k > 0 {
      BlocksFrame(disk, disk', b[k - 1], depth);
      KidsFrame(disk, disk', b, depth, k - 1);
    }
  }

  // Unfolding one level at a time, so that proofs can leave the definitions hidden

  lemma NodeIs(disk: map<int, Block>, nb: int, depth: nat, d: nat, x: nat)
    requires 0 < d <= depth
    ensures Node(disk, nb, depth, d, x)
         == if nb == 0 then 0 else Node(disk, Slot(disk, nb, Digit(x, depth - 1)), depth - 1, d - 1, x)
  {
  }

  lemma BlocksAre(disk: map<int, Block>, nb: int, depth: nat)
    requires nb != 0
    ensures nb in Blocks(disk, nb, depth)
    ensures depth > 0 ==> Blocks(disk, nb, depth) == Kids(disk, Get(disk, nb), depth - 1, NINDIR) + multiset{nb}
  {
  }

  lemma NoBlocks(disk: map<int, Block>, depth: nat)
    ensures Blocks(disk, 0, depth) == multiset{}
  {
  }

  /** What one subtree says about the tree. */
  lemma KidWithin(disk: map<int, Block>, nb: int, depth: nat, i: nat)
    requires nb != 0 && depth > 0 && i < NINDIR
    ensures forall b | b in Blocks(disk, Slot(disk, nb, i), depth - 1) :: b in Blocks(disk, nb, depth)
    ensures Single(Blocks(disk, nb, depth)) ==> nb !in Blocks(disk, Slot(disk, nb, i), depth - 1)
                                                && Single(Blocks(disk, Slot(disk, nb, i), depth - 1))
  {
    BlocksAre(disk, nb, depth);
    KidHas(disk, Get(disk, nb), depth - 1, NINDIR, i);
    hide Blocks, Kids, Get;
    var kid, all := Blocks(disk, Slot(disk, nb, i), depth - 1), Blocks(disk, nb, depth);
    assert forall b :: kid[b] + (if b == nb then 1 else 0) <= all[b];
  }

  lemma OtherKids(disk: map<int, Block>, nb: int, depth: nat, i: nat, j: nat, p: int)
    requires nb != 0 && depth > 0 && i < NINDIR && j < NINDIR && i != j && Single(Blocks(disk, nb, depth))
    requires p in Blocks(disk, Slot(disk, nb, i), depth - 1)
    ensures p !in Blocks(disk, Slot(disk, nb, j), depth - 1)
  {
    BlocksAre(disk, nb, depth);
    KidsApart(disk, Get(disk, nb), depth - 1, NINDIR, i, j, p);
    hide Blocks, Kids, Get;
    assert Blocks(disk, nb, depth)[p] <= 1;
  }

  lemma {:induction false} NodeFrame(disk: map<int, Block>, disk': map<int, Block>, nb: int, depth: nat, d: nat, x: nat)
    requires d <= depth && SameOn(disk, disk', Blocks(disk, nb, depth))
    ensures Node(disk', nb, depth, d, x) == Node(disk, nb, depth, d, x)
    decreases d
  {
    if nb != 0 && d > 0 {
      hide Digit, Get, Blocks, Node;
      var i := Digit(x, depth - 1);
      NodeIs(disk, nb, depth, d, x);
      NodeIs(disk', nb, depth, d, x);
      BlocksAre(disk, nb, depth);
      KidWithin(disk, nb, depth, i);
      NodeFrame(disk, disk', Slot(disk, nb, i), depth - 1, d - 1, x);
    }
  }

  lemma {:induction false} NodeIn(disk: map<int, Block>, nb: int, depth: nat, d: nat, x: nat)
    requires d <= depth && Node(disk, nb, depth, d, x) != 0
    ensures nb != 0 && Node(disk, nb, depth, d, x) in Blocks(disk, nb, depth)
    decreases d
  {
    if d > 0 {
      hide Digit, Get, Blocks, Node;
      var i := Digit(x, depth - 1);
      NodeIs(disk, nb, depth, d, x);
      KidWithin(disk, nb, depth, i);
      NodeIn(disk, Slot(disk, nb, i), depth - 1, d - 1, x);
    }
  }

  lemma {:induction false} NodeStep(disk: map<int, Block>, nb: int, depth: nat, d: nat, x: nat)
    requires d < depth
    ensures var p := Node(disk, nb, depth, d, x);
            Node(disk, nb, depth, d + 1, x) == if p == 0 then 0 else Slot(disk, p, Digit(x, depth - d - 1))
    decreases d
  {
    hide Digit, Get;
    if nb != 0 && d > 0 {
      NodeStep(disk, Slot(disk, nb, Digit(x, depth - 1)), depth - 1, d - 1, x);
    }
  }

  /** Once the way has ended there is no data block. */
  lemma {:induction false} WayEnds(disk: map<int, Block>, nb: int, depth: nat, d: nat, x: nat)
    requires d <= depth && Node(disk, nb, depth, d, x) == 0
    ensures Node(disk, nb, depth, depth, x) == 0
    decreases depth - d
  {
    hide Digit, Get;
    if d < depth {
      NodeStep(disk, nb, depth, d, x);
      WayEnds(disk, nb, depth, d + 1, x);
    }
  }

  lemma {:induction false} ZeroKids(disk: map<int, Block>, depth: nat, k: nat)
    requires k <= NINDIR
    ensures Kids(disk, ZeroBlock(), depth, k) == multiset{}
    decreases k
  {
    if k > 0 {
      ZeroKids(disk, depth, k - 1);
    }
  }

  /** A newly zeroed block is a tree of any depth with nothing below. */
  lemma FreshTree(disk: map<int, Block>, nb: int, depth: nat, x: nat)
    requires nb != 0 && Get(disk, nb) == ZeroBlock()
    ensures Blocks(disk, nb, depth) == multiset{nb}
    ensures Leaf(disk, nb, depth, x) == if depth == 0 then nb else 0
  {
    if depth > 0 {
      ZeroKids(disk, depth - 1, NINDIR);
      hide Digit;
      assert Slot(disk, nb, Digit(x, depth - 1)) == 0;
      NodeIs(disk, nb, depth, depth, x);
    }
  }

  /** One subtree gains a block and the others stay. */
  lemma {:induction false} KidsGain(disk: map<int, Block>, disk': map<int, Block>, b: Block, b': Block, depth: nat,
                                    k: nat, i: nat, gain: multiset<int>)
    requires k <= NINDIR && i < NINDIR
    requires forall j | 0 <= j < k && j != i :: Blocks(disk', b'[j], depth) == Blocks(disk, b[j], depth)
    requires i < k ==> Blocks(disk', b'[i], depth) == Blocks(disk, b[i], depth) + gain
    ensures Kids(disk', b', depth, k) == Kids(disk, b, depth, k) + if i < k then gain else multiset{}
    decreases k
  {
    hide Blocks, Kids;
    if k == 0 {
      NoKids(disk, b, depth);
      NoKids(disk', b', depth);
    } else {
      var j := k - 1;
      KidsStep(disk, b, depth, k);
      KidsStep(disk', b', depth, k);
      KidsGain(disk, disk', b, b', depth, j, i, gain);
      SumGain(Kids(disk, b, depth, j), Blocks(disk, b[j], depth), gain);
    }
  }

  lemma NoKids(disk: map<int, Block>, b: Block, depth: nat)
    ensures Kids(disk, b, depth, 0) == multiset{}
  {
  }

  lemma SumGain(a: multiset<int>, b: multiset<int>, gain: multiset<int>)
    ensures a + gain + b == a + b + gain && a + (b + gain) == a + b + gain && a + multiset{} == a
  {
  }

  lemma KidsStep(disk: map<int, Block>, b: Block, depth: nat, k: nat)
    requires 0 < k <= NINDIR
    ensures Kids(disk, b, depth, k) == Kids(disk, b, depth, k - 1) + Blocks(disk, b[k - 1], depth)
  {
  }

  /** As KidsGain, for the whole tree. */
  lemma BlocksGain(disk: map<int, Block>, disk': map<int, Block>, nb: int, depth: nat, i: nat, gain: multiset<int>)
    requires nb != 0 && depth > 0 && i < NINDIR
    requires forall j | 0 <= j < NINDIR && j != i ::
               Blocks(disk', Slot(disk', nb, j), depth - 1) == Blocks(disk, Slot(disk, nb, j), depth - 1)
    requires Blocks(disk', Slot(disk', nb, i), depth - 1) == Blocks(disk, Slot(disk, nb, i), depth - 1) + gain
    ensures Blocks(disk', nb, depth) == Blocks(disk, nb, depth) + gain
  {
    hide Blocks, Kids, Get;
    BlocksAre(disk, nb, depth);
    BlocksAre(disk', nb, depth);
    assert forall j | 0 <= j < NINDIR :: Get(disk, nb)[j] == Slot(disk, nb, j) && Get(disk', nb)[j] == Slot(disk', nb, j);
    KidsGain(disk, disk', Get(disk, nb), Get(disk', nb), depth - 1, NINDIR, i, gain);
    SumGain(Kids(disk, Get(disk, nb), depth - 1, NINDIR), multiset{nb}, gain);
  }

  // ---- Putting a new block into an empty slot

  /** Block p has got the new, zeroed block nnb in its slot i, and nothing else has changed. */
  ghost predicate Filled(disk: map<int, Block>, disk': map<int, Block>, p: int, i: nat, nnb: int)
    requires i < NINDIR
  {
    && p != nnb && nnb != 0 && Slot(disk, p, i) == 0 && Get(disk', nnb) == ZeroBlock()
    && (forall j | 0 <= j < NINDIR :: Slot(disk', p, j) == if j == i then nnb else Slot(disk, p, j))
    && (forall b | b != p && b != nnb :: Get(disk', b) == Get(disk, b))
  }

  lemma SameSlots(disk: map<int, Block>, disk': map<int, Block>, nb: int)
    requires Get(disk', nb) == Get(disk, nb)
    ensures forall j | 0 <= j < NINDIR :: Slot(disk', nb, j) == Slot(disk, nb, j)
  {
  }

  /** The other subtrees stay as they are. */
  lemma FillOthers(disk: map<int, Block>, disk': map<int, Block>, p: int, i: nat, nnb: int, nb: int, depth: nat)
    requires i < NINDIR && Filled(disk, disk', p, i, nnb)
    requires p !in Blocks(disk, nb, depth) && nnb !in Blocks(disk, nb, depth)
    ensures SameOn(disk, disk', Blocks(disk, nb, depth)) && Blocks(disk', nb, depth) == Blocks(disk, nb, depth)
  {
    hide Blocks, Get, Slot;
    BlocksFrame(disk, disk', nb, depth);
  }

  /** The lemmas below speak of a slot reached d steps down the way to data block x. */
  ghost predicate FilledAt(disk: map<int, Block>, disk': map<int, Block>, nb: int, depth: nat, d: nat, x: nat, nnb: int)
  {
    && d < depth && Node(disk, nb, depth, d, x) != 0 && Single(Blocks(disk, nb, depth))
    && nnb !in Blocks(disk, nb, depth)
    && Filled(disk, disk', Node(disk, nb, depth, d, x), Digit(x, depth - d - 1), nnb)
  }

  /** What holds at the root holds in the subtree on the way, and the other subtrees are not touched. */
  lemma FillBelow(disk: map<int, Block>, disk': map<int, Block>, nb: int, depth: nat, d: nat, x: nat, nnb: int)
    requires FilledAt(disk, disk', nb, depth, d, x, nnb)
    ensures nb != 0 && nb != nnb
    ensures d > 0 ==> FilledAt(disk, disk', Slot(disk, nb, Digit(x, depth - 1)), depth - 1, d - 1, x, nnb)
    ensures d > 0 ==> forall j | 0 <= j < NINDIR :: Slot(disk', nb, j) == Slot(disk, nb, j)
    ensures forall j | 0 <= j < NINDIR && j != Digit(x, depth - 1) ::
              && SameOn(disk, disk', Blocks(disk, Slot(disk, nb, j), depth - 1))
              && Blocks(disk', Slot(disk, nb, j), depth - 1) == Blocks(disk, Slot(disk, nb, j), depth - 1)
  {
    hide Digit, Get, Blocks, Slot, SameOn, Filled;
    var p, i := Node(disk, nb, depth, d, x), Digit(x, depth - 1);
    NodeIn(disk, nb, depth, d, x);
    BlocksAre(disk, nb, depth);
    KidWithin(disk, nb, depth, i);
    if d > 0 {
      NodeIs(disk, nb, depth, d, x);
      NodeIn(disk, Slot(disk, nb, i), depth - 1, d - 1, x);
      FilledApart(disk, disk', p, Digit(x, depth - d - 1), nnb, nb);
      SameSlots(disk, disk', nb);
    }
    hide Node;
    forall j | 0 <= j < NINDIR && j != i
      ensures SameOn(disk, disk', Blocks(disk, Slot(disk, nb, j), depth - 1))
      ensures Blocks(disk', Slot(disk, nb, j), depth - 1) == Blocks(disk, Slot(disk, nb, j), depth - 1)
    {
      KidWithin(disk, nb, depth, j);
      if d > 0 {
        OtherKids(disk, nb, depth, i, j, p);
      }
      FillOthers(disk, disk', p, Digit(x, depth - d - 1), nnb, Slot(disk, nb, j), depth - 1);
    }
  }

  lemma FilledApart(disk: map<int, Block>, disk': map<int, Block>, p: int, i: nat, nnb: int, nb: int)
    requires i < NINDIR && Filled(disk, disk', p, i, nnb) && nb != p && nb != nnb
    ensures Get(disk', nb) == Get(disk, nb)
  {
  }

  lemma FilledSlots(disk: map<int, Block>, disk': map<int, Block>, nb: int, depth: nat, x: nat, nnb: int)
    requires FilledAt(disk, disk', nb, depth, 0, x, nnb)
    ensures nnb != 0 && Get(disk', nnb) == ZeroBlock()
    ensures var i := Digit(x, depth - 1);
            && Slot(disk, nb, i) == 0
            && forall j | 0 <= j < NINDIR :: Slot(disk', nb, j) == if j == i then nnb else Slot(disk, nb, j)
  {
    hide Digit, Get, Blocks, Slot;
  }

  lemma {:induction false} FillBlocks(disk: map<int, Block>, disk': map<int, Block>, nb: int, depth: nat, d: nat, x: nat,
                                      nnb: int)
    requires FilledAt(disk, disk', nb, depth, d, x, nnb)
    ensures Blocks(disk', nb, depth) == Blocks(disk, nb, depth) + multiset{nnb}
    decreases d
  {
    hide *;
    FilledDepth(disk, disk', nb, depth, d, x, nnb);
    FillBelow(disk, disk', nb, depth, d, x, nnb);
    var i := Digit(x, depth - 1);
    if d == 0 {
      FilledSlots(disk, disk', nb, depth, x, nnb);
      FreshTree(disk', nnb, depth - 1, x);
      NoBlocks(disk, depth - 1);
    } else {
      FillBlocks(disk, disk', Slot(disk, nb, i), depth - 1, d - 1, x, nnb);
    }
    BlocksGain(disk, disk', nb, depth, i, multiset{nnb});
  }

  lemma FilledDepth(disk: map<int, Block>, disk': map<int, Block>, nb: int, depth: nat, d: nat, x: nat, nnb: int)
    requires FilledAt(disk, disk', nb, depth, d, x, nnb)
    ensures 0 <= d < depth && NINDIR == 128
  {
  }

  predicate SamePath(x: nat, y: nat, depth: nat) {
    forall k | 0 <= k < depth :: Digit(x, k) == Digit(y, k)
  }

  lemma SamePathStep(x: nat, y: nat, depth: nat)
    requires depth > 0
    ensures SamePath(x, y, depth) <==> SamePath(x, y, depth - 1) && Digit(x, depth - 1) == Digit(y, depth - 1)
  {
    hide Digit;
  }

  lemma FillLeafHere(disk: map<int, Block>, disk': map<int, Block>, nb: int, depth: nat, x: nat, nnb: int, y: nat)
    requires FilledAt(disk, disk', nb, depth, 0, x, nnb) && Digit(x, depth - 1) == Digit(y, depth - 1)
    ensures Node(disk, nb, depth, depth, y) == 0
    ensures Node(disk', nb, depth, depth, y) == if depth == 1 then nnb else 0
  {
    hide *;
    FilledDepth(disk, disk', nb, depth, 0, x, nnb);
    FillBelow(disk, disk', nb, depth, 0, x, nnb);
    FilledSlots(disk, disk', nb, depth, x, nnb);
    FreshLeaf(disk', nnb, depth - 1, y);
    NoNode(disk, depth - 1, y);
    NodeIs(disk, nb, depth, depth, y);
    NodeIs(disk', nb, depth, depth, y);
  }

  lemma FillLeafOther(disk: map<int, Block>, disk': map<int, Block>, nb: int, depth: nat, d: nat, x: nat, nnb: int,
                      y: nat)
    requires FilledAt(disk, disk', nb, depth, d, x, nnb) && Digit(x, depth - 1) != Digit(y, depth - 1)
    ensures Node(disk', nb, depth, depth, y) == Node(disk, nb, depth, depth, y)
  {
    hide *;
    FilledDepth(disk, disk', nb, depth, d, x, nnb);
    FillBelow(disk, disk', nb, depth, d, x, nnb);
    var j := Digit(y, depth - 1);
    if d == 0 {
      FilledSlots(disk, disk', nb, depth, x, nnb);
    }
    NodeFrame(disk, disk', Slot(disk, nb, j), depth - 1, depth - 1, y);
    NodeIs(disk, nb, depth, depth, y);
    NodeIs(disk', nb, depth, depth, y);
  }

  lemma {:induction false} FillLeaf(disk: map<int, Block>, disk': map<int, Block>, nb: int, depth: nat, d: nat, x: nat,
                                    nnb: int, y: nat)
    requires FilledAt(disk, disk', nb, depth, d, x, nnb)
    ensures Node(disk', nb, depth, depth, y)
         == if d + 1 == depth && SamePath(x, y, depth) then nnb else Node(disk, nb, depth, depth, y)
    decreases d
  {
    hide *;
    FilledDepth(disk, disk', nb, depth, d, x, nnb);
    SamePathStep(x, y, depth);
    if Digit(x, depth - 1) != Digit(y, depth - 1) {
      FillLeafOther(disk, disk', nb, depth, d, x, nnb, y);
    } else if d == 0 {
      FillLeafHere(disk, disk', nb, depth, x, nnb, y);
      NoPath(x, y);
    } else {
      FillBelow(disk, disk', nb, depth, d, x, nnb);
      FillLeaf(disk, disk', Slot(disk, nb, Digit(x, depth - 1)), depth - 1, d - 1, x, nnb, y);
      NodeIs(disk, nb, depth, depth, y);
      NodeIs(disk', nb, depth, depth, y);
    }
  }

  lemma NoPath(x: nat, y: nat)
    ensures SamePath(x, y, 0)
  {
  }

  lemma FreshLeaf(disk: map<int, Block>, nb: int, depth: nat, x: nat)
    requires nb != 0 && Get(disk, nb) == ZeroBlock()
    ensures Node(disk, nb, depth, depth, x) == if depth == 0 then nb else 0
  {
    FreshTree(disk, nb, depth, x);
  }

  lemma NoNode(disk: map<int, Block>, depth: nat, x: nat)
    ensures Node(disk, 0, depth, depth, x) == 0
  {
  }

  /** The way down goes one step further now. */
  lemma {:induction false} FillPath(disk: map<int, Block>, disk': map<int, Block>, nb: int, depth: nat, d: nat, x: nat,
                                    nnb: int)
    requires FilledAt(disk, disk', nb, depth, d, x, nnb)
    ensures d < depth && Node(disk', nb, depth, d + 1, x) == nnb
    decreases d
  {
    hide *;
    FilledDepth(disk, disk', nb, depth, d, x, nnb);
    FillBelow(disk, disk', nb, depth, d, x, nnb);
    NodeIs(disk', nb, depth, d + 1, x);
    var i := Digit(x, depth - 1);
    if d > 0 {
      FillPath(disk, disk', Slot(disk, nb, i), depth - 1, d - 1, x, nnb);
    } else {
      FilledSlots(disk, disk', nb, depth, x, nnb);
      NodeStart(disk', nnb, depth - 1, x);
    }
  }

  lemma NodeStart(disk: map<int, Block>, nb: int, depth: nat, x: nat)
    ensures Node(disk, nb, depth, 0, x) == nb
  {
  }

  // ---- Writing a data block

  ghost predicate ChangedAt(disk: map<int, Block>, disk': map<int, Block>, p: int) {
    forall b | b != p :: Get(disk', b) == Get(disk, b)
  }

  /** Changing data block x leaves every subtree it is not in, and its own subtree is on the way. */
  lemma WriteBelow(disk: map<int, Block>, disk': map<int, Block>, nb: int, depth: nat, x: nat)
    requires depth > 0 && Node(disk, nb, depth, depth, x) != 0 && Single(Blocks(disk, nb, depth))
    requires ChangedAt(disk, disk', Node(disk, nb, depth, depth, x))
    ensures nb != 0 && forall j | 0 <= j < NINDIR :: Slot(disk', nb, j) == Slot(disk, nb, j)
    ensures Node(disk, nb, depth, depth, x) == Node(disk, Slot(disk, nb, Digit(x, depth - 1)), depth - 1, depth - 1, x)
    ensures Single(Blocks(disk, Slot(disk, nb, Digit(x, depth - 1)), depth - 1))
    ensures forall j | 0 <= j < NINDIR && j != Digit(x, depth - 1) ::
              && SameOn(disk, disk', Blocks(disk, Slot(disk, nb, j), depth - 1))
              && Blocks(disk', Slot(disk, nb, j), depth - 1) == Blocks(disk, Slot(disk, nb, j), depth - 1)
  {
    hide Digit, Get, Slot, Blocks, Node;
    var p, i := Node(disk, nb, depth, depth, x), Digit(x, depth - 1);
    NodeIs(disk, nb, depth, depth, x);
    NodeIn(disk, Slot(disk, nb, i), depth - 1, depth - 1, x);
    KidWithin(disk, nb, depth, i);
    SameSlots(disk, disk', nb);
    forall j | 0 <= j < NINDIR && j != i
      ensures SameOn(disk, disk', Blocks(disk, Slot(disk, nb, j), depth - 1))
      ensures Blocks(disk', Slot(disk, nb, j), depth - 1) == Blocks(disk, Slot(disk, nb, j), depth - 1)
    {
      OtherKids(disk, nb, depth, i, j, p);
      BlocksFrame(disk, disk', Slot(disk, nb, j), depth - 1);
    }
  }

  lemma {:induction false} WriteBlocks(disk: map<int, Block>, disk': map<int, Block>, nb: int, depth: nat, x: nat)
    requires Node(disk, nb, depth, depth, x) != 0 && Single(Blocks(disk, nb, depth))
    requires ChangedAt(disk, disk', Node(disk, nb, depth, depth, x))
    ensures Blocks(disk', nb, depth) == Blocks(disk, nb, depth)
    decreases depth
  {
    if depth > 0 {
      hide Digit, Get, Slot, Blocks, Node, Single, SameOn, ChangedAt;
      var i := Digit(x, depth - 1);
      WriteBelow(disk, disk', nb, depth, x);
      WriteBlocks(disk, disk', Slot(disk, nb, i), depth - 1, x);
      BlocksGain(disk, disk', nb, depth, i, multiset{});
    }
  }

  lemma WriteOther(disk: map<int, Block>, disk': map<int, Block>, nb: int, depth: nat, x: nat, y: nat)
    requires depth > 0 && Node(disk, nb, depth, depth, x) != 0 && Single(Blocks(disk, nb, depth))
    requires ChangedAt(disk, disk', Node(disk, nb, depth, depth, x)) && Digit(x, depth - 1) != Digit(y, depth - 1)
    ensures Node(disk', nb, depth, depth, y) == Node(disk, nb, depth, depth, y)
  {
    hide *;
    WriteBelow(disk, disk', nb, depth, x);
    NodeFrame(disk, disk', Slot(disk, nb, Digit(y, depth - 1)), depth - 1, depth - 1, y);
    NodeIs(disk, nb, depth, depth, y);
    NodeIs(disk', nb, depth, depth, y);
  }

  lemma {:induction false} WriteLeaf(disk: map<int, Block>, disk': map<int, Block>, nb: int, depth: nat, x: nat, y: nat)
    requires Node(disk, nb, depth, depth, x) != 0 && Single(Blocks(disk, nb, depth))
    requires ChangedAt(disk, disk', Node(disk, nb, depth, depth, x))
    ensures Node(disk', nb, depth, depth, y) == Node(disk, nb, depth, depth, y)
    decreases depth
  {
    hide *;
    if depth == 0 {
      NodeStart(disk, nb, depth, y);
      NodeStart(disk', nb, depth, y);
    } else if Digit(x, depth - 1) != Digit(y, depth - 1) {
      WriteOther(disk, disk', nb, depth, x, y);
    } else {
      WriteBelow(disk, disk', nb, depth, x);
      WriteLeaf(disk, disk', Slot(disk, nb, Digit(x, depth - 1)), depth - 1, x, y);
      NodeIs(disk, nb, depth, depth, y);
      NodeIs(disk', nb, depth, depth, y);
    }
  }

  /** Two data blocks of a tree are one only if they are reached the same way. */
  lemma {:induction false} LeafApart(disk: map<int, Block>, nb: int, depth: nat, x: nat, y: nat)
    requires Single(Blocks(disk, nb, depth))
    requires Node(disk, nb, depth, depth, x) == Node(disk, nb, depth, depth, y) != 0
    ensures SamePath(x, y, depth)
    decreases depth
  {
    if depth > 0 {
      hide Digit, Get, Slot, Blocks, Node, SamePath, Single;
      var i := Digit(x, depth - 1);
      SameWay(disk, nb, depth, x, y);
      KidWithin(disk, nb, depth, i);
      SamePathStep(x, y, depth);
      LeafApart(disk, Slot(disk, nb, i), depth - 1, x, y);
    }
  }

  lemma SameWay(disk: map<int, Block>, nb: int, depth: nat, x: nat, y: nat)
    requires depth > 0 && Single(Blocks(disk, nb, depth))
    requires Node(disk, nb, depth, depth, x) == Node(disk, nb, depth, depth, y) != 0
    ensures nb != 0 && Digit(x, depth - 1) == Digit(y, depth - 1)
    ensures var kid := Slot(disk, nb, Digit(x, depth - 1));
            Node(disk, kid, depth - 1, depth - 1, x) == Node(disk, kid, depth - 1, depth - 1, y) != 0
  {
    hide Digit, Get, Slot, Blocks, Node, SamePath, Single;
    var i, j := Digit(x, depth - 1), Digit(y, depth - 1);
    NodeIs(disk, nb, depth, depth, x);
    NodeIs(disk, nb, depth, depth, y);
    NodeIn(disk, Slot(disk, nb, i), depth - 1, depth - 1, x);
    NodeIn(disk, Slot(disk, nb, j), depth - 1, depth - 1, y);
    if i != j {
      OtherKids(disk, nb, depth, i, j, Node(disk, nb, depth, depth, x));
    }
  }

  /** An indirect block is no data block. */
  lemma {:induction false} InnerIsNoLeaf(disk: map<int, Block>, nb: int, depth: nat, d: nat, x: nat, y: nat)
    requires d < depth && Single(Blocks(disk, nb, depth)) && Node(disk, nb, depth, d, x) != 0
    ensures Node(disk, nb, depth, depth, y) != Node(disk, nb, depth, d, x)
    decreases d, 1
  {
    hide *;
    var j := Digit(y, depth - 1);
    NodeIn(disk, nb, depth, d, x);
    NodeIs(disk, nb, depth, depth, y);
    KidWithin(disk, nb, depth, j);
    if Node(disk, nb, depth, depth, y) != 0 {
      NodeIn(disk, Slot(disk, nb, j), depth - 1, depth - 1, y);
      if d == 0 {
        NodeStart(disk, nb, depth, x);
      } else {
        InnerBelow(disk, nb, depth, d, x, y);
      }
    }
  }

  lemma {:induction false} InnerBelow(disk: map<int, Block>, nb: int, depth: nat, d: nat, x: nat, y: nat)
    requires 0 < d < depth && Single(Blocks(disk, nb, depth)) && Node(disk, nb, depth, d, x) != 0 && nb != 0
    requires Node(disk, nb, depth, depth, y) != 0
    ensures Node(disk, nb, depth, depth, y) != Node(disk, nb, depth, d, x)
    decreases d, 0
  {
    hide *;
    var i, j := Digit(x, depth - 1), Digit(y, depth - 1);
    NodeIs(disk, nb, depth, depth, y);
    NodeIs(disk, nb, depth, d, x);
    KidWithin(disk, nb, depth, i);
    NodeIn(disk, Slot(disk, nb, i), depth - 1, d - 1, x);
    NodeIn(disk, Slot(disk, nb, j), depth - 1, depth - 1, y);
    if i == j {
      InnerIsNoLeaf(disk, Slot(disk, nb, i), depth - 1, d - 1, x, y);
    } else {
      OtherKids(disk, nb, depth, i, j, Node(disk, nb, depth, d, x));
    }
  }

  lemma Digits(x: nat)
    ensures Digit(x, 0) == x % 128 && Digit(x, 1) == (x / 128) % 128 && Digit(x, 2) == (x / 16384) % 128
    ensures Size(0) == 1 && Size(1) == 128 && Size(2) == 16384 && Size(3) == 2097152
  {
  }

  lemma ThreeDigits(x: nat, y: nat, a: nat, b: nat)
    requires x < 2097152 && y < 2097152 && x % 128 == y % 128
    requires a == x / 128 && b == y / 128 && a % 128 == b % 128 && (x / 16384) % 128 == (y / 16384) % 128
    ensures x == y
  {
    assert x / 16384 == a / 128 < 128 && y / 16384 == b / 128 < 128;
  }

  /** Below Size(depth), the way down tells the number. */
  lemma PathIsNumber(x: nat, y: nat, depth: nat)
    requires depth <= 3 && x < Size(depth) && y < Size(depth) && SamePath(x, y, depth)
    ensures x == y
  {
    Digits(x);
    Digits(y);
    assert depth > 0 ==> Digit(x, 0) == Digit(y, 0);
    assert depth > 1 ==> Digit(x, 1) == Digit(y, 1);
    assert depth > 2 ==> Digit(x, 2) == Digit(y, 2);
    hide *;
    if depth > 1 {
      ThreeDigits(x, y, x / 128, y / 128);
    }
  }
}
