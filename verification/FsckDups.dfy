/** fsck's account of blocks claimed twice: phase 1 records the claims, phase 1b looks for the first claim of
    each block that was claimed again, phase 4 withdraws the claims of an inode it clears. Index i stands for
    inode i + 1. */
module FsckDups {
  import opened Fsck
  import opened FreeMap

  const MAXDUP: nat := 10

  datatype Claim = Claim(ino: nat, blk: int)

  // ---- Claims

  /** Claims of block b. */
  function Occ(claims: seq<Claim>, b: int): nat {
    if claims == [] then 0 else Occ(claims[..|claims| - 1], b) + if claims[|claims| - 1].blk == b then 1 else 0
  }

  lemma OccNext(claims: seq<Claim>, c: Claim, b: int)
    ensures Occ(claims + [c], b) == Occ(claims, b) + if c.blk == b then 1 else 0
  {
    assert (claims + [c])[..|claims|] == claims;
  }

  lemma {:induction false} OccSome(claims: seq<Claim>, j: nat)
    requires j < |claims|
    ensures Occ(claims, claims[j].blk) >= 1
  {
    if j < |claims| - 1 {
      OccSome(claims[..|claims| - 1], j);
    }
  }

  lemma {:induction false} OccTwo(claims: seq<Claim>, i: nat, j: nat)
    requires i < j < |claims| && claims[i].blk == claims[j].blk
    ensures Occ(claims, claims[j].blk) >= 2
  {
    if j < |claims| - 1 {
      OccTwo(claims[..|claims| - 1], i, j);
    } else {
      OccSome(claims[..|claims| - 1], i);
    }
  }

  /** Some claim before j is for the block of claim j. */
  predicate Again(claims: seq<Claim>, j: nat)
    requires j < |claims|
  {
    exists i | 0 <= i < j :: claims[i].blk == claims[j].blk
  }

  /** A claimed block has a first claim. */
  lemma {:induction false} OccFirst(claims: seq<Claim>, b: int) returns (i: nat)
    requires Occ(claims, b) >= 1
    ensures i < |claims| && claims[i].blk == b && !Again(claims, i)
  {
    var n := |claims| - 1;
    if Occ(claims[..n], b) >= 1 {
      i := OccFirst(claims[..n], b);
    } else {
      i := n;
      forall k | 0 <= k < n
        ensures claims[k].blk != b
      {
        if claims[k].blk == b {
          OccSome(claims[..n], k);
        }
      }
    }
  }

  // ---- The account

  predicate InList(dups: seq<int>, n: nat, b: int)
    requires n <= |dups|
  {
    exists i | 0 <= i < n :: dups[i] == b
  }

  /** Every claim is either the block's bit in the map or an entry of the duplicate list; the first part of
      the list has each of its blocks once. */
  ghost predicate Account(claims: seq<Claim>, map0: seq<bool>, fmin: int, fmax: int, dups: seq<int>, mul: nat, end: nat) {
    && 0 <= mul <= end <= |dups| && |map0| == fmax && 0 <= fmin
    && (forall b | InRange(fmin, fmax, b) :: Occ(claims, b) == (if map0[b] then 1 else 0) + multiset(dups[..end])[b])
    && (forall i | 0 <= i < end :: InRange(fmin, fmax, dups[i]) && map0[dups[i]] && InList(dups, mul, dups[i]))
    && (forall i, j | 0 <= i < j < mul :: dups[i] != dups[j])
  }

  /** The inodes phase 1 marks: those a limit has stopped, and those with a block out of range, or one claimed
      before. */
  ghost predicate MarkedFirst(claims: seq<Claim>, fmin: int, fmax: int, cutOff: set<nat>, marked: set<nat>) {
    forall i :: i in marked <==> i in cutOff || exists j | 0 <= j < |claims| :: BadClaim(claims, fmin, fmax, i, j)
  }

  predicate BadClaim(claims: seq<Claim>, fmin: int, fmax: int, i: nat, j: nat)
    requires j < |claims|
  {
    claims[j].ino == i && (!InRange(fmin, fmax, claims[j].blk) || Again(claims, j))
  }

  lemma AccountBad(claims: seq<Claim>, map0: seq<bool>, fmin: int, fmax: int, dups: seq<int>, mul: nat, end: nat, c: Claim)
    requires Account(claims, map0, fmin, fmax, dups, mul, end) && !InRange(fmin, fmax, c.blk)
    ensures Account(claims + [c], map0, fmin, fmax, dups, mul, end)
  {
    hide Occ;
    forall b | InRange(fmin, fmax, b)
      ensures Occ(claims + [c], b) == Occ(claims, b)
    {
      OccNext(claims, c, b);
    }
  }

  lemma AccountNew(claims: seq<Claim>, map0: seq<bool>, fmin: int, fmax: int, dups: seq<int>, mul: nat, end: nat, c: Claim)
    requires Account(claims, map0, fmin, fmax, dups, mul, end) && InRange(fmin, fmax, c.blk) && !map0[c.blk]
    ensures Account(claims + [c], map0[c.blk := true], fmin, fmax, dups, mul, end)
  {
    hide Occ, InList;
    forall b | InRange(fmin, fmax, b)
      ensures Occ(claims + [c], b) == (if map0[c.blk := true][b] then 1 else 0) + multiset(dups[..end])[b]
    {
      OccNext(claims, c, b);
    }
  }

  /** The block is already in the first part of the list. */
  lemma AccountSeen(claims: seq<Claim>, map0: seq<bool>, fmin: int, fmax: int, dups: seq<int>, mul: nat, end: nat, c: Claim)
    requires Account(claims, map0, fmin, fmax, dups, mul, end) && InRange(fmin, fmax, c.blk) && map0[c.blk]
    requires end < |dups| && InList(dups, mul, c.blk)
    ensures Account(claims + [c], map0, fmin, fmax, dups[end := c.blk], mul, end + 1)
  {
    var dups' := dups[end := c.blk];
    assert dups'[..end + 1] == dups[..end] + [c.blk];
    SameList(dups, dups', mul);
    hide Occ, InList;
    forall b | InRange(fmin, fmax, b)
      ensures Occ(claims + [c], b) == (if map0[b] then 1 else 0) + multiset(dups'[..end + 1])[b]
    {
      OccNext(claims, c, b);
    }
    forall i | 0 <= i < end + 1
      ensures InRange(fmin, fmax, dups'[i]) && map0[dups'[i]] && InList(dups', mul, dups'[i])
    {
      assert i < end ==> InList(dups, mul, dups[i]);
    }
  }

  lemma SameList(dups: seq<int>, dups': seq<int>, n: nat)
    requires n <= |dups| && n <= |dups'| && forall i | 0 <= i < n :: dups'[i] == dups[i]
    ensures forall b :: InList(dups', n, b) <==> InList(dups, n, b)
  {
  }

  /** The block is not there yet: it joins the first part, and the entry in its way moves to the end. */
  lemma AccountFresh(claims: seq<Claim>, map0: seq<bool>, fmin: int, fmax: int, dups: seq<int>, mul: nat, end: nat, c: Claim)
    requires Account(claims, map0, fmin, fmax, dups, mul, end) && InRange(fmin, fmax, c.blk) && map0[c.blk]
    requires end < |dups| && !InList(dups, mul, c.blk)
    ensures Account(claims + [c], map0, fmin, fmax, dups[end := dups[mul]][mul := c.blk], mul + 1, end + 1)
  {
    hide Occ, InList;
    NotListed(dups, mul, c.blk);
    FreshDistinct(dups, mul, end, c.blk);
    FreshListed(map0, fmin, fmax, dups, mul, end, c.blk);
    MovedUp(dups, mul, end, c.blk);
    forall b | InRange(fmin, fmax, b)
      ensures Occ(claims + [c], b) == Occ(claims, b) + if b == c.blk then 1 else 0
    {
      OccNext(claims, c, b);
    }
  }

  lemma FreshDistinct(dups: seq<int>, mul: nat, end: nat, blk: int)
    requires mul <= end < |dups| && forall i | 0 <= i < mul :: dups[i] != blk
    requires forall i, j | 0 <= i < j < mul :: dups[i] != dups[j]
    ensures var dups' := dups[end := dups[mul]][mul := blk];
            forall i, j | 0 <= i < j < mul + 1 :: dups'[i] != dups'[j]
  {
  }

  lemma FreshListed(map0: seq<bool>, fmin: int, fmax: int, dups: seq<int>, mul: nat, end: nat, blk: int)
    requires mul <= end < |dups| && 0 <= fmin && fmax == |map0| && InRange(fmin, fmax, blk) && map0[blk]
    requires forall i | 0 <= i < end :: InRange(fmin, fmax, dups[i]) && map0[dups[i]] && InList(dups, mul, dups[i])
    ensures var dups' := dups[end := dups[mul]][mul := blk];
            forall i | 0 <= i < end + 1 ::
              InRange(fmin, fmax, dups'[i]) && map0[dups'[i]] && InList(dups', mul + 1, dups'[i])
  {
    hide InList;
    var dups' := dups[end := dups[mul]][mul := blk];
    forall i | 0 <= i < end + 1
      ensures InRange(fmin, fmax, dups'[i]) && map0[dups'[i]] && InList(dups', mul + 1, dups'[i])
    {
      var k := if i == end then mul else i;
      assert dups'[i] == if i == mul then blk else dups[k];
      if i != mul {
        assert InList(dups, mul, dups[k]);
      }
      StillListed(dups, mul, end, blk, dups'[i]);
    }
  }

  lemma StillListed(dups: seq<int>, mul: nat, end: nat, blk: int, b: int)
    requires mul <= end < |dups| && (InList(dups, mul, b) || b == blk)
    ensures InList(dups[end := dups[mul]][mul := blk], mul + 1, b)
  {
    var dups' := dups[end := dups[mul]][mul := blk];
    if b == blk {
      assert dups'[mul] == b;
    } else {
      var i :| 0 <= i < mul && dups[i] == b;
      assert dups'[i] == b;
    }
  }

  lemma NotListed(dups: seq<int>, n: nat, b: int)
    requires n <= |dups| && !InList(dups, n, b)
    ensures forall i | 0 <= i < n :: dups[i] != b
  {
  }

  lemma MovedUp(dups: seq<int>, mul: nat, end: nat, b: int)
    requires mul <= end < |dups|
    ensures multiset(dups[end := dups[mul]][mul := b][..end + 1]) == multiset(dups[..end]) + multiset{b}
  {
    var dups' := dups[end := dups[mul]][mul := b];
    if mul == end {
      assert dups'[..end + 1] == dups[..end] + [b];
    } else {
      assert dups'[..end + 1] == dups[..mul] + [b] + dups[mul + 1..end] + [dups[mul]];
      assert dups[..end] == dups[..mul] + [dups[mul]] + dups[mul + 1..end];
    }
  }

  /** A claim is a second one exactly when the map has the block. */
  lemma DupIsAgain(claims: seq<Claim>, map0: seq<bool>, fmin: int, fmax: int, dups: seq<int>, mul: nat, end: nat, c: Claim)
    requires Account(claims, map0, fmin, fmax, dups, mul, end) && InRange(fmin, fmax, c.blk)
    ensures map0[c.blk] <==> Again(claims + [c], |claims|)
  {
    hide Occ, InList;
    var n := |claims|;
    if map0[c.blk] {
      var j := OccFirst(claims, c.blk);
      assert (claims + [c])[j].blk == (claims + [c])[n].blk;
    }
    if Again(claims + [c], n) {
      var j :| 0 <= j < n && (claims + [c])[j].blk == (claims + [c])[n].blk;
      OccSome(claims, j);
      CountBit(claims, map0, fmin, fmax, dups, mul, end, c.blk);
    }
  }

  lemma CountBit(claims: seq<Claim>, map0: seq<bool>, fmin: int, fmax: int, dups: seq<int>, mul: nat, end: nat, b: int)
    requires Account(claims, map0, fmin, fmax, dups, mul, end) && InRange(fmin, fmax, b) && Occ(claims, b) >= 1
    ensures map0[b]
  {
    hide Occ;
    assert multiset(dups[..end])[b] > 0 <==> b in dups[..end];
  }

  lemma MarkOneMore(claims: seq<Claim>, fmin: int, fmax: int, cutOff: set<nat>, marked: set<nat>, c: Claim, bad: bool)
    requires MarkedFirst(claims, fmin, fmax, cutOff, marked)
    requires bad <==> !InRange(fmin, fmax, c.blk) || Again(claims + [c], |claims|)
    ensures MarkedFirst(claims + [c], fmin, fmax, cutOff, if bad then marked + {c.ino} else marked)
  {
    var more := claims + [c];
    forall j | 0 <= j < |claims|
      ensures Again(more, j) == Again(claims, j)
    {
      assert forall i | 0 <= i < j :: more[i] == claims[i];
    }
    var marked' := if bad then marked + {c.ino} else marked;
    forall i
      ensures i in marked' <==> i in cutOff || exists j | 0 <= j < |more| :: BadClaim(more, fmin, fmax, i, j)
    {
      assert forall j | 0 <= j < |claims| :: BadClaim(more, fmin, fmax, i, j) == BadClaim(claims, fmin, fmax, i, j);
      assert BadClaim(more, fmin, fmax, i, |claims|) <==> i == c.ino && bad;
    }
  }

  lemma MarkCutOff(claims: seq<Claim>, fmin: int, fmax: int, cutOff: set<nat>, marked: set<nat>, i: nat)
    requires MarkedFirst(claims, fmin, fmax, cutOff, marked)
    ensures MarkedFirst(claims, fmin, fmax, cutOff + {i}, marked + {i})
  {
  }

  // ---- The limits

  predicate IsBad(fmin: int, fmax: int, blk: int) {
    !InRange(fmin, fmax, blk)
  }

  /** The claim c, made after claims, is for a block claimed before. */
  predicate IsDup(claims: seq<Claim>, fmin: int, fmax: int, c: Claim) {
    InRange(fmin, fmax, c.blk) && Again(claims + [c], |claims|)
  }

  /** Blocks of inode i that are out of range. */
  function Bads(claims: seq<Claim>, fmin: int, fmax: int, i: nat): nat {
    if claims == [] then 0
    else
      var n := |claims| - 1;
      Bads(claims[..n], fmin, fmax, i) + if claims[n].ino == i && IsBad(fmin, fmax, claims[n].blk) then 1 else 0
  }

  /** Claims of inode i for blocks claimed before. */
  function Dups(claims: seq<Claim>, fmin: int, fmax: int, i: nat): nat {
    if claims == [] then 0
    else
      var n := |claims| - 1;
      Dups(claims[..n], fmin, fmax, i) + if claims[n].ino == i && IsDup(claims[..n], fmin, fmax, claims[n]) then 1 else 0
  }

  /** Claims of any inode for blocks claimed before. */
  function AllDups(claims: seq<Claim>, fmin: int, fmax: int): nat {
    if claims == [] then 0
    else
      var n := |claims| - 1;
      AllDups(claims[..n], fmin, fmax) + if IsDup(claims[..n], fmin, fmax, claims[n]) then 1 else 0
  }

  /** Some inode has too many bad or duplicate blocks, or there are too many duplicates for the list. */
  ghost predicate LimitMet(claims: seq<Claim>, fmin: int, fmax: int) {
    || (exists i: nat :: Bads(claims, fmin, fmax, i) >= MAXBAD)
    || (exists i: nat :: Dups(claims, fmin, fmax, i) >= MAXDUP)
    || AllDups(claims, fmin, fmax) > DUPTBLSIZE
  }

  lemma TallyNext(claims: seq<Claim>, fmin: int, fmax: int, c: Claim, i: nat)
    ensures Bads(claims + [c], fmin, fmax, i)
         == Bads(claims, fmin, fmax, i) + if c.ino == i && IsBad(fmin, fmax, c.blk) then 1 else 0
    ensures Dups(claims + [c], fmin, fmax, i)
         == Dups(claims, fmin, fmax, i) + if c.ino == i && IsDup(claims, fmin, fmax, c) then 1 else 0
    ensures AllDups(claims + [c], fmin, fmax)
         == AllDups(claims, fmin, fmax) + if IsDup(claims, fmin, fmax, c) then 1 else 0
  {
    assert (claims + [c])[..|claims|] == claims;
  }

  lemma {:induction false} TallyGrows(p: seq<Claim>, all: seq<Claim>, fmin: int, fmax: int, i: nat)
    requires p <= all
    ensures Bads(p, fmin, fmax, i) <= Bads(all, fmin, fmax, i)
    ensures Dups(p, fmin, fmax, i) <= Dups(all, fmin, fmax, i)
    ensures AllDups(p, fmin, fmax) <= AllDups(all, fmin, fmax)
    decreases |all|
  {
    if p != all {
      hide IsDup, IsBad;
      TallyGrows(p, all[..|all| - 1], fmin, fmax, i);
    }
  }

  lemma LimitStays(p: seq<Claim>, all: seq<Claim>, fmin: int, fmax: int)
    requires p <= all && LimitMet(p, fmin, fmax)
    ensures LimitMet(all, fmin, fmax)
  {
    hide Bads, Dups, AllDups;
    TallyGrows(p, all, fmin, fmax, 0);
    if i: nat :| Bads(p, fmin, fmax, i) >= MAXBAD {
      TallyGrows(p, all, fmin, fmax, i);
    } else if i: nat :| Dups(p, fmin, fmax, i) >= MAXDUP {
      TallyGrows(p, all, fmin, fmax, i);
    }
  }

  /** The next claim meets a limit only on the account of its own inode or of the list. */
  lemma LimitNext(claims: seq<Claim>, fmin: int, fmax: int, c: Claim)
    requires !LimitMet(claims, fmin, fmax)
    ensures LimitMet(claims + [c], fmin, fmax)
       <==> (IsBad(fmin, fmax, c.blk) && Bads(claims, fmin, fmax, c.ino) + 1 >= MAXBAD)
            || (IsDup(claims, fmin, fmax, c)
                && (Dups(claims, fmin, fmax, c.ino) + 1 >= MAXDUP || AllDups(claims, fmin, fmax) >= DUPTBLSIZE))
  {
    hide Bads, Dups, AllDups, IsDup, IsBad;
    forall i: nat
      ensures Bads(claims + [c], fmin, fmax, i)
           == Bads(claims, fmin, fmax, i) + if c.ino == i && IsBad(fmin, fmax, c.blk) then 1 else 0
      ensures Dups(claims + [c], fmin, fmax, i)
           == Dups(claims, fmin, fmax, i) + if c.ino == i && IsDup(claims, fmin, fmax, c) then 1 else 0
    {
      TallyNext(claims, fmin, fmax, c, i);
    }
    TallyNext(claims, fmin, fmax, c, c.ino);
    assert Bads(claims + [c], fmin, fmax, c.ino) >= 0 && Dups(claims + [c], fmin, fmax, c.ino) >= 0;
  }

  lemma {:induction false} NoTally(claims: seq<Claim>, fmin: int, fmax: int, i: nat)
    requires forall j | 0 <= j < |claims| :: claims[j].ino != i
    ensures Bads(claims, fmin, fmax, i) == 0 && Dups(claims, fmin, fmax, i) == 0
  {
    if claims != [] {
      hide IsDup, IsBad;
      NoTally(claims[..|claims| - 1], fmin, fmax, i);
    }
  }

  // ---- Phase 1b

  /** The blocks on record more than once that are not among the first n the second scan has met are still to be
      found: they are the first mul of the list. */
  ghost predicate Sought(claims: seq<Claim>, all: seq<Claim>, n: nat, fmin: int, fmax: int, dups: seq<int>, mul: nat) {
    && n <= |all| && mul <= |dups|
    && (forall i, j | 0 <= i < j < mul :: dups[i] != dups[j])
    && forall b :: InList(dups, mul, b) <==> InRange(fmin, fmax, b) && Occ(claims, b) >= 2 && Occ(all[..n], b) == 0
  }

  /** Inode i is where the second scan comes upon a block that is on record more than once. */
  predicate FirstFound(claims: seq<Claim>, all: seq<Claim>, fmin: int, fmax: int, i: nat, j: nat)
    requires j < |all|
  {
    all[j].ino == i && InRange(fmin, fmax, all[j].blk) && Occ(claims, all[j].blk) >= 2 && !Again(all, j)
  }

  /** The inodes marked when the second scan has met n claims. */
  ghost predicate MarkedAlso(claims: seq<Claim>, all: seq<Claim>, n: nat, fmin: int, fmax: int, before: set<nat>,
                             marked: set<nat>)
    requires n <= |all|
  {
    forall i :: i in marked <==> i in before || exists j | 0 <= j < n :: FirstFound(claims, all, fmin, fmax, i, j)
  }

  /** The inodes marked by both scans, the first of which has recorded `claims` and the second reads all of them. */
  ghost predicate Suspect(claims: seq<Claim>, all: seq<Claim>, fmin: int, fmax: int, cutOff: set<nat>, i: nat) {
    || i in cutOff
    || (exists j | 0 <= j < |claims| :: BadClaim(claims, fmin, fmax, i, j))
    || exists j | 0 <= j < |all| :: FirstFound(claims, all, fmin, fmax, i, j)
  }

  /** Inode i has a block that is out of range or claimed more than once, by itself or by another. */
  ghost predicate AtFault(claims: seq<Claim>, fmin: int, fmax: int, i: nat) {
    exists j | 0 <= j < |claims| :: FaultyClaim(claims, fmin, fmax, i, j)
  }

  predicate FaultyClaim(claims: seq<Claim>, fmin: int, fmax: int, i: nat, j: nat)
    requires j < |claims|
  {
    claims[j].ino == i && (!InRange(fmin, fmax, claims[j].blk) || Occ(claims, claims[j].blk) >= 2)
  }

  lemma SoughtStart(claims: seq<Claim>, all: seq<Claim>, map0: seq<bool>, fmin: int, fmax: int, dups: seq<int>,
                    mul: nat, end: nat)
    requires Account(claims, map0, fmin, fmax, dups, mul, end)
    ensures Sought(claims, all, 0, fmin, fmax, dups, mul)
  {
    assert all[..0] == [];
    assert forall b :: Occ(all[..0], b) == 0;
    hide Occ;
    forall b
      ensures InList(dups, mul, b) <==> InRange(fmin, fmax, b) && Occ(claims, b) >= 2
    {
      assert multiset(dups[..end])[b] > 0 <==> b in dups[..end];
    }
  }

  /** The next block is found exactly when it is the first claim of a block on record more than once. */
  lemma SoughtIs(claims: seq<Claim>, all: seq<Claim>, n: nat, fmin: int, fmax: int, dups: seq<int>, mul: nat)
    requires n < |all| && Sought(claims, all, n, fmin, fmax, dups, mul)
    ensures InList(dups, mul, all[n].blk) <==> FirstFound(claims, all, fmin, fmax, all[n].ino, n)
  {
    hide Occ, InList;
    MetBefore(all, n);
  }

  lemma MetBefore(all: seq<Claim>, n: nat)
    requires n < |all|
    ensures Occ(all[..n], all[n].blk) > 0 <==> Again(all, n)
  {
    hide Occ;
    if Occ(all[..n], all[n].blk) > 0 {
      var j := OccFirst(all[..n], all[n].blk);
      assert all[j].blk == all[n].blk;
    }
    if Again(all, n) {
      var j :| 0 <= j < n && all[j].blk == all[n].blk;
      OccSome(all[..n], j);
    }
  }

  lemma SoughtSkip(claims: seq<Claim>, all: seq<Claim>, n: nat, fmin: int, fmax: int, dups: seq<int>, mul: nat)
    requires n < |all| && Sought(claims, all, n, fmin, fmax, dups, mul) && !InList(dups, mul, all[n].blk)
    ensures Sought(claims, all, n + 1, fmin, fmax, dups, mul)
  {
    hide Occ, InList;
    PrefixNext(all, n);
  }

  lemma PrefixNext(claims: seq<Claim>, n: nat)
    requires n < |claims|
    ensures forall b :: Occ(claims[..n + 1], b) == Occ(claims[..n], b) + if claims[n].blk == b then 1 else 0
  {
    forall b
      ensures Occ(claims[..n + 1], b) == Occ(claims[..n], b) + if claims[n].blk == b then 1 else 0
    {
      OccNext(claims[..n], claims[n], b);
      assert claims[..n] + [claims[n]] == claims[..n + 1];
    }
  }

  /** Taking entry i off the first part of the list. */
  lemma ListShrinks(dups: seq<int>, mul: nat, i: nat, less: seq<int>)
    requires i < mul <= |dups| && less == dups[i := dups[mul - 1]][mul - 1 := dups[i]]
    requires forall j, k | 0 <= j < k < mul :: dups[j] != dups[k]
    ensures forall j, k | 0 <= j < k < mul - 1 :: less[j] != less[k]
    ensures forall b :: InList(less, mul - 1, b) <==> InList(dups, mul, b) && b != dups[i]
  {
    forall b
      ensures InList(less, mul - 1, b) <==> InList(dups, mul, b) && b != dups[i]
    {
      if InList(less, mul - 1, b) {
        var k :| 0 <= k < mul - 1 && less[k] == b;
        assert b == dups[if k == i then mul - 1 else k];
      }
      if InList(dups, mul, b) && b != dups[i] {
        var k :| 0 <= k < mul && dups[k] == b;
        assert less[if k == mul - 1 then i else k] == b;
      }
    }
  }

  lemma InFirstPart(dups: seq<int>, mul: nat, i: nat)
    requires i < mul <= |dups|
    ensures InList(dups, mul, dups[i])
  {
  }

  lemma SoughtFound(claims: seq<Claim>, all: seq<Claim>, n: nat, fmin: int, fmax: int, dups: seq<int>, mul: nat, i: nat)
    requires n < |all| && Sought(claims, all, n, fmin, fmax, dups, mul) && i < mul && dups[i] == all[n].blk
    ensures Sought(claims, all, n + 1, fmin, fmax, dups[i := dups[mul - 1]][mul - 1 := all[n].blk], mul - 1)
  {
    hide Occ, InList;
    PrefixNext(all, n);
    InFirstPart(dups, mul, i);
    var less, m := dups[i := dups[mul - 1]][mul - 1 := all[n].blk], mul - 1;
    ListShrinks(dups, mul, i, less);
    forall b
      ensures InList(less, m, b)
         <==> InRange(fmin, fmax, b) && Occ(claims, b) >= 2 && Occ(all[..n + 1], b) == 0
    {
      assert Occ(all[..n + 1], b) == Occ(all[..n], b) + if all[n].blk == b then 1 else 0;
      assert InList(less, m, b) <==> InList(dups, mul, b) && b != dups[i];
    }
  }

  lemma MarksStep(claims: seq<Claim>, all: seq<Claim>, n: nat, fmin: int, fmax: int, before: set<nat>, marked: set<nat>,
                  found: bool)
    requires n < |all| && MarkedAlso(claims, all, n, fmin, fmax, before, marked)
    requires found <==> FirstFound(claims, all, fmin, fmax, all[n].ino, n)
    ensures MarkedAlso(claims, all, n + 1, fmin, fmax, before, if found then marked + {all[n].ino} else marked)
  {
    assert forall i :: FirstFound(claims, all, fmin, fmax, i, n) <==> found && i == all[n].ino;
    hide FirstFound;
    var m := n + 1;
    forall i
      ensures (exists j | 0 <= j < m :: FirstFound(claims, all, fmin, fmax, i, j))
         <==> (exists j | 0 <= j < n :: FirstFound(claims, all, fmin, fmax, i, j))
              || FirstFound(claims, all, fmin, fmax, i, n)
    {
    }
  }

  /** Once nothing is sought, nothing more will be found. */
  lemma NoneLeft(claims: seq<Claim>, all: seq<Claim>, n: nat, fmin: int, fmax: int, dups: seq<int>, mul: nat)
    requires Sought(claims, all, n, fmin, fmax, dups, mul) && (n == |all| || mul == 0)
    ensures forall i: nat, j: nat | n <= j < |all| :: !FirstFound(claims, all, fmin, fmax, i, j)
  {
    hide Occ;
    forall i: nat, j: nat | n <= j < |all|
      ensures !FirstFound(claims, all, fmin, fmax, i, j)
    {
      var b := all[j].blk;
      assert !InList(dups, mul, b);
      if Occ(all[..n], b) >= 1 {
        var k := OccFirst(all[..n], b);
        assert all[k].blk == b && Again(all, j);
      }
    }
  }

  lemma AllFound(claims: seq<Claim>, all: seq<Claim>, n: nat, fmin: int, fmax: int, dups: seq<int>, mul: nat,
                 cutOff: set<nat>, before: set<nat>, marked: set<nat>)
    requires Sought(claims, all, n, fmin, fmax, dups, mul) && (n == |all| || mul == 0)
    requires MarkedFirst(claims, fmin, fmax, cutOff, before) && MarkedAlso(claims, all, n, fmin, fmax, before, marked)
    ensures forall i :: i in marked <==> Suspect(claims, all, fmin, fmax, cutOff, i)
  {
    NoneLeft(claims, all, n, fmin, fmax, dups, mul);
    hide FirstFound, BadClaim, Sought;
  }

  /** If no limit was met, the inodes marked by both scans are exactly those at fault. */
  lemma SuspectIsAtFault(claims: seq<Claim>, fmin: int, fmax: int, i: nat)
    ensures Suspect(claims, claims, fmin, fmax, {}, i) <==> AtFault(claims, fmin, fmax, i)
  {
    hide Occ;
    forall j: nat | j < |claims|
      ensures FaultyClaim(claims, fmin, fmax, i, j)
         <==> BadClaim(claims, fmin, fmax, i, j) || FirstFound(claims, claims, fmin, fmax, i, j)
    {
      if Again(claims, j) {
        var k :| 0 <= k < j && claims[k].blk == claims[j].blk;
        OccTwo(claims, k, j);
      }
    }
    hide FaultyClaim, BadClaim, FirstFound;
  }

  // ---- The scan over all inodes

  /** The claims of one inode, up to its block k. */
  function Part(blocks: seq<int>, i: nat, k: nat): seq<Claim>
    requires k <= |blocks|
  {
    seq(k, m requires 0 <= m < k => Claim(i, blocks[m]))
  }

  /** The claims of the first n inodes, in the order of the scan. */
  function Scan(inodes: seq<seq<int>>, n: nat): seq<Claim>
    requires n <= |inodes|
  {
    if n == 0 then [] else Scan(inodes, n - 1) + Part(inodes[n - 1], n - 1, |inodes[n - 1]|)
  }

  lemma PartNext(blocks: seq<int>, i: nat, k: nat)
    requires k < |blocks|
    ensures Part(blocks, i, k + 1) == Part(blocks, i, k) + [Claim(i, blocks[k])]
  {
  }

  lemma {:induction false} ScanPrefix(inodes: seq<seq<int>>, n: nat, m: nat)
    requires n <= m <= |inodes|
    ensures Scan(inodes, n) <= Scan(inodes, m)
  {
    if n < m {
      ScanPrefix(inodes, n, m - 1);
    }
  }

  /** Where block k of inode i comes in the scan. */
  lemma ScanAt(inodes: seq<seq<int>>, i: nat, k: nat)
    requires i < |inodes| && k < |inodes[i]|
    ensures var all := Scan(inodes, |inodes|);
            |Scan(inodes, i)| + k < |all| && all[|Scan(inodes, i)| + k] == Claim(i, inodes[i][k])
  {
    ScanPrefix(inodes, i + 1, |inodes|);
    assert Scan(inodes, i + 1)[|Scan(inodes, i)| + k] == Part(inodes[i], i, |inodes[i]|)[k];
  }

  lemma ScanLength(inodes: seq<seq<int>>, i: nat)
    requires i < |inodes|
    ensures |Scan(inodes, i + 1)| == |Scan(inodes, i)| + |inodes[i]|
  {
  }

  // ---- Inodes cut short

  /** cut[i] is the number of blocks of inode i that are recorded. */
  ghost predicate Fits(inodes: seq<seq<int>>, cut: seq<nat>) {
    |cut| <= |inodes| && forall i | 0 <= i < |cut| :: cut[i] <= |inodes[i]|
  }

  ghost function CutScan(inodes: seq<seq<int>>, cut: seq<nat>): seq<Claim>
    requires Fits(inodes, cut)
  {
    if cut == [] then []
    else
      var n := |cut| - 1;
      CutScan(inodes, cut[..n]) + Part(inodes[n], n, cut[n])
  }

  /** The claims on record when block k of inode i is looked at. */
  ghost function Before(inodes: seq<seq<int>>, cut: seq<nat>, i: nat, k: nat): seq<Claim>
    requires Fits(inodes, cut) && i <= |cut| && i < |inodes| && k <= |inodes[i]|
  {
    CutScan(inodes, cut[..i]) + Part(inodes[i], i, k)
  }

  /** Block k of inode i meets a limit, given the claims on record so far. */
  ghost predicate Blocked(inodes: seq<seq<int>>, cut: seq<nat>, i: nat, k: nat, fmin: int, fmax: int)
    requires Fits(inodes, cut) && i <= |cut| && i < |inodes| && k < |inodes[i]|
  {
    LimitMet(Before(inodes, cut, i, k) + [Claim(i, inodes[i][k])], fmin, fmax)
  }

  /** Each inode is recorded up to its first block that meets a limit. */
  ghost predicate CutAtLimits(inodes: seq<seq<int>>, cut: seq<nat>, fmin: int, fmax: int)
    requires Fits(inodes, cut)
  {
    forall i, k | 0 <= i < |cut| && 0 <= k <= cut[i] && k < |inodes[i]| ::
      Blocked(inodes, cut, i, k, fmin, fmax) <==> k == cut[i]
  }

  ghost function CutOff(inodes: seq<seq<int>>, cut: seq<nat>): set<nat>
    requires |cut| <= |inodes|
  {
    set i | 0 <= i < |cut| && cut[i] < |inodes[i]|
  }

  lemma NextCut(inodes: seq<seq<int>>, cut: seq<nat>, k: nat, fmin: int, fmax: int)
    requires Fits(inodes, cut) && CutAtLimits(inodes, cut, fmin, fmax)
    requires var i := |cut|; i < |inodes| && k <= |inodes[i]|
    requires forall m | 0 <= m < k :: !Blocked(inodes, cut, |cut|, m, fmin, fmax)
    requires k == |inodes[|cut|]| || Blocked(inodes, cut, |cut|, k, fmin, fmax)
    ensures Fits(inodes, cut + [k]) && CutAtLimits(inodes, cut + [k], fmin, fmax)
    ensures CutScan(inodes, cut + [k]) == Before(inodes, cut, |cut|, k)
    ensures CutOff(inodes, cut + [k]) == CutOff(inodes, cut) + if k < |inodes[|cut|]| then {|cut|} else {}
  {
    hide LimitMet, CutScan, Part;
    var more := cut + [k];
    assert more[..|cut|] == cut[..|cut|] == cut;
    CutScanNext(inodes, cut, k);
    forall i, m | 0 <= i < |more| && 0 <= m <= more[i] && m < |inodes[i]|
      ensures Blocked(inodes, more, i, m, fmin, fmax) <==> m == more[i]
    {
      assert more[..i] == cut[..i];
      assert Blocked(inodes, more, i, m, fmin, fmax) == Blocked(inodes, cut, i, m, fmin, fmax);
    }
  }

  lemma CutScanNext(inodes: seq<seq<int>>, cut: seq<nat>, k: nat)
    requires Fits(inodes, cut) && |cut| < |inodes| && k <= |inodes[|cut|]|
    ensures Fits(inodes, cut + [k])
    ensures CutScan(inodes, cut + [k]) == CutScan(inodes, cut) + Part(inodes[|cut|], |cut|, k)
  {
    hide Part;
    assert (cut + [k])[..|cut|] == cut;
  }

  /** The claims before those of inode i are of other inodes. */
  lemma {:induction false} CutEarlier(inodes: seq<seq<int>>, cut: seq<nat>)
    requires Fits(inodes, cut)
    ensures forall c | c in CutScan(inodes, cut) :: c.ino < |cut|
  {
    if cut != [] {
      CutEarlier(inodes, cut[..|cut| - 1]);
    }
  }

  lemma {:induction false} NothingCut(inodes: seq<seq<int>>, cut: seq<nat>)
    requires Fits(inodes, cut) && forall i | 0 <= i < |cut| :: cut[i] == |inodes[i]|
    ensures CutScan(inodes, cut) == Scan(inodes, |cut|)
  {
    hide Part;
    if cut != [] {
      NothingCut(inodes, cut[..|cut| - 1]);
    }
  }

  /** If an inode has been cut short, the claims of all inodes exceed a limit. */
  lemma {:induction false} CutMeetsLimit(inodes: seq<seq<int>>, cut: seq<nat>, n: nat, fmin: int, fmax: int)
    requires Fits(inodes, cut) && CutAtLimits(inodes, cut, fmin, fmax) && n <= |cut| == |inodes|
    requires forall i | 0 <= i < n :: cut[i] == |inodes[i]|
    ensures CutOff(inodes, cut) != {} ==> LimitMet(Scan(inodes, |inodes|), fmin, fmax)
    decreases |cut| - n
  {
    hide LimitMet, CutScan, Part, Scan;
    if n < |cut| {
      if cut[n] == |inodes[n]| {
        CutMeetsLimit(inodes, cut, n + 1, fmin, fmax);
      } else {
        assert Blocked(inodes, cut, n, cut[n], fmin, fmax);
        NothingCut(inodes, cut[..n]);
        NextClaim(inodes, n, cut[n]);
        LimitStays(Before(inodes, cut, n, cut[n]) + [Claim(n, inodes[n][cut[n]])], Scan(inodes, |inodes|), fmin, fmax);
      }
    }
  }

  lemma {:induction false} UsedOne(map0: seq<bool>, fmin: nat, k: nat, b: nat)
    requires k <= |map0| && fmin <= b < |map0| && !map0[b]
    ensures CountUsed(map0[b := true], fmin, k) == CountUsed(map0, fmin, k) + if b < k then 1 else 0
  {
    if k > fmin {
      UsedOne(map0, fmin, k - 1, b);
    }
  }

  // ---- Withdrawing claims

  /** Claims of inode i for block b. */
  function OccOf(claims: seq<Claim>, i: nat, b: int): nat {
    if claims == [] then 0
    else OccOf(claims[..|claims| - 1], i, b) + if claims[|claims| - 1] == Claim(i, b) then 1 else 0
  }

  /** The claims of inodes that are not in s. */
  function Others(claims: seq<Claim>, s: set<nat>): seq<Claim> {
    if claims == [] then []
    else Others(claims[..|claims| - 1], s) + if claims[|claims| - 1].ino in s then [] else [claims[|claims| - 1]]
  }

  /** How often b is among the first k blocks. */
  function Times(blocks: seq<int>, k: nat, b: int): nat
    requires k <= |blocks|
  {
    if k == 0 then 0 else Times(blocks, k - 1, b) + if blocks[k - 1] == b then 1 else 0
  }

  /** What is left of x when y has been taken off. */
  function Less(x: nat, y: nat): nat {
    if x > y then x - y else 0
  }

  /** How often b is among the blocks of those of the first n inodes that are in s. */
  function Taken(inodes: seq<seq<int>>, s: set<nat>, n: nat, b: int): nat
    requires n <= |inodes|
  {
    if n == 0 then 0
    else Taken(inodes, s, n - 1, b) + if n - 1 in s then Times(inodes[n - 1], |inodes[n - 1]|, b) else 0
  }

  /** Block b is claimed by an inode that is not at fault. */
  ghost predicate Sole(claims: seq<Claim>, fmin: int, fmax: int, b: int) {
    exists j | 0 <= j < |claims| :: SoleClaim(claims, fmin, fmax, b, j)
  }

  ghost predicate SoleClaim(claims: seq<Claim>, fmin: int, fmax: int, b: int, j: nat)
    requires j < |claims|
  {
    claims[j].blk == b && !AtFault(claims, fmin, fmax, claims[j].ino)
  }

  lemma NoTimes(blocks: seq<int>)
    ensures forall b :: Times(blocks, 0, b) == 0
  {
  }

  lemma NextTaken(inodes: seq<seq<int>>, s: set<nat>, n: nat)
    requires n < |inodes|
    ensures forall b :: Taken(inodes, s, n + 1, b)
                    == Taken(inodes, s, n, b) + if n in s then Times(inodes[n], |inodes[n]|, b) else 0
  {
    hide Times;
  }

  lemma FirstNotTaken(inodes: seq<seq<int>>, s: set<nat>, n: nat)
    requires 0 !in s && n == if inodes == [] then 0 else 1
    ensures forall b :: Taken(inodes, s, n, b) == 0
  {
    hide Times;
    forall b
      ensures Taken(inodes, s, n, b) == 0
    {
    }
  }

  lemma SplitNext(p: seq<Claim>, c: Claim, s: set<nat>, b: int)
    ensures Occ(p + [c], b) == Occ(p, b) + if c.blk == b then 1 else 0
    ensures Occ(Others(p + [c], s), b) == Occ(Others(p, s), b) + if c.blk == b && c.ino !in s then 1 else 0
  {
    hide Occ, Others;
    OneMoreClaim(p, c, 0, b, s);
    OccNext(Others(p, s), c, b);
    assert Others(p, s) + [] == Others(p, s);
  }

  lemma PartEnds(before: seq<Claim>, blocks: seq<int>, i: nat, k: nat, b: int)
    requires k < |blocks|
    ensures before + Part(blocks, i, k + 1) == before + Part(blocks, i, k) + [Claim(i, blocks[k])]
    ensures Times(blocks, k + 1, b) == Times(blocks, k, b) + if blocks[k] == b then 1 else 0
  {
    PartNext(blocks, i, k);
  }

  lemma {:induction false} PartSplit(before: seq<Claim>, blocks: seq<int>, i: nat, k: nat, s: set<nat>, b: int)
    requires k <= |blocks|
    ensures Occ(before + Part(blocks, i, k), b) == Occ(before, b) + Times(blocks, k, b)
    ensures Occ(Others(before + Part(blocks, i, k), s), b)
         == Occ(Others(before, s), b) + if i in s then 0 else Times(blocks, k, b)
  {
    hide Occ, Others, Part, Times;
    if k == 0 {
      NoTimes(blocks);
      NoPart(blocks, i);
      assert before + [] == before;
    } else {
      PartSplit(before, blocks, i, k - 1, s, b);
      PartEnds(before, blocks, i, k - 1, b);
      SplitNext(before + Part(blocks, i, k - 1), Claim(i, blocks[k - 1]), s, b);
    }
  }

  lemma LastOfScan(inodes: seq<seq<int>>, n: nat)
    requires 0 < n <= |inodes|
    ensures Scan(inodes, n) == Scan(inodes, n - 1) + Part(inodes[n - 1], n - 1, |inodes[n - 1]|)
  {
    hide Part;
  }

  lemma {:induction false} LeftAre(inodes: seq<seq<int>>, s: set<nat>, n: nat, b: int)
    requires n <= |inodes|
    ensures Occ(Scan(inodes, n), b) == Occ(Others(Scan(inodes, n), s), b) + Taken(inodes, s, n, b)
  {
    if n > 0 {
      hide Part, Times, Scan, Occ, Others;
      LeftAre(inodes, s, n - 1, b);
      LastOfScan(inodes, n);
      PartSplit(Scan(inodes, n - 1), inodes[n - 1], n - 1, |inodes[n - 1]|, s, b);
    }
  }

  lemma {:induction false} TimesGrows(blocks: seq<int>, k: nat, n: nat, b: int)
    requires k <= n <= |blocks|
    ensures Times(blocks, k, b) <= Times(blocks, n, b)
  {
    if k < n {
      TimesGrows(blocks, k, n - 1, b);
    }
  }

  lemma TimesWithin(blocks: seq<int>, k: nat, b: int)
    requires k < |blocks|
    ensures Times(blocks, k + 1, b) == Times(blocks, k, b) + if blocks[k] == b then 1 else 0
    ensures Times(blocks, k + 1, b) <= Times(blocks, |blocks|, b)
  {
    TimesGrows(blocks, k + 1, |blocks|, b);
  }

  lemma OneMoreClaim(claims: seq<Claim>, c: Claim, i: nat, b: int, s: set<nat>)
    ensures OccOf(claims + [c], i, b) == OccOf(claims, i, b) + if c == Claim(i, b) then 1 else 0
    ensures Others(claims + [c], s) == Others(claims, s) + if c.ino in s then [] else [c]
    ensures Occ(claims + [c], b) == Occ(claims, b) + if c.blk == b then 1 else 0
  {
    assert (claims + [c])[..|claims|] == claims;
  }

  lemma {:induction false} OccSplit(claims: seq<Claim>, i: nat, b: int)
    ensures Occ(claims, b) == Occ(Others(claims, {i}), b) + OccOf(claims, i, b)
  {
    if claims != [] {
      var t, c := claims[..|claims| - 1], claims[|claims| - 1];
      OccSplit(t, i, b);
      assert claims == t + [c];
      hide Occ, OccOf, Others;
      OneMoreClaim(t, c, i, b, {i});
      OccNext(Others(t, {i}), c, b);
      assert Others(t, {i}) + [] == Others(t, {i});
    }
  }

  /** Withdrawing the claims of others does not touch those of inode i. */
  lemma {:induction false} OthersKeep(claims: seq<Claim>, s: set<nat>, i: nat, b: int)
    requires i !in s
    ensures OccOf(Others(claims, s), i, b) == OccOf(claims, i, b)
  {
    if claims != [] {
      var t, c := claims[..|claims| - 1], claims[|claims| - 1];
      OthersKeep(t, s, i, b);
      assert claims == t + [c];
      hide OccOf, Others;
      OneMoreClaim(t, c, i, b, s);
      OneMoreClaim(Others(t, s), c, i, b, s);
      assert Others(t, s) + [] == Others(t, s);
    }
  }

  lemma {:induction false} OthersTwice(claims: seq<Claim>, s: set<nat>, i: nat)
    ensures Others(Others(claims, s), {i}) == Others(claims, s + {i})
  {
    if claims != [] {
      var t, c := claims[..|claims| - 1], claims[|claims| - 1];
      OthersTwice(t, s, i);
      assert claims == t + [c];
      hide Others;
      OneMoreClaim(t, c, i, 0, s);
      OneMoreClaim(t, c, i, 0, s + {i});
      OneMoreClaim(Others(t, s), c, i, 0, {i});
      assert Others(t, s) + [] == Others(t, s);
      assert Others(t, s + {i}) + [] == Others(t, s + {i});
    }
  }

  lemma {:induction false} PartOcc(blocks: seq<int>, i: nat, k: nat, before: seq<Claim>, x: nat, b: int)
    requires k <= |blocks|
    ensures OccOf(before + Part(blocks, i, k), x, b) == OccOf(before, x, b) + if x == i then Times(blocks, k, b) else 0
  {
    if k > 0 {
      PartOcc(blocks, i, k - 1, before, x, b);
      PartNext(blocks, i, k - 1);
      OneMoreClaim(before + Part(blocks, i, k - 1), Claim(i, blocks[k - 1]), x, b, {});
      hide OccOf, Part;
      assert before + Part(blocks, i, k) == before + Part(blocks, i, k - 1) + [Claim(i, blocks[k - 1])];
    } else {
      assert before + Part(blocks, i, 0) == before;
    }
  }

  /** The claims of an inode in the scan are its blocks. */
  lemma {:induction false} ScanOcc(inodes: seq<seq<int>>, n: nat, i: nat, b: int)
    requires n <= |inodes|
    ensures OccOf(Scan(inodes, n), i, b) == if i < n then Times(inodes[i], |inodes[i]|, b) else 0
  {
    if n > 0 {
      ScanOcc(inodes, n - 1, i, b);
      PartOcc(inodes[n - 1], n - 1, |inodes[n - 1]|, Scan(inodes, n - 1), i, b);
    }
  }

  lemma {:induction false} OthersHas(claims: seq<Claim>, s: set<nat>, c: Claim)
    ensures c in Others(claims, s) <==> c in claims && c.ino !in s
  {
    if claims != [] {
      var n := |claims| - 1;
      OthersHas(claims[..n], s, c);
      assert claims == claims[..n] + [claims[n]];
    }
  }

  lemma {:induction false} OthersFewer(claims: seq<Claim>, s: set<nat>, b: int)
    ensures Occ(Others(claims, s), b) <= Occ(claims, b)
  {
    if claims != [] {
      var t, c := claims[..|claims| - 1], claims[|claims| - 1];
      OthersFewer(t, s, b);
      assert claims == t + [c];
      hide Occ, Others;
      OneMoreClaim(t, c, 0, b, s);
      OccNext(Others(t, s), c, b);
      assert Others(t, s) + [] == Others(t, s);
    }
  }

  /** With the inodes at fault gone, no block in range is claimed twice. */
  lemma AtMostOne(claims: seq<Claim>, fmin: int, fmax: int, marked: set<nat>, b: int)
    requires (forall i :: i in marked <==> AtFault(claims, fmin, fmax, i)) && InRange(fmin, fmax, b)
    ensures Occ(Others(claims, marked), b) <= 1
    ensures Occ(Others(claims, marked), b) == 1 <==> Sole(claims, fmin, fmax, b)
  {
    hide Occ, Others, AtFault;
    var left := Others(claims, marked);
    OthersFewer(claims, marked, b);
    if Occ(left, b) >= 1 {
      var j := OccFirst(left, b);
      OthersHas(claims, marked, left[j]);
      var k :| 0 <= k < |claims| && claims[k] == left[j];
      assert SoleClaim(claims, fmin, fmax, b, k);
      if Occ(left, b) >= 2 {
        IsAtFault(claims, fmin, fmax, k);
      }
    }
    if Sole(claims, fmin, fmax, b) {
      var j: nat :| j < |claims| && SoleClaim(claims, fmin, fmax, b, j);
      OthersHas(claims, marked, claims[j]);
      var k :| 0 <= k < |left| && left[k] == claims[j];
      OccSome(left, k);
    }
  }

  /** How often the first inode has block b. */
  function FirstTimes(inodes: seq<seq<int>>, b: int): nat {
    if inodes == [] then 0 else Times(inodes[0], |inodes[0]|, b)
  }

  /** With the inodes at fault gone except for the first, a block is claimed twice only if that one has it twice. */
  lemma LeftOver(inodes: seq<seq<int>>, fmin: int, fmax: int, marked: set<nat>, b: int)
    requires (forall i :: i in marked <==> AtFault(Scan(inodes, |inodes|), fmin, fmax, i)) && InRange(fmin, fmax, b)
    ensures var n := Occ(Others(Scan(inodes, |inodes|), marked - {0}), b);
            && (n <= 1 <==> FirstTimes(inodes, b) <= 1)
            && (n >= 1 <==> Sole(Scan(inodes, |inodes|), fmin, fmax, b) || FirstTimes(inodes, b) > 0)
  {
    hide Occ, OccOf, Others, AtFault, Sole, Scan, Times;
    var c := Scan(inodes, |inodes|);
    AtMostOne(c, fmin, fmax, marked, b);
    OccSplit(Others(c, marked - {0}), 0, b);
    OthersTwice(c, marked - {0}, 0);
    OthersKeep(c, marked - {0}, 0, b);
    ScanOcc(inodes, |inodes|, 0, b);
    if 0 in marked {
      assert marked - {0} + {0} == marked;
      OthersFewer(c, marked - {0}, b);
      if Sole(c, fmin, fmax, b) {
        ClaimedOnce(c, fmin, fmax, b);
      }
    } else {
      assert marked - {0} == marked;
    }
  }

  /** A block of an inode not at fault is claimed only once. */
  lemma ClaimedOnce(claims: seq<Claim>, fmin: int, fmax: int, b: int)
    requires Sole(claims, fmin, fmax, b)
    ensures Occ(claims, b) == 1
  {
    hide Occ, AtFault;
    var j: nat :| j < |claims| && SoleClaim(claims, fmin, fmax, b, j);
    OccSome(claims, j);
    if Occ(claims, b) >= 2 {
      IsAtFault(claims, fmin, fmax, j);
    }
  }

  lemma IsAtFault(claims: seq<Claim>, fmin: int, fmax: int, k: nat)
    requires k < |claims| && Occ(claims, claims[k].blk) >= 2
    ensures AtFault(claims, fmin, fmax, claims[k].ino)
  {
    hide Occ;
    assert FaultyClaim(claims, fmin, fmax, claims[k].ino, k);
  }

  lemma AccountListed(claims: seq<Claim>, map0: seq<bool>, fmin: int, fmax: int, dups: seq<int>, mul: nat, end: nat)
    requires Account(claims, map0, fmin, fmax, dups, mul, end)
    ensures forall b | InRange(fmin, fmax, b) :: Occ(claims, b) == (if map0[b] then 1 else 0) + multiset(dups[..end])[b]
    ensures forall b | b in dups[..end] :: InRange(fmin, fmax, b) && map0[b]
  {
    hide Occ, InList;
  }

  lemma SameEntries(s: seq<int>, t: seq<int>)
    requires multiset(s) == multiset(t)
    ensures forall b :: b in s <==> b in t
  {
    assert forall b :: b in s <==> b in multiset(s);
    assert forall b :: b in t <==> b in multiset(t);
  }

  class Claims {
    const fmin: nat
    const fmax: nat
    const blkmap: array<bool>
    const duplist: array<int>
    var muldup: nat
    var enddup: nat
    var badblk: nat
    var dupblk: nat
    var nBlks: nat
    /** The inodes whose state is set to be cleared. */
    var marked: set<nat>
    ghost var claims: seq<Claim>
    /** The inodes whose scan a limit has stopped. */
    ghost var cutOff: set<nat>

    constructor (fmin: nat, fmax: nat)
      requires 0 < fmin < fmax
      ensures Valid() && this.fmin == fmin && this.fmax == fmax && claims == [] && cutOff == {}
              && fresh(blkmap) && fresh(duplist)
    {
      this.fmin, this.fmax := fmin, fmax;
      blkmap := new bool[fmax](_ => false);
      duplist := new int[DUPTBLSIZE](_ => 0);
      muldup, enddup, badblk, dupblk, nBlks, marked, claims, cutOff := 0, 0, 0, 0, 0, {}, [], {};
      new;
      NothingUsed(blkmap[..], fmin, fmax);
    }

    ghost predicate Valid()
      reads this, blkmap, duplist
    {
      && 0 < fmin < fmax == blkmap.Length && duplist.Length == DUPTBLSIZE
      && Account(claims, blkmap[..], fmin, fmax, duplist[..], muldup, enddup)
      && nBlks == CountUsed(blkmap[..], fmin, fmax) && MarkedFirst(claims, fmin, fmax, cutOff, marked)
    }

    /** One block of inode inum. When a limit stops the scan of the inode, the claim is not recorded. */
    method Pass1(inum: nat, blk: int) returns (r: Action)
      requires Valid()
      modifies this, blkmap, duplist
      ensures Valid() && claims == if r == Stop then old(claims) else old(claims) + [Claim(inum, blk)]
      ensures cutOff == if r == Stop then old(cutOff) + {inum} else old(cutOff)
      ensures badblk == old(badblk) + if IsBad(fmin, fmax, blk) then 1 else 0
      ensures dupblk == old(dupblk) + if IsDup(old(claims), fmin, fmax, Claim(inum, blk)) then 1 else 0
      ensures r != Stop ==> enddup == old(enddup) + if IsDup(old(claims), fmin, fmax, Claim(inum, blk)) then 1 else 0
      ensures r == Stop ==> enddup == old(enddup)
      ensures r == Skip <==> r != Stop && IsBad(fmin, fmax, blk)
      ensures r == Stop <==> (IsBad(fmin, fmax, blk) && badblk >= MAXBAD)
                             || (IsDup(old(claims), fmin, fmax, Claim(inum, blk))
                                 && (dupblk >= MAXDUP || old(enddup) >= DUPTBLSIZE))
    {
      hide Account, MarkedFirst, CountUsed, Again, InList, Occ;
      ghost var c := Claim(inum, blk);
      ghost var map0, dups := blkmap[..], duplist[..];
      AccountShape(claims, map0, fmin, fmax, dups, muldup, enddup);
      MarkCutOff(claims, fmin, fmax, cutOff, marked, inum);
      if blk < fmin || blk >= fmax {
        MarkOneMore(claims, fmin, fmax, cutOff, marked, c, true);
        marked := marked + {inum};
        badblk := badblk + 1;
        if badblk >= MAXBAD {
          cutOff := cutOff + {inum};
          return Stop;
        }
        AccountBad(claims, map0, fmin, fmax, dups, muldup, enddup, c);
        claims := claims + [c];
        return Skip;
      }
      DupIsAgain(claims, map0, fmin, fmax, dups, muldup, enddup, c);
      MarkOneMore(claims, fmin, fmax, cutOff, marked, c, blkmap[blk]);
      if blkmap[blk] {
        marked := marked + {inum};
        dupblk := dupblk + 1;
        if dupblk >= MAXDUP || enddup >= DUPTBLSIZE {
          cutOff := cutOff + {inum};
          return Stop;
        }
        RecordDup(inum, blk);
      } else {
        nBlks := nBlks + 1;
        AccountNew(claims, map0, fmin, fmax, dups, muldup, enddup, c);
        UsedOne(map0, fmin, fmax, blk);
        blkmap[blk] := true;
        assert blkmap[..] == map0[blk := true];
      }
      claims := claims + [c];
      r := KeepOn;
    }

    /** A further claim of a block goes on the list. */
    method RecordDup(ghost inum: nat, blk: int)
      requires duplist.Length == DUPTBLSIZE && enddup < DUPTBLSIZE && InRange(fmin, fmax, blk)
      requires Account(claims, blkmap[..], fmin, fmax, duplist[..], muldup, enddup)
      requires 0 <= blk < blkmap.Length && blkmap[blk]
      modifies this`enddup, this`muldup, duplist
      ensures Account(claims + [Claim(inum, blk)], blkmap[..], fmin, fmax, duplist[..], muldup, enddup)
      ensures enddup == old(enddup) + 1
    {
      hide Account, InList;
      ghost var c := Claim(inum, blk);
      ghost var map0, dups := blkmap[..], duplist[..];
      AccountShape(claims, map0, fmin, fmax, dups, muldup, enddup);
      var dlp := FindDup(blk);
      if dlp < muldup {
        AccountSeen(claims, map0, fmin, fmax, dups, muldup, enddup, c);
        duplist[enddup] := blk;
        enddup := enddup + 1;
        assert duplist[..] == dups[old(enddup) := blk];
      } else {
        AccountFresh(claims, map0, fmin, fmax, dups, muldup, enddup, c);
        duplist[enddup] := duplist[muldup];
        enddup := enddup + 1;
        duplist[muldup] := blk;
        muldup := muldup + 1;
        assert duplist[..] == dups[old(enddup) := dups[old(muldup)]][old(muldup) := blk];
      }
    }

    /** The place of a block in the first part of the list, or its end. */
    method FindDup(blk: int) returns (dlp: nat)
      requires muldup <= duplist.Length
      ensures dlp <= muldup && (dlp < muldup <==> InList(duplist[..], muldup, blk))
      ensures dlp < muldup ==> duplist[dlp] == blk
    {
      dlp := 0;
      while dlp < muldup
        invariant dlp <= muldup && forall k | 0 <= k < dlp :: duplist[k] != blk
      {
        if duplist[dlp] == blk {
          return;
        }
        dlp := dlp + 1;
      }
    }

    /** The second scan has met the first n claims of all. */
    ghost predicate Searching(all: seq<Claim>, n: nat, before: set<nat>)
      reads this, duplist
    {
      && n <= |all| && muldup <= enddup <= duplist.Length
      && Sought(claims, all, n, fmin, fmax, duplist[..], muldup)
      && MarkedAlso(claims, all, n, fmin, fmax, before, marked)
    }

    /** One block of inode inum in the second scan. */
    method Pass1b(inum: nat, blk: int, ghost all: seq<Claim>, ghost n: nat, ghost before: set<nat>) returns (r: Action)
      requires n < |all| && all[n] == Claim(inum, blk) && Searching(all, n, before)
      modifies this`muldup, this`marked, duplist
      ensures Searching(all, n + 1, before)
      ensures r == Stop <==> InList(old(duplist[..]), old(muldup), blk) && muldup == 0
      ensures r == Skip <==> !InRange(fmin, fmax, blk)
      ensures multiset(duplist[..enddup]) == old(multiset(duplist[..enddup]))
    {
      hide Sought, MarkedAlso, InList, Occ, FirstFound;
      ghost var dups := duplist[..];
      SoughtIs(claims, all, n, fmin, fmax, dups, muldup);
      MarksStep(claims, all, n, fmin, fmax, before, marked, InList(dups, muldup, blk));
      if blk < fmin || blk >= fmax {
        NotSought(claims, all, n, fmin, fmax, dups, muldup, blk);
        SoughtSkip(claims, all, n, fmin, fmax, dups, muldup);
        return Skip;
      }
      var dlp := FindDup(blk);
      if dlp < muldup {
        SoughtFound(claims, all, n, fmin, fmax, dups, muldup, dlp);
        marked := marked + {inum};
        LastOfFirstPart(dlp, blk);
        return if muldup == 0 then Stop else KeepOn;
      }
      SoughtSkip(claims, all, n, fmin, fmax, dups, muldup);
      r := KeepOn;
    }

    /** Moves an entry to the end of the first part of the list, and off it. */
    method LastOfFirstPart(dlp: nat, blk: int)
      requires dlp < muldup <= enddup <= duplist.Length && duplist[dlp] == blk
      modifies this`muldup, duplist
      ensures muldup == old(muldup) - 1
      ensures duplist[..] == old(duplist[..])[dlp := old(duplist[muldup - 1])][muldup := blk]
      ensures multiset(duplist[..enddup]) == old(multiset(duplist[..enddup]))
    {
      ghost var dups := duplist[..];
      muldup := muldup - 1;
      duplist[dlp] := duplist[muldup];
      duplist[muldup] := blk;
      assert duplist[..] == dups[dlp := dups[muldup]][muldup := dups[dlp]];
      Swapped(dups, dlp, muldup, enddup);
      assert duplist[..enddup] == duplist[..][..enddup] && dups[..enddup] == old(duplist[..enddup]);
    }

    /** The second scan, over all blocks, until every block of the first part of the list has been found. */
    method Phase1b(inodes: seq<seq<int>>, ghost before: set<nat>) returns (ghost n: nat)
      requires Searching(Scan(inodes, |inodes|), 0, before)
      modifies this`muldup, this`marked, duplist
      ensures multiset(duplist[..enddup]) == old(multiset(duplist[..enddup]))
      ensures Searching(Scan(inodes, |inodes|), n, before) && (n == |Scan(inodes, |inodes|)| || muldup == 0)
    {
      hide Part, Sought, MarkedAlso, InList, Scan;
      ghost var all := Scan(inodes, |inodes|);
      n := 0;
      var i := 0;
      NoInodes(inodes);
      while i < |inodes|
        invariant 0 <= i <= |inodes| && n == |Scan(inodes, i)| && Searching(all, n, before)
        invariant multiset(duplist[..enddup]) == old(multiset(duplist[..enddup]))
      {
        var k := 0;
        while k < |inodes[i]|
          invariant 0 <= k <= |inodes[i]| && n == |Scan(inodes, i)| + k && Searching(all, n, before)
          invariant multiset(duplist[..enddup]) == old(multiset(duplist[..enddup]))
        {
          ScanAt(inodes, i, k);
          var r := Pass1b(i, inodes[i][k], all, n, before);
          n := n + 1;
          if r == Stop {
            return;
          }
          k := k + 1;
        }
        ScanLength(inodes, i);
        i := i + 1;
      }
    }

    /** Withdraws one claim of a block: an entry of the list if there is one, else its bit. */
    method Pass4(blk: int) returns (r: Action)
      requires Listed()
      modifies this`enddup, this`nBlks, blkmap, duplist
      ensures Listed() && r == if InRange(fmin, fmax, blk) then KeepOn else Skip
      ensures forall b | InRange(fmin, fmax, b) ::
                Owed(b) == if b == blk && old(Owed(b)) > 0 then old(Owed(b)) - 1 else old(Owed(b))
    {
      hide CountUsed;
      if blk < fmin || blk >= fmax {
        return Skip;
      }
      ghost var s := duplist[..enddup];
      assert multiset(s)[blk] > 0 <==> blk in s;
      if blkmap[blk] {
        var dlp := 0;
        while dlp < enddup
          invariant dlp <= enddup && forall k | 0 <= k < dlp :: duplist[k] != blk
        {
          if duplist[dlp] == blk {
            DropEntry(dlp);
            return KeepOn;
          }
          dlp := dlp + 1;
        }
        ClrBmap(blk);
      }
      r := KeepOn;
    }

    method DropEntry(dlp: nat)
      requires dlp < enddup <= duplist.Length
      modifies this`enddup, duplist
      ensures enddup == old(enddup) - 1
      ensures forall i | 0 <= i < enddup :: duplist[i] in old(duplist[..enddup])
      ensures multiset(old(duplist[..enddup])) == multiset(duplist[..enddup]) + multiset{old(duplist[dlp])}
    {
      ghost var dups := duplist[..];
      TakenOut(dups, dlp, enddup);
      assert dups[..enddup] == duplist[..enddup];
      enddup := enddup - 1;
      duplist[dlp] := duplist[enddup];
      assert duplist[..enddup] == dups[dlp := dups[enddup]][..enddup];
      assert forall i | 0 <= i < enddup :: duplist[i] == dups[if i == dlp then enddup else i];
    }

    method ClrBmap(blk: nat)
      requires fmin <= blk < fmax == blkmap.Length && blkmap[blk] && nBlks == CountUsed(blkmap[..], fmin, fmax)
      modifies this`nBlks, blkmap
      ensures nBlks == CountUsed(blkmap[..], fmin, fmax)
      ensures blkmap[..] == old(blkmap[..])[blk := false]
    {
      ghost var map0 := blkmap[..];
      UsedOneLess(map0, fmin, fmax, blk);
      blkmap[blk] := false;
      assert blkmap[..] == map0[blk := false];
      nBlks := nBlks - 1;
    }

    /** The claims of block b that are recorded. */
    ghost function Owed(b: int): nat
      requires 0 <= b < blkmap.Length && enddup <= duplist.Length
      reads this, blkmap, duplist
    {
      (if blkmap[b] then 1 else 0) + multiset(duplist[..enddup])[b]
    }

    ghost predicate Listed()
      reads this, blkmap, duplist
    {
      && 0 < fmin < fmax == blkmap.Length && enddup <= duplist.Length && nBlks == CountUsed(blkmap[..], fmin, fmax)
      && forall i | 0 <= i < enddup :: InRange(fmin, fmax, duplist[i]) && blkmap[duplist[i]]
    }

    /** The claims c are those on record, in the map and on the list. */
    ghost predicate Recorded(c: seq<Claim>)
      reads this, blkmap, duplist
    {
      Listed() && forall b | InRange(fmin, fmax, b) :: Owed(b) == Occ(c, b)
    }

    /** Rearranging the list keeps what is on record. */
    lemma RecordedFrom(map0: seq<bool>, entries: seq<int>)
      requires 0 < fmin < fmax == blkmap.Length && enddup <= duplist.Length && map0 == blkmap[..]
      requires nBlks == CountUsed(map0, fmin, fmax) && multiset(duplist[..enddup]) == multiset(entries)
      requires forall b | InRange(fmin, fmax, b) :: Occ(claims, b) == (if map0[b] then 1 else 0) + multiset(entries)[b]
      requires forall b | b in entries :: InRange(fmin, fmax, b) && map0[b]
      ensures Recorded(claims)
    {
      hide Occ, CountUsed;
      SameEntries(duplist[..enddup], entries);
      forall i | 0 <= i < enddup
        ensures InRange(fmin, fmax, duplist[i]) && blkmap[duplist[i]]
      {
        assert duplist[..enddup][i] in entries;
      }
      forall b | InRange(fmin, fmax, b)
        ensures Owed(b) == Occ(claims, b)
      {
        assert map0[b] == blkmap[b];
      }
    }

    /** Withdraws a claim for each block of an inode, as far as claims are on record. */
    method Withdraw(blocks: seq<int>)
      requires Listed()
      modifies this`enddup, this`nBlks, blkmap, duplist
      ensures Listed()
      ensures forall b | InRange(fmin, fmax, b) :: Owed(b) == Less(old(Owed(b)), Times(blocks, |blocks|, b))
    {
      hide Times, CountUsed, Owed;
      var k := 0;
      NoTimes(blocks);
      while k < |blocks|
        invariant 0 <= k <= |blocks| && Listed()
        invariant forall b | InRange(fmin, fmax, b) :: Owed(b) == Less(old(Owed(b)), Times(blocks, k, b))
      {
        ghost var n := k + 1;
        forall b
          ensures Times(blocks, n, b) == Times(blocks, k, b) + if blocks[k] == b then 1 else 0
        {
          TimesWithin(blocks, k, b);
        }
        var r := Pass4(blocks[k]);
        k := k + 1;
      }
    }

    /** Phase 4 withdraws the claims of the inodes it clears. It starts with the root, inode 2, and so does not
        get to the very first inode. */
    method Phase4(inodes: seq<seq<int>>, cleared: set<nat>)
      requires Listed()
      modifies this`enddup, this`nBlks, blkmap, duplist
      ensures Listed()
      ensures forall b | InRange(fmin, fmax, b) ::
                Owed(b) == Less(old(Owed(b)), Taken(inodes, cleared - {0}, |inodes|, b))
    {
      hide Owed, Taken, Times, CountUsed;
      var i := 1;
      ghost var s, n := cleared - {0}, if inodes == [] then 0 else 1;
      FirstNotTaken(inodes, s, n);
      while i < |inodes|
        invariant n <= |inodes| && (i == n || (i == 1 && inodes == [])) && Listed()
        invariant forall b | InRange(fmin, fmax, b) :: Owed(b) == Less(old(Owed(b)), Taken(inodes, s, n, b))
      {
        NextTaken(inodes, s, i);
        if i in cleared {
          Withdraw(inodes[i]);
        }
        i, n := i + 1, i + 1;
      }
    }

    /** Phases 1 and 1b, and phase 4 clearing every inode marked but the first. If no limit was met, the map
        then has just the blocks of the sound inodes and of the first one, and the list is empty if and only if
        the first inode has no block twice. */
    method ClearFaults(inodes: seq<seq<int>>) returns (stopped: bool, ghost cut: seq<nat>)
      requires Valid() && claims == [] && cutOff == {}
      modifies this, blkmap, duplist
      ensures Listed() && |cut| == |inodes| && Scanned(inodes, cut)
      ensures forall i :: i in marked <==> Suspect(claims, Scan(inodes, |inodes|), fmin, fmax, cutOff, i)
      ensures forall b | InRange(fmin, fmax, b) ::
                Owed(b) == Less(Occ(claims, b), Taken(inodes, marked - {0}, |inodes|, b))
      ensures stopped <==> LimitMet(Scan(inodes, |inodes|), fmin, fmax)
      ensures !stopped ==> claims == Scan(inodes, |inodes|) && Recorded(Others(claims, marked - {0}))
      ensures !stopped ==> (forall i :: i in marked <==> AtFault(claims, fmin, fmax, i)) && OnlyLeft(inodes)
      ensures !stopped ==> (enddup == 0 <==> forall b | InRange(fmin, fmax, b) :: FirstTimes(inodes, b) <= 1)
    {
      hide Occ, Owed, Listed, Taken, Others, LimitMet, AtFault, Suspect, Scan, Sole, FirstTimes, OnlyLeft;
      hide CutScan, CutAtLimits, CutOff, Fits;
      stopped, cut := FindFaults(inodes);
      Phase4(inodes, marked);
      if !stopped {
        forall b {
          LeftAre(inodes, marked - {0}, |inodes|, b);
        }
        WhatIsLeft(inodes);
      }
    }

    /** The map has exactly the blocks of the first inode and of those not at fault, and n_blks is their number. */
    ghost predicate OnlyLeft(inodes: seq<seq<int>>)
      reads this, blkmap
    {
      && fmax == blkmap.Length && nBlks == CountUsed(blkmap[..], fmin, fmax)
      && forall b | InRange(fmin, fmax, b) && 0 <= b ::
           blkmap[b] <==> Sole(Scan(inodes, |inodes|), fmin, fmax, b) || FirstTimes(inodes, b) > 0
    }

    lemma EntryOwed(k: nat)
      requires Listed() && k < enddup
      ensures Owed(duplist[k]) >= 2
    {
      var l := duplist[..enddup];
      assert duplist[k] == l[k] && l[k] in l;
      assert multiset(l)[l[k]] > 0;
    }

    lemma WhatIsLeft(inodes: seq<seq<int>>)
      requires claims == Scan(inodes, |inodes|) && Recorded(Others(claims, marked - {0}))
      requires forall i :: i in marked <==> AtFault(claims, fmin, fmax, i)
      ensures OnlyLeft(inodes)
      ensures enddup == 0 <==> forall b | InRange(fmin, fmax, b) :: FirstTimes(inodes, b) <= 1
    {
      hide Occ, CountUsed, Others, AtFault, Sole, Scan, FirstTimes;
      forall b | InRange(fmin, fmax, b)
        ensures Owed(b) <= 1 <==> FirstTimes(inodes, b) <= 1
        ensures Owed(b) >= 1 <==> Sole(claims, fmin, fmax, b) || FirstTimes(inodes, b) > 0
      {
        LeftOver(inodes, fmin, fmax, marked, b);
      }
      BitOwed();
      if enddup > 0 {
        EntryOwed(0);
        assert FirstTimes(inodes, duplist[0]) > 1;
      }
    }

    lemma BitOwed()
      requires Listed()
      ensures forall b | InRange(fmin, fmax, b) :: (Owed(b) >= 1 <==> blkmap[b]) && (enddup == 0 ==> Owed(b) <= 1)
    {
      hide CountUsed;
      forall b | InRange(fmin, fmax, b)
        ensures Owed(b) >= 1 ==> blkmap[b]
      {
        var l := duplist[..enddup];
        if multiset(l)[b] > 0 {
          assert b in l;
          var k :| 0 <= k < enddup && duplist[k] == b;
        }
      }
    }

    /** Each inode is on record up to the limit it meets. */
    ghost predicate Scanned(inodes: seq<seq<int>>, cut: seq<nat>)
      reads this
    {
      && Fits(inodes, cut) && claims == CutScan(inodes, cut) && CutAtLimits(inodes, cut, fmin, fmax)
      && cutOff == CutOff(inodes, cut)
    }

    /** Phases 1 and 1b. If no limit was met, the inodes marked are exactly those with a block that is out of
        range or claimed more than once. */
    method FindFaults(inodes: seq<seq<int>>) returns (stopped: bool, ghost cut: seq<nat>)
      requires Valid() && claims == [] && cutOff == {}
      modifies this, blkmap, duplist
      ensures |cut| == |inodes| && Scanned(inodes, cut) && Recorded(claims)
      ensures forall i :: i in marked <==> Suspect(claims, Scan(inodes, |inodes|), fmin, fmax, cutOff, i)
      ensures stopped <==> LimitMet(Scan(inodes, |inodes|), fmin, fmax)
      ensures !stopped ==> claims == Scan(inodes, |inodes|)
      ensures !stopped ==> forall i :: i in marked <==> AtFault(claims, fmin, fmax, i)
    {
      hide Account, MarkedFirst, CountUsed, Part, Sought, MarkedAlso, AtFault, InList, LimitMet, CountUsed, Occ;
      hide Recorded, Listed, Owed, Suspect, CutScan, CutAtLimits, CutOff, Scan;
      stopped, cut := Phase1(inodes);
      ghost var all := Scan(inodes, |inodes|);
      ghost var map0, dups, before := blkmap[..], duplist[..], marked;
      SoughtStart(claims, all, map0, fmin, fmax, dups, muldup, enddup);
      AccountShape(claims, map0, fmin, fmax, dups, muldup, enddup);
      MarksStart(claims, all, fmin, fmax, marked);
      ghost var n: nat := 0;
      AccountListed(claims, map0, fmin, fmax, dups, muldup, enddup);
      ghost var entries := dups[..enddup];
      if enddup != 0 {
        n := Phase1b(inodes, before);
      }
      RecordedFrom(map0, entries);
      AllFound(claims, all, n, fmin, fmax, duplist[..], muldup, cutOff, before, marked);
      if !stopped {
        forall i {
          SuspectIsAtFault(claims, fmin, fmax, i);
        }
      }
    }

    /** The blocks of inode i, up to the limit it meets; k is the number recorded. */
    method Pass1All(inodes: seq<seq<int>>, i: nat, ghost cut: seq<nat>) returns (stopped: bool, ghost k: nat)
      requires |cut| == i < |inodes| && Valid() && Scanned(inodes, cut) && badblk == dupblk == 0
      requires enddup == AllDups(claims, fmin, fmax) && !LimitMet(claims, fmin, fmax)
      modifies this, blkmap, duplist
      ensures k <= |inodes[i]| && (stopped <==> k < |inodes[i]|) && Valid() && Scanned(inodes, cut + [k])
      ensures enddup == AllDups(claims, fmin, fmax) && !LimitMet(claims, fmin, fmax)
    {
      hide Account, MarkedFirst, CountUsed, Part, LimitMet, CutScan, Bads, Dups, AllDups, IsBad, IsDup, CutAtLimits;
      hide Before, Blocked, CutOff;
      var m := 0;
      k := 0;
      CutEarlier(inodes, cut);
      NoTally(claims, fmin, fmax, i);
      BeforeStart(inodes, cut);
      while m < |inodes[i]|
        invariant 0 <= m == k <= |inodes[i]| && Valid() && Counting(i) && cutOff == CutOff(inodes, cut)
        invariant claims == Before(inodes, cut, i, k)
        invariant forall j | 0 <= j < k :: !Blocked(inodes, cut, i, j, fmin, fmax)
      {
        ghost var c := Claim(i, inodes[i][m]);
        TallyNext(claims, fmin, fmax, c, i);
        BeforeNext(inodes, cut, i, k, fmin, fmax);
        var r := Pass1(i, inodes[i][m]);
        if r == Stop {
          NextCut(inodes, cut, k, fmin, fmax);
          return true, k;
        }
        m, k := m + 1, k + 1;
      }
      NextCut(inodes, cut, k, fmin, fmax);
      stopped := false;
    }

    /** Phase 1, over the blocks of each inode; stopped tells that some limit cut an inode short. */
    method Phase1(inodes: seq<seq<int>>) returns (stopped: bool, ghost cut: seq<nat>)
      requires Valid() && claims == [] && cutOff == {}
      modifies this, blkmap, duplist
      ensures Valid() && |cut| == |inodes| && Scanned(inodes, cut)
      ensures stopped <==> LimitMet(Scan(inodes, |inodes|), fmin, fmax)
      ensures !stopped ==> claims == Scan(inodes, |inodes|) && cutOff == {}
    {
      hide Account, MarkedFirst, CountUsed, Part, LimitMet, CutScan, Bads, Dups, AllDups, IsBad, IsDup, CutAtLimits;
      hide Scan;
      stopped, cut := false, [];
      var i := 0;
      NoClaims(inodes, duplist[..], blkmap[..], muldup, enddup, fmin, fmax);
      while i < |inodes|
        invariant 0 <= i == |cut| <= |inodes| && Valid() && Scanned(inodes, cut)
        invariant enddup == AllDups(claims, fmin, fmax) && !LimitMet(claims, fmin, fmax)
        invariant stopped <==> cutOff != {}
      {
        badblk, dupblk := 0, 0;
        ghost var k;
        var cutShort;
        cutShort, k := Pass1All(inodes, i, cut);
        CutOffNext(inodes, cut, k);
        cut := cut + [k];
        stopped := stopped || cutShort;
        i := i + 1;
      }
      CutMeetsLimit(inodes, cut, 0, fmin, fmax);
      if !stopped {
        NoneCut(inodes, cut);
        NothingCut(inodes, cut);
      }
    }

    /** The counters of inode i are right and below their limits. */
    ghost predicate Counting(i: nat)
      reads this
    {
      && badblk == Bads(claims, fmin, fmax, i) && dupblk == Dups(claims, fmin, fmax, i)
      && enddup == AllDups(claims, fmin, fmax) && !LimitMet(claims, fmin, fmax)
    }
  }

  lemma NoClaims(inodes: seq<seq<int>>, dups: seq<int>, map0: seq<bool>, mul: nat, end: nat, fmin: int, fmax: int)
    requires Account([], map0, fmin, fmax, dups, mul, end)
    ensures end == AllDups([], fmin, fmax) && !LimitMet([], fmin, fmax)
    ensures CutScan(inodes, []) == [] && CutAtLimits(inodes, [], fmin, fmax) && CutOff(inodes, []) == {}
  {
    if end > 0 {
      ListedIsClaimed([], map0, fmin, fmax, dups, mul, end);
    }
  }

  lemma NoInodes(inodes: seq<seq<int>>)
    ensures Scan(inodes, 0) == []
  {
  }

  lemma MarksStart(claims: seq<Claim>, all: seq<Claim>, fmin: int, fmax: int, marked: set<nat>)
    ensures MarkedAlso(claims, all, 0, fmin, fmax, marked, marked)
  {
  }

  lemma BeforeStart(inodes: seq<seq<int>>, cut: seq<nat>)
    requires Fits(inodes, cut) && |cut| < |inodes|
    ensures Before(inodes, cut, |cut|, 0) == CutScan(inodes, cut)
  {
    hide CutScan;
    NoPart(inodes[|cut|], |cut|);
    assert cut[..|cut|] == cut;
  }

  lemma BeforeNext(inodes: seq<seq<int>>, cut: seq<nat>, i: nat, k: nat, fmin: int, fmax: int)
    requires Fits(inodes, cut) && i <= |cut| && i < |inodes| && k < |inodes[i]|
    requires !LimitMet(Before(inodes, cut, i, k), fmin, fmax)
    ensures var claims, c := Before(inodes, cut, i, k), Claim(i, inodes[i][k]);
            && Before(inodes, cut, i, k + 1) == claims + [c]
            && (Blocked(inodes, cut, i, k, fmin, fmax) <==> LimitMet(claims + [c], fmin, fmax))
            && (Blocked(inodes, cut, i, k, fmin, fmax)
                <==> (IsBad(fmin, fmax, c.blk) && Bads(claims, fmin, fmax, i) + 1 >= MAXBAD)
                     || (IsDup(claims, fmin, fmax, c)
                         && (Dups(claims, fmin, fmax, i) + 1 >= MAXDUP || AllDups(claims, fmin, fmax) >= DUPTBLSIZE)))
  {
    hide CutScan, LimitMet, IsBad, IsDup, Bads, Dups, AllDups;
    PartNext(inodes[i], i, k);
    LimitNext(Before(inodes, cut, i, k), fmin, fmax, Claim(i, inodes[i][k]));
  }

  lemma CutOffNext(inodes: seq<seq<int>>, cut: seq<nat>, k: nat)
    requires |cut| < |inodes|
    ensures CutOff(inodes, cut + [k]) == CutOff(inodes, cut) + if k < |inodes[|cut|]| then {|cut|} else {}
  {
  }

  lemma NoneCut(inodes: seq<seq<int>>, cut: seq<nat>)
    requires Fits(inodes, cut) && CutOff(inodes, cut) == {}
    ensures forall i | 0 <= i < |cut| :: cut[i] == |inodes[i]|
  {
    forall i | 0 <= i < |cut|
      ensures cut[i] == |inodes[i]|
    {
      assert i !in CutOff(inodes, cut);
    }
  }

  lemma ListedIsClaimed(claims: seq<Claim>, map0: seq<bool>, fmin: int, fmax: int, dups: seq<int>, mul: nat, end: nat)
    requires Account(claims, map0, fmin, fmax, dups, mul, end) && end > 0
    ensures claims != []
  {
    assert dups[0] in dups[..end] && multiset(dups[..end])[dups[0]] > 0;
    assert Occ(claims, dups[0]) > 0;
  }

  lemma NextClaim(inodes: seq<seq<int>>, i: nat, k: nat)
    requires i < |inodes| && k < |inodes[i]|
    ensures var c := [Claim(i, inodes[i][k])];
            && Scan(inodes, i) + Part(inodes[i], i, k) + c == Scan(inodes, i) + Part(inodes[i], i, k + 1)
            && Scan(inodes, i) + Part(inodes[i], i, k) + c <= Scan(inodes, |inodes|)
  {
    PartNext(inodes[i], i, k);
    ScanPrefix(inodes, i + 1, |inodes|);
    assert Part(inodes[i], i, k + 1) <= Part(inodes[i], i, |inodes[i]|);
  }

  lemma NotSought(claims: seq<Claim>, all: seq<Claim>, n: nat, fmin: int, fmax: int, dups: seq<int>, mul: nat, b: int)
    requires Sought(claims, all, n, fmin, fmax, dups, mul) && !InRange(fmin, fmax, b)
    ensures !InList(dups, mul, b)
  {
    hide InList;
  }

  lemma Swapped(dups: seq<int>, i: nat, j: nat, end: nat)
    requires i <= j < end <= |dups|
    ensures multiset(dups[i := dups[j]][j := dups[i]][..end]) == multiset(dups[..end])
  {
    var s := dups[..end];
    assert dups[i := dups[j]][j := dups[i]][..end] == s[i := s[j]][j := s[i]];
  }

  lemma TakenOut(dups: seq<int>, i: nat, end: nat)
    requires i < end <= |dups|
    ensures multiset(dups[..end]) == multiset(dups[i := dups[end - 1]][..end - 1]) + multiset{dups[i]}
  {
    Swapped(dups, i, end - 1, end);
    var t := dups[i := dups[end - 1]][end - 1 := dups[i]][..end];
    assert t == dups[i := dups[end - 1]][..end - 1] + [dups[i]];
  }

  lemma UsedOneLess(map0: seq<bool>, fmin: nat, k: nat, b: nat)
    requires k <= |map0| && fmin <= b < k && map0[b]
    ensures CountUsed(map0[b := false], fmin, k) == CountUsed(map0, fmin, k) - 1
  {
    UsedOne(map0[b := false], fmin, k, b);
    assert map0[b := false][b := true] == map0;
  }

  lemma NoPart(blocks: seq<int>, i: nat)
    ensures Part(blocks, i, 0) == []
  {
  }

  lemma {:induction false} NothingUsed(map0: seq<bool>, fmin: nat, k: nat)
    requires k <= |map0| && forall b | 0 <= b < k :: !map0[b]
    ensures CountUsed(map0, fmin, k) == 0
  {
    if k > fmin {
      NothingUsed(map0, fmin, k - 1);
    }
  }

  lemma AccountShape(claims: seq<Claim>, map0: seq<bool>, fmin: int, fmax: int, dups: seq<int>, mul: nat, end: nat)
    requires Account(claims, map0, fmin, fmax, dups, mul, end)
    ensures mul <= end <= |dups| && |map0| == fmax
  {
  }

  lemma OneInode(blocks: seq<int>)
    ensures Scan([blocks], 1) == Part(blocks, 0, |blocks|)
  {
    hide Part;
    assert Scan([blocks], 0) == [];
    assert [] + Part(blocks, 0, |blocks|) == Part(blocks, 0, |blocks|);
  }

  lemma TwoParts()
    ensures Part([1, 1], 0, 2) == [] + [Claim(0, 1)] + [Claim(0, 1)]
    ensures Times([1, 1], 2, 1) == 2
  {
    NoPart([1, 1], 0);
    PartNext([1, 1], 0, 0);
    PartNext([1, 1], 0, 1);
    NoTimes([1, 1]);
    TimesWithin([1, 1], 0, 1);
    TimesWithin([1, 1], 1, 1);
  }

  /** A volume whose first inode has block 1 twice, and no other. */
  lemma TwiceInOne()
    ensures !LimitMet(Scan([[1, 1]], 1), 1, 3) && FirstTimes([[1, 1]], 1) == 2
  {
    OneInode([1, 1]);
    TwoParts();
    hide Scan, Part, Times, Bads, Dups, AllDups, IsBad, IsDup;
    var x := Claim(0, 1);
    forall i: nat
      ensures Bads([] + [x] + [x], 1, 3, i) <= 2 && Dups([] + [x] + [x], 1, 3, i) <= 2
    {
      NothingTallied(i);
      TallyNext([], 1, 3, x, i);
      TallyNext([] + [x], 1, 3, x, i);
    }
    assert AllDups([] + [x] + [x], 1, 3) <= 2 by {
      NothingTallied(0);
      TallyNext([], 1, 3, x, 0);
      TallyNext([] + [x], 1, 3, x, 0);
    }
  }

  lemma NothingTallied(i: nat)
    ensures Bads([], 1, 3, i) == Dups([], 1, 3, i) == AllDups([], 1, 3) == 0
  {
  }

  /** Clearing the inodes at fault leaves its duplicate on the list, since phase 4 does not get to it. */
  method FirstInodeTwice() returns (k: Claims, stopped: bool)
    ensures !stopped && k.enddup != 0
  {
    hide Scan, LimitMet, AtFault, FirstTimes, Occ, CountUsed, Others, Sole, Account, MarkedFirst;
    TwiceInOne();
    k := new Claims(1, 3);
    ghost var cut;
    stopped, cut := k.ClearFaults([[1, 1]]);
  }
}
