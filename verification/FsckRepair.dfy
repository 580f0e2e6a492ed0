/** fsck's phases together: the inodes at fault are cleared, the free list is salvaged, and then every block of
    the data area has one owner. */
module FsckRepair {
  import opened Basics
  import opened FreeList
  import opened FreeMap
  import opened FsckDups
  import opened FsckFree

  /** Every block of the data area is claimed by one inode, once, or stands on the free list, once. */
  ghost predicate OneOwner(claims: seq<Claim>, l: seq<int>, fmin: int, fmax: int) {
    forall b | InRange(fmin, fmax, b) :: Occ(claims, b) + multiset(l)[b] == 1
  }

  /** On a list without repetitions. */
  lemma {:induction false} OnceOnList(l: seq<int>, b: int)
    requires Distinct(l)
    ensures multiset(l)[b] == if b in l then 1 else 0
  {
    if l != [] {
      var k := |l| - 1;
      OnceOnList(l[..k], b);
      assert l == l[..k] + [l[k]];
      assert b in l[..k] ==> l[k] != b;
    }
  }

  /** The list has the blocks that nobody claims; the claims are one a block except in the first inode. */
  lemma OwnersAre(inodes: seq<seq<int>>, marked: set<nat>, map0: seq<bool>, l: seq<int>, fmin: int, fmax: int)
    requires 0 <= fmin && fmax == |map0| && Complete(l, map0, fmin, fmax)
    requires forall i :: i in marked <==> AtFault(Scan(inodes, |inodes|), fmin, fmax, i)
    requires forall b | InRange(fmin, fmax, b) && 0 <= b ::
               map0[b] <==> Sole(Scan(inodes, |inodes|), fmin, fmax, b) || FirstTimes(inodes, b) > 0
    ensures OneOwner(Others(Scan(inodes, |inodes|), marked - {0}), l, fmin, fmax)
       <==> forall b | InRange(fmin, fmax, b) :: FirstTimes(inodes, b) <= 1
    ensures forall b | InRange(fmin, fmax, b) :: b in l <==> Occ(Others(Scan(inodes, |inodes|), marked - {0}), b) == 0
  {
    hide Occ, Others, AtFault, Sole, Scan, FirstTimes;
    var left := Others(Scan(inodes, |inodes|), marked - {0});
    forall b | InRange(fmin, fmax, b)
      ensures b in l <==> Occ(left, b) == 0
      ensures Occ(left, b) + multiset(l)[b] == 1 <==> FirstTimes(inodes, b) <= 1
    {
      LeftOver(inodes, fmin, fmax, marked, b);
      OnceOnList(l, b);
      assert b in l <==> Unused(map0, fmin, fmax, b);
    }
    if OneOwner(left, l, fmin, fmax) {
      forall b | InRange(fmin, fmax, b)
        ensures FirstTimes(inodes, b) <= 1
      {
        assert Occ(left, b) + multiset(l)[b] == 1;
      }
    }
  }

  /** After phase 4 the list has exactly the blocks without a claim on record. */
  lemma ListedAre(k: Claims, inodes: seq<seq<int>>, l: seq<int>)
    requires k.Listed() && Complete(l, k.blkmap[..], k.fmin, k.fmax)
    requires forall b | InRange(k.fmin, k.fmax, b) ::
               k.Owed(b) == Less(Occ(k.claims, b), Taken(inodes, k.marked - {0}, |inodes|, b))
    ensures forall b :: b in l
              <==> InRange(k.fmin, k.fmax, b) && Less(Occ(k.claims, b), Taken(inodes, k.marked - {0}, |inodes|, b)) == 0
  {
    hide Occ, Taken, Less, k.Owed, k.Listed;
    k.BitOwed();
    InMap(k);
    forall b
      ensures b in l <==> InRange(k.fmin, k.fmax, b) && k.Owed(b) == 0
    {
      assert b in l <==> Unused(k.blkmap[..], k.fmin, k.fmax, b);
    }
  }

  lemma InMap(k: Claims)
    requires k.Listed()
    ensures 0 < k.fmin < k.fmax == k.blkmap.Length && k.enddup <= k.duplist.Length
  {
  }

  /** Clearing the inodes at fault and salvaging the free list. In any case the new list has just the blocks left
      without a claim on record, no other block of the disk has been written, and a fresh check finds nothing wrong.
      If no limit was met, those are the blocks that no inode that is left claims, and the inodes left and the new
      list share out the data area, one owner a block, if and only if the first inode has no block twice. */
  method ClearThenSalvage(k: Claims, inodes: seq<seq<int>>, disk: map<int, Block>, nfree: int, batch: seq<int>,
                          tfree: nat, step: int, cyl: int, stepsize: int, cylsize: int)
    returns (stopped: bool, c: Checker, again: Checker, wrongCount: bool, ghost l: seq<int>, ghost cut: seq<nat>)
    requires k.Valid() && k.claims == [] && k.cutOff == {} && |batch| == NICFREE
    requires forall b | InRange(k.fmin, k.fmax, b) :: b in disk
    modifies k, k.blkmap, k.duplist
    ensures stopped <==> LimitMet(Scan(inodes, |inodes|), k.fmin, k.fmax)
    ensures |cut| == |inodes| && k.Scanned(inodes, cut)
    ensures forall i :: i in k.marked <==> Suspect(k.claims, Scan(inodes, |inodes|), k.fmin, k.fmax, k.cutOff, i)
    ensures Lists(c.sNfree, c.sFree[..], c.disk, l) && Distinct(l)
    ensures forall b :: b in l
              <==> InRange(k.fmin, k.fmax, b) && Less(Occ(k.claims, b), Taken(inodes, k.marked - {0}, |inodes|, b)) == 0
    ensures forall b | InRange(k.fmin, k.fmax, b) && b !in l :: b in c.disk && c.disk[b] == disk[b]
    ensures SpacingTaken(stepsize, cylsize, step, cyl, c.sStep, c.sCyl)
    ensures !again.fixfree && !wrongCount
    ensures again.disk == c.disk && again.sNfree == c.sNfree && again.sFree[..] == c.sFree[..]
    ensures !stopped ==> var left := Others(Scan(inodes, |inodes|), k.marked - {0});
            && (forall i :: i in k.marked <==> AtFault(Scan(inodes, |inodes|), k.fmin, k.fmax, i))
            && (forall b :: b in l <==> InRange(k.fmin, k.fmax, b) && Occ(left, b) == 0)
            && (OneOwner(left, l, k.fmin, k.fmax)
                <==> forall b | InRange(k.fmin, k.fmax, b) :: FirstTimes(inodes, b) <= 1)
  {
    hide Occ, Others, AtFault, Sole, Scan, FirstTimes, LimitMet, Lists, CountUsed, Account, MarkedFirst, GoodList;
    hide Taken, Less, Suspect, CutScan, CutAtLimits, CutOff, Fits, Interleaved, SpacingTaken, OneOwner, k.Owed;
    stopped, cut := k.ClearFaults(inodes);
    c := new Checker(k.fmin, k.fmax, k.blkmap, disk, nfree, batch, tfree, step, cyl);
    again, wrongCount, l := SalvageThenCheck(c, stepsize, cylsize, k.nBlks);
    ListedAre(k, inodes, l);
    if !stopped {
      OwnersAre(inodes, k.marked, k.blkmap[..], l, k.fmin, k.fmax);
    }
  }
}
