/** fsdb's own way through the address table, which only reads. */
module Fsdb {
  import opened Basics
  import opened Sums
  import opened FreeList
  import opened BlockTree
  import opened FileTable
  import Restor

  /** The block that holds logical block bn; 0 when there is none or the file cannot be that long. */
  method BMap(disk: map<int, Block>, table: Table, bn: nat) returns (nb: int)
    ensures nb == Walk(disk, table, bn)
  {
    hide Node, Digit, Root, Offset, Depth, Get, Pow2, Walk;
    Restor.RootOf(bn);
    if bn < NADDR - 3 {
      Restor.DirectWalk(disk, table, bn);
      return table[bn];
    }
    var sh, x, j := 0, bn - (NADDR - 3), 3;
    nb := 1;
    while j > 0
      invariant 0 <= j <= 3 && 0 <= x && Restor.LevelAt(bn, j, sh, nb, x)
    {
      sh := sh + NSHIFT;
      nb := nb * NINDIR;
      if x < nb {
        break;
      }
      x := x - nb;
      j := j - 1;
    }
    assert j > 0 ==> Restor.LevelFound(bn, j, sh, x);
    if j == 0 {
      WalkNone(disk, table, bn);
      return 0;
    }
    Restor.FoundRoot(bn, j, sh, x);
    ghost var s, depth := Root(bn), Depth(Root(bn));
    WalkIs(disk, table, bn);
    nb := table[NADDR - j];
    if nb == 0 {
      NoNode(disk, depth, Offset(bn));
      return;
    }
    ghost var d: nat := 0;
    NodeStart(disk, table[s], depth, Offset(bn));
    while j <= 3
      invariant d <= depth && j == 4 - (depth - d) && sh == NSHIFT * (depth - d)
      invariant nb == Node(disk, table[s], depth, d, Offset(bn)) != 0
      decreases 3 - j
    {
      sh := sh - NSHIFT;
      Restor.DigitShift(x, sh, depth - d - 1);
      NodeStep(disk, table[s], depth, d, Offset(bn));
      Restor.IsGet(disk, nb);
      nb := (if nb in disk then disk[nb] else ZeroBlock())[(x / Pow2(sh)) % (NMASK + 1)];
      if nb == 0 {
        WayEnds(disk, table[s], depth, d + 1, Offset(bn));
        return;
      }
      d := d + 1;
      j := j + 1;
    }
  }

  /** A block of a file restor has restored, looked up the way fsdb does it. */
  method ReadBack(disk: map<int, Block>, table: Table, tape: seq<Option<Block>>, bn: nat) returns (nb: int)
    requires Restor.Restored(disk, table, Restor.InFile(tape), |Restor.InFile(tape)|)
    ensures bn < |tape| && bn < MAX_FILE && tape[bn].Some? ==> nb != 0 && Get(disk, nb) == tape[bn].value
    ensures bn >= |tape| || bn >= MAX_FILE || tape[bn].None? ==> nb == 0
  {
    hide Walk, Get;
    nb := BMap(disk, table, bn);
    var file := Restor.InFile(tape);
    assert Restor.HoldsBlock(disk, table, nb, if bn < |file| then file[bn] else None);
  }
}
