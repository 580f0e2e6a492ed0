/** How many blocks a file takes, indirect blocks included: du's closed form, fsck's loop, and the tree itself. */
module BlockCount {
  import opened BlockTree
  import opened FileTable

  const INDIR: nat := 128
  const BSIZE: nat := 512

  function Min(a: nat, b: nat): nat {
    if a < b then a else b
  }

  /** Blocks of a tree of depth d that is filled from the left with m data blocks. */
  function Nodes(d: nat, m: nat): nat
    decreases d, m, 1
  {
    if m == 0 then 0 else if d == 0 then 1 else 1 + Forest(d - 1, m)
  }

  /** Blocks of as many trees of depth d as m data blocks take. */
  function Forest(d: nat, m: nat): nat
    decreases d, m, 2
  {
    if m == 0 then 0
    else
      Positive(d);
      if m <= Size(d) then Nodes(d, m) else Nodes(d, Size(d)) + Forest(d, m - Size(d))
  }

  /** Blocks of a file of n data blocks. */
  function Total(n: nat): nat {
    Min(n, 10) + Nodes(1, Min(Past(n, 10), 128)) + Nodes(2, Min(Past(n, 138), 16384)) + Nodes(3, Past(n, 16522))
  }

  function Past(n: nat, m: nat): nat {
    if n > m then n - m else 0
  }

  function HowMany(x: nat, y: nat): nat
    requires y > 0
  {
    (x + (y - 1)) / y
  }

  // ---- The tree, counted level by level

  lemma {:induction false} Forest0(m: nat)
    ensures Forest(0, m) == m
  {
    if m > 1 {
      Forest0(m - 1);
    }
  }

  lemma {:induction false} Forest1(m: nat)
    ensures Forest(1, m) == m + HowMany(m, 128)
    decreases m
  {
    assert Size(1) == 128 * Size(0);
    if 0 < m {
      Forest0(Min(m, 128));
      if m > 128 {
        Forest1(m - 128);
      }
    }
  }

  lemma HowManyStep(m: nat)
    ensures m > 16384 ==> HowMany(m, 128) == 128 + HowMany(m - 16384, 128)
    ensures m > 16384 ==> HowMany(m, 16384) == 1 + HowMany(m - 16384, 16384)
    ensures 0 < m <= 16384 ==> HowMany(m, 16384) == 1
    ensures HowMany(0, 128) == 0 && HowMany(0, 16384) == 0
  {
  }

  lemma Sizes()
    ensures Size(0) == 1 && Size(1) == 128 && Size(2) == 16384
  {
    assert Size(1) == 128 * Size(0) && Size(2) == 128 * Size(1);
  }

  lemma NodesAre(m: nat)
    requires m > 0
    ensures Nodes(1, m) == 1 + m && Nodes(2, m) == 1 + m + HowMany(m, 128) && Nodes(3, m) == 1 + Forest(2, m)
  {
    hide HowMany;
    Forest0(m);
    Forest1(m);
  }

  lemma ForestStep(m: nat)
    ensures Forest(2, m) == if m == 0 then 0 else if m <= Size(2) then Nodes(2, m)
                                             else Nodes(2, Size(2)) + Forest(2, m - Size(2))
  {
  }

  lemma {:induction false} Forest2(m: nat)
    ensures Forest(2, m) == m + HowMany(m, 128) + HowMany(m, 16384)
    decreases m
  {
    hide Forest, Nodes, HowMany, Size;
    Sizes();
    HowManyStep(m);
    HowManyStep(16384);
    Full();
    ForestStep(m);
    if 0 < m {
      NodesAre(Min(m, 16384));
      if m > 16384 {
        Forest2(m - 16384);
      }
    }
  }

  lemma Full()
    ensures HowMany(16384, 128) == 128
  {
  }

  /** Each level has one block for every INDIR blocks of the level below. */
  lemma TotalIs(n: nat)
    requires n <= MAX_FILE
    ensures Total(n) == n + HowMany(Past(n, 10), 128) + HowMany(Past(n, 138), 16384) + if n > 16522 then 1 else 0
  {
    hide Forest, Nodes, Size;
    if n > 10 {
      NodesAre(Min(n - 10, 128));
    }
    if n > 138 {
      NodesAre(Min(n - 138, 16384));
    }
    if n > 16522 {
      NodesAre(n - 16522);
      Forest2(n - 16522);
    }
    NoNodes();
  }

  lemma NoNodes()
    ensures Nodes(1, 0) == Nodes(2, 0) == Nodes(3, 0) == 0
  {
  }

  // ---- The two programs

  /** du. */
  method NBlock(size: nat) returns (tot: nat)
    requires HowMany(size, BSIZE) <= MAX_FILE
    ensures tot == Total(HowMany(size, BSIZE))
  {
    hide Total, Forest, Nodes, Size;
    var blocks := (size + 511) / 512;
    tot := blocks;
    if blocks > DIRECT {
      tot := tot + (blocks - DIRECT - 1) / 128 + 1;
    }
    if blocks > DIRECT + INDIR {
      tot := tot + (blocks - DIRECT - INDIR - 1) / 16384 + 1;
    }
    if blocks > DIRECT + INDIR + INDIR * INDIR {
      tot := tot + 1;
    }
    TotalIs(blocks);
  }

  /** fsck's count, to compare with the blocks it has seen. */
  method SizeChk(diSize: nat) returns (nblks: nat)
    requires HowMany(diSize, BSIZE) <= MAX_FILE
    ensures nblks == Total(HowMany(diSize, BSIZE))
  {
    hide Total, Forest, Nodes, Size;
    var size: int := HowMany(diSize, BSIZE);
    ghost var n := HowMany(diSize, BSIZE);
    nblks := size;
    size := size - (NADDR - 3);
    ghost var level := 0;
    while size > 0
      invariant 0 <= level <= 3
      invariant level == 0 ==> size == n - 10 && nblks == n
      invariant level == 1 ==> n > 10 && size == (n - 11) / 128 && nblks == n + HowMany(n - 10, 128)
      invariant level == 2 ==> n > 138 && size == (n - 139) / 16384
                               && nblks == n + HowMany(n - 10, 128) + HowMany(n - 138, 16384)
      invariant level == 3 ==> n > 16522 && size == 0
                               && nblks == n + HowMany(n - 10, 128) + HowMany(n - 138, 16384) + 1
    {
      Levels(n, level, size);
      nblks := nblks + HowMany(size, INDIR);
      size := size - 1;
      size := size / 128;
      level := level + 1;
    }
    TotalIs(n);
  }

  /** What one turn of the loop adds and leaves. */
  lemma Levels(n: nat, level: nat, size: nat)
    requires n <= MAX_FILE && size > 0 && level <= 3
    requires level == 0 ==> size == n - 10
    requires level == 1 ==> n > 10 && size == (n - 11) / 128
    requires level == 2 ==> n > 138 && size == (n - 139) / 16384
    requires level == 3 ==> size == 0
    ensures level == 0 ==> HowMany(size, 128) == HowMany(n - 10, 128) && (size - 1) / 128 == (n - 11) / 128
    ensures level == 1 ==> n > 138 && HowMany(size, 128) == HowMany(n - 138, 16384) && (size - 1) / 128 == (n - 139) / 16384
    ensures level == 2 ==> n > 16522 && HowMany(size, 128) == 1 && (size - 1) / 128 == 0
  {
    if level == 1 {
      assert size == 1 + (n - 139) / 128;
      assert (n - 139) / 128 / 128 == (n - 139) / 16384;
    } else if level == 2 {
      assert size == 1 + (n - 16523) / 16384;
    }
  }
}
