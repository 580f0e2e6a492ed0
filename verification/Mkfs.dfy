/** mkfs's way of writing a file: the data blocks one after the other, then the indirect blocks that lead to
    them. */
module Mkfs {
  import opened FreeList
  import opened BlockTree
  import opened FileTable
  import opened BlockCount
  import Restor

  const LADDR: nat := 10
  const NFB: nat := 628

  /** Block x of the file, or 0 past its end. */
  function At(data: seq<int>, x: nat): int {
    if x < |data| then data[x] else 0
  }

  /** The words of an indirect block for the data blocks from x on. */
  ghost predicate Leads(b: Block, data: seq<int>, x: nat) {
    forall j | 0 <= j < NINDIR :: b[j] == At(data, x + j)
  }

  /** The address table of a file with these data blocks, none of them beyond double indirection. */
  ghost predicate LaidOut(disk: map<int, Block>, table: Table, data: seq<int>) {
    && |data| <= 138 + 16384 && (forall x | 0 <= x < LADDR :: table[x] == At(data, x))
    && (if |data| > 10 then table[10] != 0 && Leads(Get(disk, table[10]), data, 10) else table[10] == 0)
    && (if |data| > 138 then table[11] != 0 && Second(disk, table[11], data) else table[11] == 0)
    && table[12] == 0
  }

  ghost predicate Second(disk: map<int, Block>, b: int, data: seq<int>) {
    forall k: nat | k < NINDIR :: Third(disk, Slot(disk, b, k), data, k)
  }

  ghost predicate Third(disk: map<int, Block>, b: int, data: seq<int>, k: nat) {
    if 138 + 128 * k < |data| then b != 0 && Leads(Get(disk, b), data, 138 + 128 * k) else b == 0
  }

  /** fsdb's walk through such a table finds each data block, and nothing beyond the end. */
  lemma WalkFinds(disk: map<int, Block>, table: Table, data: seq<int>, x: nat)
    requires LaidOut(disk, table, data)
    ensures Walk(disk, table, x) == At(data, x)
  {
    hide Node, Get, Slot, Digit, Walk, Size;
    if Root(x) == NADDR {
      WalkNone(disk, table, x);
    } else {
      WalkIs(disk, table, x);
      if x < 10 {
        NodeStart(disk, table[x], 0, 0);
      } else if x < 138 {
        OneLevel(disk, table[10], x - 10);
      } else if x < 138 + 16384 {
        TwoLevels(disk, table[11], x - 138);
        assert |data| > 138 ==> Third(disk, Slot(disk, table[11], (x - 138) / 128), data, (x - 138) / 128);
      } else {
        NoNode(disk, 3, x - 16522);
      }
    }
  }

  lemma OneLevel(disk: map<int, Block>, nb: int, x: nat)
    requires x < 128
    ensures Node(disk, nb, 1, 1, x) == if nb == 0 then 0 else Get(disk, nb)[x]
  {
    Digits(x);
    hide Get, Digit, Size;
    NodeIs(disk, nb, 1, 1, x);
  }

  lemma TwoLevels(disk: map<int, Block>, nb: int, x: nat)
    requires x < 16384
    ensures var b := if nb == 0 then 0 else Slot(disk, nb, x / 128);
            Node(disk, nb, 2, 2, x) == if b == 0 then 0 else Get(disk, b)[x % 128]
  {
    Digits(x);
    hide Get, Digit, Size;
    NodeIs(disk, nb, 2, 2, x);
    if nb != 0 {
      NodeIs(disk, Slot(disk, nb, x / 128), 1, 1, x);
    }
  }

  class Maker {
    var disk: map<int, Block>
    var sNfree: int
    const sFree: array<int>
    var sTfree: int
    /** What the free list of the superblock stands for. */
    ghost var list: seq<int>
    /** The data blocks of the file being made, and its address table. */
    const ib: array<int>
    var ibc: nat
    var error: bool
    const faddr: array<int>

    constructor (disk: map<int, Block>, nfree: int, free: seq<int>, tfree: int, ghost list: seq<int>)
      requires Lists(nfree, free, disk, list) && Single(multiset(list))
      ensures Ready() && this.disk == disk && this.list == list && sTfree == tfree && ibc == 0 && !error
      ensures faddr[..] == EmptyTable() && fresh(sFree) && fresh(ib) && fresh(faddr)
    {
      this.disk, sNfree, sTfree, this.list := disk, nfree, tfree, list;
      sFree := new int[NICFREE](k requires 0 <= k < NICFREE => free[k]);
      ib, faddr := new int[NFB](_ => 0), new int[NADDR](_ => 0);
      ibc, error := 0, false;
      new;
      assert sFree[..] == free;
    }

    ghost predicate Shape() {
      && sFree.Length == NICFREE && ib.Length == NFB && faddr.Length == NADDR
      && sFree != ib && sFree != faddr && ib != faddr
    }

    ghost predicate Ready()
      reads this, sFree
    {
      Shape() && ibc < NFB && Lists(sNfree, sFree[..], disk, list) && Single(multiset(list))
    }

    /** Takes the next block off the free list; 0 when there is none left. */
    method Alloc() returns (bno: int)
      requires Ready()
      modifies this`sTfree, this`sNfree, this`list, sFree
      ensures bno == 0 ==> old(list) == []
      ensures bno != 0 ==> Ready() && old(list) != [] && bno == old(list)[0] && list == old(list)[1..]
      ensures sTfree == old(sTfree) - 1
    {
      hide Lists, Single;
      ghost var f := sFree[..];
      BatchSize(sNfree, f, disk, list);
      sTfree := sTfree - 1;
      sNfree := sNfree - 1;
      bno := sFree[sNfree];
      Restor.TopOf(sNfree + 1, f, disk, list, bno);
      if bno == 0 {
        return;
      }
      if sNfree <= 0 {
        PopLast(f, disk, list);
        var b := disk[bno];
        sNfree := BatchCount(b);
        var i := 0;
        while i < NICFREE
          modifies sFree
          invariant 0 <= i <= NICFREE && forall j | 0 <= j < i :: sFree[j] == BatchNumbers(b)[j]
        {
          sFree[i] := b[i + 1];
          i := i + 1;
        }
        assert sFree[..] == BatchNumbers(b);
      } else {
        Pop(sNfree + 1, f, disk, list);
      }
      Restor.TakeHead(list);
      list := list[1..];
    }

    /** Writes a block that is not on the free list. */
    method WtFs(bno: int, b: Block)
      requires Ready() && bno !in list
      modifies this`disk
      ensures Ready() && disk == old(disk)[bno := b] && Get(disk, bno) == b && ChangedAt(old(disk), disk, bno)
    {
      hide Lists, Single;
      ghost var d := disk;
      disk := disk[bno := b];
      ListsFrame(sNfree, sFree[..], d, disk, list);
      Restor.GetSet(d, bno, b);
    }

    /** The next data block of the file. */
    method NewBlk(db: Block) returns (ok: bool)
      requires Ready()
      modifies this, sFree, ib
      ensures ok ==> Ready() && old(list) != [] && list == old(list)[1..] && sTfree == old(sTfree) - 1
      ensures ok ==> Get(disk, old(list)[0]) == db && ChangedAt(old(disk), disk, old(list)[0])
      ensures ok ==> ib[..] == old(ib[..])[old(ibc) := old(list)[0]]
      ensures ok ==> if old(ibc) + 1 < NFB then ibc == old(ibc) + 1 && error == old(error) else ibc == 0 && error
      ensures !ok ==> old(list) == []
    {
      hide Lists, Single, Get, ChangedAt;
      BatchSize(sNfree, sFree[..], disk, list);
      var bno := Alloc();
      if bno == 0 {
        return false;
      }
      Restor.TakeHead(old(list));
      WtFs(bno, db);
      ib[ibc] := bno;
      ibc := ibc + 1;
      if ibc >= NFB {
        error := true;
        ibc := 0;
      }
      ok := true;
    }

    /** Moves the next NINDIR data blocks, from i on, to the front of ib, filled up with zeroes. */
    method Gather(i: nat, ghost data: seq<int>) returns (next: nat)
      requires Shape() && LADDR <= i < ibc == |data| < NFB
      requires forall p | i <= p < ibc && (i == LADDR || NINDIR <= p) :: ib[p] == data[p]
      requires i != LADDR ==> i >= NINDIR
      modifies ib
      ensures next == if i + NINDIR < ibc then i + NINDIR else ibc
      ensures Leads(ib[..NINDIR], data, i)
      ensures forall p | NINDIR <= p < NFB :: ib[p] == old(ib[p])
    {
      next := i;
      var j := 0;
      while next < ibc && j < NINDIR
        invariant 0 <= j <= NINDIR && next == i + j <= ibc
        invariant forall p | 0 <= p < j :: ib[p] == data[i + p]
        invariant forall p | j <= p < NFB :: ib[p] == old(ib[p])
      {
        ib[j] := ib[next];
        j := j + 1;
        next := next + 1;
      }
      while j < NINDIR
        invariant next - i <= j <= NINDIR
        invariant forall p | 0 <= p < j :: ib[p] == At(data, i + p)
        invariant forall p | NINDIR <= p < NFB :: ib[p] == old(ib[p])
      {
        ib[j] := 0;
        j := j + 1;
      }
    }

    /** The data blocks of a file, as far as the free list goes. */
    method WriteAll(blocks: seq<Block>) returns (ok: bool)
      requires Ready() && ibc == 0 && !error
      modifies this, sFree, ib
      ensures ok <==> |blocks| <= |old(list)|
      ensures ok ==> Ready() && list == old(list)[|blocks|..] && sTfree == old(sTfree) - |blocks|
      ensures ok ==> ibc == |Kept(blocks)| && (error <==> |blocks| >= NFB)
      ensures ok ==> forall x | 0 <= x < ibc ::
                ib[x] == old(list)[Lost(blocks) + x] && Get(disk, ib[x]) == Kept(blocks)[x]
      ensures ok ==> Elsewhere(old(disk), disk, old(list))
    {
      hide Lists, Single, Get;
      ghost var list0, disk0 := list, disk;
      NoRepeats(list0);
      var n := 0;
      ghost var full: nat := 0;
      while n < |blocks|
        invariant 0 <= n <= |blocks| && n <= |list0| && Ready() && list == list0[n..] && sTfree == old(sTfree) - n
        invariant n == NFB * full + ibc && (error <==> full > 0) && Elsewhere(disk0, disk, list0)
        invariant forall x | 0 <= x < ibc ::
                    ib[x] == list0[NFB * full + x] && Get(disk, ib[x]) == blocks[NFB * full + x]
      {
        ok := NewBlk(blocks[n]);
        if !ok {
          return;
        }
        n := n + 1;
        full := if ibc == 0 then full + 1 else full;
      }
      ok := true;
      LostIs(blocks, full, ibc);
    }

    /** A whole file. Block x of it is found where the walk leads, nothing is found past its end, and it takes as
        many blocks off the free list as du counts for it. NFB blocks or more are an error: the file then has what
        is left when whole runs of NFB blocks have been written and forgotten. */
    method MakeFile(blocks: seq<Block>) returns (ok: bool)
      requires Ready() && ibc == 0 && !error && faddr[..] == EmptyTable()
      modifies this, sFree, ib, faddr
      ensures ok ==> Ready() && (error <==> |blocks| >= NFB)
      ensures ok ==> forall x: nat | x < |Kept(blocks)| :: Holds(disk, faddr[..], x, Kept(blocks)[x])
      ensures ok ==> forall x: nat | x >= |Kept(blocks)| :: Walk(disk, faddr[..], x) == 0
      ensures ok <==> Lost(blocks) + Total(|Kept(blocks)|) <= |old(list)|
      ensures ok ==> list == old(list)[Lost(blocks) + Total(|Kept(blocks)|)..]
      ensures ok ==> sTfree == old(sTfree) - Lost(blocks) - Total(|Kept(blocks)|)
      ensures ok ==> Elsewhere(old(disk), disk, old(list))
    {
      hide Lists, Single, Get, LaidOut, Indirects, Total, Walk, Lost;
      ghost var list0 := list;
      NoRepeats(list0);
      KeptSize(blocks);
      IndirectsAre(|Kept(blocks)|);
      ok := WriteAll(blocks);
      if !ok {
        return;
      }
      ghost var data, d := ib[..ibc], disk;
      assert forall b | b in data :: b in list0;
      OffTheList(list0, |blocks|);
      ok := IPut(data);
      if ok {
        forall x: nat
          ensures Walk(disk, faddr[..], x) == At(data, x)
        {
          WalkFinds(disk, faddr[..], data, x);
        }
      }
    }

    /** The direct blocks. */
    method PutDirect(ghost data: seq<int>) returns (i: nat)
      requires Shape() && ibc < NFB && faddr[..] == EmptyTable() && data == ib[..ibc]
      modifies faddr, ib
      ensures i == if ibc < LADDR then ibc else LADDR
      ensures forall p | 0 <= p < LADDR :: faddr[p] == At(data, p)
      ensures forall p | LADDR <= p < NADDR :: faddr[p] == 0
      ensures forall p | 0 <= p < ibc :: ib[p] == if p < i then 0 else data[p]
    {
      i := 0;
      while i < ibc && i < LADDR
        invariant 0 <= i <= ibc && i <= LADDR
        invariant forall p | 0 <= p < LADDR :: faddr[p] == if p < i then data[p] else 0
        invariant forall p | LADDR <= p < NADDR :: faddr[p] == 0
        invariant forall p | 0 <= p < ibc :: ib[p] == if p < i then 0 else data[p]
      {
        faddr[i] := ib[i];
        ib[i] := 0;
        i := i + 1;
      }
    }

    /** The indirect blocks of the file whose data blocks are in ib, and its address table. */
    method IPut(ghost data: seq<int>) returns (ok: bool)
      requires Ready() && faddr[..] == EmptyTable() && data == ib[..ibc]
      requires forall p | 0 <= p < |data| :: data[p] != 0
      modifies this`disk, this`sNfree, this`sTfree, this`list, sFree, ib, faddr
      ensures ok ==> Ready() && LaidOut(disk, faddr[..], data)
      ensures ok ==> Indirects(|data|) <= |old(list)| && list == old(list)[Indirects(|data|)..]
      ensures ok ==> sTfree == old(sTfree) - Indirects(|data|)
      ensures ok ==> forall b | b !in old(list) :: Get(disk, b) == Get(old(disk), b)
      ensures !ok ==> |old(list)| < Indirects(|data|)
    {
      hide Lists, Single, Get, Leads, Third, Slot, Indirects, HowMany, Ready, Shape;
      ReadyShape();
      ghost var list0 := list;
      NoRepeats(list0);
      IndirectsAre(|data|);
      var i := PutDirect(data);
      ok := true;
      if i < ibc {
        i := Gather(i, data);
        var b := Alloc();
        if b == 0 {
          return false;
        }
        faddr[LADDR] := b;
        OffList(list0, list, 1);
        WtFs(b, ib[..NINDIR]);
      }
      if i < ibc {
        ok := PutDouble(i, data, list0);
      }
    }

    /** The double indirect block and those it leads to. */
    method PutDouble(from: nat, ghost data: seq<int>, ghost list0: seq<int>) returns (ok: bool)
      requires Ready() && from == NINDIR + LADDR < ibc == |data| && list0 != [] && list == list0[1..]
      requires forall i, j | 0 <= i < j < |list0| :: list0[i] != list0[j]
      requires forall i | 0 <= i < |list0| :: list0[i] != 0
      requires forall p | NINDIR <= p < ibc :: ib[p] == data[p]
      requires forall x | 0 <= x < LADDR :: faddr[x] == data[x]
      requires faddr[10] == list0[0] && faddr[12] == 0 && Leads(Get(disk, list0[0]), data, 10)
      modifies this`disk, this`sNfree, this`sTfree, this`list, sFree, ib, faddr
      ensures ok ==> Ready() && LaidOut(disk, faddr[..], data)
      ensures ok ==> Indirects(|data|) <= |list0| && list == list0[Indirects(|data|)..]
      ensures ok ==> sTfree == old(sTfree) + 1 - Indirects(|data|)
      ensures ok ==> forall b | b !in list0 :: Get(disk, b) == Get(old(disk), b)
      ensures !ok ==> |list0| < Indirects(|data|)
    {
      hide Lists, Single, Get, Leads, Third, Slot, Indirects, HowMany, LaidOut, Ready, Shape;
      ReadyShape();
      IndirectsAre(|data|);
      ghost var d1 := disk;
      var i, k, ib2;
      i, ok, k, ib2 := DoubleIndirect(from, data);
      if !ok {
        return;
      }
      ghost var d2 := disk;
      assert list == list0[1..][k..] == list0[1 + k..];
      var b := Alloc();
      if b == 0 {
        return false;
      }
      faddr[LADDR + 1] := b;
      OffList(list0, list, 2 + k);
      WtFs(b, ib2);
      Finished(list0, d1, d2, disk, faddr[..], data, k, ib2);
    }

    lemma ReadyShape()
      requires Ready()
      ensures Shape() && ibc < NFB == ib.Length && sFree.Length == NICFREE && faddr.Length == NADDR
      ensures sFree != ib && sFree != faddr && ib != faddr && Single(multiset(list))
    {
    }

    /** The blocks of the second level, the last of which may be partly used. */
    method DoubleIndirect(from: nat, ghost data: seq<int>) returns (i: nat, ok: bool, k: nat, ib2: Block)
      requires Ready() && from == NINDIR + LADDR < ibc == |data|
      requires forall p | NINDIR <= p < ibc :: ib[p] == data[p]
      modifies this`disk, this`sNfree, this`sTfree, this`list, sFree, ib
      ensures ok ==> Ready() && i == ibc && k == HowMany(|data| - 138, 128) <= |old(list)|
      ensures ok ==> 138 + 128 * k >= |data|
      ensures ok ==> list == old(list)[k..] && sTfree == old(sTfree) - k
      ensures ok ==> forall m | 0 <= m < NINDIR :: Third(disk, ib2[m], data, m)
      ensures ok ==> forall m | 0 <= m < NINDIR :: ib2[m] == if m < k then old(list)[m] else 0
      ensures ok ==> forall b | b !in old(list)[..k] :: Get(disk, b) == Get(old(disk), b)
      ensures !ok ==> |old(list)| < HowMany(|data| - 138, 128)
    {
      hide Lists, Single, Get, Leads, Third, HowMany, Ready, Shape, ChangedAt;
      ReadyShape();
      ghost var list0, disk0 := list, disk;
      NoRepeats(list0);
      ib2 := ZeroBlock();
      i, k := from, 0;
      while k < NINDIR && i < ibc
        modifies this`disk, this`sNfree, this`sTfree, this`list, sFree, ib
        invariant Ready() && k <= NINDIR && k <= |list0| && list == list0[k..] && sTfree == old(sTfree) - k
        invariant i == if 138 + 128 * k < ibc then 138 + 128 * k else ibc
        invariant k > 0 ==> 138 + 128 * (k - 1) < ibc
        invariant forall p | NINDIR <= p < ibc :: ib[p] == data[p]
        invariant forall m | 0 <= m < k :: Third(disk, ib2[m], data, m)
        invariant forall m | 0 <= m < NINDIR :: ib2[m] == if m < k then list0[m] else 0
        invariant forall b | b !in list0[..k] :: Get(disk, b) == Get(disk0, b)
      {
        i := Gather(i, data);
        var b := Alloc();
        if b == 0 {
          TooFew(|data|, k);
          return i, false, k, ib2;
        }
        OffList(list0, list, k + 1);
        ghost var d := disk;
        WtFs(b, ib[..NINDIR]);
        NextThird(list0, d, disk, ib2, data, k, ib[..NINDIR], ib2[k := b]);
        StillOutside(list0, disk0, d, disk, k);
        ib2 := ib2[k := b];
        k := k + 1;
      }
      Counted(|data|, k);
      RestEmpty(disk, ib2, data, k);
      ok := true;
    }
  }

  ghost predicate Holds(disk: map<int, Block>, table: Table, x: nat, b: Block) {
    Walk(disk, table, x) != 0 && Get(disk, Walk(disk, table, x)) == b
  }

  lemma OffTheList(list0: seq<int>, n: nat)
    requires n <= |list0| && forall i, j | 0 <= i < j < |list0| :: list0[i] != list0[j]
    ensures forall x | 0 <= x < n :: list0[x] !in list0[n..]
  {
  }

  /** How many blocks of a file are forgotten when the table of its data blocks runs full, once or more. */
  function Lost(blocks: seq<Block>): nat {
    |blocks| - |blocks| % NFB
  }

  /** The blocks that follow them; the whole file if it has less than NFB blocks. */
  function Kept(blocks: seq<Block>): (kept: seq<Block>)
    ensures |blocks| < NFB ==> kept == blocks && Lost(blocks) == 0
  {
    blocks[Lost(blocks)..]
  }

  lemma KeptSize(blocks: seq<Block>)
    ensures |Kept(blocks)| < NFB && Lost(blocks) + |Kept(blocks)| == |blocks|
  {
  }

  lemma LostIs(blocks: seq<Block>, full: nat, k: nat)
    requires |blocks| == NFB * full + k && k < NFB
    ensures Lost(blocks) == NFB * full && |Kept(blocks)| == k && (full > 0 <==> |blocks| >= NFB)
  {
    var q, r := |blocks| / NFB, |blocks| % NFB;
    assert |blocks| == NFB * q + r;
  }

  ghost predicate Elsewhere(disk: map<int, Block>, disk': map<int, Block>, list: seq<int>) {
    forall b | b !in list :: Get(disk', b) == Get(disk, b)
  }

  /** Indirect blocks of a file of n data blocks. */
  function Indirects(n: nat): nat {
    (if n > 10 then 1 else 0) + if n > 138 then HowMany(n - 138, 128) + 1 else 0
  }

  lemma IndirectsAre(n: nat)
    requires n < NFB
    ensures Indirects(n) + n == Total(n)
    ensures n <= 10 ==> Indirects(n) == 0
    ensures 10 < n <= 138 ==> Indirects(n) == 1
    ensures n > 138 ==> Indirects(n) == 2 + HowMany(n - 138, 128)
  {
    hide Total;
    TotalIs(n);
  }

  lemma NoRepeats(list: seq<int>)
    requires Single(multiset(list))
    ensures forall i, j | 0 <= i < j < |list| :: list[i] != list[j]
    ensures forall i | 0 <= i < |list| :: list[i] != 0
    decreases |list|
  {
    if list != [] {
      Restor.TakeHead(list);
      NoRepeats(list[1..]);
      hide Single;
      assert forall i | 0 < i < |list| :: list[i] == list[1..][i - 1];
    }
  }

  lemma OffList(list0: seq<int>, list: seq<int>, used: nat)
    requires 0 < used <= |list0| && list == list0[used..] && forall i, j | 0 <= i < j < |list0| :: list0[i] != list0[j]
    ensures list0[used - 1] !in list
  {
  }

  /** After the last block has been written, everything written before is still there. */
  lemma Finished(list0: seq<int>, d1: map<int, Block>, d2: map<int, Block>, disk: map<int, Block>, table: Table,
                 data: seq<int>, k: nat, ib2: Block)
    requires 138 < |data| < NFB && 1 + k < |list0| && 138 + 128 * k >= |data|
    requires forall i, j | 0 <= i < j < |list0| :: list0[i] != list0[j]
    requires forall i | 0 <= i < |list0| :: list0[i] != 0
    requires forall x | 0 <= x < LADDR :: table[x] == data[x]
    requires table[10] == list0[0] && table[11] == list0[1 + k] && table[12] == 0
    requires Leads(Get(d1, list0[0]), data, 10)
    requires forall b | b !in list0[1..][..k] :: Get(d2, b) == Get(d1, b)
    requires ChangedAt(d2, disk, list0[1 + k]) && Get(disk, list0[1 + k]) == ib2
    requires forall m | 0 <= m < NINDIR :: Third(d2, ib2[m], data, m)
    requires forall m | 0 <= m < NINDIR :: ib2[m] == if m < k then list0[1..][m] else 0
    ensures LaidOut(disk, table, data)
  {
    hide Leads, Get;
    assert list0[0] !in list0[1..][..k];
    assert Get(disk, list0[0]) == Get(d1, list0[0]);
    forall m: nat | m < NINDIR
      ensures Third(disk, Slot(disk, table[11], m), data, m)
    {
      assert Third(d2, ib2[m], data, m);
      assert Slot(disk, table[11], m) == ib2[m];
      assert m < k ==> list0[1 + m] != list0[1 + k];
    }
  }

  lemma NextThird(list0: seq<int>, d: map<int, Block>, disk: map<int, Block>, ib2: Block, data: seq<int>, k: nat, b: Block,
                  more: Block)
    requires k < NINDIR && k < |list0| && 138 + 128 * k < |data| && Leads(b, data, 138 + 128 * k)
    requires forall i, j | 0 <= i < j < |list0| :: list0[i] != list0[j]
    requires list0[k] != 0 && ChangedAt(d, disk, list0[k]) && Get(disk, list0[k]) == b
    requires forall m | 0 <= m < NINDIR :: ib2[m] == if m < k then list0[m] else 0
    requires forall m | 0 <= m < k :: Third(d, ib2[m], data, m)
    requires more == ib2[k := list0[k]]
    ensures forall m | 0 <= m < k + 1 :: Third(disk, more[m], data, m)
  {
    hide Leads, Get;
    forall m | 0 <= m < k + 1
      ensures Third(disk, more[m], data, m)
    {
      assert m < k ==> Third(d, ib2[m], data, m) && list0[m] != list0[k];
    }
  }

  lemma StillOutside(list0: seq<int>, d0: map<int, Block>, d: map<int, Block>, disk: map<int, Block>, k: nat)
    requires k < |list0| && forall b | b !in list0[..k] :: Get(d, b) == Get(d0, b)
    requires ChangedAt(d, disk, list0[k])
    ensures forall b | b !in list0[..k + 1] :: Get(disk, b) == Get(d0, b)
  {
    hide Get;
    assert list0[..k + 1] == list0[..k] + [list0[k]];
  }

  lemma RestEmpty(disk: map<int, Block>, ib2: Block, data: seq<int>, k: nat)
    requires k <= NINDIR && 138 + 128 * k >= |data|
    requires forall m | 0 <= m < k :: Third(disk, ib2[m], data, m)
    requires forall m | k <= m < NINDIR :: ib2[m] == 0
    ensures forall m | 0 <= m < NINDIR :: Third(disk, ib2[m], data, m)
  {
    hide Leads, Get;
  }

  lemma TooFew(n: nat, k: nat)
    requires 138 < n && 138 + 128 * k < n
    ensures k < HowMany(n - 138, 128)
  {
  }

  lemma Counted(n: nat, k: nat)
    requires 138 < n <= 138 + 128 * k && k > 0 && 138 + 128 * (k - 1) < n
    ensures k == HowMany(n - 138, 128)
  {
  }
}
