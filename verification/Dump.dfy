/** dump's choice of inodes: phase I marks, phase II adds directories until nothing changes, phases III and
    IV write. Inode i has bit i - 1 in every map. */
module Dump {
  const MLEN: nat := 16
  const BITS: nat := 65536

  datatype Kind = Free | Directory | Regular | Special
  datatype Entry = Entry(ino: nat, name: string)
  datatype Inode = Inode(kind: Kind, mtime: int, ctime: int, entries: seq<Entry>)

  predicate IsDot(name: string) {
    name == "." || name == ".."
  }

  /** Inodes fit the maps, and so do the numbers in the directories. */
  ghost predicate Volume(inodes: seq<Inode>) {
    |inodes| <= BITS && forall i, k | 0 <= i < |inodes| && 0 <= k < |inodes[i].entries| ::
      inodes[i].entries[k].ino <= BITS
  }

  // ---- Which inodes are to be dumped

  predicate Changed(ip: Inode, since: int) {
    ip.kind != Free && (ip.mtime >= since || ip.ctime >= since)
  }

  predicate IsDirectory(inodes: seq<Inode>, i: int) {
    0 <= i < |inodes| && inodes[i].kind == Directory
  }

  /** Directory i has bit e under a name other than dot and dot-dot. */
  predicate Names(inodes: seq<Inode>, i: nat, e: int)
    requires i < |inodes|
  {
    exists k | 0 <= k < |inodes[i].entries| :: IsEntry(inodes[i].entries[k], e)
  }

  predicate IsEntry(entry: Entry, e: int) {
    entry.ino != 0 && !IsDot(entry.name) && entry.ino - 1 == e
  }

  /** s has what changed since the last dump, and each directory with an entry in s. */
  ghost predicate Closed(inodes: seq<Inode>, since: int, s: set<int>) {
    && (forall i | 0 <= i < |inodes| && Changed(inodes[i], since) :: i in s)
    && (forall i, e | IsDirectory(inodes, i) && Names(inodes, i, e) && e in s :: i in s)
  }

  function BitSet(map0: seq<bool>): set<int> {
    set i | 0 <= i < |map0| && map0[i]
  }

  /** The least such set. */
  ghost predicate Least(inodes: seq<Inode>, since: int, s: set<int>) {
    Closed(inodes, since, s) && forall t | Closed(inodes, since, t) :: s <= t
  }

  // ---- Phase II's invariant

  /** Everything in nod has to be dumped; a directory in nod is still in dir; and a directory that has been
      pruned from dir names nothing that is in nod or could still get there. */
  ghost predicate Sound(inodes: seq<Inode>, since: int, dir: set<int>, nod: set<int>) {
    && (forall t | Closed(inodes, since, t) :: nod <= t)
    && (forall i | 0 <= i < |inodes| && Changed(inodes[i], since) :: i in nod)
    && (forall i | i in dir :: IsDirectory(inodes, i))
    && (forall i | i in nod :: 0 <= i < |inodes|)
    && (forall i | IsDirectory(inodes, i) && i in nod :: i in dir)
    && (forall i, e | IsDirectory(inodes, i) && i !in dir && Names(inodes, i, e) :: e !in nod && e !in dir)
  }

  lemma AddSound(inodes: seq<Inode>, since: int, dir: set<int>, nod: set<int>, i: int, e: int)
    requires Sound(inodes, since, dir, nod) && i in dir && IsDirectory(inodes, i) && Names(inodes, i, e) && e in nod
    ensures Sound(inodes, since, dir, nod + {i})
  {
    hide Names, Changed;
  }

  lemma PruneSound(inodes: seq<Inode>, since: int, dir: set<int>, nod: set<int>, i: int)
    requires Sound(inodes, since, dir, nod) && i in dir && i !in nod
    requires forall e | Names(inodes, i, e) :: e !in nod && e !in dir
    ensures Sound(inodes, since, dir - {i}, nod)
  {
    hide Names, Changed;
  }

  lemma FixpointIsLeast(inodes: seq<Inode>, since: int, dir: set<int>, nod: set<int>)
    requires Sound(inodes, since, dir, nod)
    requires forall i, e | i in dir && i !in nod && IsDirectory(inodes, i) && Names(inodes, i, e) :: e !in nod
    ensures Least(inodes, since, nod)
  {
    hide Names, Changed;
  }

  // ---- Phases III and IV

  /** The set bits below n, in order. */
  function Members(map0: seq<bool>, n: nat): seq<int>
    requires n <= |map0|
  {
    if n == 0 then [] else Members(map0, n - 1) + if map0[n - 1] then [n - 1] else []
  }

  lemma {:induction false} MembersAre(map0: seq<bool>, n: nat)
    requires n <= |map0|
    ensures forall i :: i in Members(map0, n) <==> 0 <= i < n && map0[i]
    ensures forall j, k | 0 <= j < k < |Members(map0, n)| :: Members(map0, n)[j] < Members(map0, n)[k]
  {
    if n > 0 {
      MembersAre(map0, n - 1);
      var a := Members(map0, n - 1);
      assert forall k | 0 <= k < |a| :: a[k] in a;
    }
  }

  function Minus(a: seq<bool>, b: seq<bool>): (c: seq<bool>)
    requires |a| == |b|
    ensures |c| == |a|
  {
    seq(|a|, i requires 0 <= i < |a| => a[i] && !b[i])
  }

  /** What the tape is to have: each inode of dir or nod once, and every directory before any other inode. */
  ghost predicate InOrder(inodes: seq<Inode>, dir: set<int>, nod: set<int>, tape: seq<int>) {
    && (forall i :: i in tape <==> i in dir || i in nod)
    && (forall j, k | 0 <= j < k < |tape| :: tape[j] != tape[k])
    && (forall j, k | 0 <= j < k < |tape| && IsDirectory(inodes, tape[k]) :: IsDirectory(inodes, tape[j]))
  }

  lemma TapeInOrder(inodes: seq<Inode>, since: int, dir: seq<bool>, nod: seq<bool>)
    requires |dir| == |nod| && |inodes| <= |dir| && Sound(inodes, since, BitSet(dir), BitSet(nod))
    ensures InOrder(inodes, BitSet(dir), BitSet(nod), Members(dir, |inodes|) + Members(Minus(nod, dir), |inodes|))
  {
    var n := |inodes|;
    SoundKinds(inodes, since, BitSet(dir), BitSet(nod));
    MembersAre(dir, n);
    MembersAre(Minus(nod, dir), n);
    assert forall i | 0 <= i < n :: Minus(nod, dir)[i] <==> nod[i] && !dir[i];
    hide Members, Sound, Minus;
    TwoParts(inodes, BitSet(dir), BitSet(nod), Members(dir, n), Members(Minus(nod, dir), n));
  }

  lemma SoundKinds(inodes: seq<Inode>, since: int, dir: set<int>, nod: set<int>)
    requires Sound(inodes, since, dir, nod)
    ensures forall i | i in dir :: IsDirectory(inodes, i)
    ensures forall i | i in nod :: 0 <= i < |inodes| && (IsDirectory(inodes, i) ==> i in dir)
  {
  }

  lemma TwoParts(inodes: seq<Inode>, dir: set<int>, nod: set<int>, a: seq<int>, b: seq<int>)
    requires forall i | i in dir :: IsDirectory(inodes, i)
    requires forall i | i in nod && IsDirectory(inodes, i) :: i in dir
    requires forall i :: i in a <==> i in dir
    requires forall i :: i in b <==> i in nod && i !in dir
    requires forall j, k | 0 <= j < k < |a| :: a[j] < a[k]
    requires forall j, k | 0 <= j < k < |b| :: b[j] < b[k]
    ensures InOrder(inodes, dir, nod, a + b)
  {
    hide IsDirectory;
    assert forall k | 0 <= k < |a| :: a[k] in a;
    assert forall k | 0 <= k < |b| :: b[k] in b;
  }

  /** The loop of pass takes the bits of a map one at a time, a word of MLEN at a time. */
  ghost predicate InStep(map0: seq<bool>, ino: nat, bits: seq<bool>) {
    |map0| == BITS && (ino % MLEN != 0 ==> |bits| == MLEN - ino % MLEN && ino + |bits| <= BITS
                                           && forall k | 0 <= k < |bits| :: bits[k] == map0[ino + k])
  }

  class Dumper {
    const inodes: seq<Inode>
    /** The date of the last dump. */
    const since: int
    const clrmap: array<bool>
    const dirmap: array<bool>
    const nodmap: array<bool>
    var nsubdir: nat
    var dadded: nat
    var nadded: nat
    var tape: seq<int>

    constructor (inodes: seq<Inode>, since: int)
      requires Volume(inodes)
      ensures Shape() && this.inodes == inodes && this.since == since && tape == []
      ensures fresh(clrmap) && fresh(dirmap) && fresh(nodmap)
      ensures forall i | 0 <= i < BITS :: !clrmap[i] && !dirmap[i] && !nodmap[i]
    {
      this.inodes, this.since := inodes, since;
      clrmap, dirmap, nodmap := new bool[BITS](_ => false), new bool[BITS](_ => false), new bool[BITS](_ => false);
      nsubdir, dadded, nadded, tape := 0, 0, 0, [];
    }

    ghost predicate Shape() {
      && Volume(inodes) && clrmap.Length == dirmap.Length == nodmap.Length == BITS
      && clrmap != dirmap && clrmap != nodmap && dirmap != nodmap
    }

    /** The bit of the next inode, number ino + 1. */
    static method Next(map0: array<bool>, ino: nat, was: seq<bool>) returns (bit: bool, bits: seq<bool>)
      requires map0.Length == BITS && ino < BITS && InStep(map0[..], ino, was)
      ensures bit == map0[ino] && InStep(map0[..], ino + 1, bits)
    {
      bits := was;
      if ino % MLEN == 0 {
        bits := map0[ino..ino + MLEN];
      }
      bit, bits := bits[0], bits[1..];
    }

    method Mark(ino: nat)
      requires Shape() && 1 <= ino <= |inodes|
      modifies clrmap, dirmap, nodmap
      ensures clrmap[..] == old(clrmap[..])[ino - 1 := old(clrmap[ino - 1]) || inodes[ino - 1].kind != Free]
      ensures dirmap[..] == old(dirmap[..])[ino - 1 := old(dirmap[ino - 1]) || inodes[ino - 1].kind == Directory]
      ensures nodmap[..] == old(nodmap[..])[ino - 1 := old(nodmap[ino - 1]) || Changed(inodes[ino - 1], since)]
    {
      var ip := inodes[ino - 1];
      if ip.kind == Free {
        return;
      }
      clrmap[ino - 1] := true;
      if ip.kind == Directory {
        dirmap[ino - 1] := true;
      }
      if ip.mtime >= since || ip.ctime >= since {
        nodmap[ino - 1] := true;
      }
    }

    /** Phase I. */
    method PassMark()
      requires Shape() && forall i | 0 <= i < BITS :: !clrmap[i] && !dirmap[i] && !nodmap[i]
      modifies clrmap, dirmap, nodmap
      ensures Sound(inodes, since, BitSet(dirmap[..]), BitSet(nodmap[..]))
      ensures forall i | 0 <= i < BITS :: clrmap[i] <==> i < |inodes| && inodes[i].kind != Free
      ensures forall i | 0 <= i < BITS :: dirmap[i] <==> i < |inodes| && inodes[i].kind == Directory
      ensures forall i | 0 <= i < BITS :: nodmap[i] <==> i < |inodes| && Changed(inodes[i], since)
    {
      var ino := 0;
      while ino < |inodes|
        invariant 0 <= ino <= |inodes|
        invariant forall i | 0 <= i < BITS :: clrmap[i] <==> i < ino && inodes[i].kind != Free
        invariant forall i | 0 <= i < BITS :: dirmap[i] <==> i < ino && inodes[i].kind == Directory
        invariant forall i | 0 <= i < BITS :: nodmap[i] <==> i < ino && Changed(inodes[i], since)
      {
        ghost var c, d, n := clrmap[..], dirmap[..], nodmap[..];
        ino := ino + 1;
        Mark(ino);
        assert forall i | 0 <= i < BITS :: clrmap[i] == clrmap[..][i] && dirmap[i] == dirmap[..][i] && nodmap[i] == nodmap[..][i];
      }
      MarkedSound(inodes, since, dirmap[..], nodmap[..]);
    }

    /** Looks through the directory for an entry that is to be dumped, and counts its subdirectories up to there. */
    method DSrch(i: nat)
      requires Shape() && i < |inodes|
      modifies this`nsubdir, this`dadded
      ensures dadded != 0 ==> old(dadded) != 0 || exists e :: Names(inodes, i, e) && e in BitSet(nodmap[..])
      ensures dadded == 0 ==> forall e | Names(inodes, i, e) :: e !in BitSet(nodmap[..])
      ensures dadded == 0 && nsubdir == 0 ==> forall e | Names(inodes, i, e) :: e !in BitSet(dirmap[..])
      ensures dadded == 0 && nsubdir > 0 ==> old(nsubdir) > 0 || exists e :: Names(inodes, i, e) && e in BitSet(dirmap[..])
    {
      if dadded != 0 {
        return;
      }
      ghost var dir, nod := BitSet(dirmap[..]), BitSet(nodmap[..]);
      var entries := inodes[i].entries;
      var k := 0;
      while k < |entries|
        invariant 0 <= k <= |entries| && dadded == 0
        invariant forall m, e | 0 <= m < k && IsEntry(entries[m], e) :: e !in nod
        invariant nsubdir == 0 ==> forall m, e | 0 <= m < k && IsEntry(entries[m], e) :: e !in dir
        invariant nsubdir > 0 ==> old(nsubdir) > 0 || exists e :: Names(inodes, i, e) && e in dir
      {
        var e := entries[k];
        if e.ino != 0 && !IsDot(e.name) {
          assert IsEntry(e, e.ino - 1);
          if nodmap[e.ino - 1] {
            dadded := dadded + 1;
            assert Names(inodes, i, e.ino - 1);
            return;
          }
          if dirmap[e.ino - 1] {
            assert Names(inodes, i, e.ino - 1);
            nsubdir := nsubdir + 1;
          }
        }
        k := k + 1;
      }
    }

    /** Adds a directory with something in it to be dumped; prunes one that can never be added. */
    method Add(ino: nat)
      requires Shape() && 1 <= ino <= |inodes| && dirmap[ino - 1]
      requires Sound(inodes, since, BitSet(dirmap[..]), BitSet(nodmap[..]))
      modifies this`nsubdir, this`dadded, this`nadded, dirmap, nodmap
      ensures Sound(inodes, since, BitSet(dirmap[..]), BitSet(nodmap[..]))
      ensures BitSet(dirmap[..]) <= BitSet(old(dirmap[..]))
      ensures forall i | 0 <= i < BITS && i != ino - 1 :: dirmap[i] == old(dirmap[i])
      ensures nadded == old(nadded) || nadded == old(nadded) + 1
      ensures nadded == old(nadded) ==> nodmap[..] == old(nodmap[..])
      ensures nadded == old(nadded) ==> nodmap[ino - 1] || Barren(inodes, ino - 1, BitSet(nodmap[..]))
      ensures nadded != old(nadded) ==> BitSet(old(nodmap[..])) < BitSet(nodmap[..])
      ensures BitSet(old(nodmap[..])) <= BitSet(nodmap[..])
      ensures dirmap[ino - 1] && !nodmap[ino - 1] ==> exists e :: Names(inodes, ino - 1, e) && e in BitSet(dirmap[..])
    {
      hide Sound, Names;
      if nodmap[ino - 1] {
        return;
      }
      nsubdir := 0;
      dadded := 0;
      ghost var i := ino - 1;
      DSrch(ino - 1);
      ghost var d, n := dirmap[..], nodmap[..];
      SoundKinds(inodes, since, BitSet(d), BitSet(n));
      if dadded != 0 {
        ghost var e :| Names(inodes, i, e) && e in BitSet(n);
        AddSound(inodes, since, BitSet(d), BitSet(n), i, e);
        nodmap[ino - 1] := true;
        SetBit(n, i);
        assert nodmap[..] == n[i := true];
        nadded := nadded + 1;
      }
      if nsubdir == 0 {
        if !nodmap[ino - 1] {
          PruneSound(inodes, since, BitSet(d), BitSet(n), i);
          dirmap[ino - 1] := false;
          ClearBit(d, i);
          assert dirmap[..] == d[i := false];
        }
      }
    }

    /** One round of phase II. */
    method PassAdd()
      requires Shape() && Sound(inodes, since, BitSet(dirmap[..]), BitSet(nodmap[..])) && nadded == 0
      modifies this`nsubdir, this`dadded, this`nadded, dirmap, nodmap
      ensures Sound(inodes, since, BitSet(dirmap[..]), BitSet(nodmap[..]))
      ensures nadded == 0 ==> nodmap[..] == old(nodmap[..])
      ensures nadded == 0 ==> Settled(inodes, BitSet(dirmap[..]), BitSet(nodmap[..]), |inodes|)
      ensures nadded != 0 ==> BitSet(old(nodmap[..])) < BitSet(nodmap[..])
      ensures Wanted(inodes, BitSet(old(dirmap[..])), BitSet(dirmap[..]), BitSet(nodmap[..]), |inodes|)
    {
      hide Sound, Names, InStep, Barren, Wanted;
      ghost var start := BitSet(dirmap[..]);
      NothingWanted(inodes, start, BitSet(nodmap[..]));
      var ino, bits: seq<bool> := 0, [];
      NoBits(dirmap[..], bits);
      while ino < |inodes|
        invariant 0 <= ino <= |inodes| && InStep(dirmap[..], ino, bits)
        invariant Sound(inodes, since, BitSet(dirmap[..]), BitSet(nodmap[..]))
        invariant nadded == 0 ==> nodmap[..] == old(nodmap[..])
        invariant nadded == 0 ==> Settled(inodes, BitSet(dirmap[..]), BitSet(nodmap[..]), ino)
        invariant nadded != 0 ==> BitSet(old(nodmap[..])) < BitSet(nodmap[..])
        invariant Wanted(inodes, start, BitSet(dirmap[..]), BitSet(nodmap[..]), ino)
      {
        var bit;
        bit, bits := Next(dirmap, ino, bits);
        ino := ino + 1;
        ghost var d, n := dirmap[..], nodmap[..];
        if bit {
          Add(ino);
          StillInStep(d, dirmap[..], ino, bits);
        }
        WantedNext(inodes, start, d, n, dirmap[..], nodmap[..], ino - 1);
      }
    }

    /** Writes an inode to the tape. */
    method Put(ino: nat)
      requires Shape() && 1 <= ino <= |inodes|
      modifies this`tape, nodmap
      ensures tape == old(tape) + [ino - 1] && nodmap[..] == old(nodmap[..])[ino - 1 := false]
    {
      nodmap[ino - 1] := false;
      tape := tape + [ino - 1];
    }

    /** Phases III and IV: writes every inode of the map. */
    method PassDump(map0: array<bool>)
      requires Shape() && (map0 == dirmap || map0 == nodmap)
      modifies this`tape, nodmap
      ensures tape == old(tape) + Members(old(map0[..]), |inodes|)
      ensures forall i | 0 <= i < |inodes| :: nodmap[i] == (old(nodmap[i]) && !old(map0[i]))
      ensures forall i | |inodes| <= i < BITS :: nodmap[i] == old(nodmap[i])
    {
      hide InStep;
      ghost var m := map0[..];
      var ino, bits: seq<bool> := 0, [];
      NoBits(map0[..], bits);
      while ino < |inodes|
        invariant 0 <= ino <= |inodes| && InStep(map0[..], ino, bits)
        invariant tape == old(tape) + Members(m, ino)
        invariant forall i | ino <= i < BITS :: map0[i] == m[i] && nodmap[i] == old(nodmap[i])
        invariant forall i | 0 <= i < ino :: nodmap[i] == (old(nodmap[i]) && !m[i])
      {
        var bit;
        bit, bits := Next(map0, ino, bits);
        ino := ino + 1;
        if bit {
          ghost var d := map0[..];
          Put(ino);
          StillInStep(d, map0[..], ino, bits);
        }
      }
    }

    /** The whole dump. The inodes phase II settles on are the least set to be dumped, and the tape has
        them and the directories left in dirmap, each once, the directories first; last is what dirmap was
        before the last round. */
    method Run() returns (ghost last: set<int>, ghost dir: set<int>, ghost nod: set<int>)
      requires Shape() && tape == []
      requires forall i | 0 <= i < BITS :: !clrmap[i] && !dirmap[i] && !nodmap[i]
      modifies this, clrmap, dirmap, nodmap
      ensures Least(inodes, since, nod) && InOrder(inodes, dir, nod, tape)
      ensures forall i | i in dir :: IsDirectory(inodes, i)
      ensures Wanted(inodes, last, dir, nod, |inodes|) && forall i | i in last :: IsDirectory(inodes, i)
      ensures forall i | 0 <= i < BITS :: clrmap[i] <==> i < |inodes| && inodes[i].kind != Free
    {
      hide Sound, Least, InOrder, Members, Names, Wanted;
      ghost var everything := BitSet(seq(BITS, _ => true));
      PassMark();
      last := BitSet(dirmap[..]);
      SoundKinds(inodes, since, last, BitSet(nodmap[..]));
      nadded := 1;
      while nadded != 0
        invariant Sound(inodes, since, BitSet(dirmap[..]), BitSet(nodmap[..])) && tape == []
        invariant nadded == 0 ==> Settled(inodes, BitSet(dirmap[..]), BitSet(nodmap[..]), |inodes|)
        invariant forall i | i in last :: IsDirectory(inodes, i)
        invariant nadded == 0 ==> Wanted(inodes, last, BitSet(dirmap[..]), BitSet(nodmap[..]), |inodes|)
        invariant forall i | 0 <= i < BITS :: clrmap[i] <==> i < |inodes| && inodes[i].kind != Free
        modifies this`nsubdir, this`dadded, this`nadded, dirmap, nodmap
        decreases everything - BitSet(nodmap[..]), nadded
      {
        ghost var before := BitSet(nodmap[..]);
        last := BitSet(dirmap[..]);
        SoundKinds(inodes, since, last, before);
        nadded := 0;
        PassAdd();
        FewerLeft(before, nodmap[..], everything);
      }
      ghost var d, n := dirmap[..], nodmap[..];
      dir, nod := BitSet(d), BitSet(n);
      SettledIsLeast(inodes, since, dir, nod);
      TapeInOrder(inodes, since, d, n);
      SoundKinds(inodes, since, dir, nod);
      PassDump(dirmap);
      ghost var rest := nodmap[..];
      PassDump(nodmap);
      assert forall i | 0 <= i < |inodes| :: rest[i] == (n[i] && !d[i]);
      MembersAgree(rest, Minus(n, d), |inodes|);
      assert tape == Members(d, |inodes|) + Members(Minus(n, d), |inodes|);
    }
  }

  /** Below bound, no directory of dir that is not in nod names anything in nod. */
  ghost predicate Settled(inodes: seq<Inode>, dir: set<int>, nod: set<int>, bound: nat)
    requires bound <= |inodes|
  {
    forall i | 0 <= i < bound && i in dir && i !in nod :: Barren(inodes, i, nod)
  }

  /** A directory below bound that is kept without being in nod names a directory that is kept, or one with a
      greater number that was still kept when the round began. */
  ghost predicate Wanted(inodes: seq<Inode>, start: set<int>, dir: set<int>, nod: set<int>, bound: nat)
    requires bound <= |inodes|
  {
    && dir <= start
    && forall i | 0 <= i < bound && i in dir && i !in nod ::
         exists e :: Names(inodes, i, e) && (e in dir || (e > i && e in start))
  }

  lemma NothingWanted(inodes: seq<Inode>, dir: set<int>, nod: set<int>)
    ensures Wanted(inodes, dir, dir, nod, 0)
  {
  }

  lemma WantedNext(inodes: seq<Inode>, start: set<int>, d: seq<bool>, n: seq<bool>, d': seq<bool>, n': seq<bool>, i: nat)
    requires i < |inodes| <= |d| && |d| == |d'| == |n| == |n'| && Wanted(inodes, start, BitSet(d), BitSet(n), i)
    requires forall k | 0 <= k < |d| && k != i :: d'[k] == d[k]
    requires BitSet(d') <= BitSet(d) && BitSet(n) <= BitSet(n')
    requires i in BitSet(d') && i !in BitSet(n') ==> exists e :: Names(inodes, i, e) && e in BitSet(d')
    ensures Wanted(inodes, start, BitSet(d'), BitSet(n'), i + 1)
  {
    hide Names;
    forall k | 0 <= k < i + 1 && k in BitSet(d') && k !in BitSet(n')
      ensures exists e :: Names(inodes, k, e) && (e in BitSet(d') || (e > k && e in start))
    {
      if k < i {
        var e :| Names(inodes, k, e) && (e in BitSet(d) || (e > k && e in start));
        assert e in BitSet(d) && e != i ==> e in BitSet(d');
      }
    }
  }

  lemma SettledIsLeast(inodes: seq<Inode>, since: int, dir: set<int>, nod: set<int>)
    requires Sound(inodes, since, dir, nod) && Settled(inodes, dir, nod, |inodes|)
    ensures Least(inodes, since, nod)
  {
    hide Names, Changed;
    FixpointIsLeast(inodes, since, dir, nod);
  }

  lemma FewerLeft(before: set<int>, nod: seq<bool>, everything: set<int>)
    requires |nod| == BITS && everything == BitSet(seq(BITS, _ => true))
    ensures before < BitSet(nod) ==> everything - BitSet(nod) < everything - before
  {
    if before < BitSet(nod) {
      var i :| i in BitSet(nod) && i !in before;
      assert i in everything - before && i !in everything - BitSet(nod);
    }
  }

  lemma NoBits(m: seq<bool>, bits: seq<bool>)
    requires |m| == BITS
    ensures InStep(m, 0, bits)
  {
  }

  lemma StillInStep(m: seq<bool>, m': seq<bool>, ino: nat, bits: seq<bool>)
    requires InStep(m, ino, bits) && |m'| == BITS && forall i | ino <= i < BITS :: m'[i] == m[i]
    ensures InStep(m', ino, bits)
  {
  }

  lemma {:induction false} MembersAgree(a: seq<bool>, b: seq<bool>, n: nat)
    requires n <= |a| == |b| && forall i | 0 <= i < n :: a[i] == b[i]
    ensures Members(a, n) == Members(b, n)
  {
    if n > 0 {
      MembersAgree(a, b, n - 1);
    }
  }

  /** Directory i names nothing in nod. */
  ghost predicate Barren(inodes: seq<Inode>, i: nat, nod: set<int>)
    requires i < |inodes|
  {
    forall e | Names(inodes, i, e) :: e !in nod
  }

  lemma SetBit(m: seq<bool>, i: nat)
    requires i < |m|
    ensures BitSet(m[i := true]) == BitSet(m) + {i}
  {
  }

  lemma ClearBit(m: seq<bool>, i: nat)
    requires i < |m|
    ensures BitSet(m[i := false]) == BitSet(m) - {i}
  {
  }

  lemma MarkedSound(inodes: seq<Inode>, since: int, dir: seq<bool>, nod: seq<bool>)
    requires |inodes| <= |dir| == |nod|
    requires forall i | 0 <= i < |dir| :: dir[i] <==> i < |inodes| && inodes[i].kind == Directory
    requires forall i | 0 <= i < |dir| :: nod[i] <==> i < |inodes| && Changed(inodes[i], since)
    ensures Sound(inodes, since, BitSet(dir), BitSet(nod))
  {
    hide Names, Changed;
  }
}
