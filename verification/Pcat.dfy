/** The program pcat: its tables, filled from the head of the packed file, and the decoding loop. */
module Pcat {
  import opened Basics
  import opened BitStrings
  import opened Decoding
  import opened Unpack

  lemma {:induction false} TotalPrefix(s: seq<nat>, i: nat)
    requires i <= |s|
    ensures Total(s[..i]) <= Total(s)
    ensures i == 0 ==> Total(s[..i]) == 0
    ensures i < |s| ==> Total(s[..i + 1]) == Total(s[..i]) + s[i]
    decreases |s| - i
  {
    if i < |s| {
      TotalPrefix(s, i + 1);
      assert s[..i + 1][..i] == s[..i];
    } else {
      assert s[..i] == s;
    }
  }

  lemma {:induction false} OffsetIsTotal(s: seq<byte>, i: nat)
    requires 1 <= i <= |s|
    ensures |StoredLeaves(s)| == |s|
    ensures Offset(StoredLeaves(s), i) == Total(s[..i - 1])
  {
    if i > 1 {
      OffsetIsTotal(s, i - 1);
      TotalPrefix(s, i - 2);
    }
  }

  lemma SliceGrows(s: seq<byte>, i: nat, j: nat)
    requires i <= j < |s|
    ensures s[i..j + 1] == s[i..j] + [s[j]]
  {
  }

  lemma InnerNext(leaves: seq<nat>, i: nat)
    ensures InnerOf(leaves, i) == if i >= |leaves| then 0 else (InnerOf(leaves, i + 1) + leaves[i]) / 2
  {
  }

  class Unpacker {
    var origsize: nat
    var maxlev: nat
    var eof: nat
    const intnodes: array<nat>
    const tree: array<nat>
    const characters: array<byte>

    constructor ()
      ensures fresh(intnodes) && fresh(tree) && fresh(characters) && Shape()
    {
      origsize, maxlev, eof := 0, 0, 0;
      intnodes, tree, characters := new nat[25], new nat[25], new byte[256];
    }

    ghost predicate Shape() {
      && intnodes.Length == tree.Length == 25 && characters.Length == 256
      && intnodes != tree && intnodes as object != characters && tree as object != characters
    }

    /** The tables hold the dictionary d. */
    ghost predicate Holds(d: Dict)
      requires Shape()
      reads this, intnodes, tree, characters
    {
      && maxlev == |d.leaves| <= 24 && origsize == d.origsize
      && eof == |d.characters| <= 256 && characters[..eof] == d.characters
      && forall i | 1 <= i <= maxlev ::
           intnodes[i] == InnerOf(d.leaves, i) && tree[i] == Offset(d.leaves, i)
    }

    method StoreCounts(file: seq<byte>, ghost s: seq<byte>)
      requires Shape() && |s| == maxlev <= 24 && |file| >= 7 + maxlev && s == file[7..7 + maxlev]
      modifies intnodes
      ensures forall i | 1 <= i <= maxlev :: intnodes[i] == s[i - 1]
    {
      var inp, i := 7, 1;
      while i <= maxlev
        invariant 1 <= i <= maxlev + 1 && inp == 6 + i
        invariant forall k | 1 <= k < i :: intnodes[k] == s[k - 1]
      {
        intnodes[i] := file[inp];
        i, inp := i + 1, inp + 1;
      }
    }

    /** Reads the c characters of a level; false if there are too many characters or too few bytes. */
    method ReadLevel(file: seq<byte>, from: nat, count: nat) returns (ok: bool, inp: nat)
      requires Shape() && eof <= 255 && eof <= from <= |file| && characters[..eof] == file[from - eof..from]
      modifies this`eof, characters
      ensures ok <==> old(eof) + count <= 255 && from + count <= |file|
      ensures ok ==> eof == old(eof) + count && inp == from + count && characters[..eof] == file[inp - eof..inp]
    {
      ok, inp := true, from;
      ghost var start := from - eof;
      var c := count;
      while c > 0
        invariant 0 <= c <= count && eof == old(eof) + count - c <= 255 && inp == start + eof <= |file|
        invariant characters[..eof] == file[start..inp]
      {
        if eof >= 255 || inp >= |file| {
          return false, inp;
        }
        characters[eof] := file[inp];
        eof, inp, c := eof + 1, inp + 1, c - 1;
      }
    }

    /** Stores the start of each level and the characters of all levels but the last one of the file;
        false if there are too many characters or too few bytes. */
    method FillLevels(file: seq<byte>, ghost s: seq<byte>) returns (ok: bool, inp: nat)
      requires Shape() && |s| == maxlev <= 24 && |file| >= 7 + maxlev
      requires forall i | 1 <= i <= maxlev :: intnodes[i] == s[i - 1]
      modifies this`eof, tree, characters
      ensures ok <==> Total(s) <= 255 && |file| >= 7 + maxlev + Total(s)
      ensures ok ==> forall i | 1 <= i <= maxlev :: tree[i] == Total(s[..i - 1])
      ensures ok ==> eof == Total(s) && inp == 7 + maxlev + eof && characters[..eof] == file[7 + maxlev..inp]
    {
      hide Total;
      TotalPrefix(s, 0);
      var start := 7 + maxlev;
      ok, inp := true, start;
      var i := 1;
      eof := 0;
      while i <= maxlev
        invariant 1 <= i <= maxlev + 1
        invariant eof == Total(s[..i - 1]) <= 255 && inp == start + eof <= |file|
        invariant forall k | 1 <= k < i :: tree[k] == Total(s[..k - 1])
        invariant characters[..eof] == file[start..inp]
      {
        TotalPrefix(s, i - 1);
        TotalPrefix(s, i);
        tree[i] := eof;
        ok, inp := ReadLevel(file, inp, intnodes[i]);
        if !ok {
          return false, inp;
        }
        i := i + 1;
      }
      assert s[..maxlev] == s;
      return true, inp;
    }

    method Store(c: byte)
      requires Shape() && eof < 256
      modifies this`eof, characters
      ensures eof == old(eof) + 1 && characters[..eof] == old(characters[..eof]) + [c]
    {
      characters[eof] := c;
      eof := eof + 1;
    }

    /** Stores the level counts s, the start of each level and the characters of all levels; false if
        there are too many characters or too few bytes. */
    method FillTree(file: seq<byte>, ghost s: seq<byte>) returns (ok: bool)
      requires Shape() && |s| == maxlev <= 24 && |file| >= 7 + maxlev && s == file[7..7 + maxlev]
      modifies this`eof, intnodes, tree, characters
      ensures ok <==> Total(s) <= 255 && |file| >= 8 + maxlev + Total(s)
      ensures ok ==> forall i | 1 <= i <= maxlev :: tree[i] == Total(s[..i - 1]) && intnodes[i] == s[i - 1]
      ensures ok ==> eof == Total(s) + 1 && characters[..eof] == file[7 + maxlev..8 + maxlev + Total(s)]
    {
      hide Total;
      StoreCounts(file, s);
      var inp;
      ok, inp := FillLevels(file, s);
      if !ok || inp >= |file| {
        return false;
      }
      SliceGrows(file, 7 + maxlev, inp);
      Store(file[inp]);
      return true;
    }

    /** Turns the number of leaves on each level into the number of its internal nodes. */
    method CountInner(ghost leaves: seq<nat>)
      requires Shape() && maxlev == |leaves| <= 24
      requires forall i | 1 <= i <= maxlev :: intnodes[i] == leaves[i - 1]
      modifies intnodes
      ensures forall i | 1 <= i <= maxlev :: intnodes[i] == InnerOf(leaves, i)
    {
      hide InnerOf;
      var nchildren, i := 0, maxlev;
      while i >= 1
        invariant 0 <= i <= maxlev
        invariant nchildren == if i == maxlev then 0 else InnerOf(leaves, i + 1) + leaves[i]
        invariant forall k | 1 <= k <= i :: intnodes[k] == leaves[k - 1]
        invariant forall k | i < k <= maxlev :: intnodes[k] == InnerOf(leaves, k)
      {
        InnerNext(leaves, i);
        var c := intnodes[i];
        nchildren := nchildren / 2;
        intnodes[i] := nchildren;
        nchildren := nchildren + c;
        i := i - 1;
      }
    }

    /** Reads the dictionary; false if the file is not in packed format. */
    method GetDict(file: seq<byte>) returns (ok: bool, inp: nat)
      requires Shape()
      modifies this, intnodes, tree, characters
      ensures ok <==> ReadDict(file).Some?
      ensures ok ==> |file| >= 7 && |file| >= 7 + file[6] as nat && inp == DictSize(file) <= |file|
      ensures ok ==> Holds(ReadDict(file).value)
    {
      hide Total, Offset, InnerOf, BigEndian;
      inp := 0;
      if |file| < 7 || file[0] != 31 || file[1] != 30 {
        return false, 0;
      }
      origsize, inp := 0, 2;
      var i := 0;
      while i < 4
        invariant 0 <= i <= 4 && inp == 2 + i
        invariant i == 0 ==> origsize == 0
        invariant i == 1 ==> origsize == file[2]
        invariant i == 2 ==> origsize == file[2] as nat * 256 + file[3] as nat
        invariant i == 3 ==> origsize == (file[2] as nat * 256 + file[3] as nat) * 256 + file[4] as nat
        invariant i == 4 ==> origsize == BigEndian(file[2..6])
        modifies this`origsize
      {
        BigEndianIs(file[2..6]);
        origsize := origsize * 256 + file[inp] as nat;
        inp, i := inp + 1, i + 1;
      }
      maxlev := file[6] as nat;
      if maxlev > 24 || |file| < 7 + maxlev {
        return false, 0;
      }
      ghost var s := file[7..7 + maxlev];
      ok := FillTree(file, s);
      if !ok {
        return false, 0;
      }
      intnodes[maxlev] := intnodes[maxlev] + 2;
      forall k | 1 <= k <= maxlev
        ensures tree[k] == Offset(StoredLeaves(s), k)
      {
        OffsetIsTotal(s, k);
      }
      CountInner(StoredLeaves(s));
      inp := 7 + maxlev + eof;
    }

    /** Decodes the bytes that follow the dictionary. */
    method DecodeLoop(file: seq<byte>, start: nat, ghost d: Dict) returns (r: Outcome)
      requires Shape() && Holds(d) && start <= |file|
      ensures r == Decode(d, ByteBits(file[start..]), 1, 0, [])
      ensures forall x :: r == Unpacked(x) <==> DecodesTo(d, ByteBits(file[start..]), x)
    {
      hide InnerOf, Offset, ByteBits, Bits, Shr, DecodesTo;
      forall x {
        DecodesExactly(d, ByteBits(file[start..]), x);
      }
      var inp, lev, i, out := start, 1, 0, [];
      ghost var goal := Decode(d, ByteBits(file[start..]), 1, 0, []);
      while true
        invariant start <= inp <= |file| && lev >= 1
        invariant goal == Decode(d, ByteBits(file[inp..]), lev, i, out)
        decreases |file| - inp
      {
        if inp >= |file| {
          assert file[inp..] == [];
          return UnpackError;
        }
        var c: nat := file[inp];
        ByteBitsFirst(file[inp..]);
        assert file[inp..][1..] == file[inp + 1..];
        inp := inp + 1;
        ghost var rest := ByteBits(file[inp..]);
        var bitsleft := 8;
        assert Bits(c, 8)[..8] == Bits(c, 8);
        while bitsleft > 0
          invariant 0 <= bitsleft <= 8 && lev >= 1
          invariant goal == Decode(d, Bits(c, 8)[..bitsleft] + rest, lev, i, out)
        {
          ghost var bits := Bits(c, 8)[..bitsleft] + rest;
          DoubledBits(c);
          assert bits[1..] == Bits(2 * c, 8)[..bitsleft - 1] + rest;
          bitsleft := bitsleft - 1;
          i := 2 * i;
          if Shr(c, 7) % 2 == 1 {
            i := i + 1;
          }
          c := 2 * c;
          if lev > maxlev {
            return Undefined;
          }
          if i >= intnodes[lev] {
            var p := tree[lev] + i - intnodes[lev];
            if p == eof {
              return if (origsize - |out|) % 0x1_0000_0000 != 0 then UnpackError else Unpacked(out);
            }
            if p > eof {
              return Undefined;
            }
            out := out + [characters[p]];
            lev, i := 1, 0;
          } else {
            lev := lev + 1;
          }
        }
        assert Bits(c, 8)[..0] + rest == rest;
      }
    }

    /** What pcat makes of a file. */
    method Run(file: seq<byte>) returns (r: Outcome)
      requires Shape()
      modifies this, intnodes, tree, characters
      ensures r == UnpackFile(file)
      ensures r == NotPacked <==> !exists q, s, t :: HasHeader(file, q, s, t)
      ensures forall x :: r == Unpacked(x) <==> Unpacks(file, x)
    {
      hide Unpacks, HasHeader;
      NotPackedExactly(file);
      forall x {
        UnpacksExactly(file, x);
      }
      var ok, inp := GetDict(file);
      if !ok {
        return NotPacked;
      }
      r := DecodeLoop(file, inp, ReadDict(file).value);
    }
  }
}
