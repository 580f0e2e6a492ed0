/** What pcat makes of any file, described without its loops: a header, the code words of a text and
    the code word of END. */
module Decoding {
  import opened Basics
  import opened BitStrings
  import opened PackCode
  import opened Unpack

  /** The node a bit string leads to, counted from the left of its level. */
  function Node(w: seq<bool>): nat {
    if w == [] then 0 else 2 * Node(w[..|w| - 1]) + if w[|w| - 1] then 1 else 0
  }

  ghost predicate IsInner(d: Dict, w: seq<bool>) {
    Node(w) < InnerOf(d.leaves, |w|)
  }

  /** No node on the way of w is a leaf. */
  ghost predicate Inside(d: Dict, w: seq<bool>) {
    forall j | 1 <= j <= |w| :: IsInner(d, w[..j])
  }

  /** The last node on the way of w, and only that one, is a leaf. */
  ghost predicate CodeWord(d: Dict, w: seq<bool>) {
    1 <= |w| <= |d.leaves| && Inside(d, w[..|w| - 1]) && !IsInner(d, w)
  }

  /** The place among the characters of the leaf that w leads to. */
  function Place(d: Dict, w: seq<bool>): int
    requires 1 <= |w| <= |d.leaves|
  {
    Offset(d.leaves, |w|) + Node(w) - InnerOf(d.leaves, |w|)
  }

  ghost predicate Leads(d: Dict, w: seq<bool>, p: int) {
    CodeWord(d, w) && Place(d, w) == p
  }

  ghost predicate Means(d: Dict, w: seq<bool>, c: byte) {
    CodeWord(d, w) && Place(d, w) < |d.characters| && d.characters[Place(d, w)] == c
  }

  function Joined(words: seq<seq<bool>>): seq<bool> {
    if words == [] then [] else words[0] + Joined(words[1..])
  }

  ghost predicate Spells(d: Dict, words: seq<seq<bool>>, x: seq<byte>) {
    |words| == |x| && forall k | 0 <= k < |x| :: Means(d, words[k], x[k])
  }

  /** The bits are code words that stand for x, and then t. */
  ghost predicate Begins(d: Dict, bits: seq<bool>, x: seq<byte>, t: seq<bool>) {
    exists words | Spells(d, words, x) :: bits == Joined(words) + t
  }

  /** t starts with the code word of END. */
  ghost predicate HasEnd(d: Dict, t: seq<bool>) {
    exists k | 0 <= k <= |t| :: Leads(d, t[..k], |d.characters|)
  }

  /** t starts with a code word that stands for nothing, or there are bits and no levels. */
  ghost predicate HasStray(d: Dict, t: seq<bool>) {
    || (d.leaves == [] && t != [])
    || exists k, p | 0 <= k <= |t| && p > |d.characters| :: Leads(d, t[..k], p)
  }

  predicate SizeAgrees(d: Dict, x: seq<byte>) {
    (d.origsize - |x|) % 0x1_0000_0000 == 0
  }

  // ---- Reading a word

  lemma NodeStep(w: seq<bool>, j: nat)
    requires j < |w|
    ensures Node(w[..j + 1]) == 2 * Node(w[..j]) + if w[j] then 1 else 0
  {
    assert w[..j + 1][..j] == w[..j];
  }

  /** What follows once the leaf at place p has been reached. */
  ghost function AfterPlace(d: Dict, p: nat, t: seq<bool>, out: seq<byte>): Outcome {
    if p < |d.characters| then Decode(d, t, 1, 0, out + [d.characters[p]])
    else if p > |d.characters| then Undefined
    else if SizeAgrees(d, out) then Unpacked(out) else UnpackError
  }

  lemma ReadLeaf(d: Dict, b: bool, t: seq<bool>, lev: nat, i: nat, out: seq<byte>)
    requires 1 <= lev <= |d.leaves|
    requires 2 * i + (if b then 1 else 0) >= InnerOf(d.leaves, lev)
    ensures Decode(d, [b] + t, lev, i, out) ==
            AfterPlace(d, Offset(d.leaves, lev) + 2 * i + (if b then 1 else 0) - InnerOf(d.leaves, lev), t, out)
  {
    hide InnerOf, Offset;
    assert ([b] + t)[1..] == t;
  }

  lemma {:induction false} ReadFrom(d: Dict, w: seq<bool>, j: nat, t: seq<bool>, out: seq<byte>)
    requires CodeWord(d, w) && j < |w|
    ensures Place(d, w) >= 0
    ensures Decode(d, w[j..] + t, j + 1, Node(w[..j]), out) == AfterPlace(d, Place(d, w), t, out)
    decreases |w| - j
  {
    hide Decode, AfterPlace, InnerOf, Offset, Node;
    NodeStep(w, j);
    if j + 1 == |w| {
      assert w[..j + 1] == w;
      assert w[j..] == [w[j]];
      ReadLeaf(d, w[j], t, j + 1, Node(w[..j]), out);
    } else {
      ReadFrom(d, w, j + 1, t, out);
      assert IsInner(d, w[..|w| - 1][..j + 1]);
      assert w[..|w| - 1][..j + 1] == w[..j + 1];
      InnerBit(d, w[j], w[j + 1..] + t, j + 1, Node(w[..j]), out);
      assert w[j..] + t == [w[j]] + (w[j + 1..] + t);
    }
  }

  lemma ReadWord(d: Dict, w: seq<bool>, t: seq<bool>, out: seq<byte>)
    requires CodeWord(d, w)
    ensures Place(d, w) >= 0
    ensures Decode(d, w + t, 1, 0, out) == AfterPlace(d, Place(d, w), t, out)
  {
    hide Decode, AfterPlace, CodeWord, Place;
    assert |w| >= 1 by { WordSize(d, w); }
    ReadFrom(d, w, 0, t, out);
    assert w[0..] + t == w + t;
    assert Node(w[..0]) == 0;
  }

  lemma WordSize(d: Dict, w: seq<bool>)
    requires CodeWord(d, w)
    ensures 1 <= |w| <= |d.leaves|
  {
  }

  lemma {:induction false} ReadText(d: Dict, words: seq<seq<bool>>, x: seq<byte>, t: seq<bool>, out: seq<byte>)
    requires Spells(d, words, x)
    ensures Decode(d, Joined(words) + t, 1, 0, out) == Decode(d, t, 1, 0, out + x)
  {
    hide Decode, CodeWord, Place;
    if x == [] {
      assert Joined(words) + t == t;
      assert out + x == out;
    } else {
      assert Means(d, words[0], x[0]);
      assert Spells(d, words[1..], x[1..]) by {
        forall k | 0 <= k < |x[1..]|
          ensures Means(d, words[1..][k], x[1..][k])
        {
          var m := k + 1;
          assert Means(d, words[m], x[m]);
        }
      }
      ReadText(d, words[1..], x[1..], t, out + [x[0]]);
      ReadWord(d, words[0], Joined(words[1..]) + t, out);
      assert Joined(words) + t == words[0] + (Joined(words[1..]) + t);
      assert out + [x[0]] + x[1..] == out + x;
    }
  }

  lemma {:induction false} RunsOut(d: Dict, t: seq<bool>, j: nat, out: seq<byte>)
    requires Inside(d, t) && j <= |t|
    ensures Decode(d, t[j..], j + 1, Node(t[..j]), out) == UnpackError
    decreases |t| - j
  {
    hide Decode, Node, InnerOf;
    if j == |t| {
      NoBits(d, j + 1, Node(t[..j]), out);
      assert t[j..] == [];
    } else {
      RunsOut(d, t, j + 1, out);
      NodeStep(t, j);
      assert IsInner(d, t[..j + 1]);
      InnerLevel(d, t[..j + 1]);
      InnerBit(d, t[j], t[j + 1..], j + 1, Node(t[..j]), out);
      assert t[j..] == [t[j]] + t[j + 1..];
    }
  }

  lemma NoBits(d: Dict, lev: nat, i: nat, out: seq<byte>)
    requires lev >= 1
    ensures Decode(d, [], lev, i, out) == UnpackError
  {
  }

  lemma InnerLevel(d: Dict, w: seq<bool>)
    requires IsInner(d, w)
    ensures |w| < |d.leaves|
  {
  }

  /** The outcome once the code words of the text have been read. */
  lemma ReadEnding(d: Dict, bits: seq<bool>, x: seq<byte>, t: seq<bool>)
    requires Begins(d, bits, x, t)
    ensures Inside(d, t) ==> Decode(d, bits, 1, 0, []) == UnpackError
    ensures HasEnd(d, t) ==> Decode(d, bits, 1, 0, []) == if SizeAgrees(d, x) then Unpacked(x) else UnpackError
    ensures HasStray(d, t) ==> Decode(d, bits, 1, 0, []) == Undefined
  {
    hide Inside, Spells, Decode, Node, InnerOf, Offset, SizeAgrees;
    var words :| Spells(d, words, x) && bits == Joined(words) + t;
    ReadText(d, words, x, t, []);
    assert [] + x == x;
    if Inside(d, t) {
      RunsOut(d, t, 0, x);
      assert t[0..] == t && t[..0] == [];
      NoNode();
    }
    if HasEnd(d, t) {
      var k :| 0 <= k <= |t| && Leads(d, t[..k], |d.characters|);
      ReadWord(d, t[..k], t[k..], x);
      assert t[..k] + t[k..] == t;
    }
    if d.leaves == [] && t != [] {
      NoLevel(d, t, x);
    } else if HasStray(d, t) {
      var k, p :| 0 <= k <= |t| && p > |d.characters| && Leads(d, t[..k], p);
      ReadWord(d, t[..k], t[k..], x);
      assert t[..k] + t[k..] == t;
    }
  }

  lemma NoNode()
    ensures Node([]) == 0
  {
  }

  lemma NoLevel(d: Dict, t: seq<bool>, out: seq<byte>)
    requires d.leaves == [] && t != []
    ensures Decode(d, t, 1, 0, out) == Undefined
  {
  }

  // ---- Every bit string is read in one of these ways

  lemma {:induction false} FirstWord(d: Dict, t: seq<bool>, j: nat) returns (k: nat)
    requires d.leaves != [] && j <= |t| && Inside(d, t[..j])
    ensures k <= |t|
    ensures Inside(d, t) || CodeWord(d, t[..k])
    decreases |t| - j
  {
    hide Node, InnerOf;
    if j == |t| {
      assert t[..j] == t;
      k := 0;
    } else {
      var w := t[..j + 1];
      assert w[..j] == t[..j];
      if IsInner(d, w) {
        InsideGrows(d, w);
        k := FirstWord(d, t, j + 1);
      } else {
        k := j + 1;
        if j > 0 {
          assert IsInner(d, t[..j][..j]);
          InnerLevel(d, t[..j][..j]);
        }
      }
    }
  }

  lemma InsideGrows(d: Dict, w: seq<bool>)
    requires w != [] && Inside(d, w[..|w| - 1]) && IsInner(d, w)
    ensures Inside(d, w)
  {
    hide IsInner;
    forall j | 1 <= j <= |w|
      ensures IsInner(d, w[..j])
    {
      if j == |w| {
        assert w[..j] == w;
      } else {
        assert w[..|w| - 1][..j] == w[..j];
      }
    }
  }

  lemma BeginsHere(d: Dict, bits: seq<bool>)
    ensures Begins(d, bits, [], bits)
  {
    hide Means;
    var none: seq<seq<bool>> := [];
    assert Spells(d, none, []);
    assert bits == Joined(none) + bits;
  }

  lemma BeginsAfter(d: Dict, bits: seq<bool>, k: nat, c: byte, x: seq<byte>, t: seq<bool>)
    requires k <= |bits| && Means(d, bits[..k], c) && Begins(d, bits[k..], x, t)
    ensures Begins(d, bits, [c] + x, t)
  {
    hide Means;
    var words :| Spells(d, words, x) && bits[k..] == Joined(words) + t;
    var more := [bits[..k]] + words;
    assert more[1..] == words;
    assert Spells(d, more, [c] + x);
    assert bits == bits[..k] + (Joined(words) + t);
    assert bits == Joined(more) + t;
  }

  lemma {:induction false} ReadAll(d: Dict, bits: seq<bool>) returns (x: seq<byte>, t: seq<bool>)
    ensures Begins(d, bits, x, t) && (Inside(d, t) || HasEnd(d, t) || HasStray(d, t))
    decreases |bits|
  {
    hide Begins, Inside, Node, IsInner, Place;
    BeginsHere(d, bits);
    x, t := [], bits;
    if d.leaves == [] {
      NothingInside(d);
    } else {
      NothingInside(d);
      assert bits[..0] == [];
      var k := FirstWord(d, bits, 0);
      if !Inside(d, bits) {
        ReadWord(d, bits[..k], bits[k..], []);
        var p := Place(d, bits[..k]);
        if p < |d.characters| {
          x, t := ReadAll(d, bits[k..]);
          BeginsAfter(d, bits, k, d.characters[p], x, t);
          x := [d.characters[p]] + x;
        } else {
          assert Leads(d, bits[..k], p);
        }
      }
    }
  }

  lemma NothingInside(d: Dict)
    ensures Inside(d, [])
  {
  }

  /** The bits are the code words of x and the code word of END, and the size of x agrees with the one in
      the header. */
  ghost predicate DecodesTo(d: Dict, bits: seq<bool>, x: seq<byte>) {
    SizeAgrees(d, x) && exists t :: Begins(d, bits, x, t) && HasEnd(d, t)
  }

  /** Decoding succeeds with the text x exactly then. */
  lemma DecodesExactly(d: Dict, bits: seq<bool>, x: seq<byte>)
    ensures Decode(d, bits, 1, 0, []) == Unpacked(x) <==> DecodesTo(d, bits, x)
  {
    hide Begins, Inside, HasEnd, HasStray, SizeAgrees, Decode;
    var y, t := ReadAll(d, bits);
    ReadEnding(d, bits, y, t);
    if DecodesTo(d, bits, x) {
      var u :| Begins(d, bits, x, u) && HasEnd(d, u);
      ReadEnding(d, bits, x, u);
    }
  }

  /** It fails exactly when the bits run out inside the word after the text, or the size is another
      one than that in the header. */
  lemma FailsExactly(d: Dict, bits: seq<bool>)
    ensures Decode(d, bits, 1, 0, []) == UnpackError <==>
            exists x, t :: Begins(d, bits, x, t) && (Inside(d, t) || (HasEnd(d, t) && !SizeAgrees(d, x)))
  {
    hide Begins, Inside, HasEnd, HasStray, SizeAgrees, Decode;
    var y, t := ReadAll(d, bits);
    ReadEnding(d, bits, y, t);
    if exists x, t :: Begins(d, bits, x, t) && (Inside(d, t) || (HasEnd(d, t) && !SizeAgrees(d, x))) {
      var x, u :| Begins(d, bits, x, u) && (Inside(d, u) || (HasEnd(d, u) && !SizeAgrees(d, x)));
      ReadEnding(d, bits, x, u);
    }
  }

  /** Otherwise it reads outside its tables: after the text, the bits lead past the characters, or
      the code has no levels. */
  lemma UndefinedExactly(d: Dict, bits: seq<bool>)
    ensures Decode(d, bits, 1, 0, []) == Undefined <==> exists x, t :: Begins(d, bits, x, t) && HasStray(d, t)
  {
    hide Begins, Inside, HasEnd, HasStray, SizeAgrees, Decode;
    var y, t := ReadAll(d, bits);
    ReadEnding(d, bits, y, t);
    if exists x, t :: Begins(d, bits, x, t) && HasStray(d, t) {
      var x, u :| Begins(d, bits, x, u) && HasStray(d, u);
      ReadEnding(d, bits, x, u);
    }
  }

  // ---- Whole files

  /** The file starts with a header: two marks, the size q, the number of levels, the count of each
      level in s and the characters t. */
  ghost predicate HasHeader(file: seq<byte>, q: seq<byte>, s: seq<byte>, t: seq<byte>) {
    |q| == 4 && |s| <= MAXLEV && Total(s) + 1 == |t| <= 256 && Head(q, |s|) + s + t <= file
  }

  /** The file is a header for the dictionary d, followed by the given bits. */
  ghost predicate Consists(file: seq<byte>, d: Dict, bits: seq<bool>) {
    exists q, s, t | HasHeader(file, q, s, t) ::
      d == Dict(BigEndian(q), StoredLeaves(s), t) && HeaderSize(s, t) <= |file|
      && bits == ByteBits(file[HeaderSize(s, t)..])
  }

  function HeaderSize(s: seq<byte>, t: seq<byte>): nat {
    7 + |s| + |t|
  }

  /** The file has the code words of x and of END, and the size of x in its header. */
  ghost predicate Unpacks(file: seq<byte>, x: seq<byte>) {
    exists d, bits :: Consists(file, d, bits) && DecodesTo(d, bits, x)
  }

  lemma HeaderFound(file: seq<byte>) returns (q: seq<byte>, s: seq<byte>, t: seq<byte>)
    requires ReadDict(file).Some?
    ensures HasHeader(file, q, s, t)
  {
    hide Total, StoredLeaves, BigEndian;
    var m := file[6];
    q, s, t := file[2..6], file[7..7 + m as nat], file[7 + m as nat..DictSize(file)];
    assert Head(q, m) == file[..7];
    assert file[..7] + s + t == file[..DictSize(file)];
  }

  lemma HeaderUsed(file: seq<byte>, q: seq<byte>, s: seq<byte>, t: seq<byte>)
    requires HasHeader(file, q, s, t)
    ensures HeaderSize(s, t) <= |file| && ReadDict(file) == Some(Dict(BigEndian(q), StoredLeaves(s), t))
    ensures UnpackFile(file) == Decode(ReadDict(file).value, ByteBits(file[HeaderSize(s, t)..]), 1, 0, [])
  {
    hide Total, StoredLeaves, BigEndian, Decode, ByteBits, ReadDict, DictSize;
    HeaderRead(file, q, |s|, s, t);
    HeadSize(q, |s|);
  }

  lemma ConsistsOf(file: seq<byte>, d: Dict, bits: seq<bool>)
    requires Consists(file, d, bits)
    ensures UnpackFile(file) == Decode(d, bits, 1, 0, []) && ReadDict(file).Some?
  {
    hide Total, Head, UnpackFile, Decode, ReadDict, ByteBits, StoredLeaves, BigEndian;
    var q, s, t :| HasHeader(file, q, s, t) && d == Dict(BigEndian(q), StoredLeaves(s), t)
                   && HeaderSize(s, t) <= |file| && bits == ByteBits(file[HeaderSize(s, t)..]);
    HeaderUsed(file, q, s, t);
  }

  lemma Parts(file: seq<byte>) returns (d: Dict, bits: seq<bool>)
    requires ReadDict(file).Some?
    ensures Consists(file, d, bits)
  {
    hide Total, Head, UnpackFile, Decode, ReadDict, ByteBits, StoredLeaves, BigEndian;
    var q, s, t := HeaderFound(file);
    HeaderUsed(file, q, s, t);
    d, bits := Dict(BigEndian(q), StoredLeaves(s), t), ByteBits(file[HeaderSize(s, t)..]);
  }

  /** A file is not in packed format exactly when it has no header. */
  lemma NotPackedExactly(file: seq<byte>)
    ensures UnpackFile(file) == NotPacked <==> !exists q, s, t :: HasHeader(file, q, s, t)
  {
    hide HasHeader, Decode, ReadDict, ByteBits, StoredLeaves, BigEndian;
    if ReadDict(file).Some? {
      var q, s, t := HeaderFound(file);
      HeaderUsed(file, q, s, t);
      NeverNotPacked(ReadDict(file).value, ByteBits(file[HeaderSize(s, t)..]), 1, 0, []);
    } else if exists q, s, t :: HasHeader(file, q, s, t) {
      var q, s, t :| HasHeader(file, q, s, t);
      HeaderUsed(file, q, s, t);
    }
  }

  lemma {:induction false} NeverNotPacked(d: Dict, bits: seq<bool>, lev: nat, i: nat, out: seq<byte>)
    requires lev >= 1
    ensures Decode(d, bits, lev, i, out) != NotPacked
    decreases |bits|
  {
    hide InnerOf, Offset;
    if bits != [] {
      var k := 2 * i + if bits[0] then 1 else 0;
      NeverNotPacked(d, bits[1..], lev + 1, k, out);
      forall c: byte {
        NeverNotPacked(d, bits[1..], 1, 0, out + [c]);
      }
    }
  }

  /** A file is unpacked to x exactly when it has a header, the code words of x and that of END. */
  lemma UnpacksExactly(file: seq<byte>, x: seq<byte>)
    ensures UnpackFile(file) == Unpacked(x) <==> Unpacks(file, x)
  {
    hide Consists, DecodesTo, Decode, ReadDict;
    if ReadDict(file).Some? {
      var d, bits := Parts(file);
      ConsistsOf(file, d, bits);
      DecodesExactly(d, bits, x);
    }
    if Unpacks(file, x) {
      var d, bits :| Consists(file, d, bits) && DecodesTo(d, bits, x);
      ConsistsOf(file, d, bits);
      DecodesExactly(d, bits, x);
    }
  }

  // ---- Packed files that have been cut off

  lemma {:induction false} NodeOfWord(length: Lengths, c: nat, j: nat)
    requires FullCode(length) && c <= END && 1 <= length[c] && j <= length[c]
    ensures |Word(length, c)| == length[c]
    ensures Node(Word(length, c)[..j]) == Shr(CodeValue(length, c), length[c] - j)
  {
    hide Word, CodeValue, Inner, Shr;
    if j == 0 {
      StaysInside(length, c, 0);
      WordBit(length, c, 0);
    } else {
      NodeOfWord(length, c, j - 1);
      NodeStep(Word(length, c), j - 1);
      WordBit(length, c, j - 1);
    }
  }

  /** A code word without its last bits stays inside. */
  lemma CutWord(d: Dict, length: Lengths, c: nat, m: nat)
    requires FullCode(length) && DictFor(d, length) && c <= END && m < length[c]
    ensures |Word(length, c)| == length[c] && Inside(d, Word(length, c)[..m])
  {
    hide FullCode, DictFor, Word, CodeValue, Inner, InnerOf, Shr, Node;
    NodeOfWord(length, c, 0);
    var w := Word(length, c)[..m];
    forall j | 1 <= j <= m
      ensures IsInner(d, w[..j])
    {
      assert w[..j] == Word(length, c)[..j];
      NodeOfWord(length, c, j);
      StaysInside(length, c, j);
      InnerAgrees(d, length, j);
    }
  }

  lemma CutDecode(d: Dict, length: Lengths, c: nat, m: nat, out: seq<byte>)
    requires FullCode(length) && DictFor(d, length) && c <= END && m < length[c]
    ensures |Word(length, c)| == length[c] && Decode(d, Word(length, c)[..m], 1, 0, out) == UnpackError
  {
    hide FullCode, DictFor, Word, Decode, Inside;
    CutWord(d, length, c, m);
    var t := Word(length, c)[..m];
    RunsOut(d, t, 0, out);
    assert t[0..] == t && t[..0] == [];
    NoNode();
  }

  /** Where the encoded text has been cut. */
  lemma {:induction false} CutText(length: Lengths, input: seq<byte>, m: nat) returns (j: nat, k: nat)
    requires m < |Encoded(length, input)|
    ensures j < |input| && k < |Word(length, input[j])|
    ensures Encoded(length, input)[..m] == Encoded(length, input[..j]) + Word(length, input[j])[..k]
  {
    hide Word;
    var n := |input| - 1;
    var e := Encoded(length, input[..n]);
    if m < |e| {
      j, k := CutText(length, input[..n], m);
      assert input[..n][..j] == input[..j];
    } else {
      j, k := n, m - |e|;
    }
  }

  lemma CutStream(d: Dict, length: Lengths, input: seq<byte>, m: nat)
    requires FullCode(length) && DictFor(d, length) && m < |Stream(length, input)|
    requires forall k | 0 <= k < |input| :: 1 <= length[input[k]]
    ensures Decode(d, Stream(length, input)[..m], 1, 0, []) == UnpackError
  {
    hide FullCode, DictFor, Word, Decode, Encoded;
    var e := Encoded(length, input);
    WordLength(length, END);
    if m < |e| {
      var j, k := CutText(length, input, m);
      WordLength(length, input[j]);
      DecodeText(d, length, input[..j], Word(length, input[j])[..k]);
      CutDecode(d, length, input[j], k, input[..j]);
      assert Stream(length, input)[..m] == e[..m];
    } else {
      DecodeText(d, length, input, Word(length, END)[..m - |e|]);
      CutDecode(d, length, END, m - |e|, input);
      assert Stream(length, input)[..m] == e + Word(length, END)[..m - |e|];
    }
  }

  lemma WordLength(length: Lengths, c: nat)
    requires c <= END
    ensures |Word(length, c)| == length[c]
  {
  }

  lemma {:induction false} ByteBitsPrefix(s: seq<byte>, n: nat)
    requires n <= |s|
    ensures ByteBits(s[..n]) == ByteBits(s)[..8 * n]
    decreases |s| - n
  {
    hide Bits;
    if n == |s| {
      assert s[..n] == s;
    } else {
      ByteBitsPrefix(s, n + 1);
      assert s[..n + 1][..n] == s[..n];
    }
  }

  /** No header fits into less than the one that pack has written. */
  lemma CutHeader(file: seq<byte>, input: seq<byte>, length: Lengths, n: nat)
    requires FullCode(length) && Prelude(length, |input|) <= file && n < |Prelude(length, |input|)|
    ensures UnpackFile(file[..n]) == NotPacked
  {
    hide FullCode, Prelude, HasHeader, ReadDict, DictSize, UnpackFile, DictFor;
    NotPackedExactly(file[..n]);
    if exists q, s, t :: HasHeader(file[..n], q, s, t) {
      var q, s, t :| HasHeader(file[..n], q, s, t);
      LongerFile(file, n, q, s, t);
      HeaderIsPrelude(file, input, length, q, s, t);
    }
  }

  lemma LongerFile(file: seq<byte>, n: nat, q: seq<byte>, s: seq<byte>, t: seq<byte>)
    requires n <= |file| && HasHeader(file[..n], q, s, t)
    ensures HasHeader(file, q, s, t) && HeaderSize(s, t) <= n
  {
    hide Total;
    HeadSize(q, |s|);
  }

  lemma HeaderIsPrelude(file: seq<byte>, input: seq<byte>, length: Lengths, q: seq<byte>, s: seq<byte>, t: seq<byte>)
    requires FullCode(length) && Prelude(length, |input|) <= file && HasHeader(file, q, s, t)
    ensures HeaderSize(s, t) == |Prelude(length, |input|)|
  {
    DictionaryFound(file, |input|, length);
    hide *;
    HeaderEnds(file, q, s, t);
  }

  lemma HeaderEnds(file: seq<byte>, q: seq<byte>, s: seq<byte>, t: seq<byte>)
    requires HasHeader(file, q, s, t)
    ensures |file| >= 7 && |file| >= 7 + file[6] as nat && DictSize(file) == HeaderSize(s, t)
  {
    hide Total, DictSize, ReadDict;
    HeaderRead(file, q, |s|, s, t);
  }

  lemma CutBody(body: seq<byte>, s: seq<bool>, k: nat)
    requires IsBody(body, s) && k < |body|
    ensures 8 * k < |s| && ByteBits(body[..k]) == s[..8 * k]
  {
    hide ByteBits, Zeros;
    var z := Zeros(8 * |body| - |s|);
    ByteBitsPrefix(body, k);
    assert (s + z)[..8 * k] == s[..8 * k];
  }

  lemma CutParts(file: seq<byte>, input: seq<byte>, length: Lengths, n: nat)
    requires 1 <= length[END] < 256 && IsPacked(file, input, length)
    requires |Prelude(length, |input|)| <= n < |file|
    ensures var p, s := Prelude(length, |input|), Stream(length, input);
            p <= file[..n] && 8 * (n - |p|) < |s| && ByteBits(file[..n][|p|..]) == s[..8 * (n - |p|)]
  {
    hide Prelude, Stream, IsBody, ByteBits;
    var p := |Prelude(length, |input|)|;
    CutBody(file[p..], Stream(length, input), n - p);
    assert file[..n][p..] == file[p..][..n - p];
  }

  /** No proper prefix of a packed file is unpacked. */
  lemma CutFile(file: seq<byte>, input: seq<byte>, length: Lengths, n: nat)
    requires FullCode(length) && IsPacked(file, input, length) && n < |file|
    requires forall k | 0 <= k < |input| :: 1 <= length[input[k]]
    ensures UnpackFile(file[..n]) == if n < |Prelude(length, |input|)| then NotPacked else UnpackError
  {
    assert 1 <= length[END] <= MAXLEV;
    hide FullCode, Prelude, Stream, IsBody, ReadDict, DictSize, DictFor, Decode, ByteBits;
    var p, t := |Prelude(length, |input|)|, file[..n];
    if n < p {
      CutHeader(file, input, length, n);
    } else {
      CutParts(file, input, length, n);
      DictionaryFound(t, |input|, length);
      CutStream(ReadDict(t).value, length, input, 8 * (n - p));
    }
  }
}
