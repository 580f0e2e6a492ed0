/** pcat: reading the dictionary and decoding the text, as functions of the packed file, and the
    proof that they undo what pack writes. */
module Unpack {
  import opened Basics
  import opened BitStrings
  import opened PackCode

  /** Undefined stands for a read outside the tables of the C program, which only a file that pack
      did not write can cause. */
  datatype Outcome = Unpacked(data: seq<byte>) | NotPacked | UnpackError | Undefined

  /** leaves[i - 1] is the number of leaves on level i. */
  datatype Dict = Dict(origsize: nat, leaves: seq<nat>, characters: seq<byte>)

  function Total(s: seq<nat>): nat {
    if s == [] then 0 else Total(s[..|s| - 1]) + s[|s| - 1]
  }

  function StoredLeaves(s: seq<byte>): seq<nat> {
    if s == [] then [] else s[..|s| - 1] + [s[|s| - 1] as nat + 2]
  }

  /** Length of the part of the file that precedes the text. */
  function DictSize(file: seq<byte>): nat
    requires |file| >= 7 && |file| >= 7 + file[6] as nat
  {
    7 + file[6] as nat + Total(file[7..7 + file[6] as nat]) + 1
  }

  function BigEndian(q: seq<byte>): nat
    requires |q| == 4
  {
    ((q[0] as nat * 256 + q[1] as nat) * 256 + q[2] as nat) * 256 + q[3] as nat
  }

  lemma BigEndianIs(q: seq<byte>)
    requires |q| == 4
    ensures BigEndian(q) == ((q[0] as nat * 256 + q[1] as nat) * 256 + q[2] as nat) * 256 + q[3] as nat
  {
  }

  /** The dictionary at the head of the file, if the file is in packed format. */
  function ReadDict(file: seq<byte>): Option<Dict> {
    if |file| < 7 || file[0] != 31 || file[1] != 30 || file[6] as nat > MAXLEV || |file| < 7 + file[6] as nat
    then None
    else
      var maxlev := file[6] as nat;
      if Total(file[7..7 + maxlev]) > 255 || |file| < DictSize(file) then None
      else
        Some(Dict(BigEndian(file[2..6]), StoredLeaves(file[7..7 + maxlev]), file[7 + maxlev..DictSize(file)]))
  }

  /** Internal nodes on level i. */
  function InnerOf(leaves: seq<nat>, i: nat): nat
    decreases |leaves| - i
  {
    if i >= |leaves| then 0 else (InnerOf(leaves, i + 1) + leaves[i]) / 2
  }

  /** Where the characters of level i start. */
  function Offset(leaves: seq<nat>, i: nat): nat
    requires 1 <= i <= |leaves| + 1
  {
    if i == 1 then 0 else Offset(leaves, i - 1) + leaves[i - 2]
  }

  /** Decoding from level lev, after the bits that make up i, with `out` written so far. */
  function Decode(d: Dict, bits: seq<bool>, lev: nat, i: nat, out: seq<byte>): Outcome
    requires lev >= 1
    decreases |bits|
  {
    if bits == [] then UnpackError
    else if lev > |d.leaves| then Undefined
    else
      var k := 2 * i + if bits[0] then 1 else 0;
      if k < InnerOf(d.leaves, lev) then Decode(d, bits[1..], lev + 1, k, out)
      else
        var p := Offset(d.leaves, lev) + k - InnerOf(d.leaves, lev);
        if p == |d.characters| then
          if (d.origsize - |out|) % 0x1_0000_0000 == 0 then Unpacked(out) else UnpackError
        else if p < |d.characters| then Decode(d, bits[1..], 1, 0, out + [d.characters[p]])
        else Undefined
  }

  function UnpackFile(file: seq<byte>): Outcome {
    match ReadDict(file)
    case None => NotPacked
    case Some(d) => Decode(d, ByteBits(file[DictSize(file)..]), 1, 0, [])
  }

  // ---- The round trip

  /** The dictionary pcat should find for these code lengths. */
  ghost predicate DictFor(d: Dict, length: Lengths) {
    && |d.leaves| == length[END]
    && (forall i | 1 <= i <= length[END] :: d.leaves[i - 1] == |Level(length, i)|)
    && d.characters == Dictionary(length, length[END])
  }

  lemma {:induction false} InnerAgrees(d: Dict, length: Lengths, i: nat)
    requires DictFor(d, length)
    ensures InnerOf(d.leaves, i) == Inner(length, i)
    decreases length[END] - i
  {
    hide Level, Dictionary;
    if i < length[END] {
      InnerAgrees(d, length, i + 1);
      assert d.leaves[i + 1 - 1] == |Level(length, i + 1)|;
    }
  }

  lemma LevelWithoutEnd(length: Lengths, i: nat)
    ensures Level(length, i) == Level(length[..END], i) + if length[END] == i then [END] else []
  {
  }

  lemma {:induction false} OffsetAgrees(d: Dict, length: Lengths, i: nat)
    requires DictFor(d, length) && 1 <= i <= length[END]
    ensures Offset(d.leaves, i) == |Dictionary(length, i - 1)|
  {
    hide Level;
    if i > 1 {
      OffsetAgrees(d, length, i - 1);
      var k := i - 1;
      assert d.leaves[k - 1] == |Level(length, k)|;
      LevelWithoutEnd(length, k);
    }
  }

  lemma {:induction false} DictionaryPrefix(length: Lengths, i: nat, j: nat)
    requires i <= j
    ensures Dictionary(length, i) <= Dictionary(length, j)
    decreases j - i
  {
    hide Level;
    if i < j {
      DictionaryPrefix(length, i, j - 1);
    }
  }

  lemma DictionaryStep(length: Lengths, k: nat)
    requires 1 <= k
    ensures Dictionary(length, k) == Dictionary(length, k - 1) + Level(length[..END], k)
  {
  }

  lemma RankHere(length: seq<nat>, c: nat)
    requires c < |length|
    ensures Rank(length, c) == |Level(length[..c], length[c])|
  {
  }

  /** Where the decoder finds symbol c, or the end of the dictionary for END. */
  lemma SymbolPlace(length: Lengths, c: nat)
    requires FullCode(length) && c <= END && 1 <= length[c]
    ensures var p := |Dictionary(length, length[c] - 1)| + Rank(length, c);
            var t := Dictionary(length, length[END]);
            if c == END then p == |t| else p < |t| && t[p] == c
  {
    assert length[c] <= length[END];
    hide FullCode, Dictionary, Level, Rank;
    var l := length[c];
    DictionaryStep(length, l);
    RankHere(length, c);
    if c < END {
      assert length[..END][..c] == length[..c];
      RankHere(length[..END], c);
      RankInLevel(length[..END], c);
      DictionaryPrefix(length, l, length[END]);
      InPrefix(Dictionary(length, l - 1), Level(length[..END], l), Dictionary(length, length[END]), Rank(length, c));
    }
  }

  lemma InPrefix<T>(a: seq<T>, s: seq<T>, t: seq<T>, k: nat)
    requires a + s <= t && k < |s|
    ensures |a| + k < |t| && t[|a| + k] == s[k]
  {
    assert (a + s)[|a| + k] == s[k];
  }

  lemma {:induction false} BitAt(v: nat, k: nat, j: nat)
    requires j < k
    ensures Bits(v, k)[j] == (Shr(v, k - 1 - j) % 2 == 1)
  {
    if j < k - 1 {
      BitAt(v / 2, k - 1, j);
    }
  }

  /** The outcome once symbol c has been recognised. */
  ghost function AfterSymbol(d: Dict, c: nat, rest: seq<bool>, out: seq<byte>): Outcome
    requires c <= END
  {
    if c < END then Decode(d, rest, 1, 0, out + [c])
    else if (d.origsize - |out|) % 0x1_0000_0000 == 0 then Unpacked(out) else UnpackError
  }

  /** A bit that leads out of the internal nodes of its level. */
  lemma LeafBit(d: Dict, b: bool, bits: seq<bool>, lev: nat, i: nat, c: nat, out: seq<byte>)
    requires 1 <= lev <= |d.leaves| && c <= END
    requires var k := 2 * i + if b then 1 else 0;
             && k >= InnerOf(d.leaves, lev)
             && var p := Offset(d.leaves, lev) + k - InnerOf(d.leaves, lev);
             if c == END then p == |d.characters| else p < |d.characters| && d.characters[p] == c
    ensures Decode(d, [b] + bits, lev, i, out) == AfterSymbol(d, c, bits, out)
  {
    hide InnerOf, Offset;
    assert ([b] + bits)[1..] == bits;
  }

  /** The last bit of a word leads to its symbol. */
  lemma LastBit(d: Dict, length: Lengths, c: nat, rest: seq<bool>, out: seq<byte>)
    requires FullCode(length) && DictFor(d, length) && c <= END && 1 <= length[c]
    ensures var v := CodeValue(length, c);
            Decode(d, [v % 2 == 1] + rest, length[c], v / 2, out) == AfterSymbol(d, c, rest, out)
  {
    hide Decode, AfterSymbol, Dictionary, Inner, Level, InnerOf, Offset, Rank;
    var v, l := CodeValue(length, c), length[c];
    InnerAgrees(d, length, l);
    OffsetAgrees(d, length, l);
    SymbolPlace(length, c);
    LeafBit(d, v % 2 == 1, rest, l, v / 2, c, out);
  }

  lemma InnerBit(d: Dict, b: bool, bits: seq<bool>, lev: nat, i: nat, out: seq<byte>)
    requires 1 <= lev <= |d.leaves|
    requires 2 * i + (if b then 1 else 0) < InnerOf(d.leaves, lev)
    ensures Decode(d, [b] + bits, lev, i, out) == Decode(d, bits, lev + 1, 2 * i + if b then 1 else 0, out)
  {
    assert ([b] + bits)[1..] == bits;
  }

  lemma ShrStep(v: nat, k: nat)
    ensures Shr(v, k) == 2 * Shr(v, k + 1) + Shr(v, k) % 2
  {
    ShrAdd(v, k, 1);
    assert Shr(Shr(v, k), 1) == Shr(v, k) / 2;
  }

  /** Bit j of a word continues the number made up of the bits before it. */
  lemma WordBit(length: Lengths, c: nat, j: nat)
    requires c <= END && j < length[c]
    ensures |Word(length, c)| == length[c]
    ensures var v, k := CodeValue(length, c), length[c] - j - 1;
            && Word(length, c)[j] == (Shr(v, k) % 2 == 1)
            && Shr(v, k) == 2 * Shr(v, k + 1) + if Word(length, c)[j] then 1 else 0
  {
    hide CodeValue, Bits;
    BitAt(CodeValue(length, c), length[c], j);
    ShrStep(CodeValue(length, c), length[c] - j - 1);
  }

  /** From inside a word, the decoder comes out at its symbol. */
  lemma {:induction false} DecodeFrom(d: Dict, length: Lengths, c: nat, j: nat, rest: seq<bool>, out: seq<byte>)
    requires FullCode(length) && DictFor(d, length) && |d.leaves| == length[END]
    requires c <= END && j < length[c] <= length[END]
    ensures Decode(d, Word(length, c)[j..] + rest, j + 1, Shr(CodeValue(length, c), length[c] - j), out)
            == AfterSymbol(d, c, rest, out)
    decreases length[c] - j
  {
    hide FullCode, DictFor, Decode, AfterSymbol, Word, CodeValue, Inner, InnerOf;
    var v, l, w := CodeValue(length, c), length[c], Word(length, c);
    WordBit(length, c, j);
    if j + 1 == l {
      assert w[j..] == [w[j]];
      LastBit(d, length, c, rest, out);
    } else {
      InnerAgrees(d, length, j + 1);
      StaysInside(length, c, j + 1);
      DecodeFrom(d, length, c, j + 1, rest, out);
      InnerBit(d, w[j], w[j + 1..] + rest, j + 1, Shr(v, l - j), out);
      assert w[j..] + rest == [w[j]] + (w[j + 1..] + rest);
    }
  }

  lemma DecodeWord(d: Dict, length: Lengths, c: nat, rest: seq<bool>, out: seq<byte>)
    requires FullCode(length) && DictFor(d, length) && c <= END && 1 <= length[c]
    ensures Decode(d, Word(length, c) + rest, 1, 0, out) == AfterSymbol(d, c, rest, out)
  {
    hide Decode, AfterSymbol, Word, CodeValue, Inner, Level, Dictionary;
    StaysInside(length, c, 0);
    DecodeFrom(d, length, c, 0, rest, out);
    assert Word(length, c)[0..] == Word(length, c);
  }

  lemma NothingEncoded(length: Lengths, rest: seq<bool>)
    ensures Encoded(length, []) + rest == rest
  {
  }

  lemma LastEncoded(length: Lengths, input: seq<byte>, rest: seq<bool>)
    requires input != []
    ensures var k := |input| - 1;
            Encoded(length, input) + rest == Encoded(length, input[..k]) + (Word(length, input[k]) + rest)
  {
    hide Word;
  }

  lemma {:induction false} DecodeText(d: Dict, length: Lengths, input: seq<byte>, rest: seq<bool>)
    requires FullCode(length) && DictFor(d, length)
    requires forall k | 0 <= k < |input| :: 1 <= length[input[k]]
    ensures Decode(d, Encoded(length, input) + rest, 1, 0, []) == Decode(d, rest, 1, 0, input)
  {
    hide Encoded, Word, Dictionary, Level, FullCode, DictFor, Decode;
    if input == [] {
      NothingEncoded(length, rest);
    } else {
      var k := |input| - 1;
      DecodeText(d, length, input[..k], Word(length, input[k]) + rest);
      LastEncoded(length, input, rest);
      DecodeWord(d, length, input[k], rest, input[..k]);
      assert input[..k] + [input[k]] == input;
    }
  }

  /** How many symbols have a length from 1 to k. */
  function LevelTotal(s: seq<nat>, k: nat): nat {
    if k == 0 then 0 else LevelTotal(s, k - 1) + |Level(s, k)|
  }

  lemma {:induction false} LevelTotalPush(s: seq<nat>, x: nat, k: nat)
    ensures LevelTotal(s + [x], k) == LevelTotal(s, k) + if 1 <= x <= k then 1 else 0
  {
    hide Level;
    if k > 0 {
      LevelTotalPush(s, x, k - 1);
      LevelGrows(s, x, k);
    }
  }

  lemma {:induction false} NoLevels(k: nat)
    ensures LevelTotal([], k) == 0
  {
    if k > 0 {
      NoLevels(k - 1);
    }
  }

  lemma {:induction false} LevelTotalBound(s: seq<nat>, k: nat)
    ensures LevelTotal(s, k) <= |s|
  {
    hide Level, LevelTotal;
    if s == [] {
      NoLevels(k);
    } else {
      LevelTotalBound(s[..|s| - 1], k);
      LevelTotalPush(s[..|s| - 1], s[|s| - 1], k);
      assert s[..|s| - 1] + [s[|s| - 1]] == s;
    }
  }

  lemma {:induction false} DictionarySize(length: Lengths, k: nat)
    ensures |Dictionary(length, k)| == LevelTotal(length[..END], k)
  {
    if k > 0 {
      DictionarySize(length, k - 1);
    }
  }

  lemma {:induction false} LevelTotalMonotone(s: seq<nat>, i: nat, k: nat)
    requires i <= k
    ensures LevelTotal(s, i) <= LevelTotal(s, k)
  {
    hide Level;
    if i < k {
      LevelTotalMonotone(s, i, k - 1);
    }
  }

  lemma LevelTotalStep(s: seq<nat>, k: nat)
    requires k > 0
    ensures LevelTotal(s, k) == LevelTotal(s, k - 1) + |Level(s, k)|
  {
  }

  /** No level count overflows the byte it is stored in, and the dictionary has at most 256 bytes. */
  lemma CountsFit(length: Lengths)
    requires FullCode(length) && 1 <= length[END]
    ensures forall i | 1 <= i < length[END] :: |Level(length, i)| < 256
    ensures 2 <= |Level(length, length[END])| <= 256
    ensures |Dictionary(length, length[END])| <= 256
  {
    hide Level, LevelTotal, Dictionary, Inner, FullCode, Rank;
    var l, s := length[END], length[..END];
    EndIsLast(length);
    LevelWithoutEnd(length, l);
    LevelTotalBound(s, l);
    LevelTotalStep(s, l);
    DictionarySize(length, l);
    forall i | 1 <= i < l
      ensures |Level(length, i)| < 256
    {
      LevelWithoutEnd(length, i);
      LevelTotalMonotone(s, i, l - 1);
      LevelTotalStep(s, i);
    }
  }

  lemma LevelBytesStep(length: Lengths, k: nat)
    requires 1 <= k < length[END] && |Level(length, k)| < 256
    ensures LevelBytes(length, k) == LevelBytes(length, k - 1) + [|Level(length, k)|]
    ensures Dictionary(length, k) == Dictionary(length, k - 1) + Level(length, k)
  {
    hide Level;
    LevelWithoutEnd(length, k);
  }

  lemma EmptyLevelBytes(length: Lengths)
    ensures LevelBytes(length, 0) == [] && Dictionary(length, 0) == []
  {
  }

  lemma {:induction false} LevelBytesAt(length: Lengths, k: nat)
    requires k < length[END]
    requires forall i | 1 <= i <= k :: |Level(length, i)| < 256
    ensures forall i | 1 <= i <= k :: LevelBytes(length, k)[i - 1] == |Level(length, i)|
    ensures Total(LevelBytes(length, k)) == |Dictionary(length, k)|
  {
    hide Level, LevelBytes, Dictionary;
    if k == 0 {
      EmptyLevelBytes(length);
    } else {
      LevelBytesAt(length, k - 1);
      LevelBytesStep(length, k);
      assert LevelBytes(length, k)[..k - 1] == LevelBytes(length, k - 1);
    }
  }

  /** The bytes that hold the level counts. */
  function Stored(length: Lengths): seq<byte>
    requires 1 <= length[END]
  {
    LevelBytes(length, length[END] - 1) + [(|Level(length, length[END])| + 254) % 256]
  }

  lemma StoredTotal(length: Lengths)
    requires FullCode(length) && 1 <= length[END]
    ensures Total(Stored(length)) == |Dictionary(length, length[END])| - 1 <= 255
    ensures forall i | 1 <= i <= length[END] :: StoredLeaves(Stored(length))[i - 1] == |Level(length, i)|
  {
    hide Level, LevelBytes, FullCode, Inner, Dictionary;
    var l := length[END];
    CountsFit(length);
    LevelBytesAt(length, l - 1);
    EndIsLast(length);
    LastLevel(length);
    assert Stored(length)[..l - 1] == LevelBytes(length, l - 1);
  }

  lemma LastLevel(length: Lengths)
    requires 1 <= length[END]
    ensures |Dictionary(length, length[END])| ==
            |Dictionary(length, length[END] - 1)| + |Level(length, length[END])| - 1
  {
    LevelWithoutEnd(length, length[END]);
  }

  lemma LowByte(n: nat)
    ensures n == n / 256 * 256 + n % 256 && 0 <= n % 256 < 256
  {
  }

  lemma LowFour(n: nat, q: nat, r: nat)
    requires n == q * 0x1_0000_0000 + r && r < 0x1_0000_0000
    ensures n % 0x1_0000_0000 == r
  {
  }

  lemma FourBytesValue(n: nat)
    ensures BigEndian(FourBytes(n)) == n % 0x1_0000_0000
  {
    var n1 := n / 256;
    var n2 := n1 / 256;
    var n3 := n2 / 256;
    LowByte(n);
    LowByte(n1);
    LowByte(n2);
    LowByte(n3);
    LowFour(n, n3 / 256, BigEndian(FourBytes(n)));
  }

  lemma ThreeParts(file: seq<byte>, n: nat, a: seq<byte>, s: seq<byte>, t: seq<byte>)
    requires a + s + t <= file && |a| == n
    ensures n + |s| + |t| <= |file| && a <= file
    ensures file[n..n + |s|] == s && file[n + |s|..n + |s| + |t|] == t
  {
    var p := a + s + t;
    assert forall i | 0 <= i < |p| :: file[i] == p[i];
  }

  lemma ReadParts(file: seq<byte>, s: seq<byte>, t: seq<byte>)
    requires 7 + |s| + |t| <= |file| && file[0] == 31 && file[1] == 30 && file[6] as nat == |s| <= MAXLEV
    requires file[7..7 + |s|] == s && file[7 + |s|..7 + |s| + |t|] == t && Total(s) + 1 == |t| <= 256
    ensures DictSize(file) == 7 + |s| + |t|
    ensures ReadDict(file) == Some(Dict(BigEndian(file[2..6]), StoredLeaves(s), t))
  {
    hide Total, StoredLeaves, BigEndian;
  }

  /** The part of the header that has a fixed size. */
  function Head(q: seq<byte>, maxlev: byte): seq<byte>
    requires |q| == 4
  {
    [31, 30, q[0], q[1], q[2], q[3], maxlev]
  }

  /** What pcat reads from a file that starts with the parts of a header. */
  lemma HeaderRead(file: seq<byte>, q: seq<byte>, m: byte, s: seq<byte>, t: seq<byte>)
    requires |q| == 4 && m as nat == |s| <= MAXLEV && Total(s) + 1 == |t| <= 256
    requires Head(q, m) + s + t <= file
    ensures |file| >= 7 + |s| && file[6] as nat == |s| && DictSize(file) == 7 + |s| + |t|
    ensures ReadDict(file) == Some(Dict(BigEndian(q), StoredLeaves(s), t))
  {
    hide *;
    HeadSize(q, m);
    ThreeParts(file, 7, Head(q, m), s, t);
    HeadOf(file, q, m);
    ReadParts(file, s, t);
  }

  lemma HeadOf(file: seq<byte>, q: seq<byte>, maxlev: byte)
    requires |q| == 4 && Head(q, maxlev) <= file
    ensures |file| >= 7 && file[0] == 31 && file[1] == 30 && file[6] == maxlev
    ensures file[2..6] == q
  {
    var a := Head(q, maxlev);
    assert file[0] == a[0] && file[1] == a[1] && file[6] == a[6];
    assert file[2] == a[2] && file[3] == a[3] && file[4] == a[4] && file[5] == a[5];
  }

  lemma HeadSize(q: seq<byte>, maxlev: byte)
    requires |q| == 4
    ensures |Head(q, maxlev)| == 7
  {
  }

  lemma PreludeParts(length: Lengths, n: nat)
    requires 1 <= length[END] <= MAXLEV
    ensures |FourBytes(n)| == 4 && |Stored(length)| == length[END]
    ensures Prelude(length, n) == Head(FourBytes(n), length[END]) + Stored(length) + Dictionary(length, length[END])
  {
    hide Dictionary, Level, LevelBytes;
    assert [31, 30] + FourBytes(n) + [length[END]] == Head(FourBytes(n), length[END]);
  }

  /** pcat finds the right dictionary and the start of the text. */
  lemma DictionaryFound(file: seq<byte>, n: nat, length: Lengths)
    requires FullCode(length) && Prelude(length, n) <= file
    ensures |file| >= 7 && file[6] as nat == length[END] && |file| >= 7 + length[END]
    ensures DictSize(file) == |Prelude(length, n)|
    ensures var d := ReadDict(file);
            d.Some? && DictFor(d.value, length) && d.value.origsize == n % 0x1_0000_0000
  {
    var l := length[END];
    assert 1 <= l <= MAXLEV;
    hide FullCode, Prelude, Dictionary, Level, FourBytes, Stored, StoredLeaves, Total, ReadDict, DictSize, BigEndian;
    hide Head;
    StoredTotal(length);
    FourBytesValue(n);
    PreludeParts(length, n);
    HeaderRead(file, FourBytes(n), l, Stored(length), Dictionary(length, l));
    SameLength(Stored(length));
  }

  lemma {:induction false} SameLength(s: seq<byte>)
    ensures |StoredLeaves(s)| == |s|
  {
  }

  /** The main result: unpacking what pack wrote gives back the input. */
  lemma RoundTrip(file: seq<byte>, input: seq<byte>, length: Lengths)
    requires FullCode(length) && 1 <= length[END] <= MAXLEV && IsPacked(file, input, length)
    requires forall k | 0 <= k < |input| :: 1 <= length[input[k]]
    ensures UnpackFile(file) == Unpacked(input)
  {
    hide FullCode, IsPacked, Stream, Prelude, ReadDict, DictSize, DictFor, Decode, ByteBits, Zeros;
    UnfoldPacked(file, input, length);
    DictionaryFound(file, |input|, length);
    var d := ReadDict(file).value;
    var body := file[DictSize(file)..];
    var z := Zeros(8 * |body| - |Stream(length, input)|);
    DecodeInput(d, length, input, z);
  }

  lemma UnfoldPacked(file: seq<byte>, input: seq<byte>, length: Lengths)
    requires 1 <= length[END] < 256 && IsPacked(file, input, length)
    ensures var p := |Prelude(length, |input|)|;
            && Prelude(length, |input|) <= file && 8 * (|file| - p) >= |Stream(length, input)|
            && ByteBits(file[p..]) ==
               Stream(length, input) + Zeros(8 * (|file| - p) - |Stream(length, input)|)
  {
    hide ByteBits, Stream, Prelude;
  }

  lemma DecodeInput(d: Dict, length: Lengths, input: seq<byte>, z: seq<bool>)
    requires FullCode(length) && 1 <= length[END] && DictFor(d, length)
    requires d.origsize == |input| % 0x1_0000_0000
    requires forall k | 0 <= k < |input| :: 1 <= length[input[k]]
    ensures Decode(d, Stream(length, input) + z, 1, 0, []) == Unpacked(input)
  {
    hide Encoded, Word, Decode, FullCode, DictFor;
    DecodeText(d, length, input, Word(length, END) + z);
    DecodeWord(d, length, END, z, input);
    assert Stream(length, input) + z == Encoded(length, input) + (Word(length, END) + z);
  }
}
