/** The canonical code and the packed file format shared by pack and pcat, as functions of the
    code-length table. Symbol 256 is the end marker END. */
module PackCode {
  import opened Basics
  import opened BitStrings

  const END: nat := 256
  const MAXLEV: nat := 24

  /** The symbols of length i, in ascending order. */
  function Level(length: seq<nat>, i: nat): (s: seq<nat>)
    ensures forall j | 0 <= j < |s| :: s[j] < |length| && length[s[j]] == i
  {
    if length == [] then []
    else
      var c := |length| - 1;
      Level(length[..c], i) + if length[c] == i then [c] else []
  }

  lemma LevelGrows(s: seq<nat>, x: nat, k: nat)
    ensures |Level(s + [x], k)| == |Level(s, k)| + if x == k then 1 else 0
  {
    assert (s + [x])[..|s|] == s;
  }

  /** Place of symbol c among the symbols of its length. */
  function Rank(length: seq<nat>, c: nat): nat
    requires c < |length|
  {
    |Level(length[..c], length[c])|
  }

  type Lengths = l: seq<nat> | |l| == END + 1 witness seq(END + 1, _ => 0)

  /** Internal nodes on level i, computed from the deepest level, that of END, upward. */
  function Inner(length: Lengths, i: nat): nat
    decreases length[END] - i
  {
    if i >= length[END] then 0 else (Inner(length, i + 1) + |Level(length, i + 1)|) / 2
  }

  function CodeValue(length: Lengths, c: nat): nat
    requires c <= END
  {
    Inner(length, length[c]) + Rank(length, c)
  }

  /** The code word of symbol c. */
  function Word(length: Lengths, c: nat): seq<bool>
    requires c <= END
  {
    Bits(CodeValue(length, c), length[c])
  }

  /** The nodes on level i + 1, leaves and internal nodes, are twice the internal nodes on level i. */
  predicate EvenLevel(length: Lengths, i: nat) {
    Inner(length, i + 1) + |Level(length, i + 1)| == 2 * Inner(length, i)
  }

  /** A length table as pack makes it: at most 24 levels, END on the deepest one, an even number of
      nodes on every level, and one root. */
  ghost predicate FullCode(length: Lengths) {
    && (forall c | 0 <= c <= END :: length[c] <= length[END])
    && 1 <= length[END] <= MAXLEV
    && (forall i | 0 <= i < length[END] :: EvenLevel(length, i))
    && Inner(length, 0) == 1
  }

  lemma {:induction false} RankInLevel(length: seq<nat>, c: nat)
    requires c < |length|
    ensures var l := Level(length, length[c]);
            Rank(length, c) < |l| && l[Rank(length, c)] == c
  {
    var k := |length| - 1;
    if c < k {
      RankInLevel(length[..k], c);
      assert length[..k][..c] == length[..c];
    }
  }

  lemma HalfBound(v: nat, k: nat, p: nat, q: nat)
    requires k > 0 ==> Shr(v, k) < p
    requires k == 0 ==> v < p
    requires p <= 2 * q
    ensures Shr(v, k + 1) < q
  {
    ShrAdd(v, k, 1);
    assert Shr(Shr(v, k), 1) == Shr(v, k) / 2;
  }

  /** Before its last bit, the word of c stays among the internal nodes of every level it passes. */
  lemma {:induction false} StaysInside(length: Lengths, c: nat, lev: nat)
    requires FullCode(length) && c <= END && lev < length[c]
    ensures Shr(CodeValue(length, c), length[c] - lev) < Inner(length, lev)
    decreases length[c] - lev
  {
    hide Inner, Level, Rank, Shr;
    var v, k := CodeValue(length, c), length[c] - lev - 1;
    assert EvenLevel(length, lev);
    if k == 0 {
      RankInLevel(length, c);
      assert v < Inner(length, lev + 1) + |Level(length, lev + 1)|;
      HalfBound(v, 0, v + 1, Inner(length, lev));
    } else {
      StaysInside(length, c, lev + 1);
      HalfBound(v, k, Inner(length, lev + 1), Inner(length, lev));
    }
  }

  /** END is the last symbol of the deepest level, which has an even number of symbols. */
  lemma EndRank(length: Lengths)
    ensures |Level(length, length[END])| == Rank(length, END) + 1
  {
    LevelGrows(length[..END], length[END], length[END]);
    assert length == length[..END] + [length[END]];
  }

  lemma Deepest(length: Lengths)
    ensures Inner(length, length[END]) == 0
  {
  }

  lemma EndIsLast(length: Lengths)
    requires FullCode(length)
    ensures var n := |Level(length, length[END])|;
            n % 2 == 0 && n >= 2 && Rank(length, END) == n - 1
  {
    hide Level, Inner, Rank;
    EndRank(length);
    Deepest(length);
    var i := length[END] - 1;
    assert EvenLevel(length, i);
  }

  /** A level has the symbols of its length, each once, in ascending order. */
  lemma {:induction false} LevelAscends(length: seq<nat>, i: nat)
    ensures forall j, k | 0 <= j < k < |Level(length, i)| :: Level(length, i)[j] < Level(length, i)[k]
    ensures forall c: nat :: c in Level(length, i) <==> c < |length| && length[c] == i
  {
    if length != [] {
      LevelAscends(length[..|length| - 1], i);
    }
  }

  lemma {:induction false} LevelPrefix(length: seq<nat>, c: nat, d: nat, i: nat)
    requires c <= d <= |length|
    ensures |Level(length[..c], i)| <= |Level(length[..d], i)|
    decreases d - c
  {
    hide Level;
    if c < d {
      LevelPrefix(length, c, d - 1, i);
      LevelGrows(length[..d - 1], length[d - 1], i);
      assert length[..d] == length[..d - 1] + [length[d - 1]];
    }
  }

  /** Of two symbols with code words of one length, the smaller has the smaller code. */
  lemma CodesAscend(length: Lengths, c: nat, d: nat)
    requires c < d <= END && length[c] == length[d]
    ensures CodeValue(length, c) < CodeValue(length, d)
  {
    hide Level, Inner;
    LevelGrows(length[..c], length[c], length[c]);
    assert length[..c + 1] == length[..c] + [length[c]];
    LevelPrefix(length, c + 1, d, length[c]);
  }

  /** What pack writes for the text. */
  function Encoded(length: Lengths, input: seq<byte>): seq<bool>
  {
    if input == [] then []
    else Encoded(length, input[..|input| - 1]) + Word(length, input[|input| - 1])
  }

  function Stream(length: Lengths, input: seq<byte>): seq<bool>
  {
    Encoded(length, input) + Word(length, END)
  }

  /** The bytes of the dictionary for levels 1 to i: each level's bytes in ascending order. */
  function Dictionary(length: Lengths, i: nat): seq<byte>
  {
    if i == 0 then [] else Dictionary(length, i - 1) + Level(length[..END], i)
  }

  function FourBytes(n: nat): seq<byte> {
    [n / 256 / 256 / 256 % 256, n / 256 / 256 % 256, n / 256 % 256, n % 256]
  }

  /** The level counts as they are stored, in one byte each: END and one more are left out of the
      deepest level. */
  function LevelBytes(length: Lengths, i: nat): (s: seq<byte>)
    ensures |s| == i
  {
    if i == 0 then [] else LevelBytes(length, i - 1) + [|Level(length, i)| % 256]
  }

  /** Everything before the text, for a file of n bytes. */
  function Prelude(length: Lengths, n: nat): seq<byte>
    requires 1 <= length[END] < 256
  {
    var l := length[END];
    [31, 30] + FourBytes(n) + [l]
    + LevelBytes(length, l - 1) + [(|Level(length, l)| + 254) % 256]
    + Dictionary(length, l)
  }

  /** `body` holds the bits `s`, filled up with zeros to a whole byte. */
  predicate IsBody(body: seq<byte>, s: seq<bool>) {
    && 8 * |body| - 8 < |s| <= 8 * |body|
    && ByteBits(body) == s + Zeros(8 * |body| - |s|)
  }

  /** `file` is the packed form of `input` under the given lengths. */
  predicate IsPacked(file: seq<byte>, input: seq<byte>, length: Lengths)
    requires 1 <= length[END] < 256
  {
    var p := Prelude(length, |input|);
    p <= file && IsBody(file[|p|..], Stream(length, input))
  }
}
