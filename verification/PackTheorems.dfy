/** What the parts of pack add up to: the code is an optimal prefix code, the depth guard fires on
    inputs of every length from Fib(27) - 1 on, and packing never costs a block. */
module PackTheorems {
  import opened Basics
  import opened Sums
  import opened BitStrings
  import opened KraftCost
  import opened HuffmanTree
  import opened HeapTree
  import opened PrefixCode
  import opened DepthBound
  import opened RoundedEnd
  import opened PackCode
  import opened Pack
  import CodeSpace
  import Unpack

  // ---- The code words form a prefix code

  lemma {:induction false} SameBits(u: nat, v: nat, k: nat)
    requires Bits(u, k) == Bits(v, k) && Shr(u, k) == Shr(v, k)
    ensures u == v
  {
    if k > 0 {
      assert Bits(u, k)[..k - 1] == Bits(u / 2, k - 1);
      assert Bits(v, k)[..k - 1] == Bits(v / 2, k - 1);
      assert Bits(u, k)[k - 1] == (u % 2 == 1);
      assert Bits(v, k)[k - 1] == (v % 2 == 1);
      SameBits(u / 2, v / 2, k - 1);
    }
  }

  /** A code word is never a prefix of another one. */
  lemma WordsApart(l: Lengths, c: nat, d: nat)
    requires FullCode(l) && c <= END && d <= END && 1 <= l[c] && 1 <= l[d] && c != d
    ensures !(Word(l, c) <= Word(l, d))
  {
    hide FullCode, Inner, Level, Bits, Shr;
    if Word(l, c) <= Word(l, d) {
      var k := l[d] - l[c];
      var u, v := CodeValue(l, c), CodeValue(l, d);
      SplitBits(v, l[c], k);
      assert l[c] + k == l[d];
      assert Bits(u, l[c]) == Bits(Shr(v, k), l[c]);
      StaysInside(l, c, 0);
      StaysInside(l, d, 0);
      RootOfCode(l);
      ShrAdd(v, k, l[c]);
      SameBits(u, Shr(v, k), l[c]);
      if k == 0 {
        NoShift(v);
        RankInLevel(l, c);
        RankInLevel(l, d);
      } else {
        StaysInside(l, d, l[c]);
      }
    }
  }

  lemma NoShift(v: nat)
    ensures Shr(v, 0) == v
  {
  }

  function Words(l: Lengths): seq<CodeWord> {
    seq(END + 1, c requires 0 <= c <= END => Word(l, c))
  }

  /** The words of the bytes in turn, in any code. */
  function TextIn(code: seq<CodeWord>, input: seq<byte>): seq<bool>
    requires |code| == END + 1
  {
    if input == [] then [] else TextIn(code, input[..|input| - 1]) + code[input[|input| - 1]]
  }

  lemma {:induction false} TextInSize(code: seq<CodeWord>, input: seq<byte>)
    requires |code| == END + 1
    ensures |TextIn(code, input)| == TextBits(WordLengths(code), Counts(input), END + 1)
  {
    if input == [] {
      NoText(WordLengths(code), END + 1);
    } else {
      var k := |input| - 1;
      TextInSize(code, input[..k]);
      TextBitsPush(WordLengths(code), Counts(input[..k]), Counts(input), input[k], END + 1);
    }
  }

  lemma {:induction false} WordsSpell(l: Lengths, input: seq<byte>)
    ensures Encoded(l, input) == TextIn(Words(l), input)
  {
    hide Word;
    if input != [] {
      WordsSpell(l, input[..|input| - 1]);
    }
  }

  lemma TwiceHalf(a: nat, l: nat)
    requires a % 2 == 0
    ensures a * l == 2 * (l * (a / 2))
  {
    var b := a / 2;
    assert a == 2 * b;
  }

  lemma {:induction false} CostOfBytes(a: set<nat>, w: seq<nat>, v: seq<nat>, l: seq<nat>, k: nat)
    requires k <= |w| == |v| == |l|
    requires forall c | 0 <= c < k :: v[c] == w[c] && w[c] % 2 == 0 && (c !in a ==> w[c] == 0)
    ensures Sum(Masked(a, Products(v, l))[..k]) == 2 * TextBits(l, w, k)
  {
    var s := Masked(a, Products(v, l));
    if k > 0 {
      CostOfBytes(a, w, v, l, k - 1);
      TwiceHalf(w[k - 1], l[k - 1]);
      assert s[..k][..k - 1] == s[..k - 1];
    }
  }

  lemma CostOfAll(a: set<nat>, w: seq<nat>, l: seq<nat>)
    requires |w| == |l| == END + 1 && END in a && w[END] == 1
    requires forall c | 0 <= c < END :: w[c] % 2 == 0 && (c !in a ==> w[c] == 0)
    ensures Cost(a, w[END := 2], l) == 2 * (TextBits(l, w, END + 1) + l[END])
  {
    var s := Masked(a, Products(w[END := 2], l));
    CostOfBytes(a, w, w[END := 2], l, END);
    assert TextBits(l, w, END + 1) == TextBits(l, w, END) by {
      assert w[END] / 2 == 0;
    }
    hide TextBits;
    assert s[END] == 2 * l[END];
    assert s == s[..END] + [2 * l[END]];
    SumPush(s[..END], 2 * l[END]);
  }

  /** With END counted for two, as any occurrence of a byte is, the weighted length is twice the length of
      the text and its end marker. */
  lemma CostIsText(h: Tree, input: seq<byte>, l: seq<nat>)
    requires h.count == Counts(input) && |l| == END + 1
    ensures Cost(h.Symbols(), h.count[END := 2], l) == 2 * (TextBits(l, Counts(input), END + 1) + l[END])
  {
    hide Cost, TextBits, Occurrences;
    CostOfAll(h.Symbols(), Counts(input), l);
  }

  /** pack's code words are a prefix code with the tree's depths as lengths, and no prefix code writes the
      input and its end marker in fewer bits. */
  lemma OptimalPrefixCode(h: Tree, input: seq<byte>, code: seq<CodeWord>)
    requires h.Complete() && h.count == Counts(input) && input != [] && h.LeafDepths()[END] <= MAXLEV
    requires |code| == END + 1 && PrefixFree(h.Symbols(), code)
    ensures PrefixFree(h.Symbols(), Words(h.LeafDepths()))
    ensures WordLengths(Words(h.LeafDepths())) == h.LeafDepths()
    ensures Stream(h.LeafDepths(), input) == TextIn(Words(h.LeafDepths()), input) + Words(h.LeafDepths())[END]
    ensures |Stream(h.LeafDepths(), input)| <= |TextIn(code, input) + code[END]|
    ensures Cost(h.Symbols(), h.count, WordLengths(Words(h.LeafDepths())))
            <= Cost(h.Symbols(), h.count, WordLengths(code))
  {
    var l: Lengths := h.LeafDepths();
    TableIsFull(h, input);
    OptimalAmongPrefixCodes(h, code);
    WordsApartAll(h, input);
    WordsSpell(l, input);
    FewestBits(h, input, code);
  }

  lemma WordsApartAll(h: Tree, input: seq<byte>)
    requires h.Complete() && h.count == Counts(input) && input != [] && FullCode(h.LeafDepths())
    ensures PrefixFree(h.Symbols(), Words(h.LeafDepths()))
  {
    hide FullCode, Word;
    var l: Lengths := h.LeafDepths();
    forall i, j | i in h.Symbols() && j in h.Symbols() && i != j
      ensures !(Words(l)[i] <= Words(l)[j])
    {
      SymbolsHaveLength(h, input, i);
      SymbolsHaveLength(h, input, j);
      WordsApart(l, i, j);
    }
  }

  lemma StreamSize(l: Lengths, input: seq<byte>)
    ensures |Stream(l, input)| == TextBits(l, Counts(input), END + 1) + l[END]
  {
    hide Encoded, TextBits, Counts;
    EncodedSize(l, input);
  }

  lemma FewestBits(h: Tree, input: seq<byte>, code: seq<CodeWord>)
    requires h.Complete() && h.count == Counts(input)
    requires |code| == END + 1 && PrefixFree(h.Symbols(), code)
    ensures |Stream(h.LeafDepths(), input)| <= |TextIn(code, input) + code[END]|
  {
    hide Encoded, Stream, TextIn, TextBits, Cost, PrefixFree, Occurrences;
    var l: Lengths := h.LeafDepths();
    StreamSize(l, input);
    TextInSize(code, input);
    OptimalRounded(h, END, code);
    CostIsText(h, input, l);
    CostIsText(h, input, WordLengths(code));
  }

  lemma SymbolsHaveLength(h: Tree, input: seq<byte>, c: nat)
    requires h.Complete() && h.count == Counts(input) && input != [] && c in h.Symbols()
    ensures h.LeafDepths()[c] >= 1
  {
    OccursIfIn(input, input[0]);
    CodeSpace.SymbolDepths(h, c, if c == END then input[0] as nat else END);
  }

  // ---- The depth guard

  function Repeat(b: byte, n: nat): seq<byte> {
    seq(n, _ => b)
  }

  /** Bytes 0..k-1, byte i repeated Fib(i + 1) times. */
  function FibonacciInput(k: nat): seq<byte>
    requires k <= 256
  {
    if k == 0 then [] else FibonacciInput(k - 1) + Repeat(k - 1, Fib(k))
  }

  lemma {:induction false} OccurrencesConcat(s: seq<byte>, t: seq<byte>, c: nat)
    ensures Occurrences(s + t, c) == Occurrences(s, c) + Occurrences(t, c)
  {
    if t == [] {
      assert s + t == s;
    } else {
      var k := |t| - 1;
      OccurrencesConcat(s, t[..k], c);
      assert (s + t)[..|s + t| - 1] == s + t[..k];
    }
  }

  lemma {:induction false} OccurrencesRepeat(b: byte, n: nat, c: nat)
    ensures Occurrences(Repeat(b, n), c) == if b as nat == c then n else 0
  {
    if n > 0 {
      OccurrencesRepeat(b, n - 1, c);
      assert Repeat(b, n)[..n - 1] == Repeat(b, n - 1);
    }
  }

  lemma {:induction false} OccurrencesFibonacci(k: nat, c: nat)
    requires k <= 256
    ensures Occurrences(FibonacciInput(k), c) == if c < k then Fib(c + 1) else 0
    ensures |FibonacciInput(k)| + 1 == Fib(k + 2)
  {
    if k > 0 {
      OccurrencesFibonacci(k - 1, c);
      OccurrencesConcat(FibonacciInput(k - 1), Repeat(k - 1, Fib(k)), c);
      OccurrencesRepeat(k - 1, Fib(k), c);
      FibNext(k);
    }
  }

  /** The comment on the guard says it cannot fire for inputs shorter than 2^24. For every length
      from Fib(27) - 1 = 196417 on there is an input for which the tree is 25 levels deep. */
  lemma GuardCanFire(n: nat) returns (input: seq<byte>)
    requires n >= DEEP_INPUT
    ensures |input| == n
    ensures forall h: Tree | h.Complete() && h.count == Counts(input) :: h.LeafDepths()[END] == 25
  {
    hide Fib, Counts, FibonacciInput;
    Fib27();
    var extra := n - DEEP_INPUT;
    input := FibonacciInput(25) + Repeat(24, extra);
    OccurrencesFibonacci(25, 0);
    DeepCounts(extra);
    forall h: Tree | h.Complete() && h.count == Counts(input)
      ensures h.LeafDepths()[END] == 25
    {
      FibonacciDepth(h, END, 25, extra);
    }
  }

  lemma DeepCounts(extra: nat)
    ensures |Counts(FibonacciInput(25) + Repeat(24, extra))| == END + 1
    ensures forall c: nat | c < END :: (Counts(FibonacciInput(25) + Repeat(24, extra))[c]
              == 2 * if c < 25 then Fib(c + 1) + if c == 24 then extra else 0 else 0)
    ensures Counts(FibonacciInput(25) + Repeat(24, extra))[END] == 1
  {
    hide Fib, FibonacciInput, Repeat, Occurrences;
    forall c: nat | c < END
      ensures Counts(FibonacciInput(25) + Repeat(24, extra))[c]
           == 2 * if c < 25 then Fib(c + 1) + if c == 24 then extra else 0 else 0
    {
      OccurrencesConcat(FibonacciInput(25), Repeat(24, extra), c);
      OccurrencesFibonacci(25, c);
      OccurrencesRepeat(24, extra, c);
    }
  }

  lemma {:induction false} LightestNode(a: set<nat>, w: seq<nat>) returns (x: nat)
    requires a != {} && forall i | i in a :: i < |w|
    ensures x in a && forall i | i in a :: w[x] <= w[i]
    decreases a
  {
    x :| x in a;
    if a != {x} {
      var y := LightestNode(a - {x}, w);
      if w[y] < w[x] {
        x := y;
      }
    }
  }

  lemma TwoLightest(a: set<nat>, w: seq<nat>) returns (x: nat, y: nat)
    requires |a| >= 2 && forall i | i in a :: i < |w|
    ensures Lightest(a, w, x, y)
  {
    x := LightestNode(a, w);
    SomeOther(a, x);
    y := LightestNode(a - {x}, w);
  }

  /** Two nodes can always be merged, and then there is one less. */
  lemma MergeTwo(h: Tree) returns (g: Tree)
    requires h.Greedy() && |h.Alive(|h.merges|)| >= 2
    ensures g.Greedy() && g.count == h.count
    ensures g.Alive(|g.merges|) != {} && |g.Alive(|g.merges|)| < |h.Alive(|h.merges|)|
  {
    hide *;
    var t := |h.merges|;
    UpwardParents(h, t);
    var x, y := TwoLightest(h.Alive(t), h.Weights(t));
    LightestAlive(h.Alive(t), h.Weights(t), x, y);
    MergeRecorded(h, x, y);
    g := Record(h, x, y);
    OneLess(h.Alive(t), x, y, h.Leaves() + t);
    SameCounts(h, x, y);
  }

  lemma LightestAlive(a: set<nat>, w: seq<nat>, x: nat, y: nat)
    requires Lightest(a, w, x, y)
    ensures x in a && y in a && x != y && x < |w| && y < |w|
  {
  }

  lemma SameCounts(h: Tree, x: nat, y: nat)
    ensures Record(h, x, y).count == h.count
  {
  }

  lemma SomeOther(a: set<nat>, x: nat)
    requires x in a && |a| >= 2
    ensures a - {x} != {}
  {
    assert |a - {x}| == |a| - 1;
  }

  lemma OneLess(a: set<nat>, x: nat, y: nat, p: nat)
    requires x in a && y in a && x != y
    ensures |a - {x} - {y} + {p}| < |a|
  {
    assert |a - {x}| == |a| - 1;
    assert |a - {x} - {y}| == |a| - 2;
    assert |a - {x} - {y} + {p}| <= |a - {x} - {y}| + 1;
  }

  lemma Alone(a: set<nat>) returns (x: nat)
    requires |a| == 1
    ensures a == {x}
  {
    x :| x in a;
    assert |a - {x}| == 0;
  }

  /** Merging can always be carried on to the end. */
  lemma {:induction false} FinishTree(h: Tree) returns (g: Tree)
    requires h.Greedy() && h.Alive(|h.merges|) != {}
    ensures g.Complete() && g.count == h.count
    decreases |h.Alive(|h.merges|)|
  {
    if |h.Alive(|h.merges|)| >= 2 {
      g := MergeTwo(h);
      g := FinishTree(g);
    } else {
      var x := Alone(h.Alive(|h.merges|));
      g := h;
    }
  }

  /** An input of length n whose tree is too deep exists if and only if n is at least 196417. */
  lemma GuardExact(n: nat)
    ensures n >= DEEP_INPUT <==>
            exists input: seq<byte>, h: Tree ::
              |input| == n && h.Complete() && h.count == Counts(input) && h.LeafDepths()[END] > MAXLEV
  {
    forall input: seq<byte>, h: Tree
      | |input| == n && h.Complete() && h.count == Counts(input) && h.LeafDepths()[END] > MAXLEV
      ensures n >= DEEP_INPUT
    {
      DeepInput(h, input);
    }
    if n >= DEEP_INPUT {
      var input := GuardCanFire(n);
      var h := Tree(Counts(input), []);
      assert Counts(input)[END] == 1;
      assert END in h.Symbols();
      h := FinishTree(h);
    }
  }

  // ---- The size of the packed file

  lemma TextBitsIs(l: seq<nat>, w: seq<nat>, k: nat)
    requires |l| == |w| && k <= |l|
    ensures TextBits(l, w, k) == if k == 0 then 0 else TextBits(l, w, k - 1) + l[k - 1] * (w[k - 1] / 2)
  {
  }

  lemma OneMoreByte(l: nat, v: nat)
    ensures l * ((v + 2) / 2) == l * (v / 2) + l
  {
    var h := v / 2;
    assert (v + 2) / 2 == h + 1;
    assert l * (h + 1) == l * h + l;
  }

  lemma {:induction false} TextBitsPush(l: seq<nat>, v: seq<nat>, w: seq<nat>, b: nat, k: nat)
    requires |l| == |v| == |w| && k <= |l| && b < |l|
    requires forall c | 0 <= c < |l| :: w[c] == v[c] + if c == b then 2 else 0
    ensures TextBits(l, w, k) == TextBits(l, v, k) + if b < k then l[b] else 0
  {
    hide TextBits;
    if k == 0 {
      TextBitsIs(l, v, k);
      TextBitsIs(l, w, k);
    } else {
      var c := k - 1;
      TextBitsPush(l, v, w, b, c);
      TextBitsIs(l, v, k);
      TextBitsIs(l, w, k);
      if b == c {
        OneMoreByte(l[c], v[c]);
      }
    }
  }

  lemma {:induction false} NoText(l: seq<nat>, k: nat)
    requires k <= |l| == END + 1
    ensures TextBits(l, Counts([]), k) == 0
  {
    if k > 0 {
      NoText(l, k - 1);
    }
  }

  /** The encoded text is as long as the counts and the code lengths say. */
  lemma {:induction false} EncodedSize(l: Lengths, input: seq<byte>)
    ensures |Encoded(l, input)| == TextBits(l, Counts(input), END + 1)
  {
    if input == [] {
      NoText(l, END + 1);
    } else {
      var k := |input| - 1;
      EncodedSize(l, input[..k]);
      TextBitsPush(l, Counts(input[..k]), Counts(input), input[k], END + 1);
    }
  }

  function Between(s: seq<nat>, k: nat): set<nat> {
    set c: nat | c < |s| && 1 <= s[c] <= k
  }

  lemma BetweenPush(s: seq<nat>, x: nat, k: nat)
    ensures Between(s + [x], k) == if 1 <= x <= k then Between(s, k) + {|s|} else Between(s, k)
    ensures |Between(s + [x], k)| == |Between(s, k)| + if 1 <= x <= k then 1 else 0
  {
    assert forall c: nat | c < |s| :: (s + [x])[c] == s[c];
    assert |s| !in Between(s, k);
  }

  lemma {:induction false} LevelTotalIsSize(s: seq<nat>, k: nat)
    ensures Unpack.LevelTotal(s, k) == |Between(s, k)|
  {
    hide Unpack.LevelTotal;
    if s == [] {
      Unpack.LevelTotalBound(s, k);
      assert Between(s, k) == {};
    } else {
      var c := |s| - 1;
      LevelTotalIsSize(s[..c], k);
      Unpack.LevelTotalPush(s[..c], s[c], k);
      BetweenPush(s[..c], s[c], k);
      assert s[..c] + [s[c]] == s;
    }
  }

  /** The dictionary has one byte for each distinct byte of the input. */
  lemma DictionaryIsBytes(h: Tree, input: seq<byte>)
    requires h.Complete() && h.count == Counts(input) && input != []
    ensures |Dictionary(h.LeafDepths(), h.LeafDepths()[END])| == |Bytes(input)|
  {
    var l: Lengths := h.LeafDepths();
    EndIsDeepest(h, input);
    Unpack.DictionarySize(l, l[END]);
    LevelTotalIsSize(l[..END], l[END]);
    forall c: nat | c < END
      ensures 1 <= l[c] <==> c in Bytes(input)
    {
      OccursIfIn(input, c);
      CodeSpace.SymbolDepths(h, c, END);
    }
    assert Between(l[..END], l[END]) == Bytes(input);
  }

  /** pack's estimate leaves out the end marker and one header byte: the file it writes is one to four
      bytes longer. It still takes no more blocks than the input. */
  lemma PackedSize(h: Tree, input: seq<byte>, file: seq<byte>)
    requires h.Complete() && h.count == Counts(input) && input != [] && 1 <= h.LeafDepths()[END] <= MAXLEV
    requires IsPacked(file, input, h.LeafDepths())
    ensures Estimate(h.LeafDepths(), input) < |file| <= Estimate(h.LeafDepths(), input) + 4
    ensures Blocks(Estimate(h.LeafDepths(), input)) < Blocks(|input|) ==> Blocks(|file|) <= Blocks(|input|)
  {
    var l: Lengths := h.LeafDepths();
    EncodedSize(l, input);
    DictionaryIsBytes(h, input);
    hide Encoded, Dictionary, TextBits, ByteBits, Depths;
    assert |Prelude(l, |input|)| == 7 + l[END] + |Bytes(input)|;
    assert |Stream(l, input)| == TextBits(l, Counts(input), END + 1) + l[END];
  }
}
