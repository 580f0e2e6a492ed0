/** The program pack: counting, the heap, the tree in the parent array, the code lengths, the code
    bits and the output, with the tables of the C program as arrays. */
module Pack {
  import opened Basics
  import opened Sums
  import opened BitStrings
  import opened HuffmanTree
  import opened PackHeap
  import opened HeapTree
  import opened PackCode
  import opened PackBits
  import opened CodeSpace
  import opened DepthBound
  import Decoding
  import Unpack

  function Occurrences(input: seq<byte>, c: nat): nat {
    if input == [] then 0
    else Occurrences(input[..|input| - 1], c) + if input[|input| - 1] as nat == c then 1 else 0
  }

  /** What packfile can come to; all but Packed leave the file unchanged. */
  datatype Outcome = Packed(file: seq<byte>) | TrivialFile | TooManyLevels | NoSaving

  /** The shortest input that can give a tree deeper than 24: Fib(27) - 1 bytes. */
  const DEEP_INPUT: nat := 196417

  function Bytes(input: seq<byte>): set<nat> {
    set b | b in input
  }

  function Blocks(n: nat): (k: nat)
    ensures n <= 512 * k < n + 512
  {
    (n + 511) / 512
  }

  /** The size pack expects the packed file to have. */
  function Estimate(l: Lengths, input: seq<byte>): nat {
    (TextBits(l, Counts(input), END + 1) + 7) / 8 + 6 + l[END] + |Bytes(input)|
  }

  /** Twice the number of occurrences of every byte, and 1 for END. */
  function Counts(input: seq<byte>): Lengths {
    seq(END + 1, c requires 0 <= c => if c == END then 1 else 2 * Occurrences(input, c))
  }

  /** The symbols from i on that occur. */
  function Occurring(w: seq<nat>, i: nat): set<nat> {
    set x: nat | i <= x < |w| && w[x] > 0
  }

  lemma NoneOccurring(w: seq<nat>)
    ensures Occurring(w, |w|) == {} && Sum(w[|w|..]) == 0
  {
  }

  lemma OccurringStep(w: seq<nat>, i: nat)
    requires i < |w|
    ensures Occurring(w, i) == if w[i] > 0 then Occurring(w, i + 1) + {i} else Occurring(w, i + 1)
    ensures i !in Occurring(w, i + 1)
  {
  }

  lemma {:induction false} SumFront(s: seq<int>)
    requires s != []
    ensures Sum(s) == s[0] + Sum(s[1..])
  {
    if |s| > 1 {
      SumFront(s[..|s| - 1]);
      assert s[..|s| - 1][1..] == s[1..][..|s| - 2];
    }
  }

  class Packer {
    var n: nat
    var lastnode: nat
    var maxlev: nat
    var insize: nat
    var diffbytes: int
    var bitsout: nat
    const count: array<nat>
    const parent: array<nat>
    const heap: array<Entry>
    const levcount: array<nat>
    const length: array<nat>
    const bits: array<nat>

    /** levcount has 25 entries in the C program; the writes past them that a tree deeper than 24
        would cause go to the further entries here. */
    constructor ()
      ensures Shape()
      ensures fresh(count) && fresh(parent) && fresh(heap) && fresh(levcount) && fresh(length) && fresh(bits)
    {
      n, lastnode, maxlev, insize, diffbytes, bitsout := 0, 0, 0, 0, 0, 0;
      count, parent, heap := new nat[257], new nat[513], new Entry[258];
      levcount, length, bits := new nat[513], new nat[257], new nat[257];
    }

    ghost predicate Shape() {
      && count.Length == length.Length == bits.Length == 257
      && parent.Length == levcount.Length == 513 && heap.Length == 258
      && count != length && count != bits && length != bits && parent != levcount
    }

    /** Gathers the character frequencies. */
    method Input(input: seq<byte>)
      requires Shape()
      modifies count
      ensures count[..END] == Counts(input)[..END]
    {
      var i := 0;
      while i < END
        invariant 0 <= i <= END && forall c | 0 <= c < i :: count[c] == 0
      {
        count[i] := 0;
        i := i + 1;
      }
      i := 0;
      assert input[..0] == [];
      while i < |input|
        invariant 0 <= i <= |input|
        invariant forall c | 0 <= c < END :: count[c] == 2 * Occurrences(input[..i], c)
      {
        assert input[..i + 1][..i] == input[..i];
        count[input[i]] := count[input[i]] + 2;
        i := i + 1;
      }
      assert input[..|input|] == input;
    }

    /** Puts symbol i into the heap array, if it occurs. */
    method PushSymbol(i: nat, ghost w: Lengths)
      requires Shape() && i <= END && count[i] == w[i] && n <= 256 - i && diffbytes == n - 1
      requires HeapHolds(heap[..], n, Occurring(w, i + 1), w) && insize == Sum(w[i + 1..])
      modifies this`n, this`insize, this`diffbytes, heap
      ensures n <= 257 - i && diffbytes == n - 1
      ensures HeapHolds(heap[..], n, Occurring(w, i), w) && insize == Sum(w[i..])
    {
      hide HeapHolds, Sum, Occurring;
      OccurringStep(w, i);
      SumFront(w[i..]);
      assert w[i..][1..] == w[i + 1..];
      if count[i] > 0 {
        diffbytes := diffbytes + 1;
        insize := insize + count[i];
        n := n + 1;
        ghost var h := heap[..];
        heap[n] := Entry(count[i], i);
        assert heap[..] == h[n := Entry(w[i], i)];
        EntryPushed(h, heap[..], n, Occurring(w, i + 1), w, i);
      }
    }

    /** Puts the occurring symbols into the heap array, END first. */
    method FillHeap(ghost w: Lengths)
      requires Shape() && count[..END] == w[..END] && w[END] == 1
      modifies this`n, this`insize, this`diffbytes, count, parent, heap
      ensures count[..] == w && n < heap.Length && forall i | 0 <= i <= END :: parent[i] == 0
      ensures HeapHolds(heap[..], n, Occurring(w, 0), w)
      ensures diffbytes == n - 1 && insize == Sum(w)
    {
      hide HeapHolds, Sum, Occurring;
      diffbytes := -1;
      count[END] := 1;
      SameLast(count[..], w, END);
      insize, n := 0, 0;
      var i := 257;
      EmptyHeap(heap[..], w);
      NoneOccurring(w);
      while i > 0
        modifies this`n, this`insize, this`diffbytes, parent, heap
        invariant 0 <= i <= 257 && n <= 257 - i && diffbytes == n - 1
        invariant forall j | i <= j <= END :: parent[j] == 0
        invariant HeapHolds(heap[..], n, Occurring(w, i), w) && insize == Sum(w[i..])
      {
        i := i - 1;
        parent[i] := 0;
        PushSymbol(i, w);
      }
      assert w[0..] == w;
    }

    /** First half of a turn of the tree building loop: the lightest node x leaves the heap. */
    method TakeFirst(ghost h: Tree) returns (inc: nat, ghost x: nat)
      requires Shape() && 2 <= n && HeapOf(heap[..], n, h)
      requires h.Greedy() && h.Leaves() == END + 1 && lastnode == END + |h.merges| < 512
      modifies this`n, this`lastnode, parent, heap
      ensures n == old(n) - 1 && lastnode == old(lastnode) + 1
      ensures x in h.Alive(|h.merges|) && x < |h.Weights(|h.merges|)| && inc == h.Weights(|h.merges|)[x]
      ensures forall i | i in h.Alive(|h.merges|) ::
                i < |h.Weights(|h.merges|)| && inc <= h.Weights(|h.merges|)[i]
      ensures parent[..] == old(parent[..])[x := lastnode]
      ensures HeapFrom(heap[..], n, 1)
      ensures HeapHolds(heap[..], n, h.Alive(|h.merges|) - {x}, h.Weights(|h.merges|))
    {
      hide HeapHolds, HeapFrom, Rearranged;
      ghost var s := heap[..];
      assert n < heap.Length;
      FirstTaken(s, n, h);
      x := heap[1].node;
      lastnode := lastnode + 1;
      parent[heap[1].node] := lastnode;
      inc := heap[1].count;
      heap[1] := heap[n];
      n := n - 1;
      assert heap[..] == s[1 := s[n + 1]];
      s := heap[..];
      Heapify(heap, n, 1);
      Resifted(s, heap[..], n, h.Alive(|h.merges|) - {x}, h.Weights(|h.merges|));
    }

    /** Second half: the next lightest node y is replaced by the parent of x and y. */
    method TakeSecond(ghost h: Tree, inc: nat, ghost x: nat) returns (ghost y: nat)
      requires Shape() && 1 <= n < heap.Length && HeapFrom(heap[..], n, 1)
      requires h.Greedy() && h.Leaves() == END + 1 && lastnode == END + 1 + |h.merges| <= 512
      requires HeapHolds(heap[..], n, h.Alive(|h.merges|) - {x}, h.Weights(|h.merges|))
      requires x in h.Alive(|h.merges|) && x < |h.Weights(|h.merges|)| && inc == h.Weights(|h.merges|)[x]
      requires forall i | i in h.Alive(|h.merges|) ::
                 i < |h.Weights(|h.merges|)| && inc <= h.Weights(|h.merges|)[i]
      modifies parent, heap
      ensures Lightest(h.Alive(|h.merges|), h.Weights(|h.merges|), x, y)
      ensures Record(h, x, y).Greedy() && HeapOf(heap[..], n, Record(h, x, y))
      ensures y < h.Leaves() + |h.merges| && parent[..] == old(parent[..])[y := lastnode]
    {
      hide HeapHolds, HeapFrom, Rearranged;
      ghost var s := heap[..];
      SecondTaken(s, n, h, x);
      y := heap[1].node;
      ghost var g := Record(h, x, y);
      parent[heap[1].node] := lastnode;
      heap[1] := heap[1].(node := lastnode);
      heap[1] := heap[1].(count := heap[1].count + inc);
      assert heap[..] == s[1 := Entry(inc + s[1].count, lastnode)];
      s := heap[..];
      Heapify(heap, n, 1);
      Resifted(s, heap[..], n, g.Alive(|g.merges|), g.Weights(|g.merges|));
    }

    /** Makes a heap of the entries by sifting from the last inner position down to the first. */
    method MakeHeap(ghost a: set<nat>, ghost w: Lengths)
      requires Shape() && 1 <= n < heap.Length && HeapHolds(heap[..], n, a, w)
      modifies heap
      ensures HeapFrom(heap[..], n, 1) && HeapHolds(heap[..], n, a, w)
    {
      hide HeapFrom, HeapHolds, Rearranged;
      var i := n / 2;
      NoParents(heap[..], n);
      while i >= 1
        invariant 0 <= i <= n / 2
        invariant HeapFrom(heap[..], n, i + 1) && HeapHolds(heap[..], n, a, w)
      {
        ghost var s := heap[..];
        Heapify(heap, n, i);
        Resifted(s, heap[..], n, a, w);
        i := i - 1;
      }
    }

    /** Builds the tree. The ghost result is the history of its merges. */
    /** Merges the two lightest live nodes. */
    method MergeOnce(ghost h: Tree) returns (ghost g: Tree)
      requires Shape() && 2 <= n && h.Greedy() && HeapOf(heap[..], n, h) && ParentsHold(parent[..], h)
      requires h.Leaves() == END + 1 && lastnode == END + |h.merges| < 512
      modifies this`n, this`lastnode, parent, heap
      ensures n == old(n) - 1 && lastnode == old(lastnode) + 1
      ensures g.count == h.count && |g.merges| == |h.merges| + 1
      ensures g.Greedy() && HeapOf(heap[..], n, g) && ParentsHold(parent[..], g)
    {
      hide HeapFrom, HeapHolds, Rearranged, ParentsHold, Lightest, Record, HeapOf;
      HeapInside(heap[..], n, h);
      ghost var p := parent[..];
      ghost var x, y;
      var inc;
      inc, x := TakeFirst(h);
      y := TakeSecond(h, inc, x);
      ParentsStep(p, h, x, y);
      RecordFields(h, x, y);
      g := Record(h, x, y);
    }

    method BuildTree(ghost w: Lengths) returns (ghost h: Tree)
      requires Shape() && 1 <= n < heap.Length && w[END] == 1
      requires HeapHolds(heap[..], n, Occurring(w, 0), w)
      requires forall i | 0 <= i <= END :: parent[i] == 0
      modifies this`n, this`lastnode, parent, heap
      ensures h.count == w && h.Complete() && |h.merges| == old(n) - 1
      ensures lastnode == END + |h.merges| && parent[..lastnode + 1] == h.Parent()
    {
      h := Tree(w, []);
      assert Occurring(w, 0) == h.Symbols();
      hide HeapFrom, HeapHolds, Rearranged, ParentsHold, Lightest, Record, HeapOf;
      MakeHeap(h.Symbols(), w);
      lastnode := END;
      ParentsStart(parent[..], h);
      HeapIsOf(heap[..], n, h);
      while n > 1
        invariant n + |h.merges| == old(n) <= 257 && n >= 1 && lastnode == END + |h.merges|
        invariant h.count == w && h.Greedy() && HeapOf(heap[..], n, h) && ParentsHold(parent[..], h)
      {
        h := MergeOnce(h);
      }
      AllMerged(heap[..], h, parent[..]);
      parent[lastnode] := 0;
    }

    /** Counts the steps from symbol i to the root. */
    method WalkUp(i: nat, ghost p: seq<nat>) returns (c: nat)
      requires Shape() && Upward(p) && |p| <= 513 && p == parent[..|p|] && i < |p|
      ensures c == Depth(p, i) < |p|
    {
      c := 0;
      var q := parent[i];
      while q != 0
        invariant q < |p| && Depth(p, i) == c + if q == 0 then 0 else 1 + Depth(p, q)
        decreases if q == 0 then 0 else |p| - q
      {
        c := c + 1;
        q := parent[q];
      }
      DepthSmall(p, i);
    }

    /** Reads the code length of every symbol off the parent array. */
    method AssignLengths(ghost h: Tree)
      requires Shape() && h.Greedy() && h.Leaves() == END + 1
      requires count[..] == h.count && |h.Parent()| <= 513 && parent[..|h.Parent()|] == h.Parent()
      modifies this`maxlev, this`bitsout, levcount, length
      ensures length[..] == h.LeafDepths()
      ensures forall c | 0 <= c <= END :: length[c] <= maxlev
      ensures maxlev == 0 || exists c | 0 <= c <= END :: length[c] == maxlev
      ensures forall j | 1 <= j <= 24 :: levcount[j] == |Level(length[..], j)|
      ensures bitsout == TextBits(length[..], h.count, END + 1)
    {
      hide Level, TextBits, Depth;
      UpwardParents(h, |h.merges|);
      bitsout, maxlev := 0, 0;
      var i := 1;
      while i <= 24
        modifies levcount
        invariant 1 <= i <= 25 && forall j | 1 <= j < i :: levcount[j] == 0
      {
        levcount[i] := 0;
        i := i + 1;
      }
      ghost var d := h.LeafDepths();
      LevelStart(d, h.count);
      i := 0;
      while i <= END
        modifies this`maxlev, this`bitsout, levcount, length
        invariant 0 <= i <= END + 1
        invariant length[..i] == d[..i]
        invariant forall c | 0 <= c < i :: d[c] <= maxlev
        invariant maxlev == 0 || exists c | 0 <= c < i :: d[c] == maxlev
        invariant forall j | 1 <= j <= 24 :: levcount[j] == |Level(d[..i], j)|
        invariant bitsout == TextBits(d, h.count, i)
      {
        var c := WalkUp(i, h.Parent());
        LevelPush(d, h.count, i);
        levcount[c] := levcount[c] + 1;
        length[i] := c;
        if c > maxlev {
          maxlev := c;
        }
        bitsout := bitsout + c * (count[i] / 2);
        i := i + 1;
      }
      assert d[..END + 1] == d;
    }

    /** The patterns of level i. */
    method LevelBits(ghost l: Lengths, i: nat, ghost k: nat, inc: nat, from: int) returns (mask: int)
      requires Shape() && l == length[..] && 1 <= i <= 24 && k == 24 - i && inc == Pow2(k) && from == Scaled(Inner(l, i), k)
      requires forall c | 0 <= c <= END :: l[c] <= 24
      requires forall c | 0 <= c <= END && l[c] > i :: bits[c] == Scaled(CodeValue(l, c), 24 - l[c])
      modifies bits
      ensures mask == Scaled(Inner(l, i) + |Level(l, i)|, k)
      ensures forall c | 0 <= c <= END && l[c] >= i :: bits[c] == Scaled(CodeValue(l, c), 24 - l[c])
    {
      hide Scaled, CodeValue, Inner, Level, Pow2;
      mask := from;
      var c := 0;
      FirstOfLevel(l, i);
      while c <= END
        invariant 0 <= c <= END + 1
        invariant mask == Scaled(Inner(l, i) + |Level(l[..c], i)|, k)
        invariant forall x | 0 <= x <= END && (l[x] > i || (l[x] == i && x < c)) ::
                    bits[x] == Scaled(CodeValue(l, x), 24 - l[x])
      {
        NextOfLevel(l, i, c, k);
        if length[c] == i {
          bits[c] := mask;
          mask := mask + inc;
        }
        c := c + 1;
      }
      assert l[..END + 1] == l;
    }

    /** Computes the bit pattern of each symbol, left-aligned in 24 bits. */
    method ComputeBits(ghost l: Lengths) returns (mask: int)
      requires Shape() && FullCode(l) && l == length[..] && maxlev == l[END]
      modifies bits
      ensures mask == Pow2(24)
      ensures forall c | 0 <= c <= END && l[c] > 0 :: bits[c] == Scaled(CodeValue(l, c), 24 - l[c])
    {
      hide Scaled, FullCode, CodeValue, Inner, Level, EvenLevel;
      FullCodeFacts(l);
      var k := 24 - maxlev;
      var inc := Pow2(k);
      mask := 0;
      var i := maxlev;
      while i > 0
        invariant 0 <= i <= maxlev && k == 24 - i && inc == Pow2(k)
        invariant mask == Scaled(Inner(l, i), k)
        invariant forall c | 0 <= c <= END && l[c] > i :: bits[c] == Scaled(CodeValue(l, c), 24 - l[c])
      {
        mask := LevelBits(l, i, k, inc, mask);
        EvenLevelAt(l, i - 1);
        BitIsClear(Inner(l, i - 1), k);
        mask := AndNot(mask, k);
        inc := inc * 2;
        k := k + 1;
        i := i - 1;
      }
      WholeCodeSpace(24);
    }

    /** Writes the packed file. */
    method Output(input: seq<byte>, ghost l: Lengths) returns (file: seq<byte>)
      requires Shape() && FullCode(l) && l == length[..] && maxlev == l[END] <= MAXLEV && insize == |input|
      requires 1 <= maxlev
      requires forall k | 0 <= k < |input| :: 1 <= l[input[k]] <= 24
      requires forall c | 0 <= c <= END && l[c] > 0 :: bits[c] == Scaled(CodeValue(l, c), 24 - l[c])
      requires forall j | 1 <= j <= 24 :: levcount[j] == |Level(l, j)|
      ensures IsPacked(file, input, l)
    {
      hide FullCode, CodeValue, Word, Stream, Encoded, IsBody, Written, Scaled, ByteBits, Zeros;
      var head := WritePrelude(l);
      var outp: seq<byte>, cur: byte, bitsleft := [], 0, 8;
      ghost var s: seq<bool> := [];
      StartWriting(cur, l);
      var k := 0;
      var c: nat := 0;
      assert input[..0] == [];
      while k < |input|
        invariant 0 <= k <= |input|
        invariant 0 <= bitsleft <= 8 && Written(outp, cur, bitsleft, Encoded(l, input[..k]))
      {
        c := input[k];
        LeftAligned(l, c);
        EncodedNext(l, input, k);
        outp, cur, bitsleft := Emit(bits[c], length[c], outp, cur, bitsleft, Encoded(l, input[..k]), Word(l, c));
        k := k + 1;
      }
      assert input[..|input|] == input;
      LeftAligned(l, END);
      outp, cur, bitsleft := Emit(bits[END], length[END], outp, cur, bitsleft, Encoded(l, input), Word(l, END));
      file := head + (outp + [cur]);
      FinishWriting(outp, cur, bitsleft, l, input);
      assert file[|head|..] == outp + [cur];
    }

    /** Writes the header, the level counts and the dictionary. */
    method WritePrelude(ghost l: Lengths) returns (head: seq<byte>)
      requires Shape() && l == length[..] && maxlev == l[END] && 1 <= maxlev <= MAXLEV
      requires forall j | 1 <= j <= 24 :: levcount[j] == |Level(l, j)|
      ensures head == Prelude(l, insize)
    {
      hide Level, Dictionary;
      var temp := insize;
      var i := 5;
      var four: seq<byte> := [];
      while i >= 2
        invariant 1 <= i <= 5
        invariant i == 5 ==> temp == insize && four == []
        invariant i == 4 ==> temp == insize / 256 && four == [insize % 256]
        invariant i == 3 ==> temp == insize / 256 / 256 && four == [insize / 256 % 256, insize % 256]
        invariant i == 2 ==> temp == insize / 256 / 256 / 256 &&
                             four == [insize / 256 / 256 % 256, insize / 256 % 256, insize % 256]
        invariant i == 1 ==> four == FourBytes(insize)
      {
        four := [temp % 256] + four;
        temp := temp / 256;
        i := i - 1;
      }
      head := [31, 30] + four + [maxlev];
      ghost var start := head;
      i := 1;
      while i < maxlev
        invariant 1 <= i <= maxlev && head == start + LevelBytes(l, i - 1)
      {
        head := head + [levcount[i] % 256];
        i := i + 1;
      }
      head := head + [(levcount[maxlev] + 254) % 256];
      start := head;
      i := 1;
      NoDictionary(l);
      while i <= maxlev
        invariant 1 <= i <= maxlev + 1 && head == start + Dictionary(l, i - 1)
      {
        ghost var before := head;
        var c := 0;
        assert l[..0] == [];
        EmptyLevel(i);
        while c < END
          invariant 0 <= c <= END && head == before + Level(l[..c], i)
        {
          NextInLevel(l, i, c);
          if length[c] == i {
            head := head + [c];
          }
          c := c + 1;
        }
        DictionaryNext(l, i);
        i := i + 1;
      }
    }

    /** Counts the bytes and builds the tree, unless there is only one byte to encode. */
    method MakeTree(input: seq<byte>) returns (trivial: bool, ghost h: Tree)
      requires Shape()
      modifies this, count, parent, heap
      ensures trivial <==> |Bytes(input)| == 1
      ensures !trivial ==> h.count == Counts(input) && h.Complete() && h.Leaves() == END + 1 && count[..] == h.count
      ensures !trivial ==> |h.Parent()| <= 513 && parent[..|h.Parent()|] == h.Parent()
      ensures !trivial ==> insize == |input| && diffbytes == |Bytes(input)|
    {
      hide HeapHolds, Occurring, Counts;
      ghost var w := Counts(input);
      Input(input);
      CountFacts(input);
      FillHeap(w);
      h := Tree(w, []);
      SizeOfHeap(heap[..], n, w);
      if diffbytes == 1 {
        return true, h;
      }
      insize := insize / 2;
      h := BuildTree(w);
      trivial := false;
    }

    /** Packs the input. The ghost result is the history of the tree's merges. */
    method PackFile(input: seq<byte>) returns (r: Outcome, ghost h: Tree)
      requires Shape()
      modifies this, count, parent, heap, levcount, length, bits
      ensures r.TrivialFile? <==> |Bytes(input)| == 1
      ensures !r.TrivialFile? ==> h.count == Counts(input) && h.Complete()
      ensures r.TooManyLevels? ==> h.LeafDepths()[END] > MAXLEV && |input| >= DEEP_INPUT
      ensures r.NoSaving? ==> h.LeafDepths()[END] <= MAXLEV
                              && Blocks(|input|) <= Blocks(Estimate(h.LeafDepths(), input))
      ensures r.Packed? ==> h.LeafDepths()[END] <= MAXLEV
                            && Blocks(|input|) > Blocks(Estimate(h.LeafDepths(), input))
      ensures r.Packed? ==> FullCode(h.LeafDepths()) && IsPacked(r.file, input, h.LeafDepths())
      ensures r.Packed? ==> Unpack.UnpackFile(r.file) == Unpack.Unpacked(input)
      ensures r.Packed? ==> forall n | 0 <= n < |r.file| :: !Unpack.UnpackFile(r.file[..n]).Unpacked?
    {
      hide FullCode, IsPacked, TextBits, Level, Depth, CodeValue, Scaled, Unpack.UnpackFile, Estimate, Blocks, Counts;
      var trivial;
      trivial, h := MakeTree(input);
      if trivial {
        return TrivialFile, h;
      }
      AssignLengths(h);
      ghost var l: Lengths := h.LeafDepths();
      EndIsDeepest(h, input);
      DeepestIs(l, maxlev);
      if maxlev > 24 {
        DeepInput(h, input);
        return TooManyLevels, h;
      }
      var outsize := (bitsout + 7) / 8 + 6 + maxlev + diffbytes;
      Sizes(l, input, bitsout);
      BlocksOf(insize);
      BlocksOf(outsize);
      if (insize + 511) / 512 <= (outsize + 511) / 512 {
        return NoSaving, h;
      }
      var file := Encode(input, h);
      return Packed(file), h;
    }

    /** The packed file, once it is known to be worth writing. */
    method Encode(input: seq<byte>, ghost h: Tree) returns (file: seq<byte>)
      requires Shape() && h.Complete() && h.count == Counts(input) && input != []
      requires length[..] == h.LeafDepths() && maxlev == h.LeafDepths()[END] <= MAXLEV && insize == |input|
      requires forall j | 1 <= j <= 24 :: levcount[j] == |Level(h.LeafDepths(), j)|
      modifies bits
      ensures FullCode(h.LeafDepths()) && IsPacked(file, input, h.LeafDepths())
      ensures Unpack.UnpackFile(file) == Unpack.Unpacked(input)
      ensures forall n | 0 <= n < |file| :: !Unpack.UnpackFile(file[..n]).Unpacked?
    {
      hide FullCode, IsPacked, TextBits, Level, Occurring, Depth, CodeValue, Scaled, Unpack.UnpackFile, Counts;
      ghost var l: Lengths := h.LeafDepths();
      TableIsFull(h, input);
      var mask := ComputeBits(l);
      file := Output(input, l);
      Unpack.RoundTrip(file, input, l);
      forall n | 0 <= n < |file|
        ensures !Unpack.UnpackFile(file[..n]).Unpacked?
      {
        Decoding.CutFile(file, input, l, n);
      }
    }
  }

  lemma BlocksOf(n: nat)
    ensures Blocks(n) == (n + 511) / 512
  {
  }

  lemma Sizes(l: Lengths, input: seq<byte>, bitsout: nat)
    requires bitsout == TextBits(l, Counts(input), END + 1)
    ensures Estimate(l, input) == (bitsout + 7) / 8 + 6 + l[END] + |Bytes(input)|
  {
  }

  /** The bits the text takes, without END: half of every count times the code length. */
  function TextBits(l: seq<nat>, count: seq<nat>, k: nat): nat
    requires k <= |l| && k <= |count|
  {
    if k == 0 then 0 else TextBits(l, count, k - 1) + l[k - 1] * (count[k - 1] / 2)
  }

  lemma {:induction false} DepthSmall(p: seq<nat>, i: nat)
    requires Upward(p) && i < |p|
    ensures Depth(p, i) < |p| - i
    decreases |p| - i
  {
    if p[i] != 0 {
      DepthSmall(p, p[i]);
    }
  }

  lemma LevelStart(d: seq<nat>, w: seq<nat>)
    ensures forall j :: Level(d[..0], j) == []
    ensures TextBits(d, w, 0) == 0
  {
  }

  lemma LevelPush(d: seq<nat>, w: seq<nat>, i: nat)
    requires i < |d| && i < |w|
    ensures forall j :: |Level(d[..i + 1], j)| == |Level(d[..i], j)| + if j == d[i] then 1 else 0
    ensures TextBits(d, w, i + 1) == TextBits(d, w, i) + d[i] * (w[i] / 2)
  {
    assert d[..i + 1][..i] == d[..i];
  }

  lemma FullCodeFacts(l: Lengths)
    requires FullCode(l)
    ensures 1 <= l[END] <= MAXLEV && Inner(l, l[END]) == 0 && Inner(l, 0) == 1 && Scaled(0, 24 - l[END]) == 0
    ensures forall c | 0 <= c <= END :: l[c] <= l[END]
  {
  }

  lemma WholeCodeSpace(k: nat)
    ensures Scaled(1, k) == Pow2(k)
  {
  }

  lemma FirstOfLevel(l: Lengths, i: nat)
    ensures |Level(l[..0], i)| == 0
  {
  }

  lemma NextOfLevel(l: Lengths, i: nat, c: nat, k: nat)
    requires c <= END
    ensures |Level(l[..c + 1], i)| == |Level(l[..c], i)| + if l[c] == i then 1 else 0
    ensures l[c] == i ==> CodeValue(l, c) == Inner(l, i) + |Level(l[..c], i)|
    ensures var v := Inner(l, i) + |Level(l[..c], i)|; Scaled(v + 1, k) == Scaled(v, k) + Pow2(k) && Scaled(v, k) >= 0
  {
    hide Inner;
    assert l[..c + 1][..c] == l[..c];
    ScaledAdd(Inner(l, i) + |Level(l[..c], i)|, 1, k);
  }

  lemma EvenLevelAt(l: Lengths, i: nat)
    requires FullCode(l) && i < l[END]
    ensures Inner(l, i + 1) + |Level(l, i + 1)| == 2 * Inner(l, i)
  {
    assert EvenLevel(l, i);
  }

  /** mask &= ~(1 << k). */
  function AndNot(mask: nat, k: nat): int {
    if Shr(mask, k) % 2 == 1 then mask - Pow2(k) else mask
  }

  /** Clearing the bit of the finished level changes nothing, since its number of nodes is even. */
  lemma BitIsClear(q: nat, k: nat)
    ensures Scaled(2 * q, k) >= 0 && AndNot(Scaled(2 * q, k), k) == Scaled(2 * q, k) == Scaled(q, k + 1)
  {
    ShrShift(2 * q, k, 0);
    ScaledDouble(q, k);
  }

  lemma NoDictionary(l: Lengths)
    ensures Dictionary(l, 0) == []
  {
  }

  lemma EmptyLevel(i: nat)
    ensures Level([], i) == []
  {
  }

  lemma NextInLevel(l: Lengths, i: nat, c: nat)
    requires c < END
    ensures Level(l[..c + 1], i) == Level(l[..c], i) + if l[c] == i then [c] else []
  {
    assert l[..c + 1][..c] == l[..c];
  }

  lemma DictionaryNext(l: Lengths, i: nat)
    requires i > 0
    ensures Dictionary(l, i) == Dictionary(l, i - 1) + Level(l[..END], i)
  {
  }

  lemma StartWriting(cur: byte, l: Lengths)
    ensures Written([], cur, 8, Encoded(l, []))
  {
  }

  /** The bit pattern of c is its word, followed by zeros. */
  lemma LeftAligned(l: Lengths, c: nat)
    requires FullCode(l) && c <= END && 1 <= l[c] <= 24
    ensures Scaled(CodeValue(l, c), 24 - l[c]) >= 0
    ensures var v: nat := Scaled(CodeValue(l, c), 24 - l[c]);
            Shr(v, 24) == 0 && Bits(v, 24) == Word(l, c) + Zeros(24 - l[c]) && |Word(l, c)| == l[c]
  {
    hide CodeValue, Inner;
    StaysInside(l, c, 0);
    ShrShift(CodeValue(l, c), 24 - l[c], l[c]);
    ShiftedBits(CodeValue(l, c), l[c], 24 - l[c]);
    RootOfCode(l);
  }

  lemma RootOfCode(l: Lengths)
    requires FullCode(l)
    ensures Inner(l, 0) == 1
  {
  }

  lemma EncodedNext(l: Lengths, input: seq<byte>, k: nat)
    requires k < |input|
    ensures Encoded(l, input[..k + 1]) == Encoded(l, input[..k]) + Word(l, input[k])
  {
    assert input[..k + 1][..k] == input[..k];
  }

  lemma FinishWriting(full: seq<byte>, cur: byte, bitsleft: int, l: Lengths, input: seq<byte>)
    requires Written(full, cur, bitsleft, Encoded(l, input) + Word(l, END)) && bitsleft < 8
    ensures IsBody(full + [cur], Stream(l, input))
  {
    hide Encoded, Word, ByteBits;
  }

  lemma {:induction false} OccursIfIn(input: seq<byte>, c: nat)
    ensures Occurrences(input, c) > 0 <==> c in Bytes(input)
  {
    if input != [] {
      var k := |input| - 1;
      OccursIfIn(input[..k], c);
      assert input == input[..k] + [input[k]];
    }
  }

  lemma SameLast(s: seq<nat>, t: seq<nat>, n: nat)
    requires |s| == |t| == n + 1 && s[..n] == t[..n] && s[n] == t[n]
    ensures s == t
  {
    assert forall i | 0 <= i < n :: s[i] == s[..n][i] && t[i] == t[..n][i];
  }

  lemma {:induction false} SumOfCounts(input: seq<byte>)
    ensures Sum(Counts(input)) == 2 * |input| + 1
  {
    if input == [] {
      assert Counts([])[..END] == seq(END, _ => 0);
      SumZero(Counts([])[..END]);
    } else {
      var k := |input| - 1;
      var w := Counts(input[..k]);
      SumOfCounts(input[..k]);
      SumUpdate(w, input[k], w[input[k]] + 2);
      assert Counts(input) == w[input[k] as nat := w[input[k]] + 2];
    }
  }

  lemma CountFacts(input: seq<byte>)
    ensures var w := Counts(input);
            && Sum(w) == 2 * |input| + 1 && w[END] == 1
            && Occurring(w, 0) == Bytes(input) + {END} && |Occurring(w, 0)| == |Bytes(input)| + 1
  {
    SumOfCounts(input);
    forall c: nat | c < END
      ensures Counts(input)[c] > 0 <==> c in Bytes(input)
    {
      OccursIfIn(input, c);
    }
    assert END !in Bytes(input);
    assert Occurring(Counts(input), 0) == Bytes(input) + {END};
  }

  lemma SizeOfHeap(s: seq<Entry>, n: nat, w: seq<nat>)
    requires HeapHolds(s, n, Occurring(w, 0), w)
    ensures n == |Occurring(w, 0)|
  {
  }

  /** END is on the deepest level. */
  lemma EndIsDeepest(h: Tree, input: seq<byte>)
    requires h.Complete() && h.count == Counts(input)
    ensures forall c | 0 <= c <= END :: h.LeafDepths()[c] <= h.LeafDepths()[END]
    ensures h.LeafDepths()[END] == 0 ==> input == [] || |Bytes(input)| == 1
  {
    CountFacts(input);
    forall c | 0 <= c <= END
      ensures h.LeafDepths()[c] <= h.LeafDepths()[END]
    {
      if c in h.Symbols() && c != END {
        LighterIsDeeper(h, END, c);
      } else if c != END {
        SymbolDepths(h, c, END);
      }
    }
    if input != [] {
      var x: nat := input[0];
      OccursIfIn(input, x);
      SymbolDepths(h, END, x);
    }
  }

  lemma DeepestIs(l: Lengths, maxlev: nat)
    requires forall c | 0 <= c <= END :: l[c] <= l[END] && l[c] <= maxlev
    requires maxlev == 0 || exists c | 0 <= c <= END :: l[c] == maxlev
    ensures maxlev == l[END]
  {
  }

  /** A tree with at least one byte and no more than 24 levels gives a full code. */
  lemma TableIsFull(h: Tree, input: seq<byte>)
    requires h.Complete() && h.count == Counts(input) && input != [] && h.LeafDepths()[END] <= MAXLEV
    ensures FullCode(h.LeafDepths()) && h.LeafDepths()[END] >= 1
    ensures forall k | 0 <= k < |input| :: 1 <= h.LeafDepths()[input[k]] <= MAXLEV
  {
    EndIsDeepest(h, input);
    OccursIfIn(input, input[0]);
    TreeGivesFullCode(h, input[0]);
    forall k | 0 <= k < |input|
      ensures 1 <= h.LeafDepths()[input[k]]
    {
      OccursIfIn(input, input[k]);
      SymbolDepths(h, input[k], END);
    }
  }

  lemma Fib27()
    ensures Fib(27) == 196418 == DEEP_INPUT + 1
  {
    hide Fib;
    FibSmall();
    FibNext(4); FibNext(5); FibNext(6); FibNext(7); FibNext(8); FibNext(9); FibNext(10); FibNext(11);
    FibNext(12); FibNext(13); FibNext(14); FibNext(15); FibNext(16); FibNext(17); FibNext(18); FibNext(19);
    FibNext(20); FibNext(21); FibNext(22); FibNext(23); FibNext(24); FibNext(25);
  }

  lemma FibSmall()
    ensures Fib(4) == 3 && Fib(5) == 5
  {
  }

  /** A tree deeper than 24 needs at least Fib(27) - 1 bytes. */
  lemma DeepInput(h: Tree, input: seq<byte>)
    requires h.Complete() && h.count == Counts(input) && h.LeafDepths()[END] > MAXLEV
    ensures |input| >= DEEP_INPUT
  {
    hide Fib;
    SumOfCounts(input);
    DepthNeedsWeight(h, END);
    FibMonotone(27, h.LeafDepths()[END] + 2);
    Fib27();
  }
}
