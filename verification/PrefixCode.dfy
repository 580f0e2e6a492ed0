/** Kraft's inequality for prefix codes, and Huffman optimality over all of them. */
module PrefixCode {
  import opened Sums
  import opened KraftCost
  import opened HuffmanTree

  type CodeWord = seq<bool>

  /** No code word is a prefix of another one. */
  ghost predicate PrefixFree(a: set<nat>, code: seq<CodeWord>) {
    && (forall i | i in a :: i < |code|)
    && forall i, j | i in a && j in a && i != j :: !(code[i] <= code[j])
  }

  function WordLengths(code: seq<CodeWord>): seq<nat> {
    seq(|code|, i requires 0 <= i < |code| => |code[i]|)
  }

  lemma TotalUnion(a: set<nat>, b: set<nat>, t: seq<int>)
    requires a !! b
    ensures Total(a + b, t) == Total(a, t) + Total(b, t)
  {
    SumAdd(Masked(a, t), Masked(b, t), Masked(a + b, t));
  }

  lemma TotalSmall(a: set<nat>, t: seq<int>, i: nat)
    requires a <= {i} && i < |t| && t[i] >= 0
    ensures Total(a, t) <= t[i]
  {
    if i in a {
      TotalRemove(a, t, i);
      assert a - {i} == {};
      SumZero(Masked(a - {i}, t));
    } else {
      SumZero(Masked(a, t));
    }
  }

  lemma KraftOfOne(a: set<nat>, code: seq<CodeWord>, b: nat, i: nat)
    requires PrefixFree(a, code) && i in a && |code[i]| <= b
    requires forall j | j in a :: code[i] <= code[j]
    ensures Kraft(a, WordLengths(code), b) <= Pow2(b - |code[i]|)
  {
    assert forall j | j in a :: j == i;
    TotalSmall(a, Shares(WordLengths(code), b), i);
  }

  /** The words of `a` whose bit k is `bit`. */
  ghost function Branch(a: set<nat>, code: seq<CodeWord>, k: nat, bit: bool): set<nat>
    requires forall i | i in a :: i < |code| && k < |code[i]|
  {
    set i | i in a && code[i][k] == bit
  }

  lemma BranchWords(a: set<nat>, code: seq<CodeWord>, p: CodeWord, bit: bool)
    requires PrefixFree(a, code) && forall i | i in a :: p < code[i]
    ensures PrefixFree(Branch(a, code, |p|, bit), code)
    ensures forall i | i in Branch(a, code, |p|, bit) :: i in a && p + [bit] <= code[i]
  {
    forall i | i in Branch(a, code, |p|, bit)
      ensures p + [bit] <= code[i]
    {
      assert code[i][..|p|] == p;
    }
  }

  lemma BothBranches(a: set<nat>, code: seq<CodeWord>, k: nat, b: nat)
    requires forall i | i in a :: i < |code| && k < |code[i]|
    ensures Kraft(a, WordLengths(code), b) ==
            Kraft(Branch(a, code, k, false), WordLengths(code), b) + Kraft(Branch(a, code, k, true), WordLengths(code), b)
  {
    hide Total;
    TotalUnion(Branch(a, code, k, false), Branch(a, code, k, true), Shares(WordLengths(code), b));
    assert Branch(a, code, k, false) + Branch(a, code, k, true) == a;
  }

  lemma KraftOfNone(code: seq<CodeWord>, b: nat)
    ensures Kraft({}, WordLengths(code), b) == 0
  {
    SumZero(Masked({}, Shares(WordLengths(code), b)));
  }

  lemma TwoHalves(b: nat, k: nat)
    requires k < b
    ensures Pow2(b - k) == Pow2(b - (k + 1)) + Pow2(b - (k + 1))
  {
  }

  lemma LongerWords(a: set<nat>, code: seq<CodeWord>, p: CodeWord)
    requires forall i | i in a :: i < |code| && p <= code[i] && code[i] != p
    ensures forall i | i in a :: p < code[i]
  {
  }

  /** The words that start with `p` take up at most 2^-|p| of the code space. */
  lemma {:induction false} KraftBelow(a: set<nat>, code: seq<CodeWord>, p: CodeWord, b: nat)
    requires PrefixFree(a, code) && |p| <= b
    requires forall i | i in a :: |code[i]| <= b && p <= code[i]
    ensures Kraft(a, WordLengths(code), b) <= Pow2(b - |p|)
    decreases b - |p|
  {
    hide Kraft, Pow2, Branch;
    if i :| i in a && code[i] == p {
      KraftOfOne(a, code, b, i);
    } else if a == {} {
      KraftOfNone(code, b);
    } else {
      var i :| i in a;
      LongerWords(a, code, p);
      BranchWords(a, code, p, false);
      BranchWords(a, code, p, true);
      KraftBelow(Branch(a, code, |p|, false), code, p + [false], b);
      KraftBelow(Branch(a, code, |p|, true), code, p + [true], b);
      BothBranches(a, code, |p|, b);
      TwoHalves(b, |p|);
    }
  }

  lemma {:induction false} WordBound(a: set<nat>, code: seq<CodeWord>) returns (b: nat)
    requires forall i | i in a :: i < |code|
    ensures forall i | i in a :: |code[i]| <= b
  {
    if a == {} {
      b := 0;
    } else {
      var x := Longest(a, WordLengths(code));
      b := |code[x]|;
    }
  }

  /** No prefix code for the occurring symbols has a smaller total length than the tree's. */
  lemma OptimalAmongPrefixCodes(h: Tree, code: seq<CodeWord>)
    requires h.Complete() && |code| == h.Leaves() && PrefixFree(h.Symbols(), code)
    ensures Cost(h.Symbols(), h.count, h.LeafDepths()) <= Cost(h.Symbols(), h.count, WordLengths(code))
  {
    var b := WordBound(h.Symbols(), code);
    KraftBelow(h.Symbols(), code, [], b);
    Optimal(h, WordLengths(code), b);
  }
}
