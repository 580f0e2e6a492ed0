/** Why the code-length table of a tree is a full code: Kraft's equality, level by level. */
module CodeSpace {
  import opened Sums
  import opened KraftCost
  import opened HuffmanTree
  import opened HeapTree
  import opened PackCode

  /** The code space used by the symbols longer than i and no longer than `top`; 2^top is all of it. */
  function Above(length: seq<nat>, top: nat, i: nat): int
    decreases top - i
  {
    if i >= top then 0
    else Above(length, top, i + 1) + Scaled(|Level(length, i + 1)|, top - i - 1)
  }

  /** The symbols longer than i leave a whole number of level-i nodes. */
  lemma {:induction false} WholeNodes(length: Lengths, i: nat) returns (q: int)
    requires Above(length, length[END], 0) == Scaled(1, length[END]) && i <= length[END]
    ensures Above(length, length[END], i) == Scaled(q, length[END] - i)
  {
    hide Scaled, Level;
    if i == 0 {
      q := 1;
    } else {
      var k, n := length[END] - i, |Level(length, i)|;
      var p := WholeNodes(length, i - 1);
      ScaledDouble(p, k);
      ScaledAdd(2 * p - n, n, k);
      q := 2 * p - n;
    }
  }

  /** Every level holds an even number of nodes, twice the internal nodes one level up. */
  lemma {:induction false} EvenLevels(length: Lengths, i: nat)
    requires Above(length, length[END], 0) == Scaled(1, length[END]) && i <= length[END]
    ensures Above(length, length[END], i) == Scaled(Inner(length, i), length[END] - i)
    ensures i < length[END] ==> EvenLevel(length, i)
    decreases length[END] - i
  {
    hide Scaled, Level;
    if i < length[END] {
      var k, n := length[END] - i - 1, |Level(length, i + 1)|;
      EvenLevels(length, i + 1);
      var q := WholeNodes(length, i);
      ScaledDouble(q, k);
      ScaledAdd(Inner(length, i + 1), n, k);
      ScaledCancel(Inner(length, i + 1) + n, 2 * q, k);
    } else {
      ScaledSign(0, 0);
    }
  }

  function SharesAbove(length: seq<nat>, top: nat, i: nat): seq<int> {
    seq(|length|, c requires 0 <= c < |length| => if length[c] > i then Share(length[c], top) else 0)
  }

  lemma AboveIs(length: seq<nat>, top: nat, i: nat)
    ensures Above(length, top, i) ==
            if i >= top then 0 else Above(length, top, i + 1) + Scaled(|Level(length, i + 1)|, top - i - 1)
  {
  }

  lemma OneShare(x: nat, top: nat)
    ensures x <= top ==> Share(x, top) == Scaled(1, top - x)
    ensures x > top ==> Share(x, top) == 0
  {
  }

  lemma {:induction false} AbovePush(length: seq<nat>, x: nat, top: nat, i: nat)
    ensures Above(length + [x], top, i) ==
            Above(length, top, i) + if x > i then Share(x, top) else 0
    decreases top - i
  {
    hide Above, Level, Scaled, Share;
    AboveIs(length, top, i);
    AboveIs(length + [x], top, i);
    OneShare(x, top);
    if i < top {
      var k := i + 1;
      AbovePush(length, x, top, k);
      LevelGrows(length, x, k);
      ScaledAdd(|Level(length, k)|, 1, top - k);
    }
  }

  /** Counting code space level by level or symbol by symbol gives the same sum. */
  lemma {:induction false} AboveIsSum(length: seq<nat>, top: nat, i: nat)
    ensures Above(length, top, i) == Sum(SharesAbove(length, top, i))
  {
    if length == [] {
      AboveNothing(top, i);
    } else {
      var k := |length| - 1;
      AboveIsSum(length[..k], top, i);
      AbovePush(length[..k], length[k], top, i);
      assert length[..k] + [length[k]] == length;
      assert SharesAbove(length, top, i)[..k] == SharesAbove(length[..k], top, i);
    }
  }

  lemma {:induction false} AboveNothing(top: nat, i: nat)
    ensures Above([], top, i) == 0
    decreases top - i
  {
    hide Scaled;
    if i < top {
      AboveNothing(top, i + 1);
      ScaledSign(0, top - i - 1);
    }
  }

  /** The leaves of a finished tree with at least two symbols of which END is the lightest, no deeper
      than 24, form a full code. */
  lemma TreeGivesFullCode(h: Tree, x: nat)
    requires h.Complete() && h.Leaves() == END + 1 && h.count[END] == 1
    requires forall c | 0 <= c < END :: h.count[c] != 1
    requires x < END && h.count[x] > 0
    requires forall c | 0 <= c <= END :: h.LeafDepths()[c] <= MAXLEV
    ensures FullCode(h.LeafDepths())
  {
    var l, a := h.LeafDepths(), h.Symbols();
    var top := l[END];
    forall c | 0 <= c <= END
      ensures l[c] <= top && (c !in a ==> l[c] == 0) && (c in a ==> l[c] > 0)
    {
      SymbolDepths(h, c, if c == END then x else END);
      if c in a && c != END {
        LighterIsDeeper(h, END, c);
      }
    }
    KraftEquality(h, top);
    assert Masked(a, Shares(l, top)) == SharesAbove(l, top, 0);
    AboveIsSum(l, top, 0);
    forall i | 0 <= i < top
      ensures EvenLevel(l, i)
    {
      EvenLevels(l, i);
    }
    EvenLevels(l, 0);
    ScaledCancel(Inner(l, 0), 1, top);
  }

  /** With two symbols, exactly the symbols that occur lie below the root. */
  lemma SymbolDepths(h: Tree, c: nat, d: nat)
    requires h.Complete() && c < h.Leaves() && d in h.Symbols() && c != d
    ensures c in h.Symbols() <==> h.LeafDepths()[c] > 0
  {
    UpwardParents(h, |h.merges|);
    ParentOrAlive(h, c, |h.merges|);
    var r := Root(h);
    if |h.merges| > 0 {
      assert h.Leaves() + |h.merges| - 1 in h.Alive(|h.merges|);
    } else {
      assert d in h.Alive(|h.merges|);
    }
    assert c !in h.Alive(|h.merges|);
    var p := h.Parent();
    assert h.LeafDepths()[c] == Depth(p, c) == if p[c] == 0 then 0 else 1 + Depth(p, p[c]);
  }
}
