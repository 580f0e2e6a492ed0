/** join's merge: the second file is read again from the start of a group for every line of the first that has
    the group's key. Keys are numbers in the order of strcmp. */
module Join {

  /** Equal lines of line i of the first file among the first n of the second. */
  function Row(k1: seq<int>, k2: seq<int>, i: nat, n: nat): seq<(nat, nat)>
    requires i < |k1| && n <= |k2|
  {
    if n == 0 then [] else Row(k1, k2, i, n - 1) + if k1[i] == k2[n - 1] then [(i, n - 1)] else []
  }

  /** The join of the first n lines with the second file, in the order of the first. */
  function Pairs(k1: seq<int>, k2: seq<int>, n: nat): seq<(nat, nat)>
    requires n <= |k1|
  {
    if n == 0 then [] else Pairs(k1, k2, n - 1) + Row(k1, k2, n - 1, |k2|)
  }

  lemma {:induction false} RowHas(k1: seq<int>, k2: seq<int>, i: nat, n: nat, p: (nat, nat))
    requires i < |k1| && n <= |k2|
    ensures p in Row(k1, k2, i, n) <==> p.0 == i && p.1 < n && k1[i] == k2[p.1]
  {
    if n > 0 {
      RowHas(k1, k2, i, n - 1, p);
    }
  }

  ghost predicate Upwards(r: seq<(nat, nat)>) {
    forall a, b | 0 <= a < b < |r| :: r[a].1 < r[b].1
  }

  lemma {:induction false} RowOrder(k1: seq<int>, k2: seq<int>, i: nat, n: nat)
    requires i < |k1| && n <= |k2|
    ensures Upwards(Row(k1, k2, i, n)) && forall p | p in Row(k1, k2, i, n) :: p.0 == i && p.1 < n
  {
    if n > 0 {
      RowOrder(k1, k2, i, n - 1);
      var r := Row(k1, k2, i, n - 1);
      assert forall a | 0 <= a < |r| :: r[a] in r;
    }
  }

  predicate Before(p: (nat, nat), q: (nat, nat)) {
    p.0 < q.0 || (p.0 == q.0 && p.1 < q.1)
  }

  ghost predicate Increasing(s: seq<(nat, nat)>) {
    forall a, b | 0 <= a < b < |s| :: Before(s[a], s[b])
  }

  predicate IsPair(k1: seq<int>, k2: seq<int>, n: nat, p: (nat, nat))
    requires n <= |k1|
  {
    p.0 < n && p.1 < |k2| && k1[p.0] == k2[p.1]
  }

  /** The join has the pairs of lines with equal keys, and no other. */
  lemma {:induction false} PairsHas(k1: seq<int>, k2: seq<int>, n: nat, p: (nat, nat))
    requires n <= |k1|
    ensures p in Pairs(k1, k2, n) <==> IsPair(k1, k2, n, p)
  {
    hide Pairs, Row;
    if n == 0 {
      NoPairs(k1, k2);
    } else {
      var m := n - 1;
      PairsStep(k1, k2, n);
      RowHas(k1, k2, m, |k2|, p);
      PairsHas(k1, k2, m, p);
      InEither(Pairs(k1, k2, m), Row(k1, k2, m, |k2|), p);
    }
  }

  lemma NoPairs(k1: seq<int>, k2: seq<int>)
    ensures Pairs(k1, k2, 0) == []
  {
  }

  lemma InEither<T>(s: seq<T>, t: seq<T>, x: T)
    ensures x in s + t <==> x in s || x in t
  {
  }

  /** It has each of them once, in the order of the first file, then of the second. */
  lemma {:induction false} PairsOrder(k1: seq<int>, k2: seq<int>, n: nat)
    requires n <= |k1|
    ensures Increasing(Pairs(k1, k2, n))
  {
    if n > 0 {
      hide Pairs, Row, Increasing, Upwards;
      PairsStep(k1, k2, n);
      PairsOrder(k1, k2, n - 1);
      PairsEarlier(k1, k2, n - 1);
      RowOrder(k1, k2, n - 1, |k2|);
      LineAfter(Pairs(k1, k2, n - 1), Row(k1, k2, n - 1, |k2|), n - 1);
    } else {
      assert Pairs(k1, k2, 0) == [];
    }
  }

  lemma PairsEarlier(k1: seq<int>, k2: seq<int>, n: nat)
    requires n <= |k1|
    ensures forall p | p in Pairs(k1, k2, n) :: p.0 < n
  {
    hide Pairs;
    forall p | p in Pairs(k1, k2, n)
      ensures p.0 < n
    {
      PairsHas(k1, k2, n, p);
    }
  }

  lemma PairsStep(k1: seq<int>, k2: seq<int>, n: nat)
    requires 0 < n <= |k1|
    ensures Pairs(k1, k2, n) == Pairs(k1, k2, n - 1) + Row(k1, k2, n - 1, |k2|)
  {
  }

  lemma LineAfter(r: seq<(nat, nat)>, s: seq<(nat, nat)>, i: nat)
    requires Increasing(r) && (forall p | p in r :: p.0 < i) && (forall p | p in s :: p.0 == i)
    requires Upwards(s)
    ensures Increasing(r + s)
  {
    assert forall a | 0 <= a < |r| :: r[a] in r;
    assert forall a | 0 <= a < |s| :: s[a] in s;
  }

  ghost predicate Ordered(k: seq<int>) {
    forall i, j | 0 <= i < j < |k| :: k[i] <= k[j]
  }

  lemma {:induction false} RowRange(k1: seq<int>, k2: seq<int>, i: nat, n: nat, lo: nat, hi: nat)
    requires i < |k1| && lo <= hi && n <= |k2|
    requires forall j | 0 <= j < n :: k1[i] == k2[j] <==> lo <= j < hi
    ensures Row(k1, k2, i, n) == Group(i, lo, if n < lo then lo else if n < hi then n else hi)
  {
    if n > 0 {
      RowRange(k1, k2, i, n - 1, lo, hi);
    }
  }

  /** Line i of the first file with lines lo..hi of the second. */
  function Group(i: nat, lo: nat, hi: nat): seq<(nat, nat)>
    requires lo <= hi
  {
    seq(hi - lo, k requires 0 <= k => (i, lo + k))
  }

  /** A file read a line at a time; line is the line last read, and there tells whether there was one. */
  class Reader {
    const keys: seq<int>
    var pos: nat
    var line: nat
    var there: bool

    constructor (keys: seq<int>)
      ensures this.keys == keys && pos == 0 && !there
    {
      this.keys := keys;
      pos, line, there := 0, 0, false;
    }

    method Get()
      requires pos <= |keys|
      modifies this
      ensures pos <= |keys| && there == (old(pos) < |keys|)
      ensures there ==> line == old(pos) && pos == old(pos) + 1
      ensures !there ==> pos == |keys|
    {
      there := pos < |keys|;
      if there {
        line := pos;
        pos := pos + 1;
      }
    }

    method Seek(where: nat)
      requires where <= |keys|
      modifies this`pos
      ensures pos == where
    {
      pos := where;
    }

    /** The line last read is line n, or n is past the end and there is none. */
    ghost predicate At(n: nat)
      reads this
    {
      n <= |keys| && there == (n < |keys|) && if there then line == n && pos == n + 1 else pos == |keys|
    }
  }

  /** The lines of the second file from bot2 on that have the key of line i of the first. */
  method FirstTime(f1: Reader, f2: Reader, ghost i: nat, bot2: nat) returns (out: seq<(nat, nat)>, top2: nat)
    requires f1 != f2 && f1.At(i) && f2.At(bot2) && i < |f1.keys| && bot2 < |f2.keys| && f1.keys[i] == f2.keys[bot2]
    modifies f2
    ensures bot2 < top2 <= |f2.keys| && f2.At(top2) && out == Group(i, bot2, top2)
    ensures forall j | bot2 <= j < top2 :: f2.keys[j] == f1.keys[i]
    ensures top2 < |f2.keys| ==> f2.keys[top2] != f1.keys[i]
  {
    hide Group;
    ghost var k := bot2;
    NoGroup(i, bot2);
    out := [];
    top2 := bot2;
    while f2.there && f1.keys[f1.line] == f2.keys[f2.line]
      invariant bot2 <= k <= |f2.keys| && f1.At(i) && f2.At(k) && out == Group(i, bot2, k) && top2 == k
      invariant forall j | bot2 <= j < k :: f2.keys[j] == f1.keys[i]
      decreases |f2.keys| - k
    {
      GroupNext(i, bot2, k);
      out := out + [(f1.line, f2.line)];
      top2 := f2.pos;
      f2.Get();
      k := k + 1;
    }
  }

  /** The same lines again for each further line of the first file that has their key. */
  method Rewind(f1: Reader, f2: Reader, ghost i0: nat, bot2: nat, top2: nat, before: seq<(nat, nat)>)
    returns (out: seq<(nat, nat)>, ghost i: nat)
    requires f1 != f2 && 0 < i0 <= |f1.keys| && bot2 < top2 <= |f2.keys| && f1.At(i0) && f2.At(bot2)
    requires Ordered(f1.keys) && Ordered(f2.keys) && Passed(f1.keys, f2.keys, i0, bot2)
    requires before == Pairs(f1.keys, f2.keys, i0) && f1.keys[i0 - 1] == f2.keys[bot2]
    requires forall j | bot2 <= j < top2 :: f2.keys[j] == f2.keys[bot2]
    requires top2 < |f2.keys| ==> f2.keys[top2] > f2.keys[bot2]
    modifies f1, f2
    ensures i0 <= i <= |f1.keys| && f1.At(i) && f2.At(top2) && out == Pairs(f1.keys, f2.keys, i)
    ensures Passed(f1.keys, f2.keys, i, top2)
  {
    hide Pairs, Row, Group, Passed, Ordered;
    i := i0;
    out := before;
    ghost var k := bot2;
    NoGroup(i, bot2);
    ghost var k1, k2, g := f1.keys, f2.keys, f2.keys[bot2];
    NotBelow(k1, i0);
    while true
      invariant i0 <= i <= |k1| && bot2 <= k <= top2 && f1.At(i) && f2.At(k) && Passed(k1, k2, i, bot2)
      invariant k > bot2 ==> i < |k1| && k1[i] == g
      invariant out == Pairs(k1, k2, i) + Group(i, bot2, k)
      decreases |k1| - i, |k2| - k
    {
      if f1.there && f2.there && f1.keys[f1.line] == f2.keys[f2.line] {
        GroupNext(i, bot2, k);
        out := out + [(f1.line, f2.line)];
        f2.Get();
        k := k + 1;
      } else if (f1.there && f2.there && f1.keys[f1.line] < f2.keys[f2.line]) || !f2.there {
        FullRow(k1, k2, i, bot2, top2);
        f2.Seek(bot2);
        f2.Get();
        f1.Get();
        PassedOn(k1, k2, i, bot2);
        i, k := i + 1, bot2;
        NoGroup(i, bot2);
      } else {
        assert k < top2 ==> k2[k] == g;
        assert k == bot2;
        NoGroup(i, bot2);
        PassedGroup(k1, k2, i, bot2, top2);
        f2.Seek(top2);
        f2.Get();
        return;
      }
    }
  }

  /** The merge without -a. */
  method Join(k1: seq<int>, k2: seq<int>) returns (out: seq<(nat, nat)>)
    requires Ordered(k1) && Ordered(k2)
    ensures out == Pairs(k1, k2, |k1|)
  {
    hide Pairs, Row, Group, Passed, Ordered;
    var f1 := new Reader(k1);
    var f2 := new Reader(k2);
    f1.Get();
    var bot2: nat := f2.pos;
    f2.Get();
    out := [];
    ghost var i: nat := 0;
    PairsStart(k1, k2);
    while f1.there && f2.there
      invariant i <= |k1| && bot2 <= |k2| && Passed(k1, k2, i, bot2)
      invariant f1.At(i) && f2.At(bot2) && out == Pairs(k1, k2, i)
      decreases |k1| - i + |k2| - bot2
    {
      if k1[f1.line] > k2[f2.line] {
        PassedLine(k1, k2, i, bot2);
        bot2 := f2.pos;
        f2.Get();
      } else if k1[f1.line] < k2[f2.line] {
        NoRow(k1, k2, i, bot2);
        PassedOn(k1, k2, i, bot2);
        f1.Get();
        i := i + 1;
      } else {
        var group, top2 := FirstTime(f1, f2, i, bot2);
        FullRow(k1, k2, i, bot2, top2);
        Above(k2, bot2, top2);
        PassedOn(k1, k2, i, bot2);
        f2.Seek(bot2);
        f2.Get();
        f1.Get();
        out, i := Rewind(f1, f2, i + 1, bot2, top2, out + group);
        bot2 := top2;
      }
    }
    NoMore(k1, k2, i, bot2);
  }

  /** Lines of the second file before n are below line i of the first and those after it. */
  ghost predicate Passed(k1: seq<int>, k2: seq<int>, i: nat, n: nat) {
    n <= |k2| && forall a, b | i <= a < |k1| && 0 <= b < n :: k2[b] < k1[a]
  }

  lemma PairsStart(k1: seq<int>, k2: seq<int>)
    ensures Pairs(k1, k2, 0) == [] && Passed(k1, k2, 0, 0)
  {
  }

  lemma NoGroup(i: nat, lo: nat)
    ensures Group(i, lo, lo) == []
  {
  }

  lemma GroupNext(i: nat, lo: nat, k: nat)
    requires lo <= k
    ensures Group(i, lo, k) + [(i, k)] == Group(i, lo, k + 1)
  {
  }

  lemma PassedOn(k1: seq<int>, k2: seq<int>, i: nat, n: nat)
    requires Passed(k1, k2, i, n)
    ensures Passed(k1, k2, i + 1, n)
  {
  }

  lemma PassedLine(k1: seq<int>, k2: seq<int>, i: nat, n: nat)
    requires Ordered(k1) && Passed(k1, k2, i, n) && i < |k1| && n < |k2| && k2[n] < k1[i]
    ensures Passed(k1, k2, i, n + 1)
  {
  }

  lemma PassedGroup(k1: seq<int>, k2: seq<int>, i: nat, bot: nat, top: nat)
    requires Ordered(k1) && Passed(k1, k2, i, bot) && bot < top <= |k2| && (i < |k1| ==> k2[bot] < k1[i])
    requires forall j | bot <= j < top :: k2[j] == k2[bot]
    ensures Passed(k1, k2, i, top)
  {
    assert forall a | i <= a < |k1| :: k1[i] <= k1[a];
  }

  lemma NotBelow(k1: seq<int>, i: nat)
    requires Ordered(k1) && 0 < i <= |k1|
    ensures forall a | i <= a < |k1| :: k1[i - 1] <= k1[a]
  {
  }

  lemma Above(k2: seq<int>, bot: nat, top: nat)
    requires Ordered(k2) && bot < top <= |k2|
    ensures top < |k2| ==> k2[bot] <= k2[top]
  {
  }

  lemma NoRow(k1: seq<int>, k2: seq<int>, i: nat, bot: nat)
    requires Ordered(k2) && i < |k1| && bot < |k2| && Passed(k1, k2, i, bot) && k1[i] < k2[bot]
    ensures Pairs(k1, k2, i + 1) == Pairs(k1, k2, i)
  {
    RowRange(k1, k2, i, |k2|, 0, 0);
  }

  lemma FullRow(k1: seq<int>, k2: seq<int>, i: nat, bot: nat, top: nat)
    requires Ordered(k2) && i < |k1| && bot < top <= |k2| && Passed(k1, k2, i, bot)
    requires forall j | bot <= j < top :: k2[j] == k1[i]
    requires top < |k2| ==> k2[top] != k1[i]
    ensures Pairs(k1, k2, i + 1) == Pairs(k1, k2, i) + Group(i, bot, top)
  {
    forall j | 0 <= j < |k2|
      ensures k1[i] == k2[j] <==> bot <= j < top
    {
      assert k2[top - 1] == k1[i];
      assert top < j ==> k2[top] <= k2[j];
      assert top <= j ==> k2[top - 1] <= k2[top];
    }
    RowRange(k1, k2, i, |k2|, bot, top);
  }

  lemma {:induction false} NoMore(k1: seq<int>, k2: seq<int>, i: nat, bot: nat)
    requires i <= |k1| && Passed(k1, k2, i, bot) && (i == |k1| || bot == |k2|)
    ensures Pairs(k1, k2, |k1|) == Pairs(k1, k2, i)
    decreases |k1| - i
  {
    hide Pairs, Passed;
    if i < |k1| {
      EmptyRow(k1, k2, i, bot);
      PassedOn(k1, k2, i, bot);
      NoMore(k1, k2, i + 1, bot);
    }
  }

  lemma EmptyRow(k1: seq<int>, k2: seq<int>, i: nat, bot: nat)
    requires i < |k1| && Passed(k1, k2, i, bot) && bot == |k2|
    ensures Pairs(k1, k2, i + 1) == Pairs(k1, k2, i)
  {
    hide Pairs, Row, Group;
    PairsStep(k1, k2, i + 1);
    NoGroup(i, 0);
    RowRange(k1, k2, i, |k2|, 0, 0);
  }
}
