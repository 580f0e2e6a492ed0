/** crypt: setting up the rotor tables from a stream of random numbers, and the transformation, which
    undoes itself. */
module Crypt {
  import opened Basics

  const ROTORSZ: nat := 256

  /** t1 is a permutation of the bytes and t2 its inverse. */
  ghost predicate Inverses(t1: seq<nat>, t2: seq<nat>) {
    && |t1| == |t2| == ROTORSZ
    && (forall i | 0 <= i < ROTORSZ :: t1[i] < ROTORSZ && t2[t1[i]] == i)
    && (forall i | 0 <= i < ROTORSZ :: t2[i] < ROTORSZ && t1[t2[i]] == i)
  }

  /** t3 pairs the bytes off: an involution without a fixed point. */
  ghost predicate Reflector(t3: seq<nat>) {
    && |t3| == ROTORSZ
    && forall i | 0 <= i < ROTORSZ :: t3[i] < ROTORSZ && t3[i] != i && t3[t3[i]] == i
  }

  /** Slot j has its partner once its turn k is over, or once its entry is not 0. */
  predicate Paired(t3: seq<nat>, k: nat, j: nat)
    requires j < |t3|
  {
    j >= k || t3[j] != 0
  }

  /** The paired slots form pairs; those before k are marked by a nonzero entry. */
  ghost predicate PairedUp(t3: seq<nat>, k: nat) {
    && |t3| == ROTORSZ && k <= ROTORSZ
    && forall j | 0 <= j < ROTORSZ && Paired(t3, k, j) ::
         t3[j] < ROTORSZ && t3[j] != j && Paired(t3, k, t3[j]) && t3[t3[j]] == j
  }

  /** Number of unpaired slots before k. */
  function Unpaired(t3: seq<nat>, k: nat): nat
    requires k <= |t3|
  {
    if k == 0 then 0 else Unpaired(t3, k - 1) + if t3[k - 1] == 0 then 1 else 0
  }

  lemma {:induction false} UnpairedSet(t3: seq<nat>, k: nat, j: nat, v: nat)
    requires k <= |t3| && j < |t3| && t3[j] == 0 && v != 0
    ensures Unpaired(t3[j := v], k) == Unpaired(t3, k) - if j < k then 1 else 0
  {
    if k > 0 {
      UnpairedSet(t3, k - 1, j, v);
    }
  }

  lemma {:induction false} SomeUnpaired(t3: seq<nat>, k: nat) returns (j: nat)
    requires k <= |t3| && Unpaired(t3, k) > 0
    ensures j < k && t3[j] == 0
  {
    if t3[k - 1] == 0 {
      j := k - 1;
    } else {
      j := SomeUnpaired(t3, k - 1);
    }
  }

  lemma {:induction false} AllUnpaired(t3: seq<nat>, k: nat)
    requires k <= |t3| && forall j | 0 <= j < k :: t3[j] == 0
    ensures Unpaired(t3, k) == k
  {
    if k > 0 {
      AllUnpaired(t3, k - 1);
    }
  }

  /** Pairing the current slot k with a free slot before it. */
  lemma PairOff(t3: seq<nat>, k: nat, ic: nat)
    requires k < ROTORSZ && PairedUp(t3, k + 1) && t3[k] == 0 && ic < k && t3[ic] == 0
    ensures PairedUp(t3[k := ic][ic := k], k)
    ensures Unpaired(t3[k := ic][ic := k], k) == Unpaired(t3, k + 1) - 2
  {
    var u := t3[k := ic][ic := k];
    forall j | 0 <= j < ROTORSZ && Paired(u, k, j)
      ensures u[j] < ROTORSZ && u[j] != j && Paired(u, k, u[j]) && u[u[j]] == j
    {
      if j != k && j != ic {
        assert Paired(t3, k + 1, j);
      }
    }
    UnpairedSet(t3, k, ic, k);
    SameUnpaired(t3[ic := k], u, k);
  }

  lemma {:induction false} SameUnpaired(s: seq<nat>, t: seq<nat>, k: nat)
    requires k <= |s| && k <= |t| && forall j | 0 <= j < k :: s[j] == t[j]
    ensures Unpaired(s, k) == Unpaired(t, k)
  {
    if k > 0 {
      SameUnpaired(s, t, k - 1);
    }
  }

  /** The slot d places on from start, going round the slots below k. */
  function Around(start: nat, d: nat, k: nat): (j: nat)
    requires start < k && d < k
    ensures j < k
  {
    if start + d < k then start + d else start + d - k
  }

  /** Going round the slots below k from start, ic is the first free one. */
  ghost predicate FirstFree(t3: seq<nat>, k: nat, start: nat, ic: nat)
    requires start < k <= |t3|
  {
    exists d | 0 <= d < k :: ic == Around(start, d, k) && t3[ic] == 0 && AllTaken(t3, k, start, d)
  }

  ghost predicate AllTaken(t3: seq<nat>, k: nat, start: nat, d: nat)
    requires start < k <= |t3| && d < k
  {
    forall e | 0 <= e < d :: t3[Around(start, e, k)] != 0
  }

  lemma OnlyOneFirst(t3: seq<nat>, k: nat, start: nat, a: nat, b: nat)
    requires start < k <= |t3| && FirstFree(t3, k, start, a) && FirstFree(t3, k, start, b)
    ensures a == b
  {
    hide Around;
  }

  lemma NextIndex(start: nat, d: nat, k: nat)
    requires start < k && d + 1 < k
    ensures (Around(start, d, k) + 1) % k == Around(start, d + 1, k)
  {
  }

  /** Probes circularly for a free slot; there is one. */
  method Probe(t3: array<nat>, k: nat, start: nat) returns (ic: nat)
    requires t3.Length == ROTORSZ && start < k <= ROTORSZ && Unpaired(t3[..], k) > 0
    ensures ic < k && t3[ic] == 0 && FirstFree(t3[..], k, start, ic)
  {
    hide Unpaired, Around, AllTaken;
    ghost var free := SomeUnpaired(t3[..], k);
    ghost var far := if start <= free then free - start else free + k - start;
    assert Around(start, far, k) == free && Around(start, 0, k) == start by {
      RoundTo(start, free, k);
    }
    ghost var d := 0;
    ic := start;
    NoneTaken(t3[..], k, start);
    while t3[ic] != 0
      invariant d <= far < k && ic < k && ic == Around(start, d, k) && AllTaken(t3[..], k, start, d)
      decreases far - d
    {
      NextIndex(start, d, k);
      OneMoreTaken(t3[..], k, start, d);
      ic := (ic + 1) % k;
      d := d + 1;
    }
  }

  lemma RoundTo(start: nat, j: nat, k: nat)
    requires start < k && j < k
    ensures Around(start, if start <= j then j - start else j + k - start, k) == j && Around(start, 0, k) == start
  {
  }

  lemma NoneTaken(t3: seq<nat>, k: nat, start: nat)
    requires start < k <= |t3|
    ensures AllTaken(t3, k, start, 0)
  {
  }

  lemma OneMoreTaken(t3: seq<nat>, k: nat, start: nat, d: nat)
    requires start < k <= |t3| && d + 1 < k && AllTaken(t3, k, start, d) && t3[Around(start, d, k)] != 0
    ensures AllTaken(t3, k, start, d + 1)
  {
    hide Around;
  }

  /** A slot below n, from the low byte of a random number. */
  function Pick(r: nat, n: nat): (k: nat)
    requires n > 0
    ensures k < n
  {
    r % 256 % n
  }

  // ---- The tables as functions of the random numbers

  /** t1 after the turns of the slots from the last one downward, each with its random number: the entry of the
      slot is exchanged for that of the slot picked. */
  function Shuffled(random: seq<nat>): (t1: seq<nat>)
    requires |random| <= ROTORSZ
    ensures |t1| == ROTORSZ
  {
    if random == [] then seq(ROTORSZ, i => i)
    else
      var n := |random| - 1;
      var t, k := Shuffled(random[..n]), ROTORSZ - 1 - n;
      var ic := Pick(random[n], k + 1);
      t[k := t[ic]][ic := t[k]]
  }

  /** t3 after these turns: a slot that is still free is paired with the first free slot from the one picked on. */
  ghost function PairedOff(random: seq<nat>): (t3: seq<nat>)
    requires |random| <= ROTORSZ
    ensures |t3| == ROTORSZ
  {
    if random == [] then seq(ROTORSZ, i => 0)
    else
      var n := |random| - 1;
      NextPair(PairedOff(random[..n]), ROTORSZ - 1 - n, random[n])
  }

  ghost function NextPair(t3: seq<nat>, k: nat, r: nat): (t: seq<nat>)
    requires k < |t3|
    ensures |t| == |t3|
  {
    if t3[k] == 0 && k > 0 && exists ic: nat :: FirstFree(t3, k, Pick(r / 256, k), ic) then
      var ic: nat :| FirstFree(t3, k, Pick(r / 256, k), ic);
      t3[k := ic][ic := k]
    else t3
  }

  lemma NextPairIs(t3: seq<nat>, k: nat, r: nat, ic: nat)
    requires 0 < k < |t3| && t3[k] == 0 && FirstFree(t3, k, Pick(r / 256, k), ic)
    ensures ic < k && NextPair(t3, k, r) == t3[k := ic][ic := k]
  {
    hide FirstFree;
    assert ic < k by { FreeBelow(t3, k, Pick(r / 256, k), ic); }
    forall j: nat | FirstFree(t3, k, Pick(r / 256, k), j)
      ensures j == ic
    {
      OnlyOneFirst(t3, k, Pick(r / 256, k), j, ic);
    }
  }

  lemma NextPairKept(t3: seq<nat>, k: nat, r: nat)
    requires k < |t3| && t3[k] != 0
    ensures NextPair(t3, k, r) == t3
  {
  }

  lemma FreeBelow(t3: seq<nat>, k: nat, start: nat, ic: nat)
    requires start < k <= |t3| && FirstFree(t3, k, start, ic)
    ensures ic < k && t3[ic] == 0
  {
  }

  lemma NextNumber(random: seq<nat>, r: nat)
    requires |random| < ROTORSZ
    ensures var k := ROTORSZ - 1 - |random|;
            && PairedOff(random + [r]) == NextPair(PairedOff(random), k, r)
            && var t, ic := Shuffled(random), Pick(r, k + 1);
               Shuffled(random + [r]) == t[k := t[ic]][ic := t[k]]
  {
    hide NextPair, Pick;
    assert (random + [r])[..|random|] == random;
  }

  lemma Fresh(t1: seq<nat>, t3: seq<nat>)
    requires |t1| == |t3| == ROTORSZ && forall j | 0 <= j < ROTORSZ :: t1[j] == j && t3[j] == 0
    ensures Inverses(t1, t1) && PairedUp(t3, ROTORSZ) && Unpaired(t3, ROTORSZ) == ROTORSZ
  {
    AllUnpaired(t3, ROTORSZ);
  }

  lemma AllPaired(t3: seq<nat>)
    requires PairedUp(t3, 0)
    ensures Reflector(t3)
  {
    forall j | 0 <= j < ROTORSZ
      ensures t3[j] < ROTORSZ && t3[j] != j && t3[t3[j]] == j
    {
      assert Paired(t3, 0, j);
    }
  }

  /** The turn of slot k, with the random number r. */
  method Turn(t1: array<nat>, t3: array<nat>, k: nat, r: nat, ghost inv: seq<nat>) returns (ghost inv': seq<nat>)
    requires t1.Length == t3.Length == ROTORSZ && t1 != t3 && k < ROTORSZ && Inverses(t1[..], inv)
    requires PairedUp(t3[..], k + 1) && Unpaired(t3[..], k + 1) % 2 == 0
    modifies t1, t3
    ensures Inverses(t1[..], inv')
    ensures PairedUp(t3[..], k) && Unpaired(t3[..], k) % 2 == 0
    ensures var ic := r % 256 % (k + 1); t1[..] == old(t1[..][k := t1[ic]][ic := t1[k]])
    ensures old(t3[k]) != 0 ==> t3[..] == old(t3[..])
    ensures old(t3[k]) == 0 ==> k > 0 && t3[k] < k && t3[..] == old(t3[..])[k := t3[k]][t3[k] := k]
                                && FirstFree(old(t3[..]), k, r / 256 % 256 % k, t3[k])
  {
    hide Inverses, PairedUp, Unpaired, FirstFree;
    ghost var s1: seq<nat>, s3: seq<nat> := t1[..], t3[..];
    var ic := Pick(r, k + 1);
    var random := r / 256;
    inv' := SwapEntries(s1, inv, k, ic);
    t1[k], t1[ic] := t1[ic], t1[k];
    assert t1[..] == s1[k := s1[ic]][ic := s1[k]];
    NextSlot(s3, k);
    if t3[k] != 0 {
      return;
    }
    ic := Pick(random, k);
    ic := Probe(t3, k, ic);
    PairOff(s3, k, ic);
    t3[k] := ic;
    t3[ic] := k;
    assert t3[..] == s3[k := ic][ic := k];
  }

  /** What a turn does to both tables. */
  lemma AfterTurn(random: seq<nat>, r: nat, t1: seq<nat>, t3: seq<nat>)
    requires |random| < ROTORSZ && |t1| == |t3| == ROTORSZ
    requires var k, s := ROTORSZ - 1 - |random|, Shuffled(random);
             var ic := r % 256 % (k + 1);
             t1 == s[k := s[ic]][ic := s[k]]
    requires var k, s := ROTORSZ - 1 - |random|, PairedOff(random);
             if s[k] != 0 then t3 == s
             else k > 0 && t3[k] < k && t3 == s[k := t3[k]][t3[k] := k] && FirstFree(s, k, r / 256 % 256 % k, t3[k])
    ensures t1 == Shuffled(random + [r]) && t3 == PairedOff(random + [r])
  {
    hide FirstFree, Shuffled, PairedOff, NextPair;
    var k, s := ROTORSZ - 1 - |random|, PairedOff(random);
    NextNumber(random, r);
    if s[k] == 0 {
      NextPairIs(s, k, r, t3[k]);
    } else {
      NextPairKept(s, k, r);
    }
  }

  lemma NoTurn()
    ensures Shuffled([]) == seq(ROTORSZ, i => i) && PairedOff([]) == seq(ROTORSZ, i => 0)
  {
  }

  method NoSwaps() returns (t1: array<nat>, t3: array<nat>)
    ensures fresh(t1) && fresh(t3) && t1 != t3 && t1.Length == t3.Length == ROTORSZ
    ensures forall j | 0 <= j < ROTORSZ :: t1[j] == j && t3[j] == 0
    ensures t1[..] == Shuffled([]) && t3[..] == PairedOff([])
  {
    t1, t3 := new nat[ROTORSZ], new nat[ROTORSZ];
    var i := 0;
    while i < ROTORSZ
      invariant 0 <= i <= ROTORSZ && forall j | 0 <= j < i :: t1[j] == j && t3[j] == 0
    {
      t1[i], t3[i] := i, 0;
      i := i + 1;
    }
    hide Shuffled, PairedOff;
    NoTurn();
  }

  /** Fills the rotor tables. random[i] is the number drawn in turn i; any numbers will do. */
  method Setup(random: seq<nat>) returns (t1: array<nat>, t2: array<nat>, t3: array<nat>)
    requires |random| == ROTORSZ
    ensures fresh(t1) && fresh(t2) && fresh(t3)
    ensures Inverses(t1[..], t2[..]) && Reflector(t3[..])
    ensures t1[..] == Shuffled(random) && t3[..] == PairedOff(random)
  {
    hide Inverses, Reflector, PairedUp, Unpaired, Shuffled, PairedOff, FirstFree;
    t1, t3 := NoSwaps();
    ghost var inv: seq<nat> := t1[..];
    Fresh(t1[..], t3[..]);
    var i := 0;
    assert random[..i] == [];
    while i < ROTORSZ
      invariant 0 <= i <= ROTORSZ && Inverses(t1[..], inv)
      invariant PairedUp(t3[..], ROTORSZ - i) && Unpaired(t3[..], ROTORSZ - i) % 2 == 0
      invariant t1[..] == Shuffled(random[..i]) && t3[..] == PairedOff(random[..i])
    {
      inv := Turn(t1, t3, ROTORSZ - 1 - i, random[i], inv);
      AfterTurn(random[..i], random[i], t1[..], t3[..]);
      assert random[..i + 1] == random[..i] + [random[i]];
      i := i + 1;
    }
    assert random[..i] == random;
    AllPaired(t3[..]);
    t2 := Invert(t1, inv);
  }

  /** Fills t2 with the inverse of t1. */
  method Invert(t1: array<nat>, ghost inv: seq<nat>) returns (t2: array<nat>)
    requires Inverses(t1[..], inv)
    ensures fresh(t2) && t2[..] == inv
  {
    t2 := new nat[ROTORSZ];
    var i := 0;
    while i < ROTORSZ
      modifies t2
      invariant 0 <= i <= ROTORSZ && forall j | 0 <= j < i :: t2[t1[j]] == j
    {
      t2[t1[i]] := i;
      i := i + 1;
    }
    forall y | 0 <= y < ROTORSZ
      ensures t2[y] == inv[y]
    {
      assert t2[t1[inv[y]]] == inv[y];
    }
  }

  /** What is known when the turn of slot k comes: if it is free, so is another slot before it; in
      particular k is not 0. */
  lemma NextSlot(t3: seq<nat>, k: nat)
    requires k < ROTORSZ && PairedUp(t3, k + 1) && Unpaired(t3, k + 1) % 2 == 0
    ensures |t3| == ROTORSZ
    ensures t3[k] != 0 ==> PairedUp(t3, k) && Unpaired(t3, k) % 2 == 0
    ensures t3[k] == 0 ==> k > 0 && Unpaired(t3, k) > 0
  {
    forall j | 0 <= j < ROTORSZ && t3[k] != 0
      ensures Paired(t3, k, j) <==> Paired(t3, k + 1, j)
    {
    }
  }

  lemma SwapEntries(t1: seq<nat>, t2: seq<nat>, k: nat, ic: nat) returns (r: seq<nat>)
    requires Inverses(t1, t2) && k < ROTORSZ && ic < ROTORSZ
    ensures |t1| == ROTORSZ && Inverses(t1[k := t1[ic]][ic := t1[k]], r)
  {
    r := t2[t1[k] := ic][t1[ic] := k];
  }

  // ---- Which tables there are

  /** The range of the numbers drawn. */
  const RANGE: nat := 65521

  /** The number that makes turn k pick slot a for t1 and slot b for t3. */
  lemma PicksOf(k: nat, a: nat, b: nat)
    requires k < ROTORSZ && a <= k && (b < k || b == 0)
    ensures a + 256 * b < RANGE && Pick(a + 256 * b, k + 1) == a
    ensures k > 0 ==> Pick((a + 256 * b) / 256, k) == b
  {
    DivMod(a + 256 * b, b, a);
    SmallMod(a, k + 1);
    SmallMod(b, 256);
    if k > 0 {
      SmallMod(b, k);
    }
  }

  lemma SmallMod(a: nat, k: nat)
    requires a < k
    ensures a % k == a
  {
  }

  /** After the turns of the slots from k on, t1 and t3 agree with p and q there. */
  ghost predicate Agrees(t1: seq<nat>, t3: seq<nat>, inv: seq<nat>, p: seq<nat>, q: seq<nat>, k: nat) {
    && |p| == |q| == ROTORSZ && Inverses(t1, inv) && PairedUp(t3, k) && Unpaired(t3, k) % 2 == 0
    && (forall j | k <= j < ROTORSZ :: t1[j] == p[j])
    && (forall j | 0 <= j < ROTORSZ && Paired(t3, k, j) :: t3[j] == q[j])
  }

  /** Where p's entry for the next slot stands. */
  lemma PickFirst(t1: seq<nat>, t3: seq<nat>, inv: seq<nat>, p: seq<nat>, back: seq<nat>, q: seq<nat>, k: nat)
    requires k < ROTORSZ && Agrees(t1, t3, inv, p, q, k + 1) && Inverses(p, back)
    ensures inv[p[k]] <= k && t1[inv[p[k]]] == p[k]
  {
    hide PairedUp, Unpaired;
    assert back[p[k]] == k && t1[inv[p[k]]] == p[k];
  }

  /** A free slot can be paired with the partner it has in q, which is free, too. */
  lemma PickSecond(t1: seq<nat>, t3: seq<nat>, inv: seq<nat>, p: seq<nat>, q: seq<nat>, k: nat)
    requires k < ROTORSZ && Agrees(t1, t3, inv, p, q, k + 1) && Reflector(q) && t3[k] == 0
    ensures q[k] < k && t3[q[k]] == 0 && FirstFree(t3, k, q[k], q[k])
  {
    hide Unpaired, Inverses;
    var b := q[k];
    assert !Paired(t3, k + 1, k);
    assert !Paired(t3, k + 1, b);
    NoneTaken(t3, k, b);
    RoundTo(b, b, k);
  }

  lemma AgreesAfter(t1: seq<nat>, t3: seq<nat>, inv: seq<nat>, p: seq<nat>, back: seq<nat>, q: seq<nat>, k: nat)
    returns (inv': seq<nat>)
    requires k < ROTORSZ && Agrees(t1, t3, inv, p, q, k + 1) && Inverses(p, back) && Reflector(q)
    ensures var a := inv[p[k]];
            && a <= k && |t1| == |t3| == ROTORSZ && (t3[k] == 0 ==> q[k] < k)
            && Agrees(t1[k := t1[a]][a := t1[k]], if t3[k] == 0 then t3[k := q[k]][q[k] := k] else t3, inv', p, q, k)
  {
    hide Unpaired, FirstFree;
    var a := inv[p[k]];
    PickFirst(t1, t3, inv, p, back, q, k);
    inv' := SwapEntries(t1, inv, k, a);
    hide Inverses;
    if t3[k] == 0 {
      PickSecond(t1, t3, inv, p, q, k);
      PairOff(t3, k, q[k]);
    } else {
      NextSlot(t3, k);
    }
  }

  lemma AgreesStart(p: seq<nat>, q: seq<nat>)
    requires |p| == |q| == ROTORSZ
    ensures Agrees(Shuffled([]), PairedOff([]), Shuffled([]), p, q, ROTORSZ)
  {
    NoTurn();
    Fresh(Shuffled([]), PairedOff([]));
  }

  lemma {:induction false} Reach(p: seq<nat>, back: seq<nat>, q: seq<nat>, n: nat) returns (random: seq<nat>, inv: seq<nat>)
    requires Inverses(p, back) && Reflector(q) && n <= ROTORSZ
    ensures |random| == n && forall r | r in random :: r < RANGE
    ensures Agrees(Shuffled(random), PairedOff(random), inv, p, q, ROTORSZ - n)
  {
    hide Agrees, Inverses, Reflector, Shuffled, PairedOff, FirstFree, NextPair, Pick;
    if n == 0 {
      TableSizes(p, back, q);
      random, inv := [], Shuffled([]);
      AgreesStart(p, q);
    } else {
      random, inv := Reach(p, back, q, n - 1);
      var r;
      r, inv := ReachTurn(p, back, q, random, inv);
      random := random + [r];
    }
  }

  lemma TableSizes(p: seq<nat>, back: seq<nat>, q: seq<nat>)
    requires Inverses(p, back) && Reflector(q)
    ensures |p| == |q| == ROTORSZ && forall i | 0 <= i < ROTORSZ :: p[i] < ROTORSZ
  {
  }

  lemma AgreesSizes(t1: seq<nat>, t3: seq<nat>, inv: seq<nat>, p: seq<nat>, q: seq<nat>, k: nat)
    requires Agrees(t1, t3, inv, p, q, k)
    ensures |inv| == |t1| == |t3| == ROTORSZ
  {
  }

  lemma ReachTurn(p: seq<nat>, back: seq<nat>, q: seq<nat>, random: seq<nat>, inv: seq<nat>) returns (r: nat, inv': seq<nat>)
    requires Inverses(p, back) && Reflector(q) && |random| < ROTORSZ
    requires Agrees(Shuffled(random), PairedOff(random), inv, p, q, ROTORSZ - |random|)
    ensures r < RANGE
    ensures Agrees(Shuffled(random + [r]), PairedOff(random + [r]), inv', p, q, ROTORSZ - |random| - 1)
  {
    hide Agrees, Inverses, Reflector, Shuffled, PairedOff, FirstFree, NextPair, Pick;
    TableSizes(p, back, q);
    var k, t1, t3 := ROTORSZ - 1 - |random|, Shuffled(random), PairedOff(random);
    AgreesSizes(t1, t3, inv, p, q, k + 1);
    inv' := AgreesAfter(t1, t3, inv, p, back, q, k);
    var a := inv[p[k]];
    var b := if t3[k] == 0 then q[k] else 0;
    r := a + 256 * b;
    PicksOf(k, a, b);
    NextNumber(random, r);
    if t3[k] == 0 {
      PickSecond(t1, t3, inv, p, q, k);
      NextPairIs(t3, k, r, b);
    } else {
      NextPairKept(t3, k, r);
    }
  }

  /** Every permutation with every pairing is what some numbers lead to. */
  lemma AllTablesOccur(p: seq<nat>, back: seq<nat>, q: seq<nat>) returns (random: seq<nat>)
    requires Inverses(p, back) && Reflector(q)
    ensures |random| == ROTORSZ && (forall r | r in random :: r < RANGE)
    ensures Shuffled(random) == p && PairedOff(random) == q
  {
    hide Inverses, Reflector, Shuffled, PairedOff;
    var inv;
    random, inv := Reach(p, back, q, ROTORSZ);
    TableSizes(p, back, q);
    FullyAgrees(Shuffled(random), PairedOff(random), inv, p, q);
  }

  lemma FullyAgrees(t1: seq<nat>, t3: seq<nat>, inv: seq<nat>, p: seq<nat>, q: seq<nat>)
    requires Agrees(t1, t3, inv, p, q, 0)
    ensures t1 == p && t3 == q
  {
    hide Unpaired;
    forall j | 0 <= j < ROTORSZ
      ensures t3[j] == q[j]
    {
      assert Paired(t3, 0, j);
    }
  }

  /** Later turns leave the entry of a slot whose turn is over. */
  lemma {:induction false} SlotStays(random: seq<nat>, n: nat, k: nat)
    requires n <= |random| <= ROTORSZ && ROTORSZ - n <= k < ROTORSZ
    ensures Shuffled(random)[k] == Shuffled(random[..n])[k]
    decreases |random| - n
  {
    hide Pick;
    if n == |random| {
      assert random[..n] == random;
    } else {
      var m := |random| - 1;
      SlotStays(random[..m], n, k);
      assert random[..m][..n] == random[..n];
    }
  }

  lemma {:induction false} ShuffledInverse(random: seq<nat>) returns (inv: seq<nat>)
    requires |random| <= ROTORSZ
    ensures Inverses(Shuffled(random), inv)
  {
    hide Inverses, Pick, Shuffled;
    if random == [] {
      inv := Shuffled([]);
      StartInverse();
    } else {
      var n := |random| - 1;
      inv := ShuffledInverse(random[..n]);
      NextNumber(random[..n], random[n]);
      assert random == random[..n] + [random[n]];
      inv := SwapEntries(Shuffled(random[..n]), inv, ROTORSZ - 1 - n, Pick(random[n], ROTORSZ - n));
    }
  }

  lemma StartInverse()
    ensures Inverses(Shuffled([]), Shuffled([]))
  {
    NoTurn();
  }

  /** Numbers that lead to the same t1 make the same picks for it. */
  lemma {:induction false} SamePicks(a: seq<nat>, b: seq<nat>, n: nat)
    requires |a| == |b| == ROTORSZ && Shuffled(a) == Shuffled(b) && n <= ROTORSZ
    ensures Shuffled(a[..n]) == Shuffled(b[..n])
    ensures forall i | 0 <= i < n :: Pick(a[i], ROTORSZ - i) == Pick(b[i], ROTORSZ - i)
  {
    hide Shuffled, Pick, Inverses;
    if n == 0 {
      assert a[..0] == b[..0];
    } else {
      var m, k := n - 1, ROTORSZ - n;
      SamePicks(a, b, m);
      SlotStays(a, n, k);
      SlotStays(b, n, k);
      assert a[..n] == a[..m] + [a[m]] && b[..n] == b[..m] + [b[m]];
      NextNumber(a[..m], a[m]);
      NextNumber(b[..m], b[m]);
      var inv := ShuffledInverse(a[..m]);
      SameEntry(Shuffled(a[..m]), inv, Pick(a[m], k + 1), Pick(b[m], k + 1));
    }
  }

  lemma SameEntry(t: seq<nat>, inv: seq<nat>, i: nat, j: nat)
    requires Inverses(t, inv) && i < ROTORSZ && j < ROTORSZ && t[i] == t[j]
    ensures i == j
  {
    assert inv[t[i]] == i && inv[t[j]] == j;
  }

  // ---- The transformation

  function Minus(a: int, b: int): nat {
    (a - b) % 256
  }

  function Plus(a: int, b: int): nat {
    (a + b) % 256
  }

  /** The transformation of byte c with the rotors at n1 and n2. */
  function Rotate(t1: seq<nat>, t2: seq<nat>, t3: seq<nat>, n1: nat, n2: nat, c: byte): byte
    requires Inverses(t1, t2) && Reflector(t3)
  {
    var v := Plus(t1[Plus(c, n1)], n2);
    Minus(t2[Minus(t3[v], n2)], n1)
  }

  lemma PlusMinus(a: byte, n: nat)
    ensures Minus(Plus(a, n), n) == a && Plus(Minus(a, n), n) == a
  {
    var p, q := (a + n) / 256, (a as int - n) / 256;
    assert Plus(a, n) - n == a - 256 * p;
    assert Minus(a, n) + n == a - 256 * q;
    Multiples(a, p);
    Multiples(a, q);
  }

  lemma Multiples(a: byte, p: int)
    ensures (a - 256 * p) % 256 == a
  {
  }

  /** With the rotors in the same position the transformation is its own inverse and moves every byte. */
  lemma RotateTwice(t1: seq<nat>, t2: seq<nat>, t3: seq<nat>, n1: nat, n2: nat, c: byte)
    requires Inverses(t1, t2) && Reflector(t3)
    ensures Rotate(t1, t2, t3, n1, n2, c) != c
    ensures Rotate(t1, t2, t3, n1, n2, Rotate(t1, t2, t3, n1, n2, c)) == c
  {
    var a := Plus(c, n1);
    var v := Plus(t1[a], n2);
    var z := Minus(t3[v], n2);
    hide Plus, Minus;
    PlusMinus(c, n1);
    PlusMinus(t1[a], n2);
    PlusMinus(t3[v], n2);
    PlusMinus(t2[z], n1);
  }

  /** The whole stream: byte k is transformed with the rotors advanced k times. */
  function Transform(t1: seq<nat>, t2: seq<nat>, t3: seq<nat>, s: seq<byte>): seq<byte>
    requires Inverses(t1, t2) && Reflector(t3)
  {
    seq(|s|, k requires 0 <= k < |s| => Rotate(t1, t2, t3, k % 256, k / 256 % 256, s[k]))
  }

  method RotateByte(t1: array<nat>, t2: array<nat>, t3: array<nat>, n1: nat, n2: nat, c: byte) returns (i: byte)
    requires Inverses(t1[..], t2[..]) && Reflector(t3[..])
    ensures i == Rotate(t1[..], t2[..], t3[..], n1, n2, c)
  {
    var x: int := t1[(c as int + n1) % 256];
    x := t3[(x + n2) % 256];
    x := t2[(x - n2) % 256];
    i := (x - n1) % 256;
  }

  lemma RotorsAdvance(k: nat)
    ensures var n1, n2 := k % 256, k / 256 % 256;
            && (k + 1) % 256 == (if n1 + 1 == 256 then 0 else n1 + 1)
            && (k + 1) / 256 % 256 == if n1 + 1 < 256 then n2 else if n2 + 1 == 256 then 0 else n2 + 1
  {
    var q, r := k / 256, k % 256;
    if r == 255 {
      DivMod(k + 1, q + 1, 0);
    } else {
      DivMod(k + 1, q, r + 1);
    }
  }

  lemma DivMod(n: nat, q: nat, r: nat)
    requires n == 256 * q + r && r < 256
    ensures n / 256 == q && n % 256 == r
  {
  }

  /** Byte c with the first rotor turned n times and the second m times. */
  function Turned(t1: seq<nat>, t2: seq<nat>, t3: seq<nat>, n: nat, m: nat, c: byte): nat
    requires Inverses(t1, t2) && Reflector(t3)
  {
    (t2[(t3[(t1[(c + n) % 256] + m) % 256] - m) % 256] - n) % 256
  }

  lemma ModPlus(a: int, n: nat)
    ensures Plus(a, n % 256) == Plus(a, n) && Minus(a, n % 256) == Minus(a, n)
  {
    var q := n / 256;
    assert n == n % 256 + 256 * q;
    SameMod(a + n, a + n % 256, q);
    SameMod(a - n % 256, a - n, q);
  }

  lemma SameMod(x: int, y: int, q: int)
    requires x == y + 256 * q
    ensures x % 256 == y % 256
  {
    assert x / 256 == y / 256 + q;
  }

  lemma PositionsCycle(t1: seq<nat>, t2: seq<nat>, t3: seq<nat>, n: nat, m: nat, c: byte)
    requires Inverses(t1, t2) && Reflector(t3)
    ensures Rotate(t1, t2, t3, n % 256, m % 256, c) == Turned(t1, t2, t3, n, m, c)
  {
    ModPlus(c, n);
    ModPlus(t1[Plus(c, n)], m);
    var v := Plus(t1[Plus(c, n)], m);
    ModPlus(t3[v], m);
    var z := Minus(t3[v], m);
    ModPlus(t2[z], n);
    UnfoldTurned(t1, t2, t3, n, m, c);
    hide Plus, Minus, Turned;
  }

  lemma UnfoldTurned(t1: seq<nat>, t2: seq<nat>, t3: seq<nat>, n: nat, m: nat, c: byte)
    requires Inverses(t1, t2) && Reflector(t3)
    ensures Turned(t1, t2, t3, n, m, c) == Minus(t2[Minus(t3[Plus(t1[Plus(c, n)], m)], m)], n)
  {
  }

  /** The first rotor is turned after each byte and the second after each 256 bytes. */
  method Run(t1: array<nat>, t2: array<nat>, t3: array<nat>, input: seq<byte>) returns (out: seq<byte>)
    requires Inverses(t1[..], t2[..]) && Reflector(t3[..])
    ensures out == Transform(t1[..], t2[..], t3[..], input)
    ensures forall k | 0 <= k < |input| :: out[k] == Turned(t1[..], t2[..], t3[..], k, k / 256, input[k])
  {
    hide Inverses, Reflector, Rotate, Turned;
    forall k: nat | k < |input|
      ensures Rotate(t1[..], t2[..], t3[..], k % 256, k / 256 % 256, input[k])
           == Turned(t1[..], t2[..], t3[..], k, k / 256, input[k])
    {
      PositionsCycle(t1[..], t2[..], t3[..], k, k / 256, input[k]);
    }
    ghost var s1, s2, s3 := t1[..], t2[..], t3[..];
    out := [];
    var n1, n2, k := 0, 0, 0;
    while k < |input|
      invariant 0 <= k <= |input| && |out| == k
      invariant n1 == k % 256 && n2 == k / 256 % 256
      invariant forall j | 0 <= j < k :: out[j] == Rotate(s1, s2, s3, j % 256, j / 256 % 256, input[j])
    {
      var i := RotateByte(t1, t2, t3, n1, n2, input[k]);
      out := out + [i];
      RotorsAdvance(k);
      n1 := n1 + 1;
      if n1 == ROTORSZ {
        n1 := 0;
        n2 := n2 + 1;
        if n2 == ROTORSZ {
          n2 := 0;
        }
      }
      k := k + 1;
    }
  }

  /** Running crypt twice with the same key gives back the text, and no byte encrypts to itself. */
  lemma TransformTwice(t1: seq<nat>, t2: seq<nat>, t3: seq<nat>, s: seq<byte>)
    requires Inverses(t1, t2) && Reflector(t3)
    ensures Transform(t1, t2, t3, Transform(t1, t2, t3, s)) == s
    ensures forall k | 0 <= k < |s| :: Transform(t1, t2, t3, s)[k] != s[k]
  {
    hide Rotate, Inverses, Reflector;
    forall k | 0 <= k < |s|
      ensures Transform(t1, t2, t3, s)[k] != s[k]
      ensures Transform(t1, t2, t3, Transform(t1, t2, t3, s))[k] == s[k]
    {
      RotateTwice(t1, t2, t3, k % 256, k / 256 % 256, s[k]);
    }
  }
}
