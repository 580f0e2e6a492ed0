/** fsck's phase 2: going down the directories from the root, once each, and taking one link off the count
    of every inode an entry names. Every question is answered no. */
module FsckNames {
  const ROOTINO: nat := 2

  datatype State = Unallocated | File | Directory | Clear

  /** What the disk says: for each inode whether it is a directory, its link count, and the numbers in its
      entries in the order a scan sees them. Inode 0 is none. */
  datatype Volume = Volume(isDir: seq<bool>, nlink: seq<int>, entries: seq<seq<nat>>) {
    predicate Shape() {
      |isDir| == |nlink| == |entries| > ROOTINO
    }

    /** Inodes that are gone into: directories, and the root whatever it is. */
    predicate Descends(i: nat)
      requires Shape()
    {
      i < |isDir| && (isDir[i] || i == ROOTINO)
    }
  }

  /** An entry may name inode i. */
  predicate Alive(states: seq<State>, i: nat) {
    ROOTINO <= i < |states| && states[i] != Unallocated
  }

  predicate Named(v: Volume, d: nat, i: nat) {
    d < |v.entries| && i in v.entries[d]
  }

  /** s has the root, and every directory an entry in s names. */
  ghost predicate Closed(v: Volume, states: seq<State>, s: set<nat>)
    requires v.Shape()
  {
    ROOTINO in s && forall d, i | d in s && Named(v, d, i) && Alive(states, i) && v.Descends(i) :: i in s
  }

  ghost predicate Reached(v: Volume, states: seq<State>, i: nat)
    requires v.Shape()
  {
    forall s | Closed(v, states, s) :: i in s
  }

  lemma NamedReached(v: Volume, states: seq<State>, d: nat, i: nat)
    requires v.Shape() && Reached(v, states, d) && Named(v, d, i) && Alive(states, i) && v.Descends(i)
    ensures Reached(v, states, i)
  {
    hide Named, Alive;
  }

  lemma RootReached(v: Volume, states: seq<State>)
    requires v.Shape()
    ensures Reached(v, states, ROOTINO)
  {
  }

  // ---- Counting the names of an inode

  function Count(s: seq<nat>, n: nat, i: nat): nat
    requires n <= |s|
  {
    if n == 0 then 0 else Count(s, n - 1, i) + if s[n - 1] == i then 1 else 0
  }

  /** Names of i among the first done[d] entries of each directory d below k. */
  function Seen(entries: seq<seq<nat>>, done: seq<nat>, i: nat, k: nat): nat
    requires k <= |entries| == |done| && forall d | 0 <= d < |done| :: done[d] <= |entries[d]|
  {
    if k == 0 then 0 else Seen(entries, done, i, k - 1) + Count(entries[k - 1], done[k - 1], i)
  }

  /** Names of i in the directories of s below k. */
  function Links(entries: seq<seq<nat>>, s: set<nat>, i: nat, k: nat): nat
    requires k <= |entries|
  {
    if k == 0 then 0 else Links(entries, s, i, k - 1)
                          + if k - 1 in s then Count(entries[k - 1], |entries[k - 1]|, i) else 0
  }

  ghost predicate Within(entries: seq<seq<nat>>, done: seq<nat>) {
    |done| == |entries| && forall d | 0 <= d < |done| :: done[d] <= |entries[d]|
  }

  lemma {:induction false} SeenNext(entries: seq<seq<nat>>, done: seq<nat>, d: nat, i: nat, k: nat)
    requires Within(entries, done) && d < |done| && done[d] < |entries[d]| && k <= |entries|
    ensures Seen(entries, done[d := done[d] + 1], i, k)
         == Seen(entries, done, i, k) + if d < k && entries[d][done[d]] == i then 1 else 0
  {
    if k > 0 {
      SeenNext(entries, done, d, i, k - 1);
    }
  }

  lemma {:induction false} SeenNothing(entries: seq<seq<nat>>, done: seq<nat>, i: nat, k: nat)
    requires Within(entries, done) && k <= |entries| && forall d | 0 <= d < |done| :: done[d] == 0
    ensures Seen(entries, done, i, k) == 0
  {
    if k > 0 {
      SeenNothing(entries, done, i, k - 1);
    }
  }

  lemma {:induction false} SeenAll(entries: seq<seq<nat>>, done: seq<nat>, s: set<nat>, i: nat, k: nat)
    requires Within(entries, done) && k <= |entries|
    requires forall d | 0 <= d < |done| :: done[d] == if d in s then |entries[d]| else 0
    ensures Seen(entries, done, i, k) == Links(entries, s, i, k)
  {
    if k > 0 {
      SeenAll(entries, done, s, i, k - 1);
    }
  }

  class Namer {
    const v: Volume
    /** What phase 1 left: the state of every inode, and its link count. */
    ghost const states0: seq<State>
    const state: array<State>
    const lncnt: array<int>
    /** The directories gone into, and how far each has been scanned. */
    ghost var visited: set<nat>
    ghost var done: seq<nat>

    constructor (v: Volume, states: seq<State>)
      requires v.Shape() && |states| == |v.isDir| && states[ROOTINO] == Directory
      requires forall i | 0 <= i < |states| :: FromPhase1(v, states[i], i)
      ensures Valid() && this.v == v && states0 == states && visited == {} && fresh(state) && fresh(lncnt)
    {
      this.v, states0 := v, states;
      state := new State[|states|](i requires 0 <= i < |states| => states[i]);
      lncnt := new int[|states|](i requires 0 <= i < |states| => v.nlink[i]);
      visited := {};
      done := seq(|states|, _ => 0);
      new;
      forall i: nat
        ensures Seen(v.entries, done, i, |v.entries|) == 0
      {
        SeenNothing(v.entries, done, i, |v.entries|);
      }
    }

    ghost predicate Shape() {
      v.Shape() && |states0| == state.Length == lncnt.Length == |v.isDir|
    }

    ghost predicate Valid()
      reads this, state, lncnt
    {
      && Shape() && Within(v.entries, done)
      && (forall d | 0 <= d < |done| && d !in visited :: done[d] == 0)
      && (forall d | d in visited :: Alive(states0, d) && v.Descends(d) && Reached(v, states0, d))
      && (forall i: nat | i < |states0| :: StateNow(v, states0, visited, state[i], i))
      && (forall i: nat | i < |states0| && i !in visited :: StateKept(v, states0, visited, state[i], i))
      && (forall i: nat | Alive(states0, i) && Met(v.entries, visited, done, i) :: state[i] != Clear)
      && (forall i: nat | Alive(states0, i) :: lncnt[i] == v.nlink[i] - Seen(v.entries, done, i, |v.entries|))
      && (forall i: nat | i < |states0| && !Alive(states0, i) :: lncnt[i] == v.nlink[i])
    }

    /** Directory d has been scanned to its end, and every directory it names has been gone into. */
    ghost predicate Complete(d: nat)
      requires Shape() && Within(v.entries, done)
      reads this
    {
      && d < |done| && done[d] == |v.entries[d]|
      && forall i: nat | Named(v, d, i) && Alive(states0, i) && v.Descends(i) :: i in visited
    }

    /** The directories still to be gone into. */
    ghost function Left(): set<nat>
      reads this
    {
      Below(|states0|) - visited
    }

    /** One entry of directory d. */
    method Pass2(ino: nat, ghost d: nat)
      requires Valid() && d in visited && done[d] < |v.entries[d]| && ino == v.entries[d][done[d]]
      modifies this, state, lncnt
      ensures Valid() && old(visited) <= visited && done[d] == old(done[d]) + 1
      ensures forall x | x in old(visited) && x != d :: done[x] == old(done[x])
      ensures forall x | x in visited && x !in old(visited) :: Complete(x)
      ensures Alive(states0, ino) && v.Descends(ino) ==> ino in visited
      decreases Left(), 2
    {
      hide Seen, Reached;
      assert Named(v, d, ino);
      if ino == 0 || ino >= state.Length || ino < ROOTINO {
        SkipEntry(d);
        return;
      }
      if state[ino] == Unallocated {
        SkipEntry(d);
        return;
      }
      if state[ino] == Clear {
        state[ino] := if v.isDir[ino] then Directory else File;
      }
      if state[ino] == File {
        DeclnCnt(ino, d);
      } else {
        DeclnCnt(ino, d);
        assert Alive(states0, ino) && Alive(states0, d);
        NamedReached(v, states0, d, ino);
        Descend(ino);
      }
    }

    method DeclnCnt(ino: nat, ghost d: nat)
      requires Valid() && d in visited && done[d] < |v.entries[d]| && ino == v.entries[d][done[d]] && Alive(states0, ino)
      requires state[ino] != Clear
      modifies this`done, lncnt
      ensures Valid() && done == old(done)[d := old(done[d]) + 1]
    {
      hide Reached, StateKept;
      CountNext(v.entries, done, d);
      MetNext(v.entries, visited, done, d);
      hide Seen, Met;
      lncnt[ino] := lncnt[ino] - 1;
      done := done[d := done[d] + 1];
    }

    /** Marks a directory as gone into. */
    method Enter(inum: nat)
      requires Valid() && Alive(states0, inum) && state[inum] == Directory && Reached(v, states0, inum)
      modifies this`visited, state
      ensures Valid() && visited == old(visited) + {inum} && inum !in old(visited) && done[inum] == 0
    {
      hide Seen, Reached, Met, NamedBy;
      MetOneMore(v.entries, visited, done, inum);
      NamedStill(v, visited, inum);
      state[inum] := File;
      visited := visited + {inum};
    }

    /** Goes into a directory that has not been gone into. */
    method Descend(inum: nat)
      requires Valid() && Alive(states0, inum) && state[inum] == Directory && Reached(v, states0, inum)
      modifies this, state, lncnt
      ensures Valid() && old(visited) <= visited && inum in visited
      ensures forall x | x in old(visited) :: done[x] == old(done[x])
      ensures forall x | x in visited && x !in old(visited) :: Complete(x)
      decreases Left(), 1
    {
      hide Seen, Reached, Met, StateKept, StateNow, Alive;
      Enter(inum);
      ghost var start := visited;
      var entries := v.entries[inum];
      var k := 0;
      while k < |entries|
        invariant 0 <= k <= |entries| && Valid() && start <= visited && done[inum] == k
        invariant forall x | x in old(visited) :: done[x] == old(done[x])
        invariant forall x | x in visited && x !in start :: Complete(x)
        invariant forall i: nat | i in entries[..k] && Alive(states0, i) && v.Descends(i) :: i in visited
      {
        Pass2(entries[k], inum);
        k := k + 1;
      }
    }

    /** Phase 2. The directories gone into are exactly those reached from the root, and the count of each
        inode is short of its link count by its names in those directories. A directory keeps the state that
        makes phase 3 look at it exactly when it has not been gone into, and an inode to be cleared keeps that
        state exactly when no directory gone into names it. */
    method Phase2()
      requires Valid() && visited == {} && state[ROOTINO] == Directory
      modifies this, state, lncnt
      ensures Closed(v, states0, visited) && forall s | Closed(v, states0, s) :: visited <= s
      ensures forall i: nat | Alive(states0, i) :: lncnt[i] == v.nlink[i] - Links(v.entries, visited, i, |v.entries|)
      ensures forall i: nat | i < |states0| && !Alive(states0, i) :: lncnt[i] == v.nlink[i]
      ensures forall i: nat | i < |states0| ::
                state[i] == if i in visited || Pardoned(v, states0, visited, i) then File else states0[i]
    {
      hide Seen, Links, Pardoned, StateKept, Met;
      RootReached(v, states0);
      Descend(ROOTINO);
      forall s | Closed(v, states0, s)
        ensures visited <= s
      {
        assert forall d | d in visited :: Reached(v, states0, d);
      }
      forall i: nat | i < |states0|
        ensures state[i] == if i in visited || Pardoned(v, states0, visited, i) then File else states0[i]
      {
        StateLeft(i);
      }
      hide Reached;
      forall i: nat
        ensures Seen(v.entries, done, i, |v.entries|) == Links(v.entries, visited, i, |v.entries|)
      {
        SeenAll(v.entries, done, visited, i, |v.entries|);
      }
    }

    lemma StateLeft(i: nat)
      requires Valid() && i < |states0| && forall d | d in visited :: Complete(d)
      ensures state[i] == if i in visited || Pardoned(v, states0, visited, i) then File else states0[i]
    {
      hide Seen, Reached, Alive;
      if NamedBy(v, visited, i) {
        var d :| d in visited && Named(v, d, i);
        assert Complete(d);
        assert Met(v.entries, visited, done, i) by {
          var k :| 0 <= k < |v.entries[d]| && v.entries[d][k] == i;
        }
      }
    }

    /** An entry that names nothing. */
    ghost method SkipEntry(d: nat)
      requires Valid() && d in visited && done[d] < |v.entries[d]| && !Alive(states0, v.entries[d][done[d]])
      modifies this`done
      ensures Valid() && done == old(done)[d := old(done[d]) + 1]
    {
      hide Reached, StateKept;
      CountNext(v.entries, done, d);
      MetNext(v.entries, visited, done, d);
      hide Seen, Met;
      done := done[d := done[d] + 1];
    }
  }

  /** One of the entries scanned so far names i. */
  ghost predicate Met(entries: seq<seq<nat>>, visited: set<nat>, done: seq<nat>, i: nat) {
    exists d, k | d in visited && d < |entries| && d < |done| && 0 <= k < done[d] && k < |entries[d]| ::
      entries[d][k] == i
  }

  lemma MetNext(entries: seq<seq<nat>>, visited: set<nat>, done: seq<nat>, d: nat)
    requires Within(entries, done) && d in visited && d < |done| && done[d] < |entries[d]|
    ensures forall i: nat :: Met(entries, visited, done[d := done[d] + 1], i)
                         <==> Met(entries, visited, done, i) || i == entries[d][done[d]]
  {
    var more := done[d := done[d] + 1];
    forall i: nat
      ensures Met(entries, visited, more, i) <==> Met(entries, visited, done, i) || i == entries[d][done[d]]
    {
      if Met(entries, visited, done, i) {
        var e, k :| e in visited && e < |entries| && e < |done| && 0 <= k < done[e] && k < |entries[e]|
                    && entries[e][k] == i;
        assert k < more[e] && entries[e][k] == i;
      }
      if i == entries[d][done[d]] {
        assert done[d] < more[d] && entries[d][done[d]] == i;
      }
    }
  }

  /** Nothing of a directory just gone into has been scanned. */
  lemma MetOneMore(entries: seq<seq<nat>>, visited: set<nat>, done: seq<nat>, d: nat)
    requires d < |done| && done[d] == 0
    ensures forall i: nat :: Met(entries, visited + {d}, done, i) <==> Met(entries, visited, done, i)
  {
    forall i: nat
      ensures Met(entries, visited + {d}, done, i) <==> Met(entries, visited, done, i)
    {
    }
  }

  lemma NamedStill(v: Volume, s: set<nat>, d: nat)
    ensures forall i: nat | NamedBy(v, s, i) :: NamedBy(v, s + {d}, i)
  {
  }

  ghost predicate NamedBy(v: Volume, s: set<nat>, i: nat) {
    exists d | d in s :: Named(v, d, i)
  }

  /** Inode i was to be cleared, but an entry of a directory of s names it. */
  ghost predicate Pardoned(v: Volume, states: seq<State>, s: set<nat>, i: nat)
    requires i < |states|
  {
    states[i] == Clear && Alive(states, i) && NamedBy(v, s, i)
  }

  /** The state of an inode that has not been gone into is what phase 1 said, except that one to be cleared has been
      taken for what it is once an entry has named it. */
  ghost predicate StateKept(v: Volume, states: seq<State>, visited: set<nat>, s: State, i: nat)
    requires v.Shape() && i < |states| == |v.isDir|
  {
    s == states[i]
    || (states[i] == Clear && Alive(states, i) && NamedBy(v, visited, i) && s == if v.Descends(i) then Directory else File)
  }

  /** The state of inode i, given what phase 1 said and which directories have been gone into. */
  predicate StateNow(v: Volume, states: seq<State>, visited: set<nat>, s: State, i: nat)
    requires v.Shape() && i < |states| == |v.isDir|
  {
    && (s == Unallocated <==> states[i] == Unallocated) && (i in visited ==> s == File)
    && (s == Directory ==> v.Descends(i)) && (s == File ==> !v.Descends(i) || i in visited)
    && (i == ROOTINO ==> s != Clear)
  }

  lemma CountNext(entries: seq<seq<nat>>, done: seq<nat>, d: nat)
    requires Within(entries, done) && d < |done| && done[d] < |entries[d]|
    ensures Within(entries, done[d := done[d] + 1])
    ensures forall i: nat :: Seen(entries, done[d := done[d] + 1], i, |entries|)
                          == Seen(entries, done, i, |entries|) + if entries[d][done[d]] == i then 1 else 0
  {
    forall i: nat
      ensures Seen(entries, done[d := done[d] + 1], i, |entries|)
           == Seen(entries, done, i, |entries|) + if entries[d][done[d]] == i then 1 else 0
    {
      SeenNext(entries, done, d, i, |entries|);
    }
  }

  ghost function Below(n: nat): (s: set<nat>)
    ensures forall i: nat :: i in s <==> i < n
  {
    if n == 0 then {} else Below(n - 1) + {n - 1}
  }

  /** The states phase 1 gives out. */
  predicate FromPhase1(v: Volume, s: State, i: nat)
    requires v.Shape()
  {
    (s == File ==> !v.Descends(i)) && (s == Directory ==> v.Descends(i))
  }
}
