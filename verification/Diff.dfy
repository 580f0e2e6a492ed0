/** The whole of diff, from the values of the lines to the hunks. */
module Diff {
  import opened CommonLines
  import opened DiffMatch
  import opened DiffOutput

  /** The hunks patch the first file to the second, whichever way they are printed, and leave out a
      longest common subsequence: j is a match vector with as many lines as there can be. */
  method DiffFiles(a: seq<int>, b: seq<int>, script: bool, garbage: int) returns (hs: seq<Hunk>, ghost j: seq<nat>)
    requires forall x | x in b :: x != 0
    ensures if script then Edited(hs, a, b) == b else Patched(hs, a, b, |a|) == b
    ensures Matching(j, a, b)
    ensures if script then CoversBackward(hs, j, |a|, |b|) else Covers(hs, j, |a|, |b|)
    ensures forall k | Matching(k, a, b) :: Matched(k, |a|) <= Matched(j, |a|)
  {
    hide Edited, Patched, Covers, CoversBackward, Matching, Matched, Lcs;
    var vector := MatchLines(a, b, garbage);
    j := vector[..];
    forall k | Matching(k, a, b)
      ensures |k| > |a| && Matched(k, |a|) <= Matched(j, |a|)
    {
      LongEnough(k, a, b);
      MatchesMost(j, k, a, b);
    }
    LongEnough(j, a, b);
    if script {
      hs := OutputBackward(vector, |a|, |b|, a, b);
    } else {
      hs := OutputForward(vector, |a|, |b|, a, b);
    }
  }

  lemma LongEnough(j: seq<nat>, a: seq<int>, b: seq<int>)
    requires Matching(j, a, b)
    ensures |j| > |a|
  {
  }
}
