/** Facts about slices of sequences shared by the readers of several days. */
module Seqs {
  /** A slice of a window of s that equals w is the same slice of w. */
  lemma {:induction false} SliceOfSlice<T>(s: seq<T>, p: nat, w: seq<T>, i: nat, j: nat)
    requires p + |w| <= |s| && s[p..p + |w|] == w && i <= j <= |w|
    ensures s[p + i..p + j] == w[i..j]
  {
    forall k | 0 <= k < j - i
      ensures s[p + i..p + j][k] == w[i..j][k]
    {
      assert s[p + i + k] == s[p..p + |w|][i + k];
    }
  }

  /** The element at offset i of a window of s that equals w. */
  lemma {:induction false} IndexOfSlice<T>(s: seq<T>, p: nat, w: seq<T>, i: nat)
    requires p + |w| <= |s| && s[p..p + |w|] == w && i < |w|
    ensures s[p + i] == w[i]
  {
    assert s[p + i] == s[p..p + |w|][i];
  }
}
