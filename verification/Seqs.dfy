/** Facts about sequences that the other modules share. */
module Seqs {
  lemma Unsnoc<T>(s: seq<T>)
    requires s != []
    ensures s == s[..|s| - 1] + [s[|s| - 1]]
  {
  }

  lemma SlicePrefix<T>(f: seq<T>, c: seq<T>, p: nat, q: nat)
    requires p <= q <= |f|
    ensures (f + c)[p..q] == f[p..q]
  {
  }

  lemma SliceAppend<T>(f: seq<T>, c: seq<T>, p: nat)
    requires p <= |f|
    ensures (f + c)[p..|f + c|] == f[p..|f|] + c
  {
  }

  lemma SubSlice<T>(s: seq<T>, a: nat, b: nat, i: nat, j: nat)
    requires a <= b <= |s| && i <= j <= b - a
    ensures s[a..b][i..j] == s[a + i..a + j]
  {
    forall k | 0 <= k < j - i
      ensures s[a..b][i..j][k] == s[a + i..a + j][k]
    {
      assert s[a..b][i..j][k] == s[a..b][i + k] == s[a + (i + k)];
    }
  }
}
