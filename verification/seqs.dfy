/** Small facts about sequences, proved once, away from any heavy context. */
module Seqs {
  lemma ConsAppend<T>(xs: seq<T>, ys: seq<T>)
    requires xs != []
    ensures xs + ys == [xs[0]] + (xs[1..] + ys)
    ensures (xs + ys)[0] == xs[0] && (xs + ys)[1..] == xs[1..] + ys
  {
  }

  lemma AppendAssoc<T>(xs: seq<T>, ys: seq<T>, zs: seq<T>)
    ensures xs + (ys + zs) == (xs + ys) + zs
  {
  }

  lemma ConsParts<T>(x: T, xs: seq<T>)
    ensures ([x] + xs)[0] == x && ([x] + xs)[1..] == xs
  {
  }

  lemma SliceOfSlice<T>(x: seq<T>, i: nat, j: nat, p: nat, q: nat)
    requires i <= j <= |x| && p <= q <= j - i
    ensures x[i..j][p..q] == x[i + p..i + q]
  {
    forall t | 0 <= t < q - p
      ensures x[i..j][p..q][t] == x[i + p..i + q][t]
    {
    }
  }

  lemma SliceSplit<T>(x: seq<T>, i: nat, j: nat, k: nat)
    requires i <= j <= k <= |x|
    ensures x[i..k] == x[i..j] + x[j..k]
  {
  }
}
