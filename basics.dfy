/** Small generic pieces the scraper model is written with: an optional value,
    "the first n elements", and the subsequence relation. */
module Basics {

  /** A value that may be absent (Python's `None`). */
  datatype Option<T> = None | Some(value: T)

  /** The first `n` elements of `s`, or all of `s` when it is shorter; nothing when `n <= 0`.
      For `n >= 0` this is Python's slice `s[:n]`. */
  function Take<T>(s: seq<T>, n: int): (p: seq<T>)
    ensures |p| == if n <= 0 then 0 else if |s| <= n then |s| else n
    ensures p == s[..|p|]
  {
    if n <= 0 then [] else if |s| <= n then s else s[..n]
  }

  /** `xs` is obtained from `ys` by deleting elements, keeping the order of the rest. */
  predicate IsSubsequence<T(==)>(xs: seq<T>, ys: seq<T>)
    decreases |ys|
  {
    if ys == [] then xs == []
    else
      IsSubsequence(xs, ys[..|ys| - 1])
      || (xs != [] && xs[|xs| - 1] == ys[|ys| - 1] && IsSubsequence(xs[..|xs| - 1], ys[..|ys| - 1]))
  }

  /** Appending to the larger sequence keeps a subsequence one. */
  lemma SubsequenceExtend<T>(xs: seq<T>, ys: seq<T>, y: T)
    requires IsSubsequence(xs, ys)
    ensures IsSubsequence(xs, ys + [y])
  {
    assert (ys + [y])[..|ys|] == ys;
  }

  /** Appending the same element to both sides keeps a subsequence one. */
  lemma SubsequenceAppendBoth<T>(xs: seq<T>, ys: seq<T>, y: T)
    requires IsSubsequence(xs, ys)
    ensures IsSubsequence(xs + [y], ys + [y])
  {
    assert (ys + [y])[..|ys|] == ys;
    assert (xs + [y])[..|xs|] == xs;
  }

  /** Every prefix of a subsequence is a subsequence. */
  lemma {:induction false} SubsequencePrefix<T>(xs: seq<T>, ys: seq<T>, k: nat)
    requires IsSubsequence(xs, ys) && k <= |xs|
    ensures IsSubsequence(xs[..k], ys)
    decreases |ys|
  {
    if k == |xs| {
      assert xs[..k] == xs;
    } else if ys == [] {
    } else {
      var ys' := ys[..|ys| - 1];
      assert ys' + [ys[|ys| - 1]] == ys;
      if IsSubsequence(xs, ys') {
        SubsequencePrefix(xs, ys', k);
      } else {
        var xs' := xs[..|xs| - 1];
        assert xs'[..k] == xs[..k];
        SubsequencePrefix(xs', ys', k);
      }
      SubsequenceExtend(xs[..k], ys', ys[|ys| - 1]);
    }
  }

  /** The elements of a subsequence are elements of the sequence it is taken from. */
  lemma {:induction false} SubsequenceMembers<T>(xs: seq<T>, ys: seq<T>, x: T)
    requires IsSubsequence(xs, ys) && x in xs
    ensures x in ys
    decreases |ys|
  {
    var ys' := ys[..|ys| - 1];
    if IsSubsequence(xs, ys') {
      SubsequenceMembers(xs, ys', x);
    } else if x != xs[|xs| - 1] {
      var xs' := xs[..|xs| - 1];
      assert xs == xs' + [xs[|xs| - 1]];
      SubsequenceMembers(xs', ys', x);
    }
  }
}
