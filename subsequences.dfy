/** Order-preserving subsequences: the samplers' outputs are drawn from their input rows
    without reordering, duplicating or fabricating a row. */
module Subsequences {

  /** `xs` can be obtained from `ys` by deleting elements. */
  ghost predicate IsSubseq<T>(xs: seq<T>, ys: seq<T>)
    decreases |ys|
  {
    |xs| <= |ys| &&
    (xs == [] ||
     (xs[0] == ys[0] && IsSubseq(xs[1..], ys[1..])) ||
     IsSubseq(xs, ys[1..]))
  }

  lemma {:induction false} EmptyIsSubseq<T>(ys: seq<T>)
    ensures IsSubseq([], ys)
  {
  }

  lemma {:induction false} SubseqRefl<T>(ys: seq<T>)
    ensures IsSubseq(ys, ys)
    decreases |ys|
  {
    if ys != [] {
      SubseqRefl(ys[1..]);
    }
  }

  /** Keeping or dropping the head of `ys`, on top of a subsequence of its tail. */
  lemma SubseqCons<T>(x: T, xs: seq<T>, ys: seq<T>, keep: bool)
    requires IsSubseq(xs, ys)
    ensures IsSubseq(if keep then [x] + xs else xs, [x] + ys)
  {
    assert ([x] + ys)[1..] == ys;
    if keep {
      assert ([x] + xs)[1..] == xs;
    }
  }

  /** A subsequence as long as the sequence is the sequence itself. */
  lemma {:induction false} SubseqSameLength<T>(xs: seq<T>, ys: seq<T>)
    requires IsSubseq(xs, ys) && |xs| == |ys|
    ensures xs == ys
    decreases |ys|
  {
    if xs != [] && xs[0] == ys[0] && IsSubseq(xs[1..], ys[1..]) {
      SubseqSameLength(xs[1..], ys[1..]);
      assert xs == [xs[0]] + xs[1..];
      assert ys == [ys[0]] + ys[1..];
    }
  }
}
