/** The few array operations the vectorised rules take from numpy, over exact
    reals: `np.linspace`, the slice `x[1:-1]`, applying an integrand to every
    element, and summing an array. */
module NumpyOps {
  import opened Sums

  /** `np.linspace(lo, hi, num)`: num equally spaced points from lo to hi,
      both ends included; a single point is `lo` itself. */
  function Linspace(lo: real, hi: real, num: nat): (xs: seq<real>)
    ensures |xs| == num
    ensures num >= 1 ==> xs[0] == lo
    ensures num >= 2 ==> xs[num - 1] == hi
    ensures forall k :: 0 <= k < num && num >= 2 ==>
              xs[k] == lo + (k as real) * ((hi - lo) / ((num - 1) as real))
  {
    seq(num, k => if num == 1 then lo else lo + (k as real) * ((hi - lo) / ((num - 1) as real)))
  }

  /** Python's slice `xs[1:-1]`: every element but the first and the last,
      and nothing at all when there are fewer than two. */
  function Interior(xs: seq<real>): (ys: seq<real>)
    ensures |xs| < 2 ==> ys == []
    ensures |xs| >= 2 ==> |ys| == |xs| - 2 && forall k :: 0 <= k < |ys| ==> ys[k] == xs[k + 1]
  {
    if |xs| < 2 then [] else xs[1..|xs| - 1]
  }

  /** `f(x)` for an array `x`: the integrand applied element by element. */
  function Apply(f: real -> real, xs: seq<real>): (ys: seq<real>)
    ensures |ys| == |xs|
    ensures forall k :: 0 <= k < |xs| ==> ys[k] == f(xs[k])
  {
    seq(|xs|, k requires 0 <= k < |xs| => f(xs[k]))
  }

  /** `np.sum` / `sum` of an array. */
  function SumSeq(xs: seq<real>): real {
    if xs == [] then 0.0 else SumSeq(xs[..|xs| - 1]) + xs[|xs| - 1]
  }

  /** Summing an array whose k-th element is g(lo + k) is the index sum of g. */
  lemma {:induction false} SumSeqIsSum(xs: seq<real>, g: int -> real, lo: int)
    requires forall k :: 0 <= k < |xs| ==> xs[k] == g(lo + k)
    ensures SumSeq(xs) == Sum(g, lo, lo + |xs|)
  {
    if xs != [] {
      SumSeqIsSum(xs[..|xs| - 1], g, lo);
    }
  }
}
