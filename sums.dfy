/** Finite sums over integer index ranges, the common vocabulary of the
    quadrature rules. `Sum(g, lo, hi)` adds g(lo), ..., g(hi - 1), and it adds
    the last term last, the order in which a `for i in range(lo, hi)` loop
    accumulates them. */
module Sums {

  function Sum(g: int -> real, lo: int, hi: int): real
    decreases hi - lo
  {
    if hi <= lo then 0.0 else Sum(g, lo, hi - 1) + g(hi - 1)
  }

  /** A sum depends only on the terms inside its range. */
  lemma {:induction false} SumExt(g1: int -> real, g2: int -> real, lo: int, hi: int)
    requires forall i :: lo <= i < hi ==> g1(i) == g2(i)
    ensures Sum(g1, lo, hi) == Sum(g2, lo, hi)
    decreases hi - lo
  {
    if lo < hi {
      SumExt(g1, g2, lo, hi - 1);
    }
  }

  /** Sums are additive in their terms. */
  lemma {:induction false} SumAdd(g: int -> real, g1: int -> real, g2: int -> real, lo: int, hi: int)
    requires forall i :: lo <= i < hi ==> g(i) == g1(i) + g2(i)
    ensures Sum(g, lo, hi) == Sum(g1, lo, hi) + Sum(g2, lo, hi)
    decreases hi - lo
  {
    if lo < hi {
      SumAdd(g, g1, g2, lo, hi - 1);
    }
  }

  /** A common factor of every term comes out of the sum. */
  lemma {:induction false} SumScale(g: int -> real, h: int -> real, c: real, lo: int, hi: int)
    requires forall i :: lo <= i < hi ==> h(i) == c * g(i)
    ensures Sum(h, lo, hi) == c * Sum(g, lo, hi)
    decreases hi - lo
  {
    if lo < hi {
      SumScale(g, h, c, lo, hi - 1);
    }
  }

  /** Closed form of a sum of an affine sequence of terms c + d*i. */
  lemma {:induction false} SumAffine(g: int -> real, c: real, d: real, lo: int, hi: int)
    requires lo <= hi
    requires forall i :: lo <= i < hi ==> g(i) == c + d * (i as real)
    ensures Sum(g, lo, hi)
         == ((hi - lo) as real) * c
          + d * ((hi as real) * ((hi as real) - 1.0) - (lo as real) * ((lo as real) - 1.0)) / 2.0
    decreases hi - lo
  {
    if lo < hi {
      SumAffine(g, c, d, lo, hi - 1);
      var m := (hi - 1) as real;
      assert (hi as real) * ((hi as real) - 1.0) == m * (m - 1.0) + 2.0 * m;
    }
  }

  /** A sum of constant terms is the constant times the number of terms. */
  lemma {:induction false} SumConst(g: int -> real, c: real, lo: int, hi: int)
    requires lo <= hi
    requires forall i :: lo <= i < hi ==> g(i) == c
    ensures Sum(g, lo, hi) == ((hi - lo) as real) * c
    decreases hi - lo
  {
    if lo < hi {
      SumConst(g, c, lo, hi - 1);
    }
  }
}
