/** The composite one-dimensional rules as reference definitions over exact
    reals, and what they promise: the closed forms for affine and constant
    integrands, linearity in the integrand, and where the samples lie.
    `trapezoidal` and `midpoint` appear with the same text in both integration
    files of the repository; the loops of both are proved equal to these
    definitions. */
module Quadrature {
  import opened Sums

  /** Width of each of the n equal subintervals of [a, b]. */
  function Width(a: real, b: real, n: nat): real
    requires n >= 1
  {
    (b - a) / (n as real)
  }

  /** n subintervals of width (b - a)/n cover [a, b] exactly. */
  lemma {:induction false} WidthCovers(a: real, b: real, n: nat)
    requires n >= 1
    ensures Width(a, b, n) * (n as real) == b - a
  {
  }

  /** The i-th partition point a + i*h of the trapezoidal rule. */
  function TrapezoidNode(a: real, h: real, i: int): real {
    a + (i as real) * h
  }

  /** The centre a + w/2 + i*w of the i-th subinterval. */
  function MidpointNode(a: real, w: real, i: int): real {
    a + w / 2.0 + (i as real) * w
  }

  function TrapezoidSamples(f: real -> real, a: real, h: real): int -> real {
    i => f(TrapezoidNode(a, h, i))
  }

  function MidpointSamples(f: real -> real, a: real, w: real): int -> real {
    i => f(MidpointNode(a, w, i))
  }

  /** h * (f(a)/2 + f(b)/2 + f(a + h) + ... + f(a + (n-1)*h)), h = (b - a)/n. */
  function TrapezoidalRule(f: real -> real, a: real, b: real, n: nat): real
    requires n >= 1
  {
    var h := Width(a, b, n);
    h * (0.5 * (f(a) + f(b)) + Sum(TrapezoidSamples(f, a, h), 1, n))
  }

  /** w * (f(m_0) + ... + f(m_{n-1})) at the midpoints m_i, w = (b - a)/n. */
  function MidpointRule(f: real -> real, a: real, b: real, n: nat): real
    requires n >= 1
  {
    var w := Width(a, b, n);
    w * Sum(MidpointSamples(f, a, w), 0, n)
  }

  /** For a < b every midpoint sample lies strictly inside (a, b). */
  lemma {:induction false} MidpointNodesInside(a: real, b: real, n: nat, i: int)
    requires n >= 1 && a < b && 0 <= i < n
    ensures a < MidpointNode(a, Width(a, b, n), i) < b
  {
    var w := Width(a, b, n);
    WidthCovers(a, b, n);
    StrictlyInside(a, b, w, i as real, n as real);
  }

  lemma {:induction false} StrictlyInside(a: real, b: real, w: real, ir: real, nr: real)
    requires a < b && w * nr == b - a && 0.0 <= ir && ir + 1.0 <= nr
    ensures a < a + w / 2.0 + ir * w < b
  {
    assert w > 0.0;
    var t := ir + 0.5;
    assert a + w / 2.0 + ir * w == a + t * w;
    assert 0.0 < t * w < nr * w;
  }

  /** The trapezoidal partition points lie in [a, b], the first at a and the
      n-th at b. */
  lemma {:induction false} TrapezoidNodesInside(a: real, b: real, n: nat, i: int)
    requires n >= 1 && a < b && 0 <= i <= n
    ensures a <= TrapezoidNode(a, Width(a, b, n), i) <= b
    ensures i == 0 ==> TrapezoidNode(a, Width(a, b, n), i) == a
    ensures i == n ==> TrapezoidNode(a, Width(a, b, n), i) == b
  {
    var h := Width(a, b, n);
    WidthCovers(a, b, n);
    assert h > 0.0;
    assert 0.0 <= (i as real) * h <= (n as real) * h;
  }

  /** The midpoint rule evaluates f only at the n midpoints: integrands that
      agree there give the same result. */
  lemma {:induction false} MidpointDependsOnlyOnNodes(f: real -> real, g: real -> real, a: real, b: real, n: nat)
    requires n >= 1
    requires forall i :: 0 <= i < n ==> f(MidpointNode(a, Width(a, b, n), i)) == g(MidpointNode(a, Width(a, b, n), i))
    ensures MidpointRule(f, a, b, n) == MidpointRule(g, a, b, n)
  {
    var w := Width(a, b, n);
    SumExt(MidpointSamples(f, a, w), MidpointSamples(g, a, w), 0, n);
  }

  /** The trapezoidal rule evaluates f only at the n + 1 partition points. */
  lemma {:induction false} TrapezoidalDependsOnlyOnNodes(f: real -> real, g: real -> real, a: real, b: real, n: nat)
    requires n >= 1
    requires f(a) == g(a) && f(b) == g(b)
    requires forall i :: 1 <= i < n ==> f(TrapezoidNode(a, Width(a, b, n), i)) == g(TrapezoidNode(a, Width(a, b, n), i))
    ensures TrapezoidalRule(f, a, b, n) == TrapezoidalRule(g, a, b, n)
  {
    var h := Width(a, b, n);
    SumExt(TrapezoidSamples(f, a, h), TrapezoidSamples(g, a, h), 1, n);
  }

  /** The midpoint samples of an affine integrand form an affine sequence. */
  lemma {:induction false} MidpointAffineSum(f: real -> real, alpha: real, beta: real, a: real, w: real, n: nat, c: real, d: real)
    requires forall x :: f(x) == alpha * x + beta
    requires c == alpha * (a + w / 2.0) + beta && d == alpha * w
    ensures Sum(MidpointSamples(f, a, w), 0, n) == (n as real) * c + d * ((n as real) * ((n as real) - 1.0)) / 2.0
  {
    MidpointSamplesAffine(f, alpha, beta, a, w, n, c, d);
    AffineFromZero(MidpointSamples(f, a, w), c, d, n);
  }

  lemma {:induction false} AffineFromZero(g: int -> real, c: real, d: real, n: nat)
    requires forall i :: 0 <= i < n ==> g(i) == c + d * (i as real)
    ensures Sum(g, 0, n) == (n as real) * c + d * ((n as real) * ((n as real) - 1.0)) / 2.0
  {
    SumAffine(g, c, d, 0, n);
  }

  lemma {:induction false} MidpointSamplesAffine(f: real -> real, alpha: real, beta: real, a: real, w: real, n: nat, c: real, d: real)
    requires forall x :: f(x) == alpha * x + beta
    requires c == alpha * (a + w / 2.0) + beta && d == alpha * w
    ensures forall i :: 0 <= i < n ==> MidpointSamples(f, a, w)(i) == c + d * (i as real)
  {
    forall i | 0 <= i < n
      ensures MidpointSamples(f, a, w)(i) == c + d * (i as real)
    {
      MidpointNodeAffine(alpha, beta, a, w, i as real, c, d, MidpointNode(a, w, i));
    }
  }

  /** The midpoint rule is exact for affine integrands, for every n >= 1. */
  lemma {:induction false} MidpointAffine(f: real -> real, alpha: real, beta: real, a: real, b: real, n: nat)
    requires n >= 1
    requires forall x :: f(x) == alpha * x + beta
    ensures MidpointRule(f, a, b, n) == (b - a) * (alpha * (a + b) / 2.0 + beta)
  {
    var w := Width(a, b, n);
    var c := alpha * (a + w / 2.0) + beta;
    var d := alpha * w;
    MidpointAffineSum(f, alpha, beta, a, w, n, c, d);
    WidthCovers(a, b, n);
    MidpointAffineAlgebra(alpha, beta, a, b, w, n as real, Sum(MidpointSamples(f, a, w), 0, n), c, d);
  }

  lemma {:induction false} MidpointAffineAlgebra(alpha: real, beta: real, a: real, b: real, w: real, nr: real, s: real, c: real, d: real)
    requires w * nr == b - a
    requires c == alpha * (a + w / 2.0) + beta && d == alpha * w
    requires s == nr * c + d * (nr * (nr - 1.0)) / 2.0
    ensures w * s == (b - a) * (alpha * (a + b) / 2.0 + beta)
  {
    calc {
      w * s;
      (w * nr) * c + alpha * ((w * nr) * (w * nr) - (w * nr) * w) / 2.0;
      (b - a) * c + alpha * ((b - a) * (b - a) - (b - a) * w) / 2.0;
      (b - a) * (alpha * (a + b) / 2.0 + beta);
    }
  }

  /** The interior trapezoidal samples of an affine integrand form an affine sequence. */
  lemma {:induction false} TrapezoidAffineSum(f: real -> real, alpha: real, beta: real, a: real, h: real, n: nat, c: real, d: real)
    requires n >= 1
    requires forall x :: f(x) == alpha * x + beta
    requires c == alpha * a + beta && d == alpha * h
    ensures Sum(TrapezoidSamples(f, a, h), 1, n) == ((n as real) - 1.0) * c + d * ((n as real) * ((n as real) - 1.0)) / 2.0
  {
    TrapezoidSamplesAffine(f, alpha, beta, a, h, n, c, d);
    AffineFromOne(TrapezoidSamples(f, a, h), c, d, n);
  }

  lemma {:induction false} AffineFromOne(g: int -> real, c: real, d: real, n: nat)
    requires n >= 1
    requires forall i :: 1 <= i < n ==> g(i) == c + d * (i as real)
    ensures Sum(g, 1, n) == ((n as real) - 1.0) * c + d * ((n as real) * ((n as real) - 1.0)) / 2.0
  {
    SumAffine(g, c, d, 1, n);
  }

  lemma {:induction false} TrapezoidSamplesAffine(f: real -> real, alpha: real, beta: real, a: real, h: real, n: nat, c: real, d: real)
    requires forall x :: f(x) == alpha * x + beta
    requires c == alpha * a + beta && d == alpha * h
    ensures forall i :: 1 <= i < n ==> TrapezoidSamples(f, a, h)(i) == c + d * (i as real)
  {
    forall i | 1 <= i < n
      ensures TrapezoidSamples(f, a, h)(i) == c + d * (i as real)
    {
      TrapezoidNodeAffine(alpha, beta, a, h, i as real, c, d, TrapezoidNode(a, h, i));
    }
  }

  lemma {:induction false} MidpointNodeAffine(alpha: real, beta: real, a: real, w: real, ir: real, c: real, d: real, x: real)
    requires x == a + w / 2.0 + ir * w
    requires c == alpha * (a + w / 2.0) + beta && d == alpha * w
    ensures alpha * x + beta == c + d * ir
  {
  }

  lemma {:induction false} TrapezoidNodeAffine(alpha: real, beta: real, a: real, h: real, ir: real, c: real, d: real, x: real)
    requires x == a + ir * h
    requires c == alpha * a + beta && d == alpha * h
    ensures alpha * x + beta == c + d * ir
  {
  }

  /** The trapezoidal rule is exact for affine integrands, for every n >= 1. */
  lemma {:induction false} TrapezoidalAffine(f: real -> real, alpha: real, beta: real, a: real, b: real, n: nat)
    requires n >= 1
    requires forall x :: f(x) == alpha * x + beta
    ensures TrapezoidalRule(f, a, b, n) == (b - a) * (alpha * (a + b) / 2.0 + beta)
  {
    var h := Width(a, b, n);
    var c := alpha * a + beta;
    var d := alpha * h;
    TrapezoidAffineSum(f, alpha, beta, a, h, n, c, d);
    WidthCovers(a, b, n);
    assert f(a) == alpha * a + beta && f(b) == alpha * b + beta;
    TrapezoidAffineAlgebra(alpha, beta, a, b, h, n as real, Sum(TrapezoidSamples(f, a, h), 1, n), c, d);
  }

  lemma {:induction false} TrapezoidAffineAlgebra(alpha: real, beta: real, a: real, b: real, h: real, nr: real, s: real, c: real, d: real)
    requires h * nr == b - a
    requires c == alpha * a + beta && d == alpha * h
    requires s == (nr - 1.0) * c + d * (nr * (nr - 1.0)) / 2.0
    ensures h * (0.5 * ((alpha * a + beta) + (alpha * b + beta)) + s) == (b - a) * (alpha * (a + b) / 2.0 + beta)
  {
    calc {
      h * (0.5 * ((alpha * a + beta) + (alpha * b + beta)) + s);
      h * (alpha * (a + b) / 2.0 + beta) + (h * nr - h) * c + alpha * ((h * nr) * (h * nr) - (h * nr) * h) / 2.0;
      h * (alpha * (a + b) / 2.0 + beta) + ((b - a) - h) * c + alpha * ((b - a) * (b - a) - (b - a) * h) / 2.0;
      (b - a) * (alpha * (a + b) / 2.0 + beta);
    }
  }

  /** A constant integrand c integrates to c * (b - a) under the midpoint rule. */
  lemma {:induction false} MidpointConstant(f: real -> real, c: real, a: real, b: real, n: nat)
    requires n >= 1
    requires forall x :: f(x) == c
    ensures MidpointRule(f, a, b, n) == c * (b - a)
  {
    MidpointAffine(f, 0.0, c, a, b, n);
  }

  /** A constant integrand c integrates to c * (b - a) under the trapezoidal rule. */
  lemma {:induction false} TrapezoidalConstant(f: real -> real, c: real, a: real, b: real, n: nat)
    requires n >= 1
    requires forall x :: f(x) == c
    ensures TrapezoidalRule(f, a, b, n) == c * (b - a)
  {
    TrapezoidalAffine(f, 0.0, c, a, b, n);
  }

  /** The midpoint rule is linear in the integrand. */
  lemma {:induction false} MidpointLinear(f: real -> real, g: real -> real, fg: real -> real, c: real, a: real, b: real, n: nat)
    requires n >= 1
    requires forall x :: fg(x) == f(x) + c * g(x)
    ensures MidpointRule(fg, a, b, n) == MidpointRule(f, a, b, n) + c * MidpointRule(g, a, b, n)
  {
    var w := Width(a, b, n);
    SamplesLinear(MidpointSamples(f, a, w), MidpointSamples(g, a, w), MidpointSamples(fg, a, w), c, 0, n);
    Distribute(w, Sum(MidpointSamples(f, a, w), 0, n), Sum(MidpointSamples(g, a, w), 0, n), c);
  }

  /** The trapezoidal rule is linear in the integrand. */
  lemma {:induction false} TrapezoidalLinear(f: real -> real, g: real -> real, fg: real -> real, c: real, a: real, b: real, n: nat)
    requires n >= 1
    requires forall x :: fg(x) == f(x) + c * g(x)
    ensures TrapezoidalRule(fg, a, b, n) == TrapezoidalRule(f, a, b, n) + c * TrapezoidalRule(g, a, b, n)
  {
    var h := Width(a, b, n);
    SamplesLinear(TrapezoidSamples(f, a, h), TrapezoidSamples(g, a, h), TrapezoidSamples(fg, a, h), c, 1, n);
    EndpointsLinear(f(a), f(b), g(a), g(b), fg(a), fg(b), c);
    LinearCombination(h, 0.5 * (f(a) + f(b)), 0.5 * (g(a) + g(b)), 0.5 * (fg(a) + fg(b)),
      Sum(TrapezoidSamples(f, a, h), 1, n), Sum(TrapezoidSamples(g, a, h), 1, n),
      Sum(TrapezoidSamples(fg, a, h), 1, n), c);
  }

  lemma {:induction false} SamplesLinear(sf: int -> real, sg: int -> real, sfg: int -> real, c: real, lo: int, hi: int)
    requires forall i :: lo <= i < hi ==> sfg(i) == sf(i) + c * sg(i)
    ensures Sum(sfg, lo, hi) == Sum(sf, lo, hi) + c * Sum(sg, lo, hi)
  {
    var cg := (i: int) => c * sg(i);
    SumScale(sg, cg, c, lo, hi);
    SumAdd(sfg, sf, cg, lo, hi);
  }

  lemma {:induction false} EndpointsLinear(fa: real, fb: real, ga: real, gb: real, fga: real, fgb: real, c: real)
    requires fga == fa + c * ga && fgb == fb + c * gb
    ensures 0.5 * (fga + fgb) == 0.5 * (fa + fb) + c * (0.5 * (ga + gb))
  {
  }

  lemma {:induction false} LinearCombination(h: real, ef: real, eg: real, efg: real, sf: real, sg: real, sfg: real, c: real)
    requires efg == ef + c * eg && sfg == sf + c * sg
    ensures h * (efg + sfg) == h * (ef + sf) + c * (h * (eg + sg))
  {
    Regroup(ef, sf, eg, sg, c);
    Distribute(h, ef + sf, eg + sg, c);
  }

  lemma {:induction false} Regroup(p1: real, p2: real, q1: real, q2: real, c: real)
    ensures (p1 + c * q1) + (p2 + c * q2) == (p1 + p2) + c * (q1 + q2)
  {
  }

  lemma {:induction false} Distribute(h: real, x: real, y: real, c: real)
    ensures h * (x + c * y) == h * x + c * (h * y)
  {
  }
}
