/** The integration routines of
    `src/gentle-introduction-to-numerical-simulations/numerical_integration.py`:
    the scalar and vectorised one-dimensional rules, the direct-grid and the
    composed double midpoint rules, and the direct-grid triple midpoint rule.
    Where a routine does not compute what its name says, the routine as written
    is modelled and a corrected one is proved to do what was meant. */
module SimulationIntegration {
  import opened Sums
  import opened NumpyOps
  import opened Quadrature

  // ---------------------------------------------------------------------------
  // Vectorised one-dimensional rules
  // ---------------------------------------------------------------------------

  /** `midpoint_vectorized(f, a, b, n)` as written: the integrand summed over
      `np.linspace(a, b, n + 2)[1:-1]`, times w = (b - a)/n. */
  function MidpointVectorized(f: real -> real, a: real, b: real, n: nat): real
    requires n >= 1
  {
    var w := (b - a) / (n as real);
    var x := Interior(Linspace(a, b, n + 2));
    SumSeq(Apply(f, x)) * w
  }

  /** The samples of `midpoint_vectorized` are the n points a + k*(b - a)/(n + 1),
      k = 1..n, which divide [a, b] into n + 1 equal parts; they are not the
      midpoints of the n subintervals. */
  lemma {:induction false} MidpointVectorizedSamples(f: real -> real, a: real, b: real, n: nat)
    requires n >= 1
    ensures MidpointVectorized(f, a, b, n)
         == Width(a, b, n) * Sum(TrapezoidSamples(f, a, (b - a) / ((n + 1) as real)), 1, n + 1)
  {
    var step := (b - a) / ((n + 1) as real);
    var x := Interior(Linspace(a, b, n + 2));
    VectorizedSampleTerms(f, a, b, n, x, step);
    SumSeqIsSum(Apply(f, x), TrapezoidSamples(f, a, step), 1);
  }

  lemma {:induction false} VectorizedSampleTerms(f: real -> real, a: real, b: real, n: nat, x: seq<real>, step: real)
    requires x == Interior(Linspace(a, b, n + 2)) && step == (b - a) / ((n + 1) as real)
    ensures |Apply(f, x)| == n
    ensures forall k :: 0 <= k < n ==> Apply(f, x)[k] == TrapezoidSamples(f, a, step)(1 + k)
  {
    forall k | 0 <= k < n
      ensures Apply(f, x)[k] == TrapezoidSamples(f, a, step)(1 + k)
    {
      VectorizedNode(a, b, n, k);
    }
  }

  lemma {:induction false} VectorizedNode(a: real, b: real, n: nat, k: int)
    requires 0 <= k < n
    ensures Interior(Linspace(a, b, n + 2))[k] == TrapezoidNode(a, (b - a) / ((n + 1) as real), 1 + k)
  {
    var xs := Linspace(a, b, n + 2);
    assert Interior(xs)[k] == xs[1 + k];
    assert ((n + 2 - 1) as real) == (n + 1) as real;
    LinspaceNode(a, b, n + 2, 1 + k, (b - a) / ((n + 1) as real));
  }

  /** Entry i of `np.linspace(lo, hi, num)` is partition point i of width step. */
  lemma {:induction false} LinspaceNode(lo: real, hi: real, num: nat, i: int, step: real)
    requires num >= 2 && 0 <= i < num && step == (hi - lo) / ((num - 1) as real)
    ensures Linspace(lo, hi, num)[i] == TrapezoidNode(lo, step, i)
  {
  }

  /** For affine integrands the as-written samples still average to (a + b)/2,
      so `midpoint_vectorized` is exact on them and an affine test cannot tell
      it from the midpoint rule. */
  lemma {:induction false} MidpointVectorizedAffine(f: real -> real, alpha: real, beta: real, a: real, b: real, n: nat)
    requires n >= 1
    requires forall x :: f(x) == alpha * x + beta
    ensures MidpointVectorized(f, a, b, n) == (b - a) * (alpha * (a + b) / 2.0 + beta)
  {
    var v, t := VectorizedTotals(f, a, b, n);
    VectorizedAffineTotal(f, alpha, beta, a, b, n, t);
  }

  /** `midpoint_vectorized` is the width w = (b - a)/n times the sum of its
      samples, which are the interior points of n + 1 equal subintervals. */
  lemma {:induction false} VectorizedTotals(f: real -> real, a: real, b: real, n: nat) returns (v: real, t: real)
    requires n >= 1
    ensures v == MidpointVectorized(f, a, b, n)
    ensures t == Sum(TrapezoidSamples(f, a, (b - a) / ((n + 1) as real)), 1, n + 1)
    ensures v == Width(a, b, n) * t
  {
    MidpointVectorizedSamples(f, a, b, n);
    v := MidpointVectorized(f, a, b, n);
    t := Sum(TrapezoidSamples(f, a, (b - a) / ((n + 1) as real)), 1, n + 1);
  }

  lemma {:induction false} VectorizedAffineTotal(f: real -> real, alpha: real, beta: real, a: real, b: real, n: nat, t: real)
    requires n >= 1
    requires forall x :: f(x) == alpha * x + beta
    requires t == Sum(TrapezoidSamples(f, a, (b - a) / ((n + 1) as real)), 1, n + 1)
    ensures Width(a, b, n) * t == (b - a) * (alpha * (a + b) / 2.0 + beta)
  {
    var c := alpha * a + beta;
    var d := alpha * ((b - a) / ((n + 1) as real));
    TrapezoidAffineSum(f, alpha, beta, a, (b - a) / ((n + 1) as real), n + 1, c, d);
    VectorizedClosed(alpha, beta, a, b, n, t, c, d);
  }

  lemma {:induction false} VectorizedClosed(alpha: real, beta: real, a: real, b: real, n: nat, t: real, c: real, d: real)
    requires n >= 1
    requires c == alpha * a + beta && d == alpha * ((b - a) / ((n + 1) as real))
    requires t == (((n + 1) as real) - 1.0) * c + d * (((n + 1) as real) * (((n + 1) as real) - 1.0)) / 2.0
    ensures Width(a, b, n) * t == (b - a) * (alpha * (a + b) / 2.0 + beta)
  {
    WidthCovers(a, b, n + 1);
    WidthCovers(a, b, n);
    VectorizedAffineAlgebra(alpha, beta, a, b, Width(a, b, n), Width(a, b, n + 1), n as real, (n + 1) as real, t, c, d);
  }

  lemma {:induction false} VectorizedAffineAlgebra(alpha: real, beta: real, a: real, b: real, w: real, s: real, nr: real, mr: real,
                                t: real, c: real, d: real)
    requires w * nr == b - a && s * mr == b - a && mr == nr + 1.0
    requires c == alpha * a + beta && d == alpha * s
    requires t == (mr - 1.0) * c + d * (mr * (mr - 1.0)) / 2.0
    ensures w * t == (b - a) * (alpha * (a + b) / 2.0 + beta)
  {
    calc {
      w * t;
      (w * nr) * (alpha * a + beta) + alpha * (w * nr) * (s * mr) / 2.0;
      (b - a) * (alpha * a + beta) + alpha * (b - a) * (b - a) / 2.0;
      (b - a) * (alpha * (a + b) / 2.0 + beta);
    }
  }

  /** `midpoint_vectorized` differs from `midpoint`: for f(x) = x*x on [0, 1]
      with n = 2 it samples 1/3 and 2/3 and returns 5/18, where the midpoint
      rule samples 1/4 and 3/4 and returns 5/16. */
  lemma {:induction false} MidpointVectorizedDiffers()
    ensures MidpointVectorized(x => x * x, 0.0, 1.0, 2) == 5.0 / 18.0
    ensures MidpointRule(x => x * x, 0.0, 1.0, 2) == 5.0 / 16.0
  {
    var sq := (x: real) => x * x;
    MidpointVectorizedSamples(sq, 0.0, 1.0, 2);
    var t := TrapezoidSamples(sq, 0.0, 1.0 / 3.0);
    assert TrapezoidNode(0.0, 1.0 / 3.0, 1) == 1.0 / 3.0 && TrapezoidNode(0.0, 1.0 / 3.0, 2) == 2.0 / 3.0;
    assert t(1) == sq(1.0 / 3.0) && t(2) == sq(2.0 / 3.0);
    assert Sum(t, 1, 3) == t(1) + t(2);
    var m := MidpointSamples(sq, 0.0, 0.5);
    assert MidpointNode(0.0, 0.5, 0) == 0.25 && MidpointNode(0.0, 0.5, 1) == 0.75;
    assert m(0) == sq(0.25) && m(1) == sq(0.75);
    assert Sum(m, 0, 2) == m(0) + m(1);
  }

  /** The evidently intended `midpoint_vectorized`: the integrand summed over
      `np.linspace(a + w/2, b - w/2, n)`, the n midpoints themselves. */
  function MidpointVectorizedFixed(f: real -> real, a: real, b: real, n: nat): real
    requires n >= 1
  {
    var w := (b - a) / (n as real);
    var x := Linspace(a + w / 2.0, b - w / 2.0, n);
    SumSeq(Apply(f, x)) * w
  }

  /** The corrected vectorised rule is the midpoint rule, for every integrand. */
  lemma {:induction false} MidpointVectorizedFixedIsMidpoint(f: real -> real, a: real, b: real, n: nat)
    requires n >= 1
    ensures MidpointVectorizedFixed(f, a, b, n) == MidpointRule(f, a, b, n)
  {
    var w := Width(a, b, n);
    var x := Linspace(a + w / 2.0, b - w / 2.0, n);
    forall k | 0 <= k < n
      ensures Apply(f, x)[k] == MidpointSamples(f, a, w)(0 + k)
    {
      MidpointLinspace(a, b, n, k);
      assert MidpointSamples(f, a, w)(0 + k) == f(MidpointNode(a, w, k));
    }
    SumSeqIsSum(Apply(f, x), MidpointSamples(f, a, w), 0);
  }

  /** `np.linspace(a + w/2, b - w/2, n)` lists the n midpoints. */
  lemma {:induction false} MidpointLinspace(a: real, b: real, n: nat, k: int)
    requires n >= 1 && 0 <= k < n
    ensures Linspace(a + Width(a, b, n) / 2.0, b - Width(a, b, n) / 2.0, n)[k] == MidpointNode(a, Width(a, b, n), k)
  {
    var w := Width(a, b, n);
    WidthCovers(a, b, n);
    if n >= 2 {
      MidpointSpacing(a, b, w, n as real);
      assert Linspace(a + w / 2.0, b - w / 2.0, n)[k] == a + w / 2.0 + (k as real) * w;
    } else {
      assert k == 0 && Linspace(a + w / 2.0, b - w / 2.0, n)[k] == a + w / 2.0;
    }
  }

  lemma {:induction false} MidpointSpacing(a: real, b: real, w: real, nr: real)
    requires nr >= 2.0 && w * nr == b - a
    ensures ((b - w / 2.0) - (a + w / 2.0)) / (nr - 1.0) == w
  {
    assert (b - w / 2.0) - (a + w / 2.0) == w * (nr - 1.0);
  }

  /** `trapezoidal_vectorized(f, a, b, n)` as written: the half-weighted
      endpoints plus the integrand summed over `np.linspace(a, b, n)[1:-1]`,
      times h = (b - a)/n. */
  function TrapezoidalVectorized(f: real -> real, a: real, b: real, n: nat): real
    requires n >= 1
  {
    TrapezoidalVectorizedTotal(f, a, b, n) * Width(a, b, n)
  }

  /** The sum `trapezoidal_vectorized` accumulates before scaling by h. */
  function TrapezoidalVectorizedTotal(f: real -> real, a: real, b: real, n: nat): real {
    var result := 0.5 * (f(a) + f(b));
    var x := Interior(Linspace(a, b, n));
    result + SumSeq(Apply(f, x))
  }

  /** The interior samples of `trapezoidal_vectorized` are the n - 2 points
      a + k*(b - a)/(n - 1), k = 1..n-2, and there are none for n <= 2. */
  lemma {:induction false} TrapezoidalVectorizedSamples(f: real -> real, a: real, b: real, n: nat)
    requires n >= 1
    ensures n <= 2 ==> TrapezoidalVectorizedTotal(f, a, b, n) == 0.5 * (f(a) + f(b))
    ensures n >= 2 ==>
              TrapezoidalVectorizedTotal(f, a, b, n)
              == 0.5 * (f(a) + f(b)) + Sum(TrapezoidSamples(f, a, (b - a) / ((n - 1) as real)), 1, n - 1)
  {
    var x := Interior(Linspace(a, b, n));
    if n >= 2 {
      var step := (b - a) / ((n - 1) as real);
      forall k | 0 <= k < n - 2
        ensures Apply(f, x)[k] == TrapezoidSamples(f, a, step)(1 + k)
      {
        assert x[k] == TrapezoidNode(a, step, 1 + k);
        assert TrapezoidSamples(f, a, step)(1 + k) == f(TrapezoidNode(a, step, 1 + k));
      }
      SumSeqIsSum(Apply(f, x), TrapezoidSamples(f, a, step), 1);
    }
  }

  /** For a constant integrand c, the accumulated sum of
      `trapezoidal_vectorized` counts n - 1 samples' worth of c. */
  lemma {:induction false} TrapezoidalVectorizedConstantTotal(f: real -> real, c: real, a: real, b: real, n: nat)
    requires n >= 2
    requires forall x :: f(x) == c
    ensures TrapezoidalVectorizedTotal(f, a, b, n) == c * ((n as real) - 1.0)
  {
    TrapezoidalVectorizedSamples(f, a, b, n);
    SumConst(TrapezoidSamples(f, a, (b - a) / ((n - 1) as real)), c, 1, n - 1);
    assert f(a) == c && f(b) == c;
  }

  /** For a constant integrand c and n >= 2, `trapezoidal_vectorized` returns
      c*(b - a) - c*h, h = (b - a)/n, instead of c*(b - a): the weight of
      one interior sample is missing. */
  lemma {:induction false} TrapezoidalVectorizedConstant(f: real -> real, c: real, a: real, b: real, n: nat)
    requires n >= 2
    requires forall x :: f(x) == c
    ensures TrapezoidalVectorized(f, a, b, n) == c * (b - a) - c * Width(a, b, n)
  {
    TrapezoidalVectorizedConstantTotal(f, c, a, b, n);
    WidthCovers(a, b, n);
    ScaledCount(Width(a, b, n), c, a, b, n as real, TrapezoidalVectorizedTotal(f, a, b, n));
  }

  lemma {:induction false} ScaledCount(h: real, c: real, a: real, b: real, nr: real, e: real)
    requires h * nr == b - a && e == c * (nr - 1.0)
    ensures e * h == c * (b - a) - c * h
  {
  }

  /** `trapezoidal_vectorized` differs from `trapezoidal`: for the constant 1,
      applied element by element (`lambda x: 0*x + 1`), on [0, 1] with n = 2 it
      returns 1/2, where the trapezoidal rule returns 1. */
  lemma {:induction false} TrapezoidalVectorizedDiffers()
    ensures TrapezoidalVectorized(x => 1.0, 0.0, 1.0, 2) == 0.5
    ensures TrapezoidalRule(x => 1.0, 0.0, 1.0, 2) == 1.0
  {
    TrapezoidalVectorizedConstant(x => 1.0, 1.0, 0.0, 1.0, 2);
    TrapezoidalConstant(x => 1.0, 1.0, 0.0, 1.0, 2);
  }

  /** The evidently intended `trapezoidal_vectorized`: the interior of
      `np.linspace(a, b, n + 1)`, the n - 1 interior partition points. */
  function TrapezoidalVectorizedFixed(f: real -> real, a: real, b: real, n: nat): real
    requires n >= 1
  {
    var h := Width(a, b, n);
    var result := 0.5 * (f(a) + f(b));
    var x := Interior(Linspace(a, b, n + 1));
    (result + SumSeq(Apply(f, x))) * h
  }

  /** The corrected vectorised rule is the trapezoidal rule, for every integrand. */
  lemma {:induction false} TrapezoidalVectorizedFixedIsTrapezoidal(f: real -> real, a: real, b: real, n: nat)
    requires n >= 1
    ensures TrapezoidalVectorizedFixed(f, a, b, n) == TrapezoidalRule(f, a, b, n)
  {
    var h := Width(a, b, n);
    var x := Interior(Linspace(a, b, n + 1));
    forall k | 0 <= k < n - 1
      ensures Apply(f, x)[k] == TrapezoidSamples(f, a, h)(1 + k)
    {
      assert x[k] == TrapezoidNode(a, h, 1 + k);
      assert TrapezoidSamples(f, a, h)(1 + k) == f(TrapezoidNode(a, h, 1 + k));
    }
    SumSeqIsSum(Apply(f, x), TrapezoidSamples(f, a, h), 1);
  }

  // ---------------------------------------------------------------------------
  // Double integrals
  // ---------------------------------------------------------------------------

  /** The integrand with its first argument fixed: y |-> f(x, y). */
  function Section(f: (real, real) -> real, x: real): real -> real {
    y => f(x, y)
  }

  /** The inner integral of `midpoint_double2`: x |-> midpoint(y |-> f(x, y), c, d, ny). */
  function InnerMidpoint(f: (real, real) -> real, c: real, d: real, ny: nat): real -> real
    requires ny >= 1
  {
    x => MidpointRule(Section(f, x), c, d, ny)
  }

  /** `midpoint_double2(f, a, b, c, d, nx, ny)`: the one-dimensional midpoint
      rule in x applied to the one-dimensional midpoint rule in y. */
  function MidpointDouble2(f: (real, real) -> real, a: real, b: real, c: real, d: real, nx: nat, ny: nat): real
    requires nx >= 1 && ny >= 1
  {
    MidpointRule(InnerMidpoint(f, c, d, ny), a, b, nx)
  }

  /** Row i of the midpoint grid: j |-> f(x_i, y_j). */
  function GridRow(f: (real, real) -> real, a: real, hx: real, c: real, hy: real, i: int): int -> real {
    j => f(MidpointNode(a, hx, i), MidpointNode(c, hy, j))
  }

  /** i |-> the sum of row i of the midpoint grid over its ny cells. */
  function GridRowSums(f: (real, real) -> real, a: real, hx: real, c: real, hy: real, ny: nat): int -> real {
    i => Sum(GridRow(f, a, hx, c, hy, i), 0, ny)
  }

  /** The composed rule is the two-dimensional midpoint rule: hx*hy times the
      sum of f over the nx*ny cell centres (x_i, y_j). */
  lemma {:induction false} MidpointDouble2IsGridSum(f: (real, real) -> real, a: real, b: real, c: real, d: real, nx: nat, ny: nat)
    requires nx >= 1 && ny >= 1
    ensures MidpointDouble2(f, a, b, c, d, nx, ny)
         == Width(a, b, nx) * (Width(c, d, ny) * Sum(GridRowSums(f, a, Width(a, b, nx), c, Width(c, d, ny), ny), 0, nx))
  {
    var hx := Width(a, b, nx);
    var hy := Width(c, d, ny);
    var g := InnerMidpoint(f, c, d, ny);
    var rows := GridRowSums(f, a, hx, c, hy, ny);
    forall i | 0 <= i < nx
      ensures MidpointSamples(g, a, hx)(i) == hy * rows(i)
    {
      var x := MidpointNode(a, hx, i);
      assert MidpointSamples(g, a, hx)(i) == g(x) == MidpointRule(Section(f, x), c, d, ny);
      SumExt(MidpointSamples(Section(f, x), c, hy), GridRow(f, a, hx, c, hy, i), 0, ny);
    }
    SumScale(rows, MidpointSamples(g, a, hx), hy, 0, nx);
  }

  /** The composed double midpoint rule is exact for f(x, y) = alpha*x + beta*y + gamma,
      for every nx, ny >= 1. */
  lemma {:induction false} MidpointDouble2Affine(f: (real, real) -> real, alpha: real, beta: real, gamma: real,
                              a: real, b: real, c: real, d: real, nx: nat, ny: nat)
    requires nx >= 1 && ny >= 1
    requires forall x, y :: f(x, y) == alpha * x + beta * y + gamma
    ensures MidpointDouble2(f, a, b, c, d, nx, ny)
         == (b - a) * (d - c) * (alpha * (a + b) / 2.0 + beta * (c + d) / 2.0 + gamma)
  {
    var slope := (d - c) * alpha;
    var k := (d - c) * (beta * (c + d) / 2.0 + gamma);
    InnerMidpointAffine(f, alpha, beta, gamma, c, d, ny, slope, k);
    MidpointAffine(InnerMidpoint(f, c, d, ny), slope, k, a, b, nx);
    Double2AffineAlgebra(alpha, beta, gamma, a, b, c, d, slope, k, MidpointDouble2(f, a, b, c, d, nx, ny));
  }

  lemma {:induction false} Double2AffineAlgebra(alpha: real, beta: real, gamma: real, a: real, b: real, c: real, d: real,
                             slope: real, k: real, r: real)
    requires slope == (d - c) * alpha && k == (d - c) * (beta * (c + d) / 2.0 + gamma)
    requires r == (b - a) * (slope * (a + b) / 2.0 + k)
    ensures r == (b - a) * (d - c) * (alpha * (a + b) / 2.0 + beta * (c + d) / 2.0 + gamma)
  {
  }

  /** The inner midpoint integral of an affine integrand is affine in x, with
      the given slope and intercept. */
  lemma {:induction false} InnerMidpointAffine(f: (real, real) -> real, alpha: real, beta: real, gamma: real, c: real, d: real, ny: nat,
                            slope: real, k: real)
    requires ny >= 1
    requires forall x, y :: f(x, y) == alpha * x + beta * y + gamma
    requires slope == (d - c) * alpha && k == (d - c) * (beta * (c + d) / 2.0 + gamma)
    ensures forall x :: InnerMidpoint(f, c, d, ny)(x) == slope * x + k
  {
    forall x
      ensures InnerMidpoint(f, c, d, ny)(x) == slope * x + k
    {
      var icpt := alpha * x + gamma;
      MidpointAffine(Section(f, x), beta, icpt, c, d, ny);
      InnerAffineAlgebra(alpha, beta, gamma, c, d, x, icpt, slope, k, InnerMidpoint(f, c, d, ny)(x));
    }
  }

  lemma {:induction false} InnerAffineAlgebra(alpha: real, beta: real, gamma: real, c: real, d: real, x: real,
                           icpt: real, slope: real, k: real, r: real)
    requires icpt == alpha * x + gamma
    requires slope == (d - c) * alpha && k == (d - c) * (beta * (c + d) / 2.0 + gamma)
    requires r == (d - c) * (beta * (c + d) / 2.0 + icpt)
    ensures r == slope * x + k
  {
  }

  /** The case `test_midpoint_double` checks: f(x, y) = 2x + y on [0, 2] x [2, 3]
      integrates to 9, and the composed rule returns exactly 9 for every grid,
      in particular for (nx, ny) = (3, 5), (4, 4) and (5, 3). */
  lemma {:induction false} MidpointDouble2Test(nx: nat, ny: nat)
    requires nx >= 1 && ny >= 1
    ensures MidpointDouble2((x, y) => 2.0 * x + y, 0.0, 2.0, 2.0, 3.0, nx, ny) == 9.0
  {
    MidpointDouble2Affine((x, y) => 2.0 * x + y, 2.0, 1.0, 0.0, 0.0, 2.0, 2.0, 3.0, nx, ny);
  }

  /** Row i of `midpoint_double1` as written: the y coordinate is computed
      from the row index i, so every cell j of row i samples (x_i, y_i). */
  function DiagonalRow(f: (real, real) -> real, a: real, hx: real, c: real, hy: real, i: int): int -> real {
    j => f(MidpointNode(a, hx, i), MidpointNode(c, hy, i))
  }

  /** i |-> the sum of row i of `midpoint_double1` as written over its ny cells. */
  function DiagonalRowSums(f: (real, real) -> real, a: real, hx: real, c: real, hy: real, ny: nat): int -> real {
    i => Sum(DiagonalRow(f, a, hx, c, hy, i), 0, ny)
  }

  /** What `midpoint_double1` returns as written: the sum over its nested loops,
      times hx*hy. */
  function MidpointDouble1Rule(f: (real, real) -> real, a: real, b: real, c: real, d: real, nx: nat, ny: nat): real
    requires nx >= 1 && ny >= 1
  {
    var hx := Width(a, b, nx);
    var hy := Width(c, d, ny);
    Sum(DiagonalRowSums(f, a, hx, c, hy, ny), 0, nx) * (hx * hy)
  }

  /** `midpoint_double1(f, a, b, c, d, nx, ny)` as written. */
  method MidpointDouble1(f: (real, real) -> real, a: real, b: real, c: real, d: real, nx: nat, ny: nat)
    returns (I: real)
    requires nx >= 1 && ny >= 1
    ensures I == MidpointDouble1Rule(f, a, b, c, d, nx, ny)
  {
    I := 0.0;
    var hx := (b - a) / (nx as real);
    var hy := (d - c) / (ny as real);
    for i := 0 to nx
      invariant I == Sum(DiagonalRowSums(f, a, hx, c, hy, ny), 0, i)
    {
      ghost var before := I;
      for j := 0 to ny
        invariant I == before + Sum(DiagonalRow(f, a, hx, c, hy, i), 0, j)
      {
        var xi := a + hx / 2.0 + (i as real) * hx;
        var yj := c + hy / 2.0 + (i as real) * hy;
        DiagonalCell(f, a, hx, c, hy, i, j, xi, yj);
        I := I + f(xi, yj);
      }
      assert DiagonalRowSums(f, a, hx, c, hy, ny)(i) == Sum(DiagonalRow(f, a, hx, c, hy, i), 0, ny);
    }
    I := I * (hx * hy);
  }

  /** Cell (i, j) of `midpoint_double1` as written samples (x_i, y_i). */
  lemma {:induction false} DiagonalCell(f: (real, real) -> real, a: real, hx: real, c: real, hy: real, i: int, j: int, xi: real, yj: real)
    requires xi == a + hx / 2.0 + (i as real) * hx && yj == c + hy / 2.0 + (i as real) * hy
    ensures DiagonalRow(f, a, hx, c, hy, i)(j) == f(xi, yj)
  {
    assert MidpointNode(a, hx, i) == xi && MidpointNode(c, hy, i) == yj;
  }

  /** `midpoint_double1` as written samples only the nx diagonal points
      (x_i, y_i), each counted ny times. */
  lemma {:induction false} MidpointDouble1Diagonal(f: (real, real) -> real, a: real, b: real, c: real, d: real, nx: nat, ny: nat)
    requires nx >= 1 && ny >= 1
    ensures MidpointDouble1Rule(f, a, b, c, d, nx, ny)
         == Sum(DiagonalSamples(f, a, Width(a, b, nx), c, Width(c, d, ny)), 0, nx)
            * ((ny as real) * (Width(a, b, nx) * Width(c, d, ny)))
  {
    var hx := Width(a, b, nx);
    var hy := Width(c, d, ny);
    DiagonalRowsRepeat(f, a, hx, c, hy, nx, ny);
    Regroup3(Sum(DiagonalRowSums(f, a, hx, c, hy, ny), 0, nx), Sum(DiagonalSamples(f, a, hx, c, hy), 0, nx),
             ny as real, hx * hy);
  }

  lemma {:induction false} Regroup3(r: real, s: real, p: real, q: real)
    requires r == p * s
    ensures r * q == s * (p * q)
  {
  }

  /** Summing the rows of `midpoint_double1` as written counts each diagonal
      sample ny times. */
  lemma {:induction false} DiagonalRowsRepeat(f: (real, real) -> real, a: real, hx: real, c: real, hy: real, nx: nat, ny: nat)
    ensures Sum(DiagonalRowSums(f, a, hx, c, hy, ny), 0, nx) == (ny as real) * Sum(DiagonalSamples(f, a, hx, c, hy), 0, nx)
  {
    DiagonalRowsConstant(f, a, hx, c, hy, nx, ny);
    SumScale(DiagonalSamples(f, a, hx, c, hy), DiagonalRowSums(f, a, hx, c, hy, ny), ny as real, 0, nx);
  }

  lemma {:induction false} DiagonalRowsConstant(f: (real, real) -> real, a: real, hx: real, c: real, hy: real, nx: nat, ny: nat)
    ensures forall i :: 0 <= i < nx ==>
              DiagonalRowSums(f, a, hx, c, hy, ny)(i) == (ny as real) * DiagonalSamples(f, a, hx, c, hy)(i)
  {
    forall i | 0 <= i < nx
      ensures DiagonalRowSums(f, a, hx, c, hy, ny)(i) == (ny as real) * DiagonalSamples(f, a, hx, c, hy)(i)
    {
      DiagonalRowConstant(f, a, hx, c, hy, ny, i);
    }
  }

  lemma {:induction false} DiagonalRowConstant(f: (real, real) -> real, a: real, hx: real, c: real, hy: real, ny: nat, i: int)
    ensures DiagonalRowSums(f, a, hx, c, hy, ny)(i) == (ny as real) * DiagonalSamples(f, a, hx, c, hy)(i)
  {
    SumConst(DiagonalRow(f, a, hx, c, hy, i), DiagonalSamples(f, a, hx, c, hy)(i), 0, ny);
  }

  /** The diagonal points (x_i, y_i) that `midpoint_double1` as written samples. */
  function DiagonalSamples(f: (real, real) -> real, a: real, hx: real, c: real, hy: real): int -> real {
    i => f(MidpointNode(a, hx, i), MidpointNode(c, hy, i))
  }

  /** With more x than y subintervals, `midpoint_double1` as written samples
      the integrand above the upper y limit d. */
  lemma {:induction false} MidpointDouble1LeavesRange(c: real, d: real, nx: nat, ny: nat)
    requires 1 <= ny < nx && c < d
    ensures MidpointNode(c, Width(c, d, ny), nx - 1) > d
  {
    var hy := Width(c, d, ny);
    WidthCovers(c, d, ny);
    BeyondLast(c, d, hy, (nx - 1) as real, ny as real);
  }

  lemma {:induction false} BeyondLast(c: real, d: real, hy: real, m: real, nr: real)
    requires c < d && hy * nr == d - c && m >= nr && nr >= 1.0
    ensures c + hy / 2.0 + m * hy > d
  {
    assert hy > 0.0;
    assert m * hy >= nr * hy;
  }

  /** The diagonal samples of an affine integrand form an affine sequence. */
  lemma {:induction false} DiagonalAffineSum(f: (real, real) -> real, alpha: real, beta: real, gamma: real,
                          a: real, hx: real, c: real, hy: real, nx: nat, k: real, m: real)
    requires forall x, y :: f(x, y) == alpha * x + beta * y + gamma
    requires k == alpha * (a + hx / 2.0) + beta * (c + hy / 2.0) + gamma && m == alpha * hx + beta * hy
    ensures Sum(DiagonalSamples(f, a, hx, c, hy), 0, nx) == (nx as real) * k + m * ((nx as real) * ((nx as real) - 1.0)) / 2.0
  {
    DiagonalSamplesAffine(f, alpha, beta, gamma, a, hx, c, hy, nx, k, m);
    AffineFromZero(DiagonalSamples(f, a, hx, c, hy), k, m, nx);
  }

  lemma {:induction false} DiagonalSamplesAffine(f: (real, real) -> real, alpha: real, beta: real, gamma: real,
                              a: real, hx: real, c: real, hy: real, nx: nat, k: real, m: real)
    requires forall x, y :: f(x, y) == alpha * x + beta * y + gamma
    requires k == alpha * (a + hx / 2.0) + beta * (c + hy / 2.0) + gamma && m == alpha * hx + beta * hy
    ensures forall i :: 0 <= i < nx ==> DiagonalSamples(f, a, hx, c, hy)(i) == k + m * (i as real)
  {
    forall i | 0 <= i < nx
      ensures DiagonalSamples(f, a, hx, c, hy)(i) == k + m * (i as real)
    {
      DiagonalNode(alpha, beta, gamma, a, hx, c, hy, i as real, k, m,
                   MidpointNode(a, hx, i), MidpointNode(c, hy, i));
    }
  }

  lemma {:induction false} DiagonalNode(alpha: real, beta: real, gamma: real, a: real, hx: real, c: real, hy: real,
                     ir: real, k: real, m: real, x: real, y: real)
    requires x == a + hx / 2.0 + ir * hx && y == c + hy / 2.0 + ir * hy
    requires k == alpha * (a + hx / 2.0) + beta * (c + hy / 2.0) + gamma && m == alpha * hx + beta * hy
    ensures alpha * x + beta * y + gamma == k + m * ir
  {
  }

  /** For f(x, y) = alpha*x + beta*y + gamma, `midpoint_double1` as written
      integrates the y term as if the y samples had mean c + hy*nx/2, which is
      the true mean (c + d)/2 only when nx == ny. */
  lemma {:induction false} MidpointDouble1Affine(f: (real, real) -> real, alpha: real, beta: real, gamma: real,
                              a: real, b: real, c: real, d: real, nx: nat, ny: nat)
    requires nx >= 1 && ny >= 1
    requires forall x, y :: f(x, y) == alpha * x + beta * y + gamma
    ensures MidpointDouble1Rule(f, a, b, c, d, nx, ny)
         == (b - a) * (d - c) * (alpha * (a + b) / 2.0 + beta * (c + Width(c, d, ny) * (nx as real) / 2.0) + gamma)
  {
    var hx := Width(a, b, nx);
    var hy := Width(c, d, ny);
    var k := alpha * (a + hx / 2.0) + beta * (c + hy / 2.0) + gamma;
    var m := alpha * hx + beta * hy;
    DiagonalAffineSum(f, alpha, beta, gamma, a, hx, c, hy, nx, k, m);
    Double1AffineAssemble(f, alpha, beta, gamma, a, b, c, d, nx, ny, k, m);
  }

  /** The closed form of `midpoint_double1` as written, from the closed form of
      its diagonal sum. */
  lemma {:induction false} Double1AffineAssemble(f: (real, real) -> real, alpha: real, beta: real, gamma: real,
                              a: real, b: real, c: real, d: real, nx: nat, ny: nat, k: real, m: real)
    requires nx >= 1 && ny >= 1
    requires k == alpha * (a + Width(a, b, nx) / 2.0) + beta * (c + Width(c, d, ny) / 2.0) + gamma
    requires m == alpha * Width(a, b, nx) + beta * Width(c, d, ny)
    requires Sum(DiagonalSamples(f, a, Width(a, b, nx), c, Width(c, d, ny)), 0, nx)
          == (nx as real) * k + m * ((nx as real) * ((nx as real) - 1.0)) / 2.0
    ensures MidpointDouble1Rule(f, a, b, c, d, nx, ny)
         == (b - a) * (d - c) * (alpha * (a + b) / 2.0 + beta * (c + Width(c, d, ny) * (nx as real) / 2.0) + gamma)
  {
    var r, s := DiagonalTotals(f, a, b, c, d, nx, ny);
    Double1ClosedWidths(r, s, alpha, beta, gamma, a, b, c, d, nx, ny, k, m);
  }

  lemma {:induction false} DiagonalTotals(f: (real, real) -> real, a: real, b: real, c: real, d: real, nx: nat, ny: nat)
    returns (r: real, s: real)
    requires nx >= 1 && ny >= 1
    ensures r == MidpointDouble1Rule(f, a, b, c, d, nx, ny)
    ensures s == Sum(DiagonalSamples(f, a, Width(a, b, nx), c, Width(c, d, ny)), 0, nx)
    ensures r == s * ((ny as real) * (Width(a, b, nx) * Width(c, d, ny)))
  {
    MidpointDouble1Diagonal(f, a, b, c, d, nx, ny);
    r := MidpointDouble1Rule(f, a, b, c, d, nx, ny);
    s := Sum(DiagonalSamples(f, a, Width(a, b, nx), c, Width(c, d, ny)), 0, nx);
  }

  lemma {:induction false} Double1ClosedWidths(r: real, s: real, alpha: real, beta: real, gamma: real,
                            a: real, b: real, c: real, d: real, nx: nat, ny: nat, k: real, m: real)
    requires nx >= 1 && ny >= 1
    requires r == s * ((ny as real) * (Width(a, b, nx) * Width(c, d, ny)))
    requires k == alpha * (a + Width(a, b, nx) / 2.0) + beta * (c + Width(c, d, ny) / 2.0) + gamma
    requires m == alpha * Width(a, b, nx) + beta * Width(c, d, ny)
    requires s == (nx as real) * k + m * ((nx as real) * ((nx as real) - 1.0)) / 2.0
    ensures r == (b - a) * (d - c) * (alpha * (a + b) / 2.0 + beta * (c + Width(c, d, ny) * (nx as real) / 2.0) + gamma)
  {
    WidthCovers(a, b, nx);
    WidthCovers(c, d, ny);
    Double1Closed(r, s, alpha, beta, gamma, a, b, c, d, Width(a, b, nx), Width(c, d, ny), nx as real, ny as real, k, m);
  }

  lemma {:induction false} Double1Closed(r: real, s: real, alpha: real, beta: real, gamma: real, a: real, b: real, c: real, d: real,
                      hx: real, hy: real, nxr: real, nyr: real, k: real, m: real)
    requires hx * nxr == b - a && hy * nyr == d - c
    requires r == s * (nyr * (hx * hy))
    requires k == alpha * (a + hx / 2.0) + beta * (c + hy / 2.0) + gamma && m == alpha * hx + beta * hy
    requires s == nxr * k + m * (nxr * (nxr - 1.0)) / 2.0
    ensures r == (b - a) * (d - c) * (alpha * (a + b) / 2.0 + beta * (c + hy * nxr / 2.0) + gamma)
  {
    var mean := alpha * (a + b) / 2.0 + beta * (c + hy * nxr / 2.0) + gamma;
    DiagonalMean(alpha, beta, gamma, a, b, c, hx, hy, nxr, s, k, m);
    GridScale(r, s, hx, hy, nxr, nyr, a, b, c, d, mean);
  }

  lemma {:induction false} DiagonalMean(alpha: real, beta: real, gamma: real, a: real, b: real, c: real,
                     hx: real, hy: real, nr: real, s: real, k: real, m: real)
    requires hx * nr == b - a
    requires k == alpha * (a + hx / 2.0) + beta * (c + hy / 2.0) + gamma && m == alpha * hx + beta * hy
    requires s == nr * k + m * (nr * (nr - 1.0)) / 2.0
    ensures s == nr * (alpha * (a + b) / 2.0 + beta * (c + hy * nr / 2.0) + gamma)
  {
    calc {
      s;
      alpha * (nr * a + (hx * nr) * nr / 2.0) + beta * (nr * c + hy * nr * nr / 2.0) + gamma * nr;
      alpha * (nr * a + (b - a) * nr / 2.0) + beta * (nr * c + hy * nr * nr / 2.0) + gamma * nr;
      nr * (alpha * (a + b) / 2.0 + beta * (c + hy * nr / 2.0) + gamma);
    }
  }

  lemma {:induction false} GridScale(r: real, s: real, hx: real, hy: real, nxr: real, nyr: real, a: real, b: real, c: real, d: real, k: real)
    requires hx * nxr == b - a && hy * nyr == d - c
    requires r == s * (nyr * (hx * hy)) && s == nxr * k
    ensures r == (b - a) * (d - c) * k
  {
    calc {
      r;
      (nxr * k) * (nyr * (hx * hy));
      (hx * nxr) * (hy * nyr) * k;
      (b - a) * (d - c) * k;
    }
  }

  /** On the case `test_midpoint_double` checks (f(x, y) = 2x + y on
      [0, 2] x [2, 3], exact value 9), `midpoint_double1` as written returns
      8 + nx/ny, which is 9 exactly when nx == ny: 43/5 for (3, 5), 9 for (4, 4)
      and 29/3 for (5, 3). */
  lemma {:induction false} MidpointDouble1Test(nx: nat, ny: nat)
    requires nx >= 1 && ny >= 1
    ensures MidpointDouble1Rule((x, y) => 2.0 * x + y, 0.0, 2.0, 2.0, 3.0, nx, ny)
         == 8.0 + (nx as real) / (ny as real)
    ensures MidpointDouble1Rule((x, y) => 2.0 * x + y, 0.0, 2.0, 2.0, 3.0, nx, ny) == 9.0 <==> nx == ny
  {
    MidpointDouble1Affine((x, y) => 2.0 * x + y, 2.0, 1.0, 0.0, 0.0, 2.0, 2.0, 3.0, nx, ny);
    assert Width(2.0, 3.0, ny) == 1.0 / (ny as real);
    TestValue(nx as real, ny as real);
  }

  lemma {:induction false} TestValue(nxr: real, nyr: real)
    requires nyr >= 1.0
    ensures 2.0 * 1.0 * (2.0 * 2.0 / 2.0 + 1.0 * (2.0 + 1.0 / nyr * nxr / 2.0) + 0.0) == 8.0 + nxr / nyr
    ensures 8.0 + nxr / nyr == 9.0 <==> nxr == nyr
  {
    assert 1.0 / nyr * nxr == nxr / nyr;
    if nxr / nyr == 1.0 {
      assert nxr == (nxr / nyr) * nyr;
    }
  }

  /** Cell (i, j) of the corrected `midpoint_double1` samples (x_i, y_j). */
  lemma {:induction false} GridCell(f: (real, real) -> real, a: real, hx: real, c: real, hy: real, i: int, j: int, xi: real, yj: real)
    requires xi == a + hx / 2.0 + (i as real) * hx && yj == c + hy / 2.0 + (j as real) * hy
    ensures GridRow(f, a, hx, c, hy, i)(j) == f(xi, yj)
  {
    assert MidpointNode(a, hx, i) == xi && MidpointNode(c, hy, j) == yj;
  }

  /** The evidently intended `midpoint_double1`: y_j computed from the column
      index j. It returns what `midpoint_double2` returns. */
  method MidpointDouble1Fixed(f: (real, real) -> real, a: real, b: real, c: real, d: real, nx: nat, ny: nat)
    returns (I: real)
    requires nx >= 1 && ny >= 1
    ensures I == MidpointDouble2(f, a, b, c, d, nx, ny)
  {
    I := 0.0;
    var hx := (b - a) / (nx as real);
    var hy := (d - c) / (ny as real);
    for i := 0 to nx
      invariant I == Sum(GridRowSums(f, a, hx, c, hy, ny), 0, i)
    {
      ghost var before := I;
      for j := 0 to ny
        invariant I == before + Sum(GridRow(f, a, hx, c, hy, i), 0, j)
      {
        var xi := a + hx / 2.0 + (i as real) * hx;
        var yj := c + hy / 2.0 + (j as real) * hy;
        GridCell(f, a, hx, c, hy, i, j, xi, yj);
        I := I + f(xi, yj);
      }
      assert GridRowSums(f, a, hx, c, hy, ny)(i) == Sum(GridRow(f, a, hx, c, hy, i), 0, ny);
    }
    MidpointDouble2IsGridSum(f, a, b, c, d, nx, ny);
    I := I * (hx * hy);
  }

  // ---------------------------------------------------------------------------
  // Triple integrals
  // ---------------------------------------------------------------------------

  /** Column (i, j) of `midpoint_triple2`'s grid: k |-> hx*hy*hz*f(x_i, y_j, z_k),
      each cell already weighted by its volume. */
  function TripleColumn(f: (real, real, real) -> real, a: real, hx: real, c: real, hy: real,
                        e: real, hz: real, i: int, j: int): int -> real {
    k => hx * hy * hz * f(MidpointNode(a, hx, i), MidpointNode(c, hy, j), MidpointNode(e, hz, k))
  }

  /** Plane i of the grid: j |-> the sum of column (i, j) over its nz cells. */
  function TriplePlane(f: (real, real, real) -> real, a: real, hx: real, c: real, hy: real,
                       e: real, hz: real, nz: nat, i: int): int -> real {
    j => Sum(TripleColumn(f, a, hx, c, hy, e, hz, i, j), 0, nz)
  }

  /** i |-> the sum of plane i over its ny columns. */
  function TriplePlaneSums(f: (real, real, real) -> real, a: real, hx: real, c: real, hy: real,
                           e: real, hz: real, ny: nat, nz: nat): int -> real {
    i => Sum(TriplePlane(f, a, hx, c, hy, e, hz, nz, i), 0, ny)
  }

  /** What `midpoint_triple2` returns: the volume-weighted samples summed over
      the nx*ny*nz cell centres. */
  function MidpointTriple2Rule(f: (real, real, real) -> real, a: real, b: real, c: real, d: real,
                               e: real, zmax: real, nx: nat, ny: nat, nz: nat): real
    requires nx >= 1 && ny >= 1 && nz >= 1
  {
    Sum(TriplePlaneSums(f, a, Width(a, b, nx), c, Width(c, d, ny), e, Width(e, zmax, nz), ny, nz), 0, nx)
  }

  /** `midpoint_triple2(f, a, b, c, d, e, zmax, nx, ny, nz)`. */
  method MidpointTriple2(f: (real, real, real) -> real, a: real, b: real, c: real, d: real,
                         e: real, zmax: real, nx: nat, ny: nat, nz: nat) returns (I: real)
    requires nx >= 1 && ny >= 1 && nz >= 1
    ensures I == MidpointTriple2Rule(f, a, b, c, d, e, zmax, nx, ny, nz)
  {
    var hx := (b - a) / (nx as real);
    var hy := (d - c) / (ny as real);
    var hz := (zmax - e) / (nz as real);
    I := 0.0;
    for i := 0 to nx
      invariant I == Sum(TriplePlaneSums(f, a, hx, c, hy, e, hz, ny, nz), 0, i)
    {
      ghost var beforePlane := I;
      for j := 0 to ny
        invariant I == beforePlane + Sum(TriplePlane(f, a, hx, c, hy, e, hz, nz, i), 0, j)
      {
        ghost var beforeColumn := I;
        for k := 0 to nz
          invariant I == beforeColumn + Sum(TripleColumn(f, a, hx, c, hy, e, hz, i, j), 0, k)
        {
          var xi := a + hx / 2.0 + (i as real) * hx;
          var yj := c + hy / 2.0 + (j as real) * hy;
          var zk := e + hz / 2.0 + (k as real) * hz;
          CellSample(f, a, hx, c, hy, e, hz, i, j, k, xi, yj, zk);
          I := I + hx * hy * hz * f(xi, yj, zk);
        }
        assert TriplePlane(f, a, hx, c, hy, e, hz, nz, i)(j) == Sum(TripleColumn(f, a, hx, c, hy, e, hz, i, j), 0, nz);
      }
      assert TriplePlaneSums(f, a, hx, c, hy, e, hz, ny, nz)(i) == Sum(TriplePlane(f, a, hx, c, hy, e, hz, nz, i), 0, ny);
    }
  }

  lemma {:induction false} CellSample(f: (real, real, real) -> real, a: real, hx: real, c: real, hy: real, e: real, hz: real,
                   i: int, j: int, k: int, xi: real, yj: real, zk: real)
    requires xi == a + hx / 2.0 + (i as real) * hx
    requires yj == c + hy / 2.0 + (j as real) * hy
    requires zk == e + hz / 2.0 + (k as real) * hz
    ensures TripleColumn(f, a, hx, c, hy, e, hz, i, j)(k) == hx * hy * hz * f(xi, yj, zk)
  {
    assert MidpointNode(a, hx, i) == xi && MidpointNode(c, hy, j) == yj && MidpointNode(e, hz, k) == zk;
  }

  /** The integrand with x and y fixed: z |-> f(x, y, z). */
  function Section3(f: (real, real, real) -> real, x: real, y: real): real -> real {
    z => f(x, y, z)
  }

  /** y |-> midpoint(z |-> f(x, y, z), e, zmax, nz). */
  function InnerMidpoint3(f: (real, real, real) -> real, x: real, e: real, zmax: real, nz: nat): real -> real
    requires nz >= 1
  {
    y => MidpointRule(Section3(f, x, y), e, zmax, nz)
  }

  /** x |-> midpoint(y |-> midpoint(z |-> f(x, y, z), e, zmax, nz), c, d, ny). */
  function MiddleMidpoint3(f: (real, real, real) -> real, c: real, d: real, e: real, zmax: real,
                           ny: nat, nz: nat): real -> real
    requires ny >= 1 && nz >= 1
  {
    x => MidpointRule(InnerMidpoint3(f, x, e, zmax, nz), c, d, ny)
  }

  /** The triple midpoint rule composed from the one-dimensional rule, one
      variable at a time, which is what `midpoint_triple1` sets out to compute. */
  function IteratedMidpoint3(f: (real, real, real) -> real, a: real, b: real, c: real, d: real,
                             e: real, zmax: real, nx: nat, ny: nat, nz: nat): real
    requires nx >= 1 && ny >= 1 && nz >= 1
  {
    MidpointRule(MiddleMidpoint3(f, c, d, e, zmax, ny, nz), a, b, nx)
  }

  /** The direct grid sum of `midpoint_triple2` equals the iterated
      one-dimensional midpoint rule, for every integrand and every grid. */
  lemma {:induction false} MidpointTriple2IsIterated(f: (real, real, real) -> real, a: real, b: real, c: real, d: real,
                                  e: real, zmax: real, nx: nat, ny: nat, nz: nat)
    requires nx >= 1 && ny >= 1 && nz >= 1
    ensures MidpointTriple2Rule(f, a, b, c, d, e, zmax, nx, ny, nz) == IteratedMidpoint3(f, a, b, c, d, e, zmax, nx, ny, nz)
  {
    TriplePlanesScale(f, a, Width(a, b, nx), c, d, e, zmax, nx, ny, nz);
  }

  /** Summing the planes of the grid is hx times summing the middle integral
      at the x midpoints. */
  lemma {:induction false} TriplePlanesScale(f: (real, real, real) -> real, a: real, hx: real, c: real, d: real,
                          e: real, zmax: real, nx: nat, ny: nat, nz: nat)
    requires ny >= 1 && nz >= 1
    ensures Sum(TriplePlaneSums(f, a, hx, c, Width(c, d, ny), e, Width(e, zmax, nz), ny, nz), 0, nx)
         == hx * Sum(MidpointSamples(MiddleMidpoint3(f, c, d, e, zmax, ny, nz), a, hx), 0, nx)
  {
    var g := MidpointSamples(MiddleMidpoint3(f, c, d, e, zmax, ny, nz), a, hx);
    var h := TriplePlaneSums(f, a, hx, c, Width(c, d, ny), e, Width(e, zmax, nz), ny, nz);
    TriplePlanesAreMiddle(f, a, hx, c, d, e, zmax, nx, ny, nz, g, h);
    SumScale(g, h, hx, 0, nx);
  }

  lemma {:induction false} TriplePlanesAreMiddle(f: (real, real, real) -> real, a: real, hx: real, c: real, d: real,
                              e: real, zmax: real, nx: nat, ny: nat, nz: nat, g: int -> real, h: int -> real)
    requires ny >= 1 && nz >= 1
    requires g == MidpointSamples(MiddleMidpoint3(f, c, d, e, zmax, ny, nz), a, hx)
    requires h == TriplePlaneSums(f, a, hx, c, Width(c, d, ny), e, Width(e, zmax, nz), ny, nz)
    ensures forall i :: 0 <= i < nx ==> h(i) == hx * g(i)
  {
    forall i | 0 <= i < nx
      ensures h(i) == hx * g(i)
    {
      TriplePlaneIsMiddle(f, a, hx, c, d, e, zmax, ny, nz, i);
    }
  }

  /** Plane i of the grid sums to hx times the middle integral at x_i. */
  lemma {:induction false} TriplePlaneIsMiddle(f: (real, real, real) -> real, a: real, hx: real, c: real, d: real,
                            e: real, zmax: real, ny: nat, nz: nat, i: int)
    requires ny >= 1 && nz >= 1
    ensures TriplePlaneSums(f, a, hx, c, Width(c, d, ny), e, Width(e, zmax, nz), ny, nz)(i)
         == hx * MidpointSamples(MiddleMidpoint3(f, c, d, e, zmax, ny, nz), a, hx)(i)
  {
    var hy := Width(c, d, ny);
    var inner := InnerMidpoint3(f, MidpointNode(a, hx, i), e, zmax, nz);
    TripleColumnsScale(f, a, hx, c, hy, e, zmax, ny, nz, i);
    Associate(hx, hy, Sum(MidpointSamples(inner, c, hy), 0, ny));
  }

  /** Summing the columns of plane i is hx*hy times summing the inner integral
      at the y midpoints. */
  lemma {:induction false} TripleColumnsScale(f: (real, real, real) -> real, a: real, hx: real, c: real, hy: real,
                           e: real, zmax: real, ny: nat, nz: nat, i: int)
    requires nz >= 1
    ensures Sum(TriplePlane(f, a, hx, c, hy, e, Width(e, zmax, nz), nz, i), 0, ny)
         == (hx * hy) * Sum(MidpointSamples(InnerMidpoint3(f, MidpointNode(a, hx, i), e, zmax, nz), c, hy), 0, ny)
  {
    var g := MidpointSamples(InnerMidpoint3(f, MidpointNode(a, hx, i), e, zmax, nz), c, hy);
    var h := TriplePlane(f, a, hx, c, hy, e, Width(e, zmax, nz), nz, i);
    TripleColumnsAreInner(f, a, hx, c, hy, e, zmax, ny, nz, i, g, h);
    SumScale(g, h, hx * hy, 0, ny);
  }

  lemma {:induction false} TripleColumnsAreInner(f: (real, real, real) -> real, a: real, hx: real, c: real, hy: real,
                              e: real, zmax: real, ny: nat, nz: nat, i: int, g: int -> real, h: int -> real)
    requires nz >= 1
    requires g == MidpointSamples(InnerMidpoint3(f, MidpointNode(a, hx, i), e, zmax, nz), c, hy)
    requires h == TriplePlane(f, a, hx, c, hy, e, Width(e, zmax, nz), nz, i)
    ensures forall j :: 0 <= j < ny ==> h(j) == (hx * hy) * g(j)
  {
    forall j | 0 <= j < ny
      ensures h(j) == (hx * hy) * g(j)
    {
      TripleColumnIsInner(f, a, hx, c, hy, e, zmax, nz, i, j);
    }
  }

  /** Column (i, j) of the grid sums to hx*hy times the inner integral at (x_i, y_j). */
  lemma {:induction false} TripleColumnIsInner(f: (real, real, real) -> real, a: real, hx: real, c: real, hy: real,
                            e: real, zmax: real, nz: nat, i: int, j: int)
    requires nz >= 1
    ensures TriplePlane(f, a, hx, c, hy, e, Width(e, zmax, nz), nz, i)(j)
         == (hx * hy) * MidpointSamples(InnerMidpoint3(f, MidpointNode(a, hx, i), e, zmax, nz), c, hy)(j)
  {
    var hz := Width(e, zmax, nz);
    var section := Section3(f, MidpointNode(a, hx, i), MidpointNode(c, hy, j));
    forall k | 0 <= k < nz
      ensures TripleColumn(f, a, hx, c, hy, e, hz, i, j)(k) == (hx * hy * hz) * MidpointSamples(section, e, hz)(k)
    {
    }
    SumScale(MidpointSamples(section, e, hz), TripleColumn(f, a, hx, c, hy, e, hz, i, j), hx * hy * hz, 0, nz);
    Associate(hx * hy, hz, Sum(MidpointSamples(section, e, hz), 0, nz));
  }

  lemma {:induction false} Associate(p: real, q: real, r: real)
    ensures (p * q) * r == p * (q * r)
  {
  }

  /** The triple midpoint rule of `midpoint_triple2` is exact for
      f(x, y, z) = alpha*x + beta*y + gamma*z + delta, for every grid. */
  lemma {:induction false} MidpointTriple2Affine(f: (real, real, real) -> real, alpha: real, beta: real, gamma: real, delta: real,
                              a: real, b: real, c: real, d: real, e: real, zmax: real, nx: nat, ny: nat, nz: nat)
    requires nx >= 1 && ny >= 1 && nz >= 1
    requires forall x, y, z :: f(x, y, z) == alpha * x + beta * y + gamma * z + delta
    ensures MidpointTriple2Rule(f, a, b, c, d, e, zmax, nx, ny, nz)
         == (b - a) * (d - c) * (zmax - e)
            * (alpha * (a + b) / 2.0 + beta * (c + d) / 2.0 + gamma * (e + zmax) / 2.0 + delta)
  {
    var slope := (d - c) * (zmax - e) * alpha;
    var k := (d - c) * (zmax - e) * (beta * (c + d) / 2.0 + gamma * (e + zmax) / 2.0 + delta);
    MidpointTriple2IsIterated(f, a, b, c, d, e, zmax, nx, ny, nz);
    MiddleMidpoint3Affine(f, alpha, beta, gamma, delta, c, d, e, zmax, ny, nz, slope, k);
    MidpointAffine(MiddleMidpoint3(f, c, d, e, zmax, ny, nz), slope, k, a, b, nx);
    Triple2AffineAlgebra(alpha, beta, gamma, delta, a, b, c, d, e, zmax, slope, k,
                         IteratedMidpoint3(f, a, b, c, d, e, zmax, nx, ny, nz));
  }

  lemma {:induction false} Triple2AffineAlgebra(alpha: real, beta: real, gamma: real, delta: real,
                             a: real, b: real, c: real, d: real, e: real, zmax: real, slope: real, k: real, r: real)
    requires slope == (d - c) * (zmax - e) * alpha
    requires k == (d - c) * (zmax - e) * (beta * (c + d) / 2.0 + gamma * (e + zmax) / 2.0 + delta)
    requires r == (b - a) * (slope * (a + b) / 2.0 + k)
    ensures r == (b - a) * (d - c) * (zmax - e)
                 * (alpha * (a + b) / 2.0 + beta * (c + d) / 2.0 + gamma * (e + zmax) / 2.0 + delta)
  {
  }

  /** The middle integral of an affine integrand is affine in x, with the
      given slope and intercept. */
  lemma {:induction false} MiddleMidpoint3Affine(f: (real, real, real) -> real, alpha: real, beta: real, gamma: real, delta: real,
                              c: real, d: real, e: real, zmax: real, ny: nat, nz: nat, slope: real, k: real)
    requires ny >= 1 && nz >= 1
    requires forall x, y, z :: f(x, y, z) == alpha * x + beta * y + gamma * z + delta
    requires slope == (d - c) * (zmax - e) * alpha
    requires k == (d - c) * (zmax - e) * (beta * (c + d) / 2.0 + gamma * (e + zmax) / 2.0 + delta)
    ensures forall x :: MiddleMidpoint3(f, c, d, e, zmax, ny, nz)(x) == slope * x + k
  {
    forall x
      ensures MiddleMidpoint3(f, c, d, e, zmax, ny, nz)(x) == slope * x + k
    {
      MiddleMidpoint3AffineAt(f, alpha, beta, gamma, delta, c, d, e, zmax, ny, nz, slope, k, x);
    }
  }

  lemma {:induction false} MiddleMidpoint3AffineAt(f: (real, real, real) -> real, alpha: real, beta: real, gamma: real, delta: real,
                                c: real, d: real, e: real, zmax: real, ny: nat, nz: nat, slope: real, k: real, x: real)
    requires ny >= 1 && nz >= 1
    requires forall x, y, z :: f(x, y, z) == alpha * x + beta * y + gamma * z + delta
    requires slope == (d - c) * (zmax - e) * alpha
    requires k == (d - c) * (zmax - e) * (beta * (c + d) / 2.0 + gamma * (e + zmax) / 2.0 + delta)
    ensures MiddleMidpoint3(f, c, d, e, zmax, ny, nz)(x) == slope * x + k
  {
    var inSlope := (zmax - e) * beta;
    var inIcpt := (zmax - e) * (gamma * (e + zmax) / 2.0 + alpha * x + delta);
    InnerMidpoint3Affine(f, alpha, beta, gamma, delta, x, e, zmax, nz, inSlope, inIcpt);
    MidpointAffine(InnerMidpoint3(f, x, e, zmax, nz), inSlope, inIcpt, c, d, ny);
    Middle3AffineAlgebra(alpha, beta, gamma, delta, c, d, e, zmax, x, inSlope, inIcpt, slope, k,
                         MiddleMidpoint3(f, c, d, e, zmax, ny, nz)(x));
  }

  lemma {:induction false} Middle3AffineAlgebra(alpha: real, beta: real, gamma: real, delta: real, c: real, d: real, e: real,
                             zmax: real, x: real, inSlope: real, inIcpt: real, slope: real, k: real, r: real)
    requires inSlope == (zmax - e) * beta
    requires inIcpt == (zmax - e) * (gamma * (e + zmax) / 2.0 + alpha * x + delta)
    requires slope == (d - c) * (zmax - e) * alpha
    requires k == (d - c) * (zmax - e) * (beta * (c + d) / 2.0 + gamma * (e + zmax) / 2.0 + delta)
    requires r == (d - c) * (inSlope * (c + d) / 2.0 + inIcpt)
    ensures r == slope * x + k
  {
  }

  /** The inner integral of an affine integrand, at fixed x, is affine in y,
      with the given slope and intercept. */
  lemma {:induction false} InnerMidpoint3Affine(f: (real, real, real) -> real, alpha: real, beta: real, gamma: real, delta: real,
                             x: real, e: real, zmax: real, nz: nat, slope: real, k: real)
    requires nz >= 1
    requires forall x, y, z :: f(x, y, z) == alpha * x + beta * y + gamma * z + delta
    requires slope == (zmax - e) * beta
    requires k == (zmax - e) * (gamma * (e + zmax) / 2.0 + alpha * x + delta)
    ensures forall y :: InnerMidpoint3(f, x, e, zmax, nz)(y) == slope * y + k
  {
    forall y
      ensures InnerMidpoint3(f, x, e, zmax, nz)(y) == slope * y + k
    {
      var icpt := alpha * x + beta * y + delta;
      MidpointAffine(Section3(f, x, y), gamma, icpt, e, zmax, nz);
      Inner3AffineAlgebra(alpha, beta, gamma, delta, e, zmax, x, y, icpt, slope, k,
                          InnerMidpoint3(f, x, e, zmax, nz)(y));
    }
  }

  lemma {:induction false} Inner3AffineAlgebra(alpha: real, beta: real, gamma: real, delta: real, e: real, zmax: real,
                            x: real, y: real, icpt: real, slope: real, k: real, r: real)
    requires icpt == alpha * x + beta * y + delta
    requires slope == (zmax - e) * beta
    requires k == (zmax - e) * (gamma * (e + zmax) / 2.0 + alpha * x + delta)
    requires r == (zmax - e) * (gamma * (e + zmax) / 2.0 + icpt)
    ensures r == slope * y + k
  {
  }
}
