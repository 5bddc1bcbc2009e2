/** The two loops of the top-level `numerical_integration.py`: the composite
    trapezoidal and midpoint rules, each accumulating its samples into
    `result` and scaling the total by the subinterval width at the end. */
module NumericalIntegration {
  import opened Sums
  import opened Quadrature

  /** `trapezoidal(f, a, b, n)`: half-weighted endpoints plus the n - 1
      interior partition points, times h = (b - a)/n. */
  method Trapezoidal(f: real -> real, a: real, b: real, n: nat) returns (result: real)
    requires n >= 1
    ensures result == TrapezoidalRule(f, a, b, n)
    ensures n == 1 ==> result == (b - a) * (f(a) + f(b)) / 2.0
  {
    var h := (b - a) / (n as real);
    result := 0.5 * (f(a) + f(b));
    for i := 1 to n
      invariant result == 0.5 * (f(a) + f(b)) + Sum(TrapezoidSamples(f, a, h), 1, i)
    {
      assert TrapezoidSamples(f, a, h)(i) == f(TrapezoidNode(a, h, i));
      assert TrapezoidNode(a, h, i) == a + (i as real) * h;
      result := result + f(a + (i as real) * h);
    }
    result := result * h;
  }

  /** `midpoint(f, a, b, n)`: the n midpoint samples, times w = (b - a)/n. */
  method Midpoint(f: real -> real, a: real, b: real, n: nat) returns (result: real)
    requires n >= 1
    ensures result == MidpointRule(f, a, b, n)
    ensures n == 1 ==> result == (b - a) * f((a + b) / 2.0)
  {
    result := 0.0;
    var w := (b - a) / (n as real);
    for i := 0 to n
      invariant result == Sum(MidpointSamples(f, a, w), 0, i)
    {
      assert MidpointSamples(f, a, w)(i) == f(MidpointNode(a, w, i));
      assert MidpointNode(a, w, i) == a + w / 2.0 + (i as real) * w;
      result := result + f(a + w / 2.0 + (i as real) * w);
    }
    result := result * w;
    assert n == 1 ==> MidpointNode(a, w, 0) == (a + b) / 2.0;
  }
}
