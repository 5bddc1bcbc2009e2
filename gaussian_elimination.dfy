/** `gaussElim(a, b)` of gaussianElim.py: Gaussian elimination without
    pivoting on a square system a·x = b, carried out in place. The
    elimination phase subtracts multiples of each pivot row from the rows
    below it, writing only the columns right of the pivot; the
    back-substitution phase then overwrites b, last entry first, with the
    solution, reading only the upper triangle of a.

    The phases are specified by functions on a value `System`; the method
    works on the arrays themselves and is proved to leave exactly what those
    functions describe. Over exact reals, with every pivot non-zero, the
    vector returned is the one and only solution of the original system. */
module GaussianElimination {

  /** The system a·x = b, the matrix as its list of rows. */
  datatype System = System(a: seq<seq<real>>, b: seq<real>)

  /** An n-by-n matrix and a right-hand side of length n. */
  predicate WellFormed(s: System) {
    |s.a| == |s.b| && forall i :: 0 <= i < |s.a| ==> |s.a[i]| == |s.b|
  }

  /** `np.dot` of two vectors of the same length. */
  function Dot(u: seq<real>, v: seq<real>): real
    requires |u| == |v|
  {
    if |u| == 0 then 0.0 else u[0] * v[0] + Dot(u[1..], v[1..])
  }

  /** x solves m·x = y: every row of m dotted with x gives its entry of y. */
  predicate Solves(m: seq<seq<real>>, x: seq<real>, y: seq<real>) {
    |m| == |y| && forall i :: 0 <= i < |m| ==> |m[i]| == |x| && Dot(m[i], x) == y[i]
  }

  // ---------------------------------------------------------------------------
  // The elimination phase
  // ---------------------------------------------------------------------------

  /** Row i is left alone in step k when its entry in the pivot column is
      zero. The model also leaves it alone when the pivot is zero, a case in
      which `gaussElim` divides by zero and which its precondition excludes. */
  predicate Skipped(s: System, k: nat, i: nat)
    requires WellFormed(s) && k < |s.b| && i < |s.b|
  {
    s.a[i][k] == 0.0 || s.a[k][k] == 0.0
  }

  /** The multiplier `a[i,k] / a[k,k]` of row i in step k, zero for a row
      that is left alone. */
  function Multiplier(s: System, k: nat, i: nat): real
    requires WellFormed(s) && k < |s.b| && i < |s.b|
  {
    if Skipped(s, k, i) then 0.0 else s.a[i][k] / s.a[k][k]
  }

  /** Row i after step k: `a[i,k+1:n] - lambda*a[k,k+1:n]` right of the
      pivot column, the old entries elsewhere. */
  function ReducedRow(s: System, k: nat, i: nat): seq<real>
    requires WellFormed(s) && k < |s.b| && i < |s.b|
  {
    if Skipped(s, k, i) then s.a[i]
    else seq(|s.b|, j requires 0 <= j < |s.b| => if j <= k then s.a[i][j] else s.a[i][j] - Multiplier(s, k, i) * s.a[k][j])
  }

  /** Entry i of b after step k: `b[i] - lambda*b[k]`. */
  function ReducedRhs(s: System, k: nat, i: nat): real
    requires WellFormed(s) && k < |s.b| && i < |s.b|
  {
    if Skipped(s, k, i) then s.b[i] else s.b[i] - Multiplier(s, k, i) * s.b[k]
  }

  /** Step k done for the rows k+1 .. m-1: the state of the inner loop once it
      has reached row m. Rows up to the pivot row and from row m on are
      untouched, and so is every column up to the pivot column: the entries
      below the pivot keep their old values in memory. */
  function PartialStep(s: System, k: nat, m: nat): (t: System)
    requires WellFormed(s) && k < |s.b|
    ensures WellFormed(t) && |t.b| == |s.b|
  {
    System(seq(|s.b|, r requires 0 <= r < |s.b| => if k < r < m then ReducedRow(s, k, r) else s.a[r]),
           seq(|s.b|, r requires 0 <= r < |s.b| => if k < r < m then ReducedRhs(s, k, r) else s.b[r]))
  }

  /** What step k leaves alone: the rows up to the pivot row and from row m
      on, every row it skips, and in every row the columns up to the pivot
      column, so that the entries below the pivot keep their old values. */
  lemma {:induction false} PartialStepFrame(s: System, k: nat, m: nat, r: nat)
    requires WellFormed(s) && k < |s.b| && r < |s.b|
    ensures r <= k || m <= r || Skipped(s, k, r) ==>
              PartialStep(s, k, m).a[r] == s.a[r] && PartialStep(s, k, m).b[r] == s.b[r]
    ensures forall j :: 0 <= j <= k ==> PartialStep(s, k, m).a[r][j] == s.a[r][j]
  {
  }

  /** Elimination step k, rows k+1 .. n-1 (lines 9-13). */
  function Step(s: System, k: nat): System
    requires WellFormed(s) && k < |s.b|
  {
    PartialStep(s, k, |s.b|)
  }

  /** The number of elimination steps, `range(0, n-1)`. */
  function Steps(n: nat): nat {
    if n == 0 then 0 else n - 1
  }

  /** The system after steps 0 .. m-1. */
  function Elim(s: System, m: nat): (t: System)
    requires WellFormed(s) && m <= |s.b|
    ensures WellFormed(t) && |t.b| == |s.b|
    decreases m
  {
    if m == 0 then s else Step(Elim(s, m - 1), m - 1)
  }

  /** The system when the elimination phase ends. */
  function Eliminated(s: System): (t: System)
    requires WellFormed(s)
    ensures WellFormed(t) && |t.b| == |s.b|
  {
    Elim(s, Steps(|s.b|))
  }

  /** Every divisor `gaussElim` uses is non-zero: the final diagonal, which
      holds the pivot of each step and the divisors of back-substitution. */
  predicate PivotsNonZero(s: System) {
    WellFormed(s) && forall k :: 0 <= k < |s.b| ==> Eliminated(s).a[k][k] != 0.0
  }

  /** Once step k - 1 is done, row k and entry k of b never change again. */
  lemma {:induction false} RowSettles(s: System, k: nat, m: nat)
    requires WellFormed(s) && k <= m <= |s.b| && k < |s.b|
    ensures Elim(s, m).a[k] == Elim(s, k).a[k] && Elim(s, m).b[k] == Elim(s, k).b[k]
    decreases m
  {
    if m > k {
      RowSettles(s, k, m - 1);
      PartialStepFrame(Elim(s, m - 1), m - 1, |s.b|, k);
    }
  }

  /** The pivot of step k is entry (k, k) of the final matrix. */
  lemma {:induction false} PivotIsFinalDiagonal(s: System, k: nat)
    requires WellFormed(s) && k <= Steps(|s.b|) && k < |s.b|
    ensures Elim(s, k).a[k][k] == Eliminated(s).a[k][k]
  {
    RowSettles(s, k, Steps(|s.b|));
  }

  // ---------------------------------------------------------------------------
  // Solutions are preserved
  // ---------------------------------------------------------------------------

  /** The matrix as the algorithm means it after m steps: the entries below
      the diagonal in the first m columns, which it never writes, read as 0. */
  function Logical(m: seq<seq<real>>, steps: nat): (l: seq<seq<real>>)
    ensures |l| == |m|
  {
    seq(|m|, i requires 0 <= i < |m| => LogicalRow(m[i], i, steps))
  }

  /** Row i of the matrix as meant. */
  function LogicalRow(row: seq<real>, i: int, steps: nat): (l: seq<real>)
    ensures |l| == |row|
  {
    seq(|row|, j requires 0 <= j < |row| => if j < i && j < steps then 0.0 else row[j])
  }

  /** Before the first step nothing is read as zero. */
  lemma {:induction false} LogicalNone(m: seq<seq<real>>)
    ensures Logical(m, 0) == m
  {
    forall i | 0 <= i < |m|
      ensures Logical(m, 0)[i] == m[i]
    {
      assert LogicalRow(m[i], i, 0) == m[i];
    }
  }

  /** The multiple of the pivot row that step k subtracts from row r: none
      from the pivot row and the rows above it. */
  function RowMultiplier(s: System, k: nat, r: nat): real
    requires WellFormed(s) && k < |s.b| && r < |s.b|
  {
    if r <= k then 0.0 else Multiplier(s, k, r)
  }

  lemma {:induction false} StepEntry(s: System, k: nat, r: nat, j: nat)
    requires WellFormed(s) && k < |s.b| && s.a[k][k] != 0.0 && r < |s.b| && j < |s.b|
    ensures LogicalRow(Step(s, k).a[r], r, k + 1)[j]
         == LogicalRow(s.a[r], r, k)[j] - RowMultiplier(s, k, r) * LogicalRow(s.a[k], k, k)[j]
  {
    if k < r && !Skipped(s, k, r) && j == k {
      assert Multiplier(s, k, r) * s.a[k][k] == s.a[r][k];
    }
  }

  lemma {:induction false} StepRowEntries(s: System, k: nat, r: nat, z: seq<real>, u: seq<real>, w: seq<real>)
    requires WellFormed(s) && k < |s.b| && s.a[k][k] != 0.0 && r < |s.b|
    requires z == LogicalRow(Step(s, k).a[r], r, k + 1) && u == LogicalRow(s.a[r], r, k) && w == LogicalRow(s.a[k], k, k)
    ensures |z| == |u| == |w| == |s.b|
    ensures forall j :: 0 <= j < |z| ==> z[j] == u[j] - RowMultiplier(s, k, r) * w[j]
  {
    forall j | 0 <= j < |z|
      ensures z[j] == u[j] - RowMultiplier(s, k, r) * w[j]
    {
      StepEntry(s, k, r, j);
    }
  }

  /** In the matrix as meant, step k subtracts the multiplier times the pivot
      row from each row below it, and leaves the other rows alone; so it does
      the same to each row's product with any x. */
  lemma {:induction false} StepRow(s: System, k: nat, r: nat, x: seq<real>)
    requires WellFormed(s) && k < |s.b| && s.a[k][k] != 0.0 && r < |s.b| && |x| == |s.b|
    ensures Dot(Logical(Step(s, k).a, k + 1)[r], x)
         == Dot(Logical(s.a, k)[r], x) - RowMultiplier(s, k, r) * Dot(Logical(s.a, k)[k], x)
    ensures Step(s, k).b[r] == s.b[r] - RowMultiplier(s, k, r) * s.b[k]
  {
    LogicalAt(Step(s, k).a, k + 1, r);
    LogicalAt(s.a, k, r);
    LogicalAt(s.a, k, k);
    StepRowDot(s, k, r, x, LogicalRow(Step(s, k).a[r], r, k + 1), LogicalRow(s.a[r], r, k), LogicalRow(s.a[k], k, k));
    StepRhs(s, k, r);
  }

  lemma {:induction false} StepRowDot(s: System, k: nat, r: nat, x: seq<real>, z: seq<real>, u: seq<real>, w: seq<real>)
    requires WellFormed(s) && k < |s.b| && s.a[k][k] != 0.0 && r < |s.b| && |x| == |s.b|
    requires z == LogicalRow(Step(s, k).a[r], r, k + 1) && u == LogicalRow(s.a[r], r, k) && w == LogicalRow(s.a[k], k, k)
    ensures |z| == |u| == |w| == |x|
    ensures Dot(z, x) == Dot(u, x) - RowMultiplier(s, k, r) * Dot(w, x)
  {
    StepRowEntries(s, k, r, z, u, w);
    DotCombination(z, u, w, x, RowMultiplier(s, k, r));
  }

  /** Row r of the matrix as meant. */
  lemma {:induction false} LogicalAt(m: seq<seq<real>>, steps: nat, r: nat)
    requires r < |m|
    ensures Logical(m, steps)[r] == LogicalRow(m[r], r, steps)
  {
  }

  lemma {:induction false} StepRhs(s: System, k: nat, r: nat)
    requires WellFormed(s) && k < |s.b| && r < |s.b|
    ensures Step(s, k).b[r] == s.b[r] - RowMultiplier(s, k, r) * s.b[k]
  {
  }

  /** Step k turns every solution of the system before it into one after it. */
  lemma {:induction false} StepKeepsSolutions(s: System, k: nat, x: seq<real>, t: System, m: nat)
    requires WellFormed(s) && k < |s.b| && s.a[k][k] != 0.0 && |x| == |s.b|
    requires t == Step(s, k) && m == k + 1
    requires Solves(Logical(s.a, k), x, s.b)
    ensures Solves(Logical(t.a, m), x, t.b)
  {
    forall r | 0 <= r < |s.b|
      ensures Dot(Logical(Step(s, k).a, k + 1)[r], x) == Step(s, k).b[r]
    {
      StepKeepsRow(s, k, r, x, Dot(Logical(s.a, k)[r], x), Dot(Logical(s.a, k)[k], x));
    }
  }

  lemma {:induction false} StepKeepsRow(s: System, k: nat, r: nat, x: seq<real>, dr: real, dk: real)
    requires WellFormed(s) && k < |s.b| && s.a[k][k] != 0.0 && r < |s.b| && |x| == |s.b|
    requires dr == Dot(Logical(s.a, k)[r], x) && dk == Dot(Logical(s.a, k)[k], x)
    requires dr == s.b[r] && dk == s.b[k]
    ensures Dot(Logical(Step(s, k).a, k + 1)[r], x) == Step(s, k).b[r]
  {
    StepRow(s, k, r, x);
  }

  /** ... and every solution after it back into one before it. */
  lemma {:induction false} StepRestoresSolutions(s: System, k: nat, x: seq<real>, t: System, m: nat)
    requires WellFormed(s) && k < |s.b| && s.a[k][k] != 0.0 && |x| == |s.b|
    requires t == Step(s, k) && m == k + 1
    requires Solves(Logical(t.a, m), x, t.b)
    ensures Solves(Logical(s.a, k), x, s.b)
  {
    forall r | 0 <= r < |s.b|
      ensures Dot(Logical(s.a, k)[r], x) == s.b[r]
    {
      StepRestoresRow(s, k, r, x, t, m);
    }
  }

  lemma {:induction false} StepRestoresRow(s: System, k: nat, r: nat, x: seq<real>, t: System, m: nat)
    requires WellFormed(s) && k < |s.b| && s.a[k][k] != 0.0 && r < |s.b| && |x| == |s.b|
    requires t == Step(s, k) && m == k + 1
    requires Dot(Logical(t.a, m)[r], x) == t.b[r] && Dot(Logical(t.a, m)[k], x) == t.b[k]
    ensures Dot(Logical(s.a, k)[r], x) == s.b[r]
  {
    StepRow(s, k, k, x);
    StepRow(s, k, r, x);
  }

  /** Steps 0 .. m-1 keep the set of solutions, when their pivots are non-zero. */
  lemma {:induction false} ElimKeepsSolutions(s: System, m: nat, x: seq<real>)
    requires WellFormed(s) && m <= |s.b| && |x| == |s.b|
    requires forall k :: 0 <= k < m ==> Elim(s, k).a[k][k] != 0.0
    ensures Solves(s.a, x, s.b) <==> Solves(Logical(Elim(s, m).a, m), x, Elim(s, m).b)
  {
    if Solves(s.a, x, s.b) {
      ElimForward(s, m, x);
    }
    if SolvedAfter(s, m, x) {
      ElimBackward(s, m, x);
    }
  }

  /** The pivots of steps 0 .. m-1 are non-zero. */
  predicate PivotsBefore(s: System, m: nat) {
    WellFormed(s) && m <= |s.b| && forall k :: 0 <= k < m ==> Pivot(s, k) != 0.0
  }

  /** x solves the system as meant after steps 0 .. m-1. */
  predicate SolvedAfter(s: System, m: nat, x: seq<real>) {
    WellFormed(s) && m <= |s.b| && Solves(Logical(Elim(s, m).a, m), x, Elim(s, m).b)
  }

  lemma {:induction false} ElimForward(s: System, m: nat, x: seq<real>)
    requires PivotsBefore(s, m) && |x| == |s.b| && Solves(s.a, x, s.b)
    ensures SolvedAfter(s, m, x)
    decreases m
  {
    if m == 0 {
      LogicalNone(s.a);
    } else {
      PivotsPrev(s, m);
      ElimForward(s, m - 1, x);
      ForwardStep(s, m, x);
    }
  }

  lemma {:induction false} ElimBackward(s: System, m: nat, x: seq<real>)
    requires PivotsBefore(s, m) && |x| == |s.b| && SolvedAfter(s, m, x)
    ensures Solves(s.a, x, s.b)
    decreases m
  {
    if m == 0 {
      LogicalNone(s.a);
    } else {
      PivotsPrev(s, m);
      BackwardStep(s, m, x);
      ElimBackward(s, m - 1, x);
    }
  }

  /** Dropping the last of m > 0 pivots. */
  lemma {:induction false} PivotsPrev(s: System, m: nat)
    requires PivotsBefore(s, m) && m > 0
    ensures PivotsBefore(s, m - 1) && Pivot(s, m - 1) != 0.0
  { }

  /** The pivot of step k. */
  function Pivot(s: System, k: nat): real
    requires WellFormed(s) && k < |s.b|
  {
    Elim(s, k).a[k][k]
  }

  /** Step m-1 keeps a solution that steps 0 .. m-2 kept. */
  lemma {:induction false} ForwardStep(s: System, m: nat, x: seq<real>)
    requires WellFormed(s) && 0 < m <= |s.b| && Pivot(s, m - 1) != 0.0 && |x| == |s.b|
    requires SolvedAfter(s, m - 1, x)
    ensures SolvedAfter(s, m, x)
  {
    ElimNext(s, m);
    StepKeepsSolutions(Elim(s, m - 1), m - 1, x, Elim(s, m), m);
  }

  /** Step m-1 holds no solution that steps 0 .. m-2 did not. */
  lemma {:induction false} BackwardStep(s: System, m: nat, x: seq<real>)
    requires WellFormed(s) && 0 < m <= |s.b| && Pivot(s, m - 1) != 0.0 && |x| == |s.b|
    requires SolvedAfter(s, m, x)
    ensures SolvedAfter(s, m - 1, x)
  {
    ElimNext(s, m);
    StepRestoresSolutions(Elim(s, m - 1), m - 1, x, Elim(s, m), m);
  }

  // ---------------------------------------------------------------------------
  // The back-substitution phase
  // ---------------------------------------------------------------------------

  /** x[k..n] as back-substitution computes it (lines 16-17):
      x[k] = (y[k] - u[k, k+1..] · x[k+1..]) / u[k, k], from the last entry up. */
  function BackSub(u: seq<seq<real>>, y: seq<real>, k: nat): (x: seq<real>)
    requires WellFormed(System(u, y)) && k <= |y|
    requires forall r :: k <= r < |y| ==> u[r][r] != 0.0
    ensures |x| == |y| - k
    decreases |y| - k
  {
    if k == |y| then []
    else
      var rest := BackSub(u, y, k + 1);
      [(y[k] - Dot(u[k][k + 1..], rest)) / u[k][k]] + rest
  }

  /** The vector `gaussElim` returns. */
  function Solution(s: System): (x: seq<real>)
    requires PivotsNonZero(s)
    ensures |x| == |s.b|
  {
    BackSub(Eliminated(s).a, Eliminated(s).b, 0)
  }

  /** The tail of the result from k on is what back-substitution from k gives. */
  lemma {:induction false} BackSubSuffix(u: seq<seq<real>>, y: seq<real>, k: nat)
    requires WellFormed(System(u, y)) && k <= |y|
    requires forall r :: 0 <= r < |y| ==> u[r][r] != 0.0
    ensures BackSub(u, y, 0)[k..] == BackSub(u, y, k)
  {
    if k > 0 {
      BackSubSuffix(u, y, k - 1);
      assert BackSub(u, y, k - 1)[1..] == BackSub(u, y, k);
      assert BackSub(u, y, 0)[k..] == BackSub(u, y, 0)[k - 1..][1..];
    }
  }

  /** The triangular-solve invariant: row k of the upper triangle, dotted with
      the result, gives y[k]. */
  lemma {:induction false} TriangularSolve(u: seq<seq<real>>, y: seq<real>, k: nat)
    requires WellFormed(System(u, y)) && k < |y|
    requires forall r :: 0 <= r < |y| ==> u[r][r] != 0.0
    ensures u[k][k] * BackSub(u, y, 0)[k] + Dot(u[k][k + 1..], BackSub(u, y, 0)[k + 1..]) == y[k]
  {
    BackSubSuffix(u, y, k);
    BackSubSuffix(u, y, k + 1);
    var x := BackSub(u, y, 0);
    assert x[k] == BackSub(u, y, k)[0];
    assert x[k + 1..] == BackSub(u, y, k + 1);
    BackSubHead(u, y, k);
  }

  /** The entry back-substitution computes at k satisfies row k. */
  lemma {:induction false} BackSubHead(u: seq<seq<real>>, y: seq<real>, k: nat)
    requires WellFormed(System(u, y)) && k < |y|
    requires forall r :: k <= r < |y| ==> u[r][r] != 0.0
    ensures u[k][k] * BackSub(u, y, k)[0] + Dot(u[k][k + 1..], BackSub(u, y, k + 1)) == y[k]
  {
    var d := Dot(u[k][k + 1..], BackSub(u, y, k + 1));
    PivotUndivides(u[k][k], BackSub(u, y, k)[0], d, y[k]);
  }

  lemma {:induction false} PivotUndivides(p: real, xk: real, d: real, yk: real)
    requires p != 0.0 && xk == (yk - d) / p
    ensures p * xk + d == yk
  {
  }

  /** Back-substitution reads only the upper triangle: matrices that agree on
      and above the diagonal give the same result. */
  lemma {:induction false} BackSubUpperOnly(u: seq<seq<real>>, w: seq<seq<real>>, y: seq<real>, k: nat)
    requires WellFormed(System(u, y)) && WellFormed(System(w, y)) && k <= |y|
    requires forall r :: k <= r < |y| ==> u[r][r] != 0.0
    requires forall r, j :: k <= r <= j < |y| ==> u[r][j] == w[r][j]
    ensures BackSub(u, y, k) == BackSub(w, y, k)
    decreases |y| - k
  {
    if k < |y| {
      BackSubUpperOnly(u, w, y, k + 1);
      assert u[k][k + 1..] == w[k][k + 1..];
    }
  }

  /** A row of the final matrix as meant: zeros, the pivot, then the entries
      right of it. */
  lemma {:induction false} RowDecompose(u: seq<seq<real>>, steps: nat, r: nat, x: seq<real>)
    requires r < |u| && |u[r]| == |x| && r < |x| && r <= steps
    ensures Dot(Logical(u, steps)[r], x) == u[r][r] * x[r] + Dot(u[r][r + 1..], x[r + 1..])
  {
    var l := LogicalRow(u[r], r, steps);
    DotSplit(l, x, r);
    DotZero(l[..r], x[..r]);
    assert l[r..] == u[r][r..];
    assert u[r][r..][1..] == u[r][r + 1..];
    assert x[r..][1..] == x[r + 1..];
  }

  /** The result of back-substitution solves the final system as meant. */
  lemma {:induction false} BackSubSolves(u: seq<seq<real>>, y: seq<real>, steps: nat)
    requires WellFormed(System(u, y)) && |y| <= steps + 1
    requires forall r :: 0 <= r < |y| ==> u[r][r] != 0.0
    ensures Solves(Logical(u, steps), BackSub(u, y, 0), y)
  {
    var x := BackSub(u, y, 0);
    forall r | 0 <= r < |y|
      ensures Dot(Logical(u, steps)[r], x) == y[r]
    {
      BackSubRow(u, y, steps, r, x);
    }
  }

  lemma {:induction false} BackSubRow(u: seq<seq<real>>, y: seq<real>, steps: nat, r: nat, x: seq<real>)
    requires WellFormed(System(u, y)) && |y| <= steps + 1 && r < |y|
    requires forall r :: 0 <= r < |y| ==> u[r][r] != 0.0
    requires x == BackSub(u, y, 0)
    ensures Dot(Logical(u, steps)[r], x) == y[r]
  {
    TriangularSolve(u, y, r);
    RowEquation(u, y, steps, r, x);
  }

  /** A row whose upper-triangle equation x satisfies is satisfied as meant. */
  lemma {:induction false} RowEquation(u: seq<seq<real>>, y: seq<real>, steps: nat, r: nat, x: seq<real>)
    requires WellFormed(System(u, y)) && |y| <= steps + 1 && r < |y| && |x| == |y|
    requires u[r][r] * x[r] + Dot(u[r][r + 1..], x[r + 1..]) == y[r]
    ensures Dot(Logical(u, steps)[r], x) == y[r]
  {
    RowDecompose(u, steps, r, x);
  }

  /** ... and it is the only solution: from x[k+1..] the row k equation
      fixes x[k]. */
  lemma {:induction false} BackSubUnique(u: seq<seq<real>>, y: seq<real>, steps: nat, x: seq<real>, k: nat)
    requires WellFormed(System(u, y)) && |y| <= steps + 1 && |x| == |y| && k <= |y|
    requires forall r :: 0 <= r < |y| ==> u[r][r] != 0.0
    requires Solves(Logical(u, steps), x, y)
    ensures x[k..] == BackSub(u, y, k)
    decreases |y| - k
  {
    if k < |y| {
      BackSubUnique(u, y, steps, x, k + 1);
      BackSubUniqueStep(u, y, steps, x, k);
    }
  }

  lemma {:induction false} BackSubUniqueStep(u: seq<seq<real>>, y: seq<real>, steps: nat, x: seq<real>, k: nat)
    requires WellFormed(System(u, y)) && |y| <= steps + 1 && |x| == |y| && k < |y|
    requires forall r :: 0 <= r < |y| ==> u[r][r] != 0.0
    requires Dot(Logical(u, steps)[k], x) == y[k]
    requires x[k + 1..] == BackSub(u, y, k + 1)
    ensures x[k..] == BackSub(u, y, k)
  {
    var rest, d := BackSubUnfold(u, y, k);
    PivotValue(u, y, steps, x, k, d);
    HeadAndTail(x, k, (y[k] - d) / u[k][k], rest);
  }

  /** Row k of the final system as meant fixes x[k] from the entries after it. */
  lemma {:induction false} PivotValue(u: seq<seq<real>>, y: seq<real>, steps: nat, x: seq<real>, k: nat, d: real)
    requires WellFormed(System(u, y)) && |y| <= steps + 1 && |x| == |y| && k < |y| && u[k][k] != 0.0
    requires Dot(Logical(u, steps)[k], x) == y[k] && d == Dot(u[k][k + 1..], x[k + 1..])
    ensures x[k] == (y[k] - d) / u[k][k]
  {
    RowDecompose(u, steps, k, x);
    PivotDivides(u[k][k], x[k], d, y[k]);
  }

  lemma {:induction false} HeadAndTail(x: seq<real>, k: nat, h: real, rest: seq<real>)
    requires k < |x| && x[k] == h && x[k + 1..] == rest
    ensures x[k..] == [h] + rest
  {
    assert x[k..] == [x[k]] + x[k + 1..];
  }

  /** One unfolding of back-substitution at k, with its parts named. */
  lemma {:induction false} BackSubUnfold(u: seq<seq<real>>, y: seq<real>, k: nat) returns (rest: seq<real>, d: real)
    requires WellFormed(System(u, y)) && k < |y|
    requires forall r :: 0 <= r < |y| ==> u[r][r] != 0.0
    ensures rest == BackSub(u, y, k + 1) && |rest| == |y| - k - 1 && d == Dot(u[k][k + 1..], rest)
    ensures BackSub(u, y, k) == [(y[k] - d) / u[k][k]] + rest
  {
    rest := BackSub(u, y, k + 1);
    d := Dot(u[k][k + 1..], rest);
  }

  lemma {:induction false} PivotDivides(p: real, xk: real, d: real, yk: real)
    requires p != 0.0 && p * xk + d == yk
    ensures xk == (yk - d) / p
  {
  }

  /** Over exact reals, with non-zero pivots, x solves the original system
      if and only if x is the vector `gaussElim` returns. */
  lemma {:induction false} GaussElimCorrect(s: System, x: seq<real>)
    requires PivotsNonZero(s) && |x| == |s.b|
    ensures Solves(s.a, x, s.b) <==> x == Solution(s)
  {
    var n := |s.b|;
    var e := Eliminated(s);
    forall k | 0 <= k < Steps(n)
      ensures Elim(s, k).a[k][k] != 0.0
    {
      PivotIsFinalDiagonal(s, k);
    }
    ElimKeepsSolutions(s, Steps(n), x);
    BackSubSolves(e.a, e.b, Steps(n));
    if Solves(Logical(e.a, Steps(n)), x, e.b) {
      BackSubUnique(e.a, e.b, Steps(n), x, 0);
      assert x[0..] == x;
    }
  }

  // ---------------------------------------------------------------------------
  // The algorithm on the arrays
  // ---------------------------------------------------------------------------

  /** The matrix `a` and the vector `b` hold the system s. */
  predicate Stores(a: array2<real>, b: array<real>, s: System)
    reads a, b
  {
    WellFormed(s) && HoldsMatrix(a, s.a) && HoldsVector(b, s.b)
  }

  /** The vector `b` holds v. */
  predicate HoldsVector(b: array<real>, v: seq<real>)
    reads b
  {
    b[..] == v
  }

  /** The matrix `a` holds the n-by-n matrix m. */
  predicate HoldsMatrix(a: array2<real>, m: seq<seq<real>>)
    reads a
  {
    a.Length0 == |m| && a.Length1 == |m| && (forall i :: 0 <= i < |m| ==> |m[i]| == a.Length1)
    && forall i, j :: 0 <= i < a.Length0 && 0 <= j < a.Length1 ==> a[i, j] == m[i][j]
  }

  /** The slice `a[k, lo:hi]`. */
  function RowSlice(a: array2<real>, k: nat, lo: nat, hi: nat): (r: seq<real>)
    requires k < a.Length0 && lo <= hi <= a.Length1
    reads a
    ensures |r| == hi - lo && forall j :: 0 <= j < hi - lo ==> r[j] == a[k, lo + j]
  {
    seq(hi - lo, j requires 0 <= j < hi - lo reads a => a[k, lo + j])
  }

  /** Step k before it reaches any row is no change at all. */
  lemma {:induction false} PartialStepNone(s: System, k: nat)
    requires WellFormed(s) && k < |s.b|
    ensures PartialStep(s, k, k + 1) == s
  {
    var t := PartialStep(s, k, k + 1);
    forall r | 0 <= r < |s.b|
      ensures t.a[r] == s.a[r]
    {
      PartialStepFrame(s, k, k + 1, r);
    }
  }

  /** Moving the inner loop on from row i changes row i and nothing else. */
  lemma {:induction false} PartialStepNext(s: System, k: nat, i: nat)
    requires WellFormed(s) && k < i < |s.b|
    ensures PartialStep(s, k, i + 1).a == PartialStep(s, k, i).a[i := ReducedRow(s, k, i)]
    ensures PartialStep(s, k, i + 1).b == PartialStep(s, k, i).b[i := ReducedRhs(s, k, i)]
  {
  }

  /** Entry j of row i after step k. */
  lemma {:induction false} ReducedRowEntry(s: System, k: nat, i: nat, j: nat)
    requires WellFormed(s) && k < |s.b| && i < |s.b| && j < |s.b|
    ensures |ReducedRow(s, k, i)| == |s.b|
    ensures ReducedRow(s, k, i)[j]
         == if j <= k || Skipped(s, k, i) then s.a[i][j] else s.a[i][j] - Multiplier(s, k, i) * s.a[k][j]
  {
  }

  /** Line 12: `a[i, k+1:n] = a[i, k+1:n] - lambda*a[k, k+1:n]`. */
  method SubtractRow(a: array2<real>, k: nat, i: nat, lambda: real)
    requires k < a.Length0 && i < a.Length0 && i != k
    modifies a
    ensures forall r, j :: 0 <= r < a.Length0 && 0 <= j < a.Length1 ==>
              a[r, j] == if r == i && k < j then old(a[r, j]) - lambda * old(a[k, j]) else old(a[r, j])
  {
    forall j | k + 1 <= j < a.Length1 {
      a[i, j] := a[i, j] - lambda * a[k, j];
    }
  }

  /** If a held m and then had row i replaced by the reduced row, it holds m
      with that row replaced. */
  lemma {:induction false} HoldsReducedRow(a: array2<real>, m: seq<seq<real>>, s: System, k: nat, i: nat)
    requires WellFormed(s) && k < i < |s.b| && !Skipped(s, k, i)
    requires |m| == |s.b| && (forall r :: 0 <= r < |m| ==> |m[r]| == |s.b|)
    requires a.Length0 == |s.b| && a.Length1 == |s.b|
    requires forall r, j :: 0 <= r < |s.b| && 0 <= j < |s.b| && r != i ==> a[r, j] == m[r][j]
    requires forall j :: 0 <= j < |s.b| ==>
               a[i, j] == if j <= k then s.a[i][j] else s.a[i][j] - Multiplier(s, k, i) * s.a[k][j]
    ensures HoldsMatrix(a, m[i := ReducedRow(s, k, i)])
  {
    forall r, j | 0 <= r < |s.b| && 0 <= j < |s.b|
      ensures a[r, j] == m[i := ReducedRow(s, k, i)][r][j]
    {
      if r == i {
        ReducedRowEntry(s, k, i, j);
      }
    }
  }

  /** Line 13: `b[i] = b[i] - lambda*b[k]`, which gives entry i of b its
      reduced value when b held p. */
  method SubtractRhs(b: array<real>, k: nat, i: nat, lambda: real, ghost s: System, ghost p: System)
    requires WellFormed(s) && k < i < |s.b| && !Skipped(s, k, i) && lambda == Multiplier(s, k, i)
    requires |p.b| == |s.b| && p.b[i] == s.b[i] && p.b[k] == s.b[k] && HoldsVector(b, p.b)
    modifies b
    ensures HoldsVector(b, p.b[i := ReducedRhs(s, k, i)])
  {
    b[i] := b[i] - lambda * b[k];
  }

  /** A row that step k skips stays as it is. */
  lemma {:induction false} SkipRow(s: System, k: nat, i: nat)
    requires WellFormed(s) && k < i < |s.b| && Skipped(s, k, i)
    ensures PartialStep(s, k, i + 1) == PartialStep(s, k, i)
  {
    PartialStepNext(s, k, i);
    PartialStepFrame(s, k, i, i);
    assert PartialStep(s, k, i).a[i := ReducedRow(s, k, i)] == PartialStep(s, k, i).a;
    assert PartialStep(s, k, i).b[i := ReducedRhs(s, k, i)] == PartialStep(s, k, i).b;
  }

  /** Lines 11-13 for a row with a non-zero entry in the pivot column: the
      arrays held p, and now hold p with row i reduced. */
  method ReduceRow(a: array2<real>, b: array<real>, k: nat, i: nat, ghost s: System, ghost p: System)
    requires WellFormed(s) && k < i < |s.b| && s.a[k][k] != 0.0 && s.a[i][k] != 0.0
    requires WellFormed(p) && |p.b| == |s.b| && HoldsMatrix(a, p.a) && HoldsVector(b, p.b)
    requires p.a[i] == s.a[i] && p.a[k] == s.a[k] && p.b[i] == s.b[i] && p.b[k] == s.b[k]
    modifies a, b
    ensures HoldsMatrix(a, p.a[i := ReducedRow(s, k, i)]) && HoldsVector(b, p.b[i := ReducedRhs(s, k, i)])
  {
    var lambda := a[i, k] / a[k, k];
    assert lambda == Multiplier(s, k, i);
    SubtractRow(a, k, i, lambda);
    HoldsReducedRow(a, p.a, s, k, i);
    SubtractRhs(b, k, i, lambda, s, p);
  }

  /** Lines 10-13: row i of step k, once rows k+1 .. i-1 are done. */
  method EliminateRow(a: array2<real>, b: array<real>, k: nat, i: nat, ghost s: System)
    requires WellFormed(s) && k < i < |s.b| && s.a[k][k] != 0.0
    requires Stores(a, b, PartialStep(s, k, i))
    modifies a, b
    ensures Stores(a, b, PartialStep(s, k, i + 1))
  {
    PartialStepFrame(s, k, i, i);
    PartialStepFrame(s, k, i, k);
    if a[i, k] != 0.0 {
      PartialStepNext(s, k, i);
      ReduceRow(a, b, k, i, s, PartialStep(s, k, i));
    } else {
      SkipRow(s, k, i);
    }
  }

  /** Lines 8-13, the elimination phase: it leaves the eliminated system. */
  method Eliminate(a: array2<real>, b: array<real>, ghost s: System)
    requires Stores(a, b, s) && PivotsNonZero(s)
    modifies a, b
    ensures Stores(a, b, Eliminated(s))
  {
    var n := b.Length;
    var k := 0;
    ghost var t := s;
    while k < n - 1
      invariant k <= Steps(n) && t == Elim(s, k) && Stores(a, b, t)
    {
      StepPivot(s, k);
      EliminateStep(a, b, k, t);
      ElimNext(s, k + 1);
      t := Step(t, k);
      k := k + 1;
    }
  }

  /** The pivot of every step the elimination phase takes is non-zero. */
  lemma {:induction false} StepPivot(s: System, k: nat)
    requires PivotsNonZero(s) && k < Steps(|s.b|)
    ensures Elim(s, k).a[k][k] != 0.0
  {
    PivotIsFinalDiagonal(s, k);
  }

  lemma {:induction false} ElimNext(s: System, m: nat)
    requires WellFormed(s) && 0 < m <= |s.b|
    ensures Elim(s, m) == Step(Elim(s, m - 1), m - 1)
  {
  }

  /** Lines 9-13, elimination step k. */
  method EliminateStep(a: array2<real>, b: array<real>, k: nat, ghost t: System)
    requires WellFormed(t) && k < |t.b| && t.a[k][k] != 0.0 && Stores(a, b, t)
    modifies a, b
    ensures Stores(a, b, Step(t, k))
  {
    var n := b.Length;
    PartialStepNone(t, k);
    for i := k + 1 to n
      invariant Stores(a, b, PartialStep(t, k, i))
    {
      EliminateRow(a, b, k, i, t);
    }
  }

  /** Lines 16-17, the back-substitution phase: it overwrites b with the
      back-substituted solution of the system a and b hold. */
  method BackSubstitute(a: array2<real>, b: array<real>, ghost e: System)
    requires Stores(a, b, e) && forall r :: 0 <= r < |e.b| ==> e.a[r][r] != 0.0
    modifies b
    ensures b[..] == BackSub(e.a, e.b, 0)
  {
    var n := b.Length;
    ghost var x := b[..];
    BackSubNone(e);
    for k := n downto 0
      invariant HoldsMatrix(a, e.a) && HoldsVector(b, x) && BackSubFrom(e, k, x)
    {
      x := BackSubEntry(a, b, k, e, x);
    }
    BackSubDone(e, x);
  }

  /** x holds b as the back-substitution loop leaves it once it has done
      the entries from k on. */
  predicate BackSubFrom(e: System, k: int, x: seq<real>) {
    WellFormed(e) && 0 <= k <= |e.b| && (forall r :: 0 <= r < |e.b| ==> e.a[r][r] != 0.0)
    && x == e.b[..k] + BackSub(e.a, e.b, k)
  }

  lemma {:induction false} BackSubNone(e: System)
    requires WellFormed(e) && forall r :: 0 <= r < |e.b| ==> e.a[r][r] != 0.0
    ensures BackSubFrom(e, |e.b|, e.b)
  {
  }

  lemma {:induction false} BackSubDone(e: System, x: seq<real>)
    requires BackSubFrom(e, 0, x)
    ensures x == BackSub(e.a, e.b, 0)
  {
    assert e.b[..0] + BackSub(e.a, e.b, 0) == BackSub(e.a, e.b, 0);
  }

  /** Line 17 for one k: `b[k] = (b[k] - np.dot(a[k, k+1:n], b[k+1:n])) / a[k, k]`. */
  method BackSubEntry(a: array2<real>, b: array<real>, k: nat, ghost e: System, ghost x: seq<real>)
    returns (ghost x': seq<real>)
    requires k < |e.b| && HoldsMatrix(a, e.a) && HoldsVector(b, x) && BackSubFrom(e, k + 1, x)
    modifies b
    ensures HoldsVector(b, x') && BackSubFrom(e, k, x')
  {
    var n := b.Length;
    BackSubStep(e, k, x);
    assert RowSlice(a, k, k + 1, n) == e.a[k][k + 1..];
    var d := Dot(RowSlice(a, k, k + 1, n), b[k + 1..]);
    b[k] := (b[k] - d) / a[k, k];
    x' := x[k := (x[k] - d) / e.a[k][k]];
  }

  /** One pass of the back-substitution loop: entry k, computed from the
      original b[k] and the finished entries after it, extends the result. */
  lemma {:induction false} BackSubStep(e: System, k: nat, x: seq<real>)
    requires WellFormed(e) && k < |e.b| && forall r :: 0 <= r < |e.b| ==> e.a[r][r] != 0.0
    requires x == e.b[..k + 1] + BackSub(e.a, e.b, k + 1)
    ensures x[k] == e.b[k] && x[k + 1..] == BackSub(e.a, e.b, k + 1)
    ensures x[k := (x[k] - Dot(e.a[k][k + 1..], x[k + 1..])) / e.a[k][k]] == e.b[..k] + BackSub(e.a, e.b, k)
  {
    assert x[k + 1..] == BackSub(e.a, e.b, k + 1);
  }

  /** `gaussElim(a, b)`, with s the system the arrays hold on entry. When no
      divisor is zero, it leaves the eliminated matrix in a and returns b,
      overwritten with the one and only solution of s. */
  method GaussElim(a: array2<real>, b: array<real>, ghost s: System) returns (x: array<real>)
    requires Stores(a, b, s) && PivotsNonZero(s)
    modifies a, b
    ensures x == b
    ensures HoldsMatrix(a, Eliminated(s).a) && x[..] == Solution(s)
    ensures Solves(s.a, x[..], s.b)
    ensures forall y :: |y| == |s.b| && Solves(s.a, y, s.b) ==> y == x[..]
  {
    Eliminate(a, b, s);
    BackSubstitute(a, b, Eliminated(s));
    x := b;
    GaussElimCorrect(s, x[..]);
    forall y | |y| == |s.b| && Solves(s.a, y, s.b)
      ensures y == x[..]
    {
      GaussElimCorrect(s, y);
    }
  }

  // ---------------------------------------------------------------------------
  // Two systems worked through
  // ---------------------------------------------------------------------------

  /** The system of the script's demonstration (lines 21-22), over reals. */
  function DemoSystem(): System {
    System([[4.0, -2.0, 1.0], [-2.0, 4.0, -2.0], [1.0, -2.0, 4.0]], [11.0, -16.0, 17.0])
  }

  /** The demonstration system after step 0. */
  lemma {:induction false} DemoStep0()
    ensures Elim(DemoSystem(), 1)
         == System([[4.0, -2.0, 1.0], [-2.0, 3.0, -1.5], [1.0, -1.5, 3.75]], [11.0, -10.5, 14.25])
  {
    var s := DemoSystem();
    assert Multiplier(s, 0, 1) == -0.5 && Multiplier(s, 0, 2) == 0.25;
    assert ReducedRow(s, 0, 1) == [-2.0, 3.0, -1.5];
    assert ReducedRow(s, 0, 2) == [1.0, -1.5, 3.75];
    assert Step(s, 0).a == [[4.0, -2.0, 1.0], [-2.0, 3.0, -1.5], [1.0, -1.5, 3.75]];
  }

  /** ... and after step 1, where elimination ends. */
  lemma {:induction false} DemoStep1()
    ensures Eliminated(DemoSystem())
         == System([[4.0, -2.0, 1.0], [-2.0, 3.0, -1.5], [1.0, -1.5, 3.0]], [11.0, -10.5, 9.0])
  {
    DemoStep0();
    var t := Elim(DemoSystem(), 1);
    assert Multiplier(t, 1, 2) == -0.5;
    assert ReducedRow(t, 1, 2) == [1.0, -1.5, 3.0];
    assert Step(t, 1).a == [[4.0, -2.0, 1.0], [-2.0, 3.0, -1.5], [1.0, -1.5, 3.0]];
  }

  /** Over exact reals, `gaussElim` solves the demonstration system with
      [1, -2, 3], and that is its only solution. */
  lemma {:induction false} DemoSolution()
    ensures PivotsNonZero(DemoSystem()) && Solution(DemoSystem()) == [1.0, -2.0, 3.0]
    ensures Solves(DemoSystem().a, [1.0, -2.0, 3.0], DemoSystem().b)
  {
    DemoStep1();
    DemoSolves();
    GaussElimCorrect(DemoSystem(), [1.0, -2.0, 3.0]);
  }

  /** [1, -2, 3] satisfies every equation of the demonstration system. */
  lemma {:induction false} DemoSolves()
    ensures Solves(DemoSystem().a, [1.0, -2.0, 3.0], DemoSystem().b)
  {
    var s := DemoSystem();
    var x := [1.0, -2.0, 3.0];
    assert Dot(s.a[0], x) == 11.0 && Dot(s.a[1], x) == -16.0 && Dot(s.a[2], x) == 17.0;
  }

  /** A single equation a00*x = b0 is solved by b0/a00 (lines 16-18). */
  lemma {:induction false} SingleEquation(a00: real, b0: real)
    requires a00 != 0.0
    ensures PivotsNonZero(System([[a00]], [b0])) && Solution(System([[a00]], [b0])) == [b0 / a00]
  {
    var s := System([[a00]], [b0]);
    assert Eliminated(s) == s;
    assert BackSub(s.a, s.b, 1) == [];
    assert Dot(s.a[0][1..], []) == 0.0;
  }

  // ---------------------------------------------------------------------------
  // Dot products
  // ---------------------------------------------------------------------------

  lemma {:induction false} DotSplit(u: seq<real>, v: seq<real>, m: nat)
    requires |u| == |v| && m <= |u|
    ensures Dot(u, v) == Dot(u[..m], v[..m]) + Dot(u[m..], v[m..])
    decreases m
  {
    if m == 0 {
      assert u[0..] == u && v[0..] == v;
    } else {
      DotSplit(u[1..], v[1..], m - 1);
      assert u[..m][1..] == u[1..][..m - 1] && v[..m][1..] == v[1..][..m - 1];
      assert u[1..][m - 1..] == u[m..] && v[1..][m - 1..] == v[m..];
    }
  }

  lemma {:induction false} DotZero(u: seq<real>, v: seq<real>)
    requires |u| == |v| && forall j :: 0 <= j < |u| ==> u[j] == 0.0
    ensures Dot(u, v) == 0.0
    decreases |u|
  {
    if |u| > 0 {
      DotZero(u[1..], v[1..]);
    }
  }

  /** Dot products are linear: (u - lambda*w)·v == u·v - lambda*(w·v). */
  lemma {:induction false} DotCombination(z: seq<real>, u: seq<real>, w: seq<real>, v: seq<real>, lambda: real)
    requires |z| == |u| == |w| == |v|
    requires forall j :: 0 <= j < |z| ==> z[j] == u[j] - lambda * w[j]
    ensures Dot(z, v) == Dot(u, v) - lambda * Dot(w, v)
    decreases |z|
  {
    if |z| > 0 {
      DotCombination(z[1..], u[1..], w[1..], v[1..], lambda);
      Combine(z[0], u[0], w[0], v[0], Dot(z[1..], v[1..]), Dot(u[1..], v[1..]), Dot(w[1..], v[1..]), lambda);
    }
  }

  lemma {:induction false} Combine(z0: real, u0: real, w0: real, v0: real, dz: real, du: real, dw: real, lambda: real)
    requires z0 == u0 - lambda * w0 && dz == du - lambda * dw
    ensures z0 * v0 + dz == (u0 * v0 + du) - lambda * (w0 * v0 + dw)
  {
  }
}
