/** The linear system program: reject a singular matrix, run the Gaussian
    process with the right-hand side as a one-column companion, and divide
    by the diagonal, skipping entries that are already zero. */
module LinearSolver {
  import opened RealMatrix
  import opened Opt
  import opened Elimination
  import opened GaussTheory

  /** One entry of the solver's `diagonalNormalization`: divided by `d`
      unless it is zero. Skipping a zero changes nothing, since `0 / d` is
      zero. */
  function DivideUnlessZero(x: real, d: real): (y: real)
    requires d != 0.0
    ensures y == x / d
  {
    if x != 0.0 then x / d else x
  }

  /** `diagonalNormalization` of the solver, on the matrix and the vector. */
  function NormalizeSkipping(work: Mat, v: Vec): (r: (Mat, Vec))
    requires IsSquare(work) && |v| == |work| && NonzeroDiagonal(work)
    ensures IsMat(r.0, |work|, |work|) && |r.1| == |v|
    ensures forall i :: 0 <= i < |work| ==>
      r.0[i] == VDiv(work[i], work[i][i]) && r.1[i] == v[i] / work[i][i]
  {
    var n := |work|;
    (seq(n, i requires 0 <= i < n => seq(n, j requires 0 <= j < n => DivideUnlessZero(work[i][j], work[i][i]))),
     seq(n, i requires 0 <= i < n => DivideUnlessZero(v[i], work[i][i])))
  }

  /** On a run whose companion is one column, the skipping normalization
      does what the general one does. */
  lemma NormalizeSkippingAgrees(run: Run)
    requires Tracks(run) && NonzeroDiagonal(run.work) && IsMat(run.comp, |run.work|, 1)
    ensures var s := NormalizeSkipping(run.work, Column(run.comp, 0));
      s.0 == Normalize(run).work && ToColumn(s.1) == Normalize(run).comp
  {
    var s := NormalizeSkipping(run.work, Column(run.comp, 0));
    var r := Normalize(run);
    forall i | 0 <= i < |run.work|
      ensures ToColumn(s.1)[i] == r.comp[i]
    {
      assert r.comp[i] == VDiv(run.comp[i], run.work[i][i]);
    }
  }

  /** The vector left by the process and the normalization solves the
      system, and no other vector does. */
  lemma SolveCorrect(a: Mat, b: Vec)
    requires IsSquare(a) && |b| == |a|
    requires NonzeroDiagonal(Forward(a, ToColumn(b)).work)
    ensures var g := GaussianProcess(a, ToColumn(b));
      var x := NormalizeSkipping(g.work, Column(g.comp, 0)).1;
      |x| == |a| && MatVec(a, x) == b &&
      forall y :: |y| == |a| && MatVec(a, y) == b ==> y == x
  {
    var n := |a|;
    var c := ToColumn(b);
    if n > 0 {
      assert Width(c) == 1;
    }
    var g := GaussianProcess(a, c);
    var x := NormalizeSkipping(g.work, Column(g.comp, 0)).1;
    GaussSolves(a, c);
    NormalizeSkippingAgrees(g);
    MulColumn(a, x);
    ToColumnInjective(MatVec(a, x), b);
    forall y | |y| == n && MatVec(a, y) == b
      ensures y == x
    {
      MulColumn(a, y);
      if n > 0 {
        assert Width(ToColumn(y)) == 1;
      }
      ToColumnInjective(y, x);
    }
  }

  /** `main`: `None` stands for the "matrix A is singular" exit; otherwise
      the result is the unique solution of `a x = b`. */
  function Solve(a: Mat, b: Vec): (r: Option<Vec>)
    requires IsSquare(a) && |b| == |a|
    ensures r.None? <==> Singular(a)
    ensures r.Some? ==> |r.value| == |a| && MatVec(a, r.value) == b
    ensures r.Some? ==> forall y :: |y| == |a| && MatVec(a, y) == b ==> y == r.value
  {
    var n := |a|;
    var copy := Forward(a, NoCompanion(n));
    SingularCheck(a);
    DiagonalProductZero(copy.work, n);
    if DiagonalProduct(copy.work, n) == 0.0 then None
    else
      ForwardIgnoresCompanion(a, NoCompanion(n), ToColumn(b));
      SolveCorrect(a, b);
      var g := GaussianProcess(a, ToColumn(b));
      Some(NormalizeSkipping(g.work, Column(g.comp, 0)).1)
  }
}
