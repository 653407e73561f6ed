/** Jacobi's method: after the set-up, the loop runs from `beta` with the
    round `x * alpha + beta`. */
module Jacobi {
  import opened RealMatrix
  import opened Opt
  import opened GaussTheory
  import opened IterativeSetup
  import opened Iteration
  import LinearSolver

  /** `JacobiMethod` with at most `rounds` approximations after `beta`. */
  function JacobiMethod(a: Mat, b: Vec, e: real, rounds: nat): (o: Outcome)
    requires IsSquare(a) && |b| == |a|
    ensures o.NotApplicable? <==> !Applicable(a)
    ensures o.Converged? ==> (
      Setup(a, b).Some? &&
      var (al, be) := Setup(a, b).value;
      1 <= o.round <= rounds && o.x == Iterate(al, be, be, o.round) &&
      Settles(al, be, be, e, o.round) &&
      forall j :: 1 <= j < o.round ==> !Settles(al, be, be, e, j))
    ensures o.Unfinished? ==> (
      Setup(a, b).Some? &&
      var (al, be) := Setup(a, b).value;
      forall j :: 1 <= j <= rounds ==> !Settles(al, be, be, e, j))
  {
    match Setup(a, b)
    case None => NotApplicable
    case Some((al, be)) => Loop(al, be, be, e, rounds)
  }

  /** A vector is left unchanged by a round exactly when it solves the
      system. */
  lemma FixedPointIsSolution(a: Mat, b: Vec, al: Mat, be: Vec, x: Vec)
    requires IsSquare(a) && |b| == |a| && Setup(a, b) == Some((al, be)) && |x| == |a|
    ensures Step(al, be, x) == x <==> MatVec(a, x) == b
  {
    FixedPointIffSolution(a, b, x);
  }

  /** The system of a matrix that passes the test has exactly one solution,
      and so the rounds have exactly one fixed point. */
  lemma UniqueFixedPoint(a: Mat, b: Vec, al: Mat, be: Vec)
    requires IsSquare(a) && |b| == |a| && Setup(a, b) == Some((al, be))
    ensures LinearSolver.Solve(a, b).Some?
    ensures var xs := LinearSolver.Solve(a, b).value;
      Step(al, be, xs) == xs &&
      forall x :: |x| == |a| && Step(al, be, x) == x ==> x == xs
  {
    DominantIsNonsingular(a);
    var xs := LinearSolver.Solve(a, b).value;
    FixedPointIsSolution(a, b, al, be, xs);
    forall x | |x| == |a| && Step(al, be, x) == x
      ensures x == xs
    {
      FixedPointIsSolution(a, b, al, be, x);
    }
  }

  /** For the solution `xs` of the system, the error of approximation
      `k + 1` is `alpha` times the error of approximation `k`. */
  lemma ErrorPropagation(a: Mat, b: Vec, al: Mat, be: Vec, xs: Vec, k: nat)
    requires IsSquare(a) && |b| == |a| && Setup(a, b) == Some((al, be))
    requires |xs| == |a| && MatVec(a, xs) == b
    ensures VSub(Iterate(al, be, be, k + 1), xs) == MatVec(al, VSub(Iterate(al, be, be, k), xs))
  {
    FixedPointIsSolution(a, b, al, be, xs);
    StepError(al, be, Iterate(al, be, be, k), xs);
  }

  /** Once an approximation solves the system, the loop stops at the next
      round with that same vector, for any nonnegative accuracy. */
  lemma StopsAtSolution(a: Mat, b: Vec, al: Mat, be: Vec, e: real, k: nat)
    requires IsSquare(a) && |b| == |a| && Setup(a, b) == Some((al, be)) && e >= 0.0
    requires MatVec(a, Iterate(al, be, be, k)) == b
    ensures Iterate(al, be, be, k + 1) == Iterate(al, be, be, k)
    ensures Settles(al, be, be, e, k + 1)
  {
    FixedPointIsSolution(a, b, al, be, Iterate(al, be, be, k));
    StopsAtFixedPoint(al, be, be, e, k);
  }
}
