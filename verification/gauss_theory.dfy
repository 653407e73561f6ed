/** What a finished run of the Gaussian process means for its input. The
    facts rest on two properties of row operations: they commute with
    multiplication on the right, and they can be undone. */
module GaussTheory {
  import opened RealMatrix
  import opened RowOps
  import opened Elimination

  /** A product relation between the starting matrices holds exactly when
      the same relation holds between the current ones: `work * x == comp`
      if and only if `origin * x == originComp`. For a vector companion this
      says the reduced system has the same solutions as `A x = b`. */
  lemma ProductInvariant(run: Run, x: Mat)
    requires Tracks(run) && Rect(x) && |x| == |run.work| && Width(x) == Width(run.originComp)
    ensures Mul(run.work, x) == run.comp <==> Mul(run.origin, x) == run.originComp
  {
    TraceCommutes(run.trace, run.origin, x);
    if Mul(run.work, x) == run.comp {
      TraceInjective(run.trace, run.originComp, Mul(run.origin, x));
    }
  }

  /** Starting from an identity companion, the companion is at every point
      the product of all row operations so far: `work == comp * origin`. */
  lemma CompanionTimesOrigin(run: Run)
    requires Tracks(run) && run.originComp == Identity(|run.work|)
    ensures run.work == Mul(run.comp, run.origin)
  {
    var e := Identity(|run.work|);
    TraceCommutes(run.trace, e, run.origin);
    IdentityTimes(run.origin);
  }

  // ----------------------------------------------------------------------
  // The working matrix does not depend on the companion

  /** Two runs whose working matrices and counters coincide. */
  predicate Agree(r1: Run, r2: Run) {
    r1.work == r2.work && r1.swaps == r2.swaps && r1.steps == r2.steps
  }

  lemma {:induction false} EliminateBelowAgree(r1: Run, r2: Run, c: nat, i: nat)
    requires Shaped(r1) && Shaped(r2) && Agree(r1, r2) && c < i <= |r1.work|
    requires Dominated(r1.work, c, i)
    ensures Agree(EliminateBelow(r1, c, i), EliminateBelow(r2, c, i))
    decreases |r1.work| - i
  {
    if i < |r1.work| {
      ClearEntryAgree(r1, r2, c, i);
      EliminateBelowAgree(ClearEntry(r1, c, i), ClearEntry(r2, c, i), c, i + 1);
    }
  }

  /** Clearing one entry depends only on the working matrix and counters,
      and keeps the rest of the column dominated by the pivot. */
  lemma ClearEntryAgree(r1: Run, r2: Run, c: nat, i: nat)
    requires Shaped(r1) && Shaped(r2) && Agree(r1, r2) && c < i < |r1.work|
    requires Dominated(r1.work, c, i)
    ensures Agree(ClearEntry(r1, c, i), ClearEntry(r2, c, i))
    ensures Dominated(ClearEntry(r1, c, i).work, c, i + 1)
  {
  }

  lemma {:induction false} ForwardFromAgree(r1: Run, r2: Run, c: nat)
    requires Shaped(r1) && Shaped(r2) && Agree(r1, r2) && c <= |r1.work|
    requires ClearedBelow(r1.work, c)
    ensures Agree(ForwardFrom(r1, c), ForwardFrom(r2, c))
    decreases |r1.work| - c
  {
    if c < |r1.work| {
      var p1, p2 := PivotStep(r1, c), PivotStep(r2, c);
      PivotStepAgree(r1, r2, c);
      EliminateBelowAgree(p1, p2, c, c + 1);
      ColumnStepClears(r1, c);
      ForwardFromAgree(EliminateBelow(p1, c, c + 1), EliminateBelow(p2, c, c + 1), c + 1);
    }
  }

  /** The pivot step depends only on the working matrix and counters. */
  lemma PivotStepAgree(r1: Run, r2: Run, c: nat)
    requires Shaped(r1) && Shaped(r2) && Agree(r1, r2) && c < |r1.work|
    ensures Agree(PivotStep(r1, c), PivotStep(r2, c))
  {
  }

  /** The triangular form, the swap count and the step count are the same
      whatever companion rides along; in particular a copy reduced without
      a companion (`upperTriangular`) ends exactly where the working matrix
      of `GaussianProcess` ends its forward pass. */
  lemma ForwardIgnoresCompanion(a: Mat, c1: Mat, c2: Mat)
    requires IsSquare(a) && Rect(c1) && |c1| == |a| && Rect(c2) && |c2| == |a|
    ensures Forward(a, c1).work == Forward(a, c2).work
    ensures Forward(a, c1).swaps == Forward(a, c2).swaps
    ensures Forward(a, c1).steps == Forward(a, c2).steps
  {
    ForwardFromAgree(Start(a, c1), Start(a, c2), 0);
  }

  // ----------------------------------------------------------------------
  // A zero pivot means a nontrivial kernel

  function UnitVec(n: nat, p: nat): (e: Vec)
    ensures |e| == n && forall j :: 0 <= j < n ==> e[j] == (if j == p then 1.0 else 0.0)
  {
    seq(n, j => if j == p then 1.0 else 0.0)
  }

  /** Back substitution for `u x = 0` on an upper triangular `u` whose first
      zero diagonal entry is at `p`: `x[p] = 1`, entries after `p` are zero,
      and entries `i..p-1` are solved from the bottom up. */
  function KernelFrom(u: Mat, p: nat, i: nat): (x: Vec)
    requires IsSquare(u) && UpperTriangular(u) && i <= p < |u|
    requires u[p][p] == 0.0 && forall k :: 0 <= k < p ==> u[k][k] != 0.0
    ensures |x| == |u| && x[p] == 1.0
    ensures forall k :: 0 <= k < i ==> x[k] == 0.0
    decreases p - i
  {
    if i == p then UnitVec(|u|, p)
    else
      var y := KernelFrom(u, p, i + 1);
      y[i := -Dot(u[i], y) / u[i][i]]
  }

  /** Solving row `i` for entry `i` (still zero) zeroes that row's product
      and leaves the rows below, which are zero in column `i`, alone. */
  lemma BackStep(u: Mat, y: Vec, i: nat, r: nat)
    requires IsSquare(u) && UpperTriangular(u) && |y| == |u| && i <= r < |u|
    requires u[i][i] != 0.0 && y[i] == 0.0
    ensures Dot(u[r], y[i := -Dot(u[i], y) / u[i][i]]) == (if r == i then 0.0 else Dot(u[r], y))
  {
    var t := -Dot(u[i], y) / u[i][i];
    DotUpdate(u[r], y, i, t);
    if r == i {
      assert u[i][i] * t == -Dot(u[i], y);
    } else {
      assert u[r][i] == 0.0;
    }
  }

  /** The back substitution solves every row from `i` down. */
  lemma {:induction false} KernelFromSolves(u: Mat, p: nat, i: nat)
    requires IsSquare(u) && UpperTriangular(u) && i <= p < |u|
    requires u[p][p] == 0.0 && forall k :: 0 <= k < p ==> u[k][k] != 0.0
    ensures forall r :: i <= r < |u| ==> Dot(u[r], KernelFrom(u, p, i)) == 0.0
    decreases p - i
  {
    var x := KernelFrom(u, p, i);
    if i == p {
      forall r | p <= r < |u|
        ensures Dot(u[r], x) == 0.0
      {
        DotUnit(u[r], x, p);
      }
    } else {
      var y := KernelFrom(u, p, i + 1);
      KernelFromSolves(u, p, i + 1);
      assert x == y[i := -Dot(u[i], y) / u[i][i]];
      forall r | i <= r < |u|
        ensures Dot(u[r], x) == 0.0
      {
        BackStep(u, y, i, r);
      }
    }
  }

  /** The first zero on the diagonal, at or after `k`. */
  function FirstZero(u: Mat, k: nat): (p: nat)
    requires IsSquare(u) && k <= |u|
    requires exists q :: k <= q < |u| && u[q][q] == 0.0
    ensures k <= p < |u| && u[p][p] == 0.0
    ensures forall q :: k <= q < p ==> u[q][q] != 0.0
    decreases |u| - k
  {
    if u[k][k] == 0.0 then k else FirstZero(u, k + 1)
  }

  /** An upper triangular matrix with a zero on its diagonal sends some
      nonzero vector to zero. */
  lemma TriangularKernel(u: Mat) returns (x: Vec)
    requires IsSquare(u) && UpperTriangular(u) && !NonzeroDiagonal(u)
    ensures |x| == |u| && x != ZeroVec(|u|) && MatVec(u, x) == ZeroVec(|u|)
  {
    var p := FirstZero(u, 0);
    x := KernelFrom(u, p, 0);
    KernelFromSolves(u, p, 0);
    assert x[p] != ZeroVec(|u|)[p];
    assert forall r :: 0 <= r < |u| ==> MatVec(u, x)[r] == ZeroVec(|u|)[r];
  }

  lemma ZeroColumn(n: nat)
    ensures ToColumn(ZeroVec(n)) == ZeroMat(n, 1)
  {
    assert forall i :: 0 <= i < n ==> ToColumn(ZeroVec(n))[i] == ZeroMat(n, 1)[i];
  }

  /** If the forward pass leaves a zero on the diagonal, the input matrix
      itself sends some nonzero vector to zero, i.e. it is singular. */
  lemma ZeroPivotMeansSingular(a: Mat, comp: Mat) returns (x: Vec)
    requires IsSquare(a) && Rect(comp) && |comp| == |a|
    requires !NonzeroDiagonal(Forward(a, comp).work)
    ensures |x| == |a| && x != ZeroVec(|a|) && MatVec(a, x) == ZeroVec(|a|)
  {
    var run := Forward(a, comp);
    var n := |a|;
    x := TriangularKernel(run.work);
    var col := ToColumn(x);
    var z := ZeroMat(n, 1);
    MulColumn(run.work, x);
    ZeroColumn(n);
    TraceCommutes(run.trace, a, col);
    TraceKeepsZero(run.trace, n, 1);
    assert ApplyAll(run.trace, Mul(a, col)) == ApplyAll(run.trace, z);
    TraceInjective(run.trace, z, Mul(a, col));
    MulColumn(a, x);
    ToColumnInjective(MatVec(a, x), ZeroVec(n));
  }

  // ----------------------------------------------------------------------
  // Inverse and unique solution

  /** With a nonzero diagonal after the forward pass, the full process from
      an identity companion followed by normalization leaves the identity in
      the working matrix and a two-sided inverse in the companion. */
  lemma GaussInverse(a: Mat)
    requires IsSquare(a) && NonzeroDiagonal(Forward(a, Identity(|a|)).work)
    ensures var r := Normalize(GaussianProcess(a, Identity(|a|)));
      r.work == Identity(|a|) &&
      Mul(r.comp, a) == Identity(|a|) && Mul(a, r.comp) == Identity(|a|)
  {
    var n := |a|;
    var e := Identity(n);
    var r := Normalize(GaussianProcess(a, e));
    CompanionTimesOrigin(r);
    if n > 0 {
      assert Width(e) == n;
    }
    ProductInvariant(r, r.comp);
    IdentityTimes(r.comp);
  }

  /** A matrix with a left inverse sends only the zero vector to zero. */
  lemma LeftInverseKernel(a: Mat, r: Mat, x: Vec)
    requires IsSquare(a) && IsSquare(r) && |r| == |a| && |x| == |a|
    requires Mul(r, a) == Identity(|a|) && MatVec(a, x) == ZeroVec(|a|)
    ensures x == ZeroVec(|a|)
  {
    MulMatVecAssoc(r, a, x);
    IdentityMatVec(x);
    DotZeroRows(r, ZeroVec(|a|));
  }

  lemma DotZeroRows(r: Mat, z: Vec)
    requires IsMat(r, |r|, |z|) && forall j :: 0 <= j < |z| ==> z[j] == 0.0
    ensures MatVec(r, z) == ZeroVec(|r|)
  {
    forall i | 0 <= i < |r|
      ensures MatVec(r, z)[i] == 0.0
    {
      DotCommutes(r[i], z);
      DotZeroLeft(z, r[i]);
    }
  }

  /** Some nonzero vector is sent to zero. */
  ghost predicate Singular(a: Mat)
    requires IsSquare(a)
  {
    exists x :: |x| == |a| && x != ZeroVec(|a|) && MatVec(a, x) == ZeroVec(|a|)
  }

  /** The forward pass leaves a zero on the diagonal exactly when the input
      is singular. */
  lemma ZeroPivotIffSingular(a: Mat, comp: Mat)
    requires IsSquare(a) && Rect(comp) && |comp| == |a|
    ensures !NonzeroDiagonal(Forward(a, comp).work) <==> Singular(a)
  {
    if !NonzeroDiagonal(Forward(a, comp).work) {
      var x := ZeroPivotMeansSingular(a, comp);
    } else {
      var e := Identity(|a|);
      if |a| > 0 {
        assert Width(e) == |a|;
      }
      ForwardIgnoresCompanion(a, comp, e);
      GaussInverse(a);
      var r := Normalize(GaussianProcess(a, e)).comp;
      forall x | |x| == |a| && MatVec(a, x) == ZeroVec(|a|)
        ensures x == ZeroVec(|a|)
      {
        LeftInverseKernel(a, r, x);
      }
    }
  }

  // ----------------------------------------------------------------------
  // The singular check of the programs

  /** The companion of a program that reduces `array` alone: no columns. */
  function NoCompanion(n: nat): (c: Mat)
    ensures IsMat(c, n, 0) && Rect(c)
  {
    seq(n, i => [])
  }

  /** `det *= array[i][i]` over the first `k` rows. */
  function DiagonalProduct(a: Mat, k: nat): real
    requires IsSquare(a) && k <= |a|
  {
    if k == 0 then 1.0 else DiagonalProduct(a, k - 1) * a[k - 1][k - 1]
  }

  /** A product of reals is zero exactly when one of its factors is. */
  lemma {:induction false} DiagonalProductZero(a: Mat, k: nat)
    requires IsSquare(a) && k <= |a|
    ensures DiagonalProduct(a, k) == 0.0 <==> exists i :: 0 <= i < k && a[i][i] == 0.0
  {
    if k > 0 {
      DiagonalProductZero(a, k - 1);
    }
  }

  /** `findDeterminant` on the triangularized copy: the product of its
      diagonal is zero exactly when the input is singular. */
  lemma SingularCheck(a: Mat)
    requires IsSquare(a)
    ensures DiagonalProduct(Forward(a, NoCompanion(|a|)).work, |a|) == 0.0 <==> Singular(a)
  {
    ZeroPivotIffSingular(a, NoCompanion(|a|));
    DiagonalProductZero(Forward(a, NoCompanion(|a|)).work, |a|);
  }

  /** With a nonzero diagonal after the forward pass, the process followed
      by normalization turns the working matrix into the identity and
      leaves in the companion the one and only `x` with `a * x == comp`. */
  lemma GaussSolves(a: Mat, comp: Mat)
    requires IsSquare(a) && Rect(comp) && |comp| == |a|
    requires NonzeroDiagonal(Forward(a, comp).work)
    ensures var r := Normalize(GaussianProcess(a, comp));
      r.work == Identity(|a|) &&
      IsMat(r.comp, |a|, Width(comp)) && Mul(a, r.comp) == comp &&
      forall x :: Rect(x) && |x| == |a| && Width(x) == Width(comp) && Mul(a, x) == comp ==> x == r.comp
  {
    var r := Normalize(GaussianProcess(a, comp));
    ProductInvariant(r, r.comp);
    IdentityTimes(r.comp);
    forall x | Rect(x) && |x| == |a| && Width(x) == Width(comp) && Mul(a, x) == comp
      ensures x == r.comp
    {
      ProductInvariant(r, x);
      IdentityTimes(x);
    }
  }
}
