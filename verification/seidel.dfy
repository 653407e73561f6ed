/** Seidel's method: `alpha` is split into its strictly lower part `B` and
    strictly upper part `C`; the Gaussian process inverts `I - B`, and the
    loop runs from `beta` with the round `x * ((I - B)^-1 C) + beta * (I - B)^-1`. */
module Seidel {
  import opened RealMatrix
  import opened Opt
  import opened Elimination
  import opened GaussTheory
  import opened IterativeSetup
  import opened Iteration

  /** `lowerTriangular`: every entry on or right of the diagonal zeroed. */
  function StrictLower(m: Mat): (l: Mat)
    requires IsSquare(m)
    ensures IsMat(l, |m|, |m|)
    ensures forall i, j :: 0 <= i < |m| && 0 <= j < |m| ==> l[i][j] == (if j < i then m[i][j] else 0.0)
  {
    seq(|m|, i requires 0 <= i < |m| => seq(|m|, j requires 0 <= j < |m| => if j < i then m[i][j] else 0.0))
  }

  /** `upperTriangular`: every entry on or left of the diagonal zeroed. */
  function StrictUpper(m: Mat): (u: Mat)
    requires IsSquare(m)
    ensures IsMat(u, |m|, |m|)
    ensures forall i, j :: 0 <= i < |m| && 0 <= j < |m| ==> u[i][j] == (if j > i then m[i][j] else 0.0)
  {
    seq(|m|, i requires 0 <= i < |m| => seq(|m|, j requires 0 <= j < |m| => if j > i then m[i][j] else 0.0))
  }

  /** A matrix with a zero diagonal is the sum of its two strict parts. */
  lemma SplitSums(m: Mat)
    requires IsSquare(m) && forall i :: 0 <= i < |m| ==> m[i][i] == 0.0
    ensures MAdd(StrictLower(m), StrictUpper(m)) == m
  {
    var s := MAdd(StrictLower(m), StrictUpper(m));
    forall i | 0 <= i < |m|
      ensures s[i] == m[i]
    {
      assert forall j :: 0 <= j < |m| ==> s[i][j] == m[i][j];
    }
  }

  /** Ones on the diagonal and zeros above it, as `I - B` has. */
  predicate UnitLower(m: Mat)
    requires IsSquare(m)
  {
    forall i, j :: 0 <= i < |m| && i <= j < |m| ==> m[i][j] == (if i == j then 1.0 else 0.0)
  }

  /** `I - B` with `B` the strictly lower part of a square matrix. */
  lemma IdentityMinusLower(m: Mat)
    requires IsSquare(m)
    ensures UnitLower(MSub(Identity(|m|), StrictLower(m)))
  {
  }

  /** A unit lower triangular matrix sends only the zero vector to zero:
      row `i` of `m x` is `x[i]` plus multiples of the earlier entries, so
      the entries vanish one after another. */
  lemma {:induction false} UnitLowerKernel(m: Mat, x: Vec, k: nat)
    requires IsSquare(m) && UnitLower(m) && |x| == |m| && k <= |m|
    requires MatVec(m, x) == ZeroVec(|m|)
    ensures forall i :: 0 <= i < k ==> x[i] == 0.0
    decreases k
  {
    if k > 0 {
      var i := k - 1;
      UnitLowerKernel(m, x, i);
      DotOnly(m[i], x, i);
      assert Dot(m[i], x) == MatVec(m, x)[i] == 0.0;
    }
  }

  lemma UnitLowerNonsingular(m: Mat)
    requires IsSquare(m) && UnitLower(m)
    ensures !Singular(m)
  {
    forall x | |x| == |m| && MatVec(m, x) == ZeroVec(|m|)
      ensures x == ZeroVec(|m|)
    {
      UnitLowerKernel(m, x, |m|);
    }
  }

  /** `IB.diagonalNormalization(IB.GaussianProcess(I.array))`: the process
      runs on `I - B` with the identity as companion, and the normalized
      companion is assigned back, so `IB` ends up holding `(I - B)^-1`.
      The program divides by the pivots without checking them; they are
      nonzero because `I - B` is unit lower triangular. */
  function InverseOfIMinusB(al: Mat): (r: Mat)
    requires IsSquare(al)
    ensures IsMat(r, |al|, |al|)
    ensures var ib := MSub(Identity(|al|), StrictLower(al));
      Mul(r, ib) == Identity(|al|) && Mul(ib, r) == Identity(|al|)
  {
    var n := |al|;
    var ib := MSub(Identity(n), StrictLower(al));
    IdentityMinusLower(al);
    UnitLowerNonsingular(ib);
    ZeroPivotIffSingular(ib, Identity(n));
    GaussInverse(ib);
    Normalize(GaussianProcess(ib, Identity(n))).comp
  }

  /** `Matrix * Matrix`: the product when the sizes agree, otherwise the
      error path's empty matrix. */
  function MatrixTimes(x: Mat, y: Mat): (p: Mat)
    requires IsSquare(x) && IsSquare(y)
    ensures |x| == |y| ==> (IsMat(p, |x|, |x|) &&
      forall i, j :: 0 <= i < |x| && 0 <= j < |x| ==> p[i][j] == Dot(x[i], Column(y, j)))
    ensures |x| != |y| ==> p == []
  {
    if |x| == |y| then Mul(x, y) else []
  }

  /** The matrix and vector of Seidel's round: `IBC = IB * C` and
      `VectorBETA * IB`. */
  function RoundParts(al: Mat, be: Vec): (p: (Mat, Vec))
    requires IsMat(al, |be|, |be|)
    ensures IsMat(p.0, |be|, |be|) && |p.1| == |be|
    ensures var r := InverseOfIMinusB(al);
      p.0 == Mul(r, StrictUpper(al)) && p.1 == MatVec(r, be)
  {
    var r := InverseOfIMinusB(al);
    (MatrixTimes(r, StrictUpper(al)), Times(be, r))
  }

  /** `SeidelMethod` with at most `rounds` approximations after `beta`. */
  function SeidelMethod(a: Mat, b: Vec, e: real, rounds: nat): (o: Outcome)
    requires IsSquare(a) && |b| == |a|
    ensures o.NotApplicable? <==> !Applicable(a)
    ensures o.Converged? ==> (
      Setup(a, b).Some? &&
      var (al, be) := Setup(a, b).value;
      var (m, c) := RoundParts(al, be);
      1 <= o.round <= rounds && o.x == Iterate(m, c, be, o.round) &&
      Settles(m, c, be, e, o.round) &&
      forall j :: 1 <= j < o.round ==> !Settles(m, c, be, e, j))
    ensures o.Unfinished? ==> (
      Setup(a, b).Some? &&
      var (al, be) := Setup(a, b).value;
      var (m, c) := RoundParts(al, be);
      forall j :: 1 <= j <= rounds ==> !Settles(m, c, be, e, j))
  {
    match Setup(a, b)
    case None => NotApplicable
    case Some((al, be)) =>
      var (m, c) := RoundParts(al, be);
      Loop(m, c, be, e, rounds)
  }

  // ----------------------------------------------------------------------
  // The fixed points of Seidel's round

  /** Seidel's round is `r` applied to `C x + beta`. */
  lemma RoundForm(r: Mat, c: Mat, be: Vec, x: Vec)
    requires IsMat(r, |x|, |x|) && IsMat(c, |x|, |x|) && |be| == |x|
    ensures Step(Mul(r, c), MatVec(r, be), x) == MatVec(r, VAdd(MatVec(c, x), be))
  {
    MulMatVecAssoc(r, c, x);
    MatVecAdd(r, MatVec(c, x), be);
  }

  /** Moving `B x` across: `x - B x == C x + beta` exactly when
      `x == (B x + C x) + beta`. */
  lemma Rearrange(x: Vec, bx: Vec, cx: Vec, be: Vec)
    requires |bx| == |cx| == |be| == |x|
    ensures VSub(x, bx) == VAdd(cx, be) <==> VAdd(VAdd(bx, cx), be) == x
  {
    if VSub(x, bx) == VAdd(cx, be) {
      assert forall i :: 0 <= i < |x| ==> VAdd(VAdd(bx, cx), be)[i] == x[i] by {
        forall i | 0 <= i < |x| ensures VAdd(VAdd(bx, cx), be)[i] == x[i] {
          assert VSub(x, bx)[i] == VAdd(cx, be)[i];
        }
      }
    }
    if VAdd(VAdd(bx, cx), be) == x {
      assert forall i :: 0 <= i < |x| ==> VSub(x, bx)[i] == VAdd(cx, be)[i] by {
        forall i | 0 <= i < |x| ensures VSub(x, bx)[i] == VAdd(cx, be)[i] {
          assert VAdd(VAdd(bx, cx), be)[i] == x[i];
        }
      }
    }
  }

  /** `(I - B) x == C x + beta` exactly when `x == alpha x + beta`, for an
      `alpha` with a zero diagonal. */
  lemma SplitFixedPoint(al: Mat, be: Vec, x: Vec)
    requires IsMat(al, |x|, |x|) && |be| == |x|
    requires forall i :: 0 <= i < |x| ==> al[i][i] == 0.0
    ensures MatVec(MSub(Identity(|x|), StrictLower(al)), x) == VAdd(MatVec(StrictUpper(al), x), be)
      <==> VAdd(MatVec(al, x), be) == x
  {
    var bm, cm := StrictLower(al), StrictUpper(al);
    MSubMatVec(Identity(|x|), bm, x);
    IdentityMatVec(x);
    SplitSums(al);
    MAddMatVec(bm, cm, x);
    Rearrange(x, MatVec(bm, x), MatVec(cm, x), be);
  }

  /** A vector is left unchanged by Seidel's round exactly when it is left
      unchanged by Jacobi's round on the same `alpha` and `beta`. */
  lemma SameFixedPoints(al: Mat, be: Vec, x: Vec)
    requires IsMat(al, |x|, |x|) && |be| == |x|
    requires forall i :: 0 <= i < |x| ==> al[i][i] == 0.0
    ensures var (m, c) := RoundParts(al, be);
      Step(m, c, x) == x <==> Step(al, be, x) == x
  {
    var r := InverseOfIMinusB(al);
    var cm := StrictUpper(al);
    RoundForm(r, cm, be, x);
    InverseApply(MSub(Identity(|x|), StrictLower(al)), r, x, VAdd(MatVec(cm, x), be));
    SplitFixedPoint(al, be, x);
    assert Step(al, be, x) == VAdd(MatVec(al, x), be);
  }

  /** A vector is left unchanged by Seidel's round exactly when it solves
      the system. */
  lemma FixedPointIsSolution(a: Mat, b: Vec, al: Mat, be: Vec, x: Vec)
    requires IsSquare(a) && |b| == |a| && Setup(a, b) == Some((al, be)) && |x| == |a|
    ensures var (m, c) := RoundParts(al, be);
      Step(m, c, x) == x <==> MatVec(a, x) == b
  {
    SameFixedPoints(al, be, x);
    FixedPointIffSolution(a, b, x);
  }
}
