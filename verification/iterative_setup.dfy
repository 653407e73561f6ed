/** The preparation shared by the Jacobi and Seidel programs: the
    applicability test (strict diagonal dominance by rows), the matrix
    `alpha` and vector `beta` of the rewritten system `x = alpha x + beta`,
    and the column-vector operations the iterations use. */
module IterativeSetup {
  import opened RealMatrix
  import opened Opt
  import opened Elimination
  import opened GaussTheory

  // ----------------------------------------------------------------------
  // Applicability

  /** `sum += abs(a[i][j])` for the columns `j < k` other than `i`. */
  function OffDiagonalSum(row: Vec, i: nat, k: nat): (s: real)
    requires k <= |row|
    ensures s >= 0.0
  {
    if k == 0 then 0.0
    else OffDiagonalSum(row, i, k - 1) + (if k - 1 != i then Abs(row[k - 1]) else 0.0)
  }

  /** Each off-diagonal magnitude among the first `k` columns is at most
      the sum. */
  lemma {:induction false} OffDiagonalEntryBound(row: Vec, i: nat, k: nat, j: nat)
    requires k <= |row| && j < k && j != i
    ensures Abs(row[j]) <= OffDiagonalSum(row, i, k)
  {
    if j < k - 1 {
      OffDiagonalEntryBound(row, i, k - 1, j);
    }
  }

  /** The diagonal entry does not enter the sum. */
  lemma {:induction false} OffDiagonalIgnoresDiagonal(row: Vec, i: nat, k: nat, x: real)
    requires k <= |row| && i < |row|
    ensures OffDiagonalSum(row[i := x], i, k) == OffDiagonalSum(row, i, k)
  {
    if k > 0 {
      OffDiagonalIgnoresDiagonal(row, i, k - 1, x);
    }
  }

  /** Row `i` passes when its off-diagonal sum is below `|a[i][i]|`; a
      passing row has a nonzero diagonal entry. */
  predicate RowPasses(a: Mat, i: nat)
    requires IsSquare(a) && i < |a|
    ensures RowPasses(a, i) ==> a[i][i] != 0.0
  {
    OffDiagonalSum(a[i], i, |a|) < Abs(a[i][i])
  }

  /** The test loop from row `i` on: the first row that fails, where the
      program stops with "The method is not applicable", or `|a|` when
      every row passes. */
  function FirstFailingRow(a: Mat, i: nat): (r: nat)
    requires IsSquare(a) && i <= |a|
    ensures i <= r <= |a|
    ensures forall k :: i <= k < r ==> RowPasses(a, k)
    ensures r < |a| ==> !RowPasses(a, r)
    decreases |a| - i
  {
    if i == |a| then i
    else if OffDiagonalSum(a[i], i, |a|) >= Abs(a[i][i]) then i
    else FirstFailingRow(a, i + 1)
  }

  /** The test of the whole loop. */
  predicate Applicable(a: Mat)
    requires IsSquare(a)
  {
    FirstFailingRow(a, 0) == |a|
  }

  /** The loop lets a matrix through exactly when every row passes, and
      then no diagonal entry is zero, so every division of the set-up is
      defined. */
  lemma ApplicableMeansDominant(a: Mat)
    requires IsSquare(a)
    ensures Applicable(a) <==> forall i :: 0 <= i < |a| ==> RowPasses(a, i)
    ensures Applicable(a) ==> NonzeroDiagonal(a)
  {
    if !Applicable(a) {
      assert !RowPasses(a, FirstFailingRow(a, 0));
    } else {
      forall i | 0 <= i < |a|
        ensures a[i][i] != 0.0
      {
        assert RowPasses(a, i);
      }
    }
  }

  // ----------------------------------------------------------------------
  // A strictly dominant matrix is nonsingular

  /** An index of a largest entry in absolute value. */
  function MaxIndex(x: Vec, k: nat): (m: nat)
    requires 0 < k <= |x|
    ensures m < k && forall j :: 0 <= j < k ==> Abs(x[j]) <= Abs(x[m])
  {
    if k == 1 then 0
    else
      var m := MaxIndex(x, k - 1);
      if Abs(x[k - 1]) > Abs(x[m]) then k - 1 else m
  }

  /** Sum of `c[j]` over `j < k`, `j != i`. */
  function OffSum(c: Vec, i: nat, k: nat): real
    requires k <= |c|
  {
    if k == 0 then 0.0 else OffSum(c, i, k - 1) + (if k - 1 != i then c[k - 1] else 0.0)
  }

  /** The products `u[j] * v[j]`; they add up to `Dot(u, v)`. */
  function Products(u: Vec, v: Vec): (w: Vec)
    requires |u| == |v|
    ensures |w| == |u|
  {
    seq(|u|, j requires 0 <= j < |u| => u[j] * v[j])
  }
  function AbsAll(u: Vec): (w: Vec)
    ensures |w| == |u|
  {
    seq(|u|, j requires 0 <= j < |u| => Abs(u[j]))
  }
  lemma {:induction false} DotIsSum(u: Vec, v: Vec)
    requires |u| == |v|
    ensures Dot(u, v) == Sum(Products(u, v))
    decreases |u|
  {
    if |u| > 0 {
      var n := |u| - 1;
      DotIsSum(u[..n], v[..n]);
      assert forall j :: 0 <= j < n ==> Products(u, v)[..n][j] == Products(u[..n], v[..n])[j];
      assert Products(u, v)[..n] == Products(u[..n], v[..n]);
    }
  }
  lemma {:induction false} SumBound(w: Vec, c: Vec, i: nat, k: nat)
    requires |w| == |c| && k <= |w|
    requires forall j :: 0 <= j < |w| ==> Abs(w[j]) <= c[j]
    ensures Abs(Sum(w[..k]) - (if i < k then w[i] else 0.0)) <= OffSum(c, i, k)
  {
    if k > 0 {
      SumBound(w, c, i, k - 1);
      assert w[..k][..k - 1] == w[..k - 1];
    }
  }
  lemma {:induction false} OffSumAbs(row: Vec, i: nat, k: nat)
    requires k <= |row|
    ensures OffSum(AbsAll(row), i, k) == OffDiagonalSum(row, i, k)
  {
    if k > 0 {
      OffSumAbs(row, i, k - 1);
    }
  }
  lemma AbsMul(p: real, q: real)
    ensures Abs(p * q) == Abs(p) * Abs(q)
  {
    if p < 0.0 && q < 0.0 {
      assert p * q == (-p) * (-q);
    } else if p < 0.0 {
      assert -(p * q) == (-p) * q;
    } else if q < 0.0 {
      assert -(p * q) == p * (-q);
    }
  }

  /** `|p q| <= |p|` when `|q| <= 1`. */
  lemma AbsProductBound(p: real, q: real)
    requires Abs(q) <= 1.0
    ensures Abs(p * q) <= Abs(p)
  {
    AbsMul(p, q);
    assert Abs(p) * Abs(q) <= Abs(p) * 1.0;
  }

  lemma ProductsBounded(row: Vec, y: Vec)
    requires |row| == |y| && forall j :: 0 <= j < |y| ==> Abs(y[j]) <= 1.0
    ensures forall j :: 0 <= j < |y| ==> Abs(Products(row, y)[j]) <= AbsAll(row)[j]
  {
    forall j | 0 <= j < |y|
      ensures Abs(Products(row, y)[j]) <= AbsAll(row)[j]
    {
      AbsProductBound(row[j], y[j]);
    }
  }

  lemma SumOfProductsBound(row: Vec, y: Vec, p: nat)
    requires |row| == |y| && p < |y|
    requires forall j :: 0 <= j < |y| ==> Abs(y[j]) <= 1.0
    ensures Abs(Sum(Products(row, y)) - Products(row, y)[p]) <= OffSum(AbsAll(row), p, |row|)
  {
    var w := Products(row, y);
    ProductsBounded(row, y);
    SumBound(w, AbsAll(row), p, |w|);
    assert w[..|w|] == w;
  }

  /** Restating a bound after rewriting its terms by equalities. */
  lemma BoundRewrite(e: real, e2: real, t: real, t2: real, b: real, b2: real)
    requires Abs(e - t) <= b && e2 == e && t2 == t && b2 == b
    ensures Abs(e2 - t2) <= b2
  {
  }

  /** With `y[p] == 1` and no entry of `y` larger than 1 in absolute value,
      the products other than the `p`-th add up to at most the row's
      off-diagonal sum. */
  lemma RowBound(row: Vec, y: Vec, p: nat)
    requires |row| == |y| && p < |y| && y[p] == 1.0
    requires forall j :: 0 <= j < |y| ==> Abs(y[j]) <= 1.0
    ensures Abs(Dot(row, y) - row[p]) <= OffDiagonalSum(row, p, |row|)
  {
    var w := Products(row, y);
    PivotProduct(row, y, p);
    SumOfProductsBound(row, y, p);
    OffSumAbs(row, p, |row|);
    DotIsSum(row, y);
    BoundRewrite(Sum(w), Dot(row, y), w[p], row[p], OffSum(AbsAll(row), p, |row|), OffDiagonalSum(row, p, |row|));
  }

  /** The pivot's product is the row's diagonal entry itself. */
  lemma PivotProduct(row: Vec, y: Vec, p: nat)
    requires |row| == |y| && p < |y| && y[p] == 1.0
    ensures Products(row, y)[p] == row[p]
  {
  }

  /** A diagonal term that outweighs the rest cannot be cancelled. */
  lemma Dominates(d: real, dot: real, s: real)
    requires s < Abs(d) && Abs(dot - d) <= s
    ensures dot != 0.0
  {
  }

  /** A dominant row cannot annihilate a vector whose largest entry, in
      absolute value, is a 1 in the diagonal column. */
  lemma DominantRow(row: Vec, y: Vec, p: nat)
    requires |row| == |y| && p < |y| && y[p] == 1.0
    requires forall j :: 0 <= j < |y| ==> Abs(y[j]) <= 1.0
    requires OffDiagonalSum(row, p, |row|) < Abs(row[p])
    ensures Dot(row, y) != 0.0
  {
    RowBound(row, y, p);
    Dominates(row[p], Dot(row, y), OffDiagonalSum(row, p, |row|));
  }

  /** A factor that keeps a positive number from growing is at most 1. */
  lemma FactorBound(q: real, m: real, c: real)
    requires m > 0.0 && q * m == c && c <= m
    ensures q <= 1.0
  {
  }

  lemma DivBound(xj: real, xp: real)
    requires xp != 0.0 && Abs(xj) <= Abs(xp)
    ensures Abs(xj / xp) <= 1.0
  {
    var q := xj / xp;
    assert q * xp == xj;
    AbsMul(q, xp);
    FactorBound(Abs(q), Abs(xp), Abs(xj));
  }

  /** Dividing by the largest entry leaves a 1 there and nothing larger
      than 1 in absolute value. */
  lemma UnitScaled(x: Vec, p: nat)
    requires p < |x| && x[p] != 0.0
    requires forall j :: 0 <= j < |x| ==> Abs(x[j]) <= Abs(x[p])
    ensures VDiv(x, x[p])[p] == 1.0
    ensures forall j :: 0 <= j < |x| ==> Abs(VDiv(x, x[p])[j]) <= 1.0
  {
    forall j | 0 <= j < |x|
      ensures Abs(VDiv(x, x[p])[j]) <= 1.0
    {
      DivBound(x[j], x[p]);
    }
  }

  lemma ScaledKernel(row: Vec, x: Vec, d: real)
    requires |row| == |x| && d != 0.0 && Dot(row, x) == 0.0
    ensures Dot(row, VDiv(x, d)) == 0.0
  {
    DotCommutes(row, VDiv(x, d));
    DotDiv(x, d, row);
    DotCommutes(x, row);
  }

  /** A matrix that passes the test sends only the zero vector to zero:
      scaled so that its largest entry is a 1, a nonzero kernel vector would
      be annihilated by the dominant row of that entry. */
  lemma DominantKernel(a: Mat, x: Vec)
    requires IsSquare(a) && Applicable(a) && |x| == |a| && MatVec(a, x) == ZeroVec(|a|)
    ensures x == ZeroVec(|a|)
  {
    var n := |a|;
    if x != ZeroVec(n) {
      var p := MaxIndex(x, n);
      assert x[p] != 0.0;
      UnitScaled(x, p);
      assert Dot(a[p], x) == MatVec(a, x)[p] == 0.0;
      ScaledKernel(a[p], x, x[p]);
      ApplicableMeansDominant(a);
      assert RowPasses(a, p);
      DominantRow(a[p], VDiv(x, x[p]), p);
    }
  }

  /** Hence such a matrix is nonsingular (the Levy-Desplanques theorem), and
      the system the programs iterate on has exactly one solution. */
  lemma DominantIsNonsingular(a: Mat)
    requires IsSquare(a) && Applicable(a)
    ensures !Singular(a)
  {
    forall x | |x| == |a| && MatVec(a, x) == ZeroVec(|a|)
      ensures x == ZeroVec(|a|)
    {
      DominantKernel(a, x);
    }
  }

  // ----------------------------------------------------------------------
  // The rewritten system

  /** `alpha[i][j] = -a[i][j] / a[i][i]` off the diagonal, zero on it. */
  function Alpha(a: Mat): (al: Mat)
    requires IsSquare(a) && NonzeroDiagonal(a)
    ensures IsMat(al, |a|, |a|)
    ensures forall i :: 0 <= i < |a| ==> al[i][i] == 0.0
  {
    var n := |a|;
    seq(n, i requires 0 <= i < n =>
      seq(n, j requires 0 <= j < n => if i != j then -a[i][j] / a[i][i] else 0.0))
  }

  lemma NegDiv(x: real, d: real)
    requires d != 0.0
    ensures (-1.0 / d) * x == -x / d && (-1.0 / d) * 0.0 == 0.0
  {
  }

  /** Row `i` of `alpha` is row `i` of `a` without its diagonal entry,
      scaled by `-1 / a[i][i]`. */
  lemma AlphaRow(a: Mat, i: nat)
    requires IsSquare(a) && NonzeroDiagonal(a) && i < |a|
    ensures Alpha(a)[i] == VScale(-1.0 / a[i][i], a[i][i := 0.0])
  {
    forall j | 0 <= j < |a|
      ensures Alpha(a)[i][j] == VScale(-1.0 / a[i][i], a[i][i := 0.0])[j]
    {
      NegDiv(a[i][j], a[i][i]);
    }
  }

  /** `beta[i] = b[i] / a[i][i]`. */
  function Beta(a: Mat, b: Vec): (be: Vec)
    requires IsSquare(a) && NonzeroDiagonal(a) && |b| == |a|
    ensures |be| == |a| && forall i :: 0 <= i < |a| ==> be[i] == b[i] / a[i][i]
  {
    seq(|a|, i requires 0 <= i < |a| => b[i] / a[i][i])
  }

  /** `ColumnVector * Matrix`: `result[i] += v[j] * m[i][j]`, which is the
      matrix applied to the vector. */
  function Times(v: Vec, m: Mat): (w: Vec)
    requires IsMat(m, |v|, |v|)
    ensures w == MatVec(m, v)
  {
    var w := seq(|v|, i requires 0 <= i < |v| => Dot(v, m[i]));
    assert forall i :: 0 <= i < |v| ==> w[i] == MatVec(m, v)[i] by {
      forall i | 0 <= i < |v| ensures w[i] == MatVec(m, v)[i] {
        DotCommutes(v, m[i]);
      }
    }
    w
  }

  /** The dominance-check loop and the two set-up loops: `None` is the "not
      applicable" exit. */
  function Setup(a: Mat, b: Vec): (r: Option<(Mat, Vec)>)
    requires IsSquare(a) && |b| == |a|
    ensures r.None? <==> !Applicable(a)
    ensures r.Some? ==> NonzeroDiagonal(a) && r.value == (Alpha(a), Beta(a, b))
  {
    ApplicableMeansDominant(a);
    if FirstFailingRow(a, 0) < |a| then None else Some((Alpha(a), Beta(a, b)))
  }

  /** Row `i` in plain numbers: `dot` is `a[i] . x`, `rest` the same
      without the diagonal term, `k` the factor `-1 / a[i][i]` and `yi`
      the entry of `alpha x + beta`. */
  lemma FixedPointRow(d: real, dot: real, rest: real, xi: real, bi: real, k: real, aldot: real, be: real)
    requires d != 0.0 && rest == dot - xi * d && k == -1.0 / d && aldot == k * rest && be == bi / d
    ensures aldot + be == xi <==> dot == bi
  {
    assert (aldot + be) * d == -rest + bi;
    if aldot + be == xi {
      assert xi * d == -(dot - xi * d) + bi;
    }
  }

  /** Zeroing entry `i` of a row removes the term `x[i] * row[i]`. */
  lemma DotWithoutEntry(row: Vec, x: Vec, i: nat)
    requires |row| == |x| && i < |row|
    ensures Dot(row[i := 0.0], x) == Dot(row, x) - x[i] * row[i]
  {
    DotCommutes(row[i := 0.0], x);
    DotUpdate(x, row, i, 0.0);
    DotCommutes(x, row);
  }

  /** A row scaled by `-1 / row[i]` after zeroing entry `i`. */
  lemma ScaledRowDot(al: Vec, row: Vec, x: Vec, i: nat)
    requires |row| == |x| && i < |row| && row[i] != 0.0
    requires al == VScale(-1.0 / row[i], row[i := 0.0])
    ensures Dot(al, x) == (-1.0 / row[i]) * Dot(row[i := 0.0], x)
  {
    DotScale(-1.0 / row[i], row[i := 0.0], x);
  }

  /** Row `i` of `x = alpha x + beta` holds exactly when row `i` of
      `a x = b` does; `al` and `be` are the rows of `alpha` and `beta`. */
  lemma FixedPointEntry(row: Vec, al: Vec, be: real, bi: real, x: Vec, i: nat)
    requires |row| == |x| == |al| && i < |row| && row[i] != 0.0
    requires Dot(al, x) == (-1.0 / row[i]) * Dot(row[i := 0.0], x) && be == bi / row[i]
    ensures Dot(al, x) + be == x[i] <==> Dot(row, x) == bi
  {
    DotWithoutEntry(row, x, i);
    FixedPointRow(row[i], Dot(row, x), Dot(row[i := 0.0], x), x[i], bi, -1.0 / row[i], Dot(al, x), be);
  }

  /** `x = alpha x + beta` holds exactly when `a x = b`. */
  lemma FixedPointIffSolution(a: Mat, b: Vec, x: Vec)
    requires IsSquare(a) && NonzeroDiagonal(a) && |b| == |a| && |x| == |a|
    ensures VAdd(MatVec(Alpha(a), x), Beta(a, b)) == x <==> MatVec(a, x) == b
  {
    var y := VAdd(MatVec(Alpha(a), x), Beta(a, b));
    var ax := MatVec(a, x);
    forall i | 0 <= i < |a|
      ensures y[i] == x[i] <==> ax[i] == b[i]
    {
      FixedPointAt(a, b, x, i);
    }
    if y == x {
      assert forall i :: 0 <= i < |a| ==> ax[i] == b[i];
    }
    if ax == b {
      assert forall i :: 0 <= i < |a| ==> y[i] == x[i];
    }
  }

  /** Row `i` of the update is a fixed point exactly when row `i` of the
      system holds. */
  lemma FixedPointAt(a: Mat, b: Vec, x: Vec, i: nat)
    requires IsSquare(a) && NonzeroDiagonal(a) && |b| == |a| && |x| == |a| && i < |a|
    ensures VAdd(MatVec(Alpha(a), x), Beta(a, b))[i] == x[i] <==> MatVec(a, x)[i] == b[i]
  {
    AlphaRow(a, i);
    ScaledRowDot(Alpha(a)[i], a[i], x, i);
    FixedPointEntry(a[i], Alpha(a)[i], Beta(a, b)[i], b[i], x, i);
  }
}
