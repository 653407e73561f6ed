/** The determinant program: reduce the matrix to upper triangular form with
    row swaps and eliminations, multiply the diagonal, and flip the sign
    when the number of swaps is odd. */
module DeterminantCalculator {
  import opened RealMatrix
  import opened RowOps
  import opened Elimination
  import opened GaussTheory
  import opened Cofactor

  /** `(-1)^k`. */
  function PowMinusOne(k: nat): (s: real)
    ensures s == 1.0 || s == -1.0
  {
    if k == 0 then 1.0 else -PowMinusOne(k - 1)
  }

  /** The parity test of `main` computes `(-1)^k`. */
  lemma {:induction false} PowMinusOneParity(k: nat)
    ensures PowMinusOne(k) == (if k % 2 == 0 then 1.0 else -1.0)
  {
    if k > 0 {
      PowMinusOneParity(k - 1);
    }
  }

  /** `findDeterminant(flag)`: a zero product is printed through `abs`, any
      other product as it is when `flag` holds and negated otherwise. Over
      the reals the zero case is only a guard against printing `-0`, so the
      result is the product with the sign that `flag` selects. */
  function Report(det: real, flag: bool): (v: real)
    ensures v == (if flag then det else -det)
    ensures v == 0.0 <==> det == 0.0
  {
    if det == 0.0 then Abs(det) else if flag then det else -det
  }

  /** `main`: the swap count returned by `upperTriangular` chooses the sign
      of the diagonal product, and the value is the cofactor determinant of
      the input, zero exactly when the matrix is singular. */
  function Determinant(a: Mat): (d: real)
    requires IsSquare(a)
    ensures d == Det(a)
    ensures var u := Forward(a, NoCompanion(|a|));
      d == PowMinusOne(u.swaps) * DiagonalProduct(u.work, |a|)
    ensures d == 0.0 <==> Singular(a)
  {
    var u := Forward(a, NoCompanion(|a|));
    SingularCheck(a);
    PowMinusOneParity(u.swaps);
    ForwardKeepsDet(a, NoCompanion(|a|));
    DetUpperTriangular(u.work);
    Report(DiagonalProduct(u.work, |a|), u.swaps % 2 == 0)
  }

  // ----------------------------------------------------------------------
  // The sign invariant of the forward pass

  /** The determinant of the starting matrix is that of the working matrix,
      negated once per swap performed so far. */
  predicate SignKept(run: Run) {
    Shaped(run) && IsSquare(run.origin) && Det(run.origin) == Signed(run.swaps, Det(run.work))
  }

  lemma SignedFlip(k: nat, x: real)
    ensures Signed(k + 1, -x) == Signed(k, x)
  {
  }

  /** A pivot swap exchanges two distinct rows and counts one swap. */
  lemma PivotStepKeepsSign(run: Run, c: nat)
    requires SignKept(run) && c < |run.work|
    ensures SignKept(PivotStep(run, c))
  {
    SwapWantedIff(run.work, c);
    if SwapWanted(run.work, c) {
      DetSwapRows(run.work, PivotOf(run.work, c).1, c);
      SignedFlip(run.swaps, Det(run.work));
    }
  }

  /** An elimination subtracts a multiple of the pivot row from another row. */
  lemma ClearEntryKeepsSign(run: Run, c: nat, i: nat)
    requires SignKept(run) && c < |run.work| && i < |run.work| && i != c
    requires run.work[i][c] != 0.0 ==> run.work[c][c] != 0.0
    ensures SignKept(ClearEntry(run, c, i))
  {
    if run.work[i][c] != 0.0 {
      DetEliminateRow(run.work, i, c, run.work[i][c] / run.work[c][c]);
    }
  }

  lemma {:induction false} EliminateBelowKeepsSign(run: Run, c: nat, i: nat)
    requires SignKept(run) && c < i <= |run.work|
    requires Dominated(run.work, c, i)
    ensures SignKept(EliminateBelow(run, c, i))
    decreases |run.work| - i
  {
    if i < |run.work| {
      ClearEntryKeepsSign(run, c, i);
      EliminateBelowKeepsSign(ClearEntry(run, c, i), c, i + 1);
    }
  }

  lemma {:induction false} ForwardFromKeepsSign(run: Run, c: nat)
    requires SignKept(run) && c <= |run.work| && ClearedBelow(run.work, c)
    ensures SignKept(ForwardFrom(run, c))
    decreases |run.work| - c
  {
    if c < |run.work| {
      var p := PivotStep(run, c);
      PivotStepKeepsSign(run, c);
      EliminateBelowKeepsSign(p, c, c + 1);
      ColumnStepClears(run, c);
      ForwardFromKeepsSign(EliminateBelow(p, c, c + 1), c + 1);
    }
  }

  /** `upperTriangular` changes the determinant only by the sign of its
      returned swap count. */
  lemma ForwardKeepsDet(a: Mat, comp: Mat)
    requires IsSquare(a) && Rect(comp) && |comp| == |a|
    ensures Det(a) == Signed(Forward(a, comp).swaps, Det(Forward(a, comp).work))
  {
    ForwardFromKeepsSign(Start(a, comp), 0);
  }
}
