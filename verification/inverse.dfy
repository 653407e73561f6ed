/** The inverse program: reject a singular matrix through the determinant
    of a triangularized copy, then run the Gaussian process on the matrix
    with the identity as companion and normalize the diagonal. */
module InverseCalculator {
  import opened RealMatrix
  import opened Opt
  import opened Elimination
  import opened GaussTheory

  /** `main`: `None` stands for the "matrix A is singular" exit. */
  function Inverse(a: Mat): (r: Option<Mat>)
    requires IsSquare(a)
    ensures r.None? <==> Singular(a)
    ensures r.Some? ==>
      IsMat(r.value, |a|, |a|) &&
      Mul(r.value, a) == Identity(|a|) && Mul(a, r.value) == Identity(|a|)
  {
    var n := |a|;
    var copy := Forward(a, NoCompanion(n));
    SingularCheck(a);
    DiagonalProductZero(copy.work, n);
    if DiagonalProduct(copy.work, n) == 0.0 then None
    else
      ForwardIgnoresCompanion(a, NoCompanion(n), Identity(n));
      GaussInverse(a);
      Some(Normalize(GaussianProcess(a, Identity(n))).comp)
  }

  /** Any left inverse of the input is the one computed. */
  lemma InverseUnique(a: Mat, b: Mat)
    requires IsSquare(a) && IsMat(b, |a|, |a|) && Mul(b, a) == Identity(|a|)
    ensures Inverse(a).Some? && Inverse(a).value == b
  {
    var n := |a|;
    if Inverse(a).None? {
      var x :| |x| == n && x != ZeroVec(n) && MatVec(a, x) == ZeroVec(n);
      LeftInverseKernel(a, b, x);
    }
    var r := Inverse(a).value;
    // b = b (a r) = (b a) r = r
    MulAssoc(b, a, r);
    IdentityTimes(r);
    if n > 0 {
      assert Width(r) == n;
    }
    TimesIdentity(b, n);
  }
}
