/** The least-squares program: points `(t_i, b_i)` and a degree `d` give
    the design matrix `V` with rows `1, t_i, ..., t_i^d`; the program forms
    `V^T V` and `V^T b`, inverts `V^T V` with the Gaussian process and
    prints `x~ = (V^T V)^-1 V^T b`. Cells of the program's matrices that
    were never written hold NaN; here they are `None`. */
module LeastSquares {
  import opened RealMatrix
  import opened Opt
  import opened Elimination
  import opened GaussTheory

  type Cells = seq<seq<Option<real>>>

  /** `pow(t, j)` for a whole exponent: any power of 1 is 1, and a
      positive power of 0 is 0. */
  function Pow(t: real, j: nat): (p: real)
    ensures t == 1.0 ==> p == 1.0
    ensures t == 0.0 && j > 0 ==> p == 0.0
  {
    if j == 0 then 1.0 else Pow(t, j - 1) * t
  }

  lemma PowOne(t: real)
    ensures Pow(t, 1) == t
  {
  }

  /** `Matrix(n)`: `n` by `n`, a 1 in column 0 and every other cell empty. */
  function Fresh(n: nat): (c: Cells)
    ensures |c| == n
    ensures forall i :: 0 <= i < n ==> |c[i]| == n
    ensures forall i, j :: 0 <= i < n && 0 <= j < n ==> c[i][j] == (if j == 0 then Some(1.0) else None)
  {
    seq(n, i => seq(n, j => if j == 0 then Some(1.0) else None))
  }

  /** The writes of `inputArrayVector`: `t_i` goes to column 1 of row `i`. */
  function WithAbscissae(c: Cells, ts: Vec): (d: Cells)
    requires |ts| == |c| && forall i :: 0 <= i < |c| ==> |c[i]| >= 2
    ensures |d| == |c| && forall i :: 0 <= i < |c| ==> |d[i]| == |c[i]|
    ensures forall i :: 0 <= i < |c| ==> d[i][1] == Some(ts[i])
    ensures forall i, j :: 0 <= i < |c| && 0 <= j < |c[i]| && j != 1 ==> d[i][j] == c[i][j]
  {
    seq(|c|, i requires 0 <= i < |c| => c[i][1 := Some(ts[i])])
  }

  /** The power that `fillingInTheCells` writes: `pow(array[i][1], j)`, empty
      when column 1 is. */
  function PowerCell(x: Option<real>, j: nat): (r: Option<real>)
    ensures r.Some? <==> x.Some?
    ensures j == 1 ==> r == x
  {
    match x
    case None => None
    case Some(t) => PowOne(t); Some(Pow(t, j))
  }

  /** `fillingInTheCells(d)`: columns 2 to `d` of every row receive the
      powers of the row's column-1 entry; the rest is kept. */
  function FillCells(c: Cells, deg: nat): (d: Cells)
    requires forall i :: 0 <= i < |c| ==> |c[i]| >= 2 && |c[i]| >= deg + 1
    ensures |d| == |c| && forall i :: 0 <= i < |c| ==> |d[i]| == |c[i]|
    ensures forall i, j :: 0 <= i < |c| && 0 <= j < |c[i]| ==>
      d[i][j] == (if 2 <= j <= deg then PowerCell(c[i][1], j) else c[i][j])
  {
    seq(|c|, i requires 0 <= i < |c| =>
      seq(|c[i]|, j requires 0 <= j < |c[i]| => if 2 <= j <= deg then PowerCell(c[i][1], j) else c[i][j]))
  }

  /** `clear`: an `n` by `n` matrix keeping the present cells of the first
      `m` columns and zero everywhere else. */
  function Clear(c: Cells, m: nat): (a: Mat)
    requires m <= |c| && forall i :: 0 <= i < |c| ==> |c[i]| >= m
    ensures IsMat(a, |c|, |c|)
    ensures forall i, j :: 0 <= i < |c| && 0 <= j < |c| ==>
      a[i][j] == (if j < m && c[i][j].Some? then c[i][j].value else 0.0)
  {
    seq(|c|, i requires 0 <= i < |c| =>
      seq(|c|, j requires 0 <= j < |c| => if j < m && c[i][j].Some? then c[i][j].value else 0.0))
  }

  /** `clearVector`: empty entries become zero. */
  function ClearVector(v: seq<Option<real>>): (w: Vec)
    ensures |w| == |v|
    ensures forall i :: 0 <= i < |v| ==> w[i] == (if v[i].Some? then v[i].value else 0.0)
  {
    seq(|v|, i requires 0 <= i < |v| => if v[i].Some? then v[i].value else 0.0)
  }

  /** The first `w` entries of every row. */
  function Trim(a: Mat, w: nat): (t: Mat)
    requires forall i :: 0 <= i < |a| ==> |a[i]| >= w
    ensures IsMat(t, |a|, w)
    ensures forall i, j :: 0 <= i < |a| && 0 <= j < w ==> t[i][j] == a[i][j]
  {
    seq(|a|, i requires 0 <= i < |a| => a[i][..w])
  }

  /** `transposed` of an `n` by `m` matrix whose rows may be longer than
      `m`: an `m` by `n` result reading only the first `m` columns. */
  function Transposed(a: Mat, n: nat, m: nat): (t: Mat)
    requires |a| == n && forall i :: 0 <= i < n ==> |a[i]| >= m
    ensures IsMat(t, m, n)
    ensures forall j, i :: 0 <= j < m && 0 <= i < n ==> t[j][i] == a[i][j]
  {
    seq(m, j requires 0 <= j < m => seq(n, i requires 0 <= i < n => a[i][j]))
  }

  lemma TransposedInvolution(a: Mat, n: nat, m: nat)
    requires IsMat(a, n, m)
    ensures Transposed(Transposed(a, n, m), m, n) == a
  {
    var t := Transposed(Transposed(a, n, m), m, n);
    assert forall i :: 0 <= i < n ==> t[i] == a[i];
  }

  /** `multiplication(n2, m2, arr2)`: `n` by `m2`, entry `(i, j)` the sum
      over `c < m` of `array[i][c] * arr2[c][j]`. It is the product of the
      parts of the two matrices it reads. */
  function Multiplication(a: Mat, m: nat, b: Mat, m2: nat): (p: Mat)
    requires forall i :: 0 <= i < |a| ==> |a[i]| >= m
    requires m <= |b| && forall c :: 0 <= c < m ==> |b[c]| >= m2
    ensures IsMat(p, |a|, m2)
    ensures m > 0 ==> p == Mul(Trim(a, m), Trim(b[..m], m2))
    ensures m == 0 ==> forall i, j :: 0 <= i < |a| && 0 <= j < m2 ==> p[i][j] == 0.0
  {
    var ta, tb := Trim(a, m), Trim(b[..m], m2);
    var p := seq(|a|, i requires 0 <= i < |a| =>
      seq(m2, j requires 0 <= j < m2 => Dot(a[i][..m], seq(m, c requires 0 <= c < m => b[c][j]))));
    assert m > 0 ==> p == Mul(ta, tb) by {
      if m > 0 {
        assert Width(tb) == m2;
        forall i | 0 <= i < |a|
          ensures p[i] == Mul(ta, tb)[i]
        {
          assert ta[i] == a[i][..m];
          forall j | 0 <= j < m2
            ensures p[i][j] == Mul(ta, tb)[i][j]
          {
            assert seq(m, c requires 0 <= c < m => b[c][j]) == Column(tb, j);
          }
        }
      }
    }
    p
  }

  /** `vectorMultiplication(n2, m2, arr2)`: length `n2`, entry `i` the sum
      over `j < m2` of `vectorArr[j] * arr2[i][j]`, which is the matrix
      applied to the vector. */
  function VectorMultiplication(v: Vec, n2: nat, m2: nat, b: Mat): (w: Vec)
    requires m2 <= |v| && n2 <= |b| && forall i :: 0 <= i < n2 ==> |b[i]| >= m2
    ensures w == MatVec(Trim(b[..n2], m2), v[..m2])
  {
    var w := seq(n2, i requires 0 <= i < n2 => Dot(v[..m2], b[i][..m2]));
    assert forall i :: 0 <= i < n2 ==> w[i] == MatVec(Trim(b[..n2], m2), v[..m2])[i] by {
      forall i | 0 <= i < n2 ensures w[i] == MatVec(Trim(b[..n2], m2), v[..m2])[i] {
        DotCommutes(v[..m2], b[i][..m2]);
      }
    }
    w
  }

  /** The design matrix: row `i` is `1, t_i, ..., t_i^d`. */
  function Vandermonde(ts: Vec, deg: nat): (v: Mat)
    ensures IsMat(v, |ts|, deg + 1)
  {
    seq(|ts|, i requires 0 <= i < |ts| => seq(deg + 1, j requires 0 <= j <= deg => Pow(ts[i], j)))
  }

  /** The cells the program builds from the points, as `matrix` holds them
      before `clear`. */
  function PointCells(ts: Vec, deg: nat): (c: Cells)
    requires |ts| >= 2 && deg + 1 <= |ts|
    ensures |c| == |ts| && forall i :: 0 <= i < |ts| ==> |c[i]| == |ts|
  {
    FillCells(WithAbscissae(Fresh(|ts|), ts), deg)
  }

  /** The program's matrix after `fillingInTheCells(d)` and `clear` is the
      design matrix padded with zero columns. */
  lemma DesignMatrix(ts: Vec, deg: nat)
    requires |ts| >= 2 && deg + 1 <= |ts|
    ensures var a := Clear(PointCells(ts, deg), deg + 1);
      forall i, j :: 0 <= i < |ts| && 0 <= j < |ts| ==>
        a[i][j] == (if j <= deg then Pow(ts[i], j) else 0.0)
    ensures Trim(Clear(PointCells(ts, deg), deg + 1), deg + 1) == Vandermonde(ts, deg)
  {
    var n := |ts|;
    var c := PointCells(ts, deg);
    var a := Clear(c, deg + 1);
    forall i, j | 0 <= i < n && 0 <= j < n
      ensures a[i][j] == (if j <= deg then Pow(ts[i], j) else 0.0)
    {
      if j == 1 {
        PowOne(ts[i]);
      }
    }
    var v := Vandermonde(ts, deg);
    assert forall i :: 0 <= i < n ==> Trim(a, deg + 1)[i] == v[i];
  }

  /** A transpose reads only the first `m` columns. */
  lemma TransposedOfTrim(a: Mat, n: nat, m: nat)
    requires |a| == n && forall i :: 0 <= i < n ==> |a[i]| >= m
    ensures Transposed(a, n, m) == Transposed(Trim(a, m), n, m)
  {
    assert forall j :: 0 <= j < m ==> Transposed(a, n, m)[j] == Transposed(Trim(a, m), n, m)[j];
  }

  /** Trimming a matrix to its own width changes nothing. */
  lemma TrimAll(a: Mat, w: nat)
    requires IsMat(a, |a|, w)
    ensures Trim(a, w) == a
  {
    assert forall i :: 0 <= i < |a| ==> Trim(a, w)[i] == a[i];
  }

  /** The parts of `main`, with the design matrix and its transpose. */
  datatype Normal = Normal(v: Mat, vt: Mat, ata: Mat, atb: Vec)

  /** `A_T`, `A_T * A` and `A_T * b` as the program computes them. */
  function NormalEquations(ts: Vec, b: Vec, deg: nat): (r: Normal)
    requires |ts| == |b| >= 2 && deg + 1 <= |ts|
    ensures r.v == Vandermonde(ts, deg) && r.vt == Transposed(r.v, |ts|, deg + 1)
    ensures IsMat(r.ata, deg + 1, deg + 1) && r.ata == Mul(r.vt, r.v)
    ensures |r.atb| == deg + 1 && r.atb == MatVec(r.vt, b)
  {
    var n, m := |ts|, deg + 1;
    var a := Clear(PointCells(ts, deg), m);
    var at := Transposed(a, n, m);
    var bv := ClearVector(seq(n, i requires 0 <= i < n => Some(b[i])));
    var v := Vandermonde(ts, deg);
    NormalMatrix(ts, deg);
    NormalVector(ts, b, deg);
    Normal(v, Transposed(v, n, m), Multiplication(at, n, a, m), VectorMultiplication(bv, m, n, at))
  }

  /** `A_T * A` as `multiplication` computes it is `V^T V`. */
  lemma NormalMatrix(ts: Vec, deg: nat)
    requires |ts| >= 2 && deg + 1 <= |ts|
    ensures var n, m := |ts|, deg + 1;
      var a := Clear(PointCells(ts, deg), m);
      var v := Vandermonde(ts, deg);
      Multiplication(Transposed(a, n, m), n, a, m) == Mul(Transposed(v, n, m), v)
  {
    var n, m := |ts|, deg + 1;
    var a := Clear(PointCells(ts, deg), m);
    var at := Transposed(a, n, m);
    var v := Vandermonde(ts, deg);
    DesignMatrix(ts, deg);
    TransposedOfTrim(a, n, m);
    TrimAll(at, n);
    assert a[..n] == a;
    assert Trim(a[..n], m) == v;
    assert Trim(at, n) == Transposed(v, n, m);
  }

  /** `A_T * b` as `vectorMultiplication` computes it is `V^T b`. */
  lemma NormalVector(ts: Vec, b: Vec, deg: nat)
    requires |ts| == |b| >= 2 && deg + 1 <= |ts|
    ensures var n, m := |ts|, deg + 1;
      var a := Clear(PointCells(ts, deg), m);
      var bv := ClearVector(seq(n, i requires 0 <= i < n => Some(b[i])));
      VectorMultiplication(bv, m, n, Transposed(a, n, m)) == MatVec(Transposed(Vandermonde(ts, deg), n, m), b)
  {
    var n, m := |ts|, deg + 1;
    var a := Clear(PointCells(ts, deg), m);
    var at := Transposed(a, n, m);
    var bv := ClearVector(seq(n, i requires 0 <= i < n => Some(b[i])));
    DesignMatrix(ts, deg);
    TransposedOfTrim(a, n, m);
    TrimAll(at, n);
    assert at[..m] == at && bv == b && bv[..n] == bv;
  }

  /** On a square matrix and a vector of its size, `vectorMultiplication`
      is the matrix applied to the vector. */
  lemma SquareVectorMultiplication(v: Vec, b: Mat)
    requires IsMat(b, |v|, |v|)
    ensures VectorMultiplication(v, |v|, |v|, b) == MatVec(b, v)
  {
    var m := |v|;
    TrimAll(b, m);
    assert b[..m] == b && v[..m] == v;
  }

  /** A two-sided inverse applied to the right-hand side gives the one
      solution there is. */
  lemma InverseSolves(a: Mat, inv: Mat, z: Vec)
    requires IsMat(a, |z|, |z|) && IsMat(inv, |z|, |z|)
    requires Mul(inv, a) == Identity(|z|) && Mul(a, inv) == Identity(|z|)
    ensures MatVec(a, MatVec(inv, z)) == z
    ensures forall y :: |y| == |z| && MatVec(a, y) == z ==> y == MatVec(inv, z)
  {
    InverseApply(a, inv, MatVec(inv, z), z);
    forall y | |y| == |z| && MatVec(a, y) == z
      ensures y == MatVec(inv, z)
    {
      InverseApply(a, inv, y, z);
    }
  }

  /** The end of `main`: `(A_T*A)^-1` by the Gaussian process with an
      identity companion and `diagonalNormalization`, then `x~` as that
      inverse applied to `A_T*b`. The program inverts without checking;
      `None` stands for the case where a pivot is zero and the program
      divides by it. */
  function SolveNormal(ata: Mat, atb: Vec): (r: Option<Vec>)
    requires IsSquare(ata) && |atb| == |ata|
    ensures r.None? <==> Singular(ata)
    ensures r.Some? ==> |r.value| == |ata| && MatVec(ata, r.value) == atb
    ensures r.Some? ==> forall y :: |y| == |ata| && MatVec(ata, y) == atb ==> y == r.value
  {
    var m := |ata|;
    ZeroPivotIffSingular(ata, Identity(m));
    if !NonzeroDiagonal(Forward(ata, Identity(m)).work) then None
    else
      GaussInverse(ata);
      var inv := Normalize(GaussianProcess(ata, Identity(m))).comp;
      SquareVectorMultiplication(atb, inv);
      InverseSolves(ata, inv, atb);
      Some(VectorMultiplication(atb, m, m, inv))
  }

  /** `main`: the coefficients of the fitted polynomial, lowest power
      first, solving the normal equations `V^T V x = V^T b`. */
  function Fit(ts: Vec, b: Vec, deg: nat): (r: Option<Vec>)
    requires |ts| == |b| >= 2 && deg + 1 <= |ts|
    ensures var e := NormalEquations(ts, b, deg);
      r.None? <==> Singular(e.ata)
    ensures var e := NormalEquations(ts, b, deg);
      r.Some? ==> |r.value| == deg + 1 && MatVec(e.ata, r.value) == e.atb
    ensures var e := NormalEquations(ts, b, deg);
      r.Some? ==> forall y :: |y| == deg + 1 && MatVec(e.ata, y) == e.atb ==> y == r.value
  {
    var e := NormalEquations(ts, b, deg);
    SolveNormal(e.ata, e.atb)
  }

  /** The normal equations say the residual `V x - b` is orthogonal to
      every column of `V`, the condition for `x` to minimise the squared
      error. */
  lemma ResidualOrthogonal(v: Mat, vt: Mat, b: Vec, x: Vec)
    requires |b| >= 1 && IsMat(v, |b|, |x|) && vt == Transposed(v, |b|, |x|)
    requires MatVec(Mul(vt, v), x) == MatVec(vt, b)
    ensures forall j :: 0 <= j < |x| ==> Dot(vt[j], VSub(MatVec(v, x), b)) == 0.0
  {
    MulMatVecAssoc(vt, v, x);
    MatVecSub(vt, MatVec(v, x), b);
    var r := VSub(MatVec(v, x), b);
    forall j | 0 <= j < |x| ensures Dot(vt[j], r) == 0.0 {
      assert MatVec(vt, r)[j] == Dot(vt[j], r);
    }
  }

  /** The fitted coefficients leave a residual orthogonal to every column
      of the design matrix. */
  lemma FitResidualOrthogonal(ts: Vec, b: Vec, deg: nat, x: Vec)
    requires |ts| == |b| >= 2 && deg + 1 <= |ts|
    requires Fit(ts, b, deg) == Some(x)
    ensures |x| == deg + 1
    ensures var e := NormalEquations(ts, b, deg);
      forall j :: 0 <= j <= deg ==> Dot(e.vt[j], VSub(MatVec(e.v, x), b)) == 0.0
  {
    var e := NormalEquations(ts, b, deg);
    ResidualOrthogonal(e.v, e.vt, b, x);
  }
}
