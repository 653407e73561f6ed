/** The `n` x `m` integer matrix of the plain matrix calculator: transpose,
    and `+`, `-`, `*` guarded by a dimension check whose failure yields a
    0 x 0 matrix (after printing an error, which is not modelled). */
module IntMatrix {
  import opened IntGrid

  datatype Matrix = Matrix(n: nat, m: nat, cells: Grid)

  /** The stored grid really has the recorded `n` x `m` shape. */
  predicate Valid(a: Matrix) {
    IsGrid(a.cells, a.n, a.m)
  }

  /** The matrix every failed dimension check returns. */
  function Empty(): Matrix {
    Matrix(0, 0, [])
  }

  /** The constructor `Matrix(n, m)`: an `n` x `m` matrix of zeros. */
  function New(n: nat, m: nat): (z: Matrix)
    ensures Valid(z) && z.n == n && z.m == m
    ensures forall i, j :: 0 <= i < n && 0 <= j < m ==> z.cells[i][j] == 0
  {
    Matrix(n, m, Zeros(n, m))
  }

  /** `transposed`: an `m` x `n` matrix with the entries mirrored. */
  function Transposed(a: Matrix): (t: Matrix)
    requires Valid(a)
    ensures Valid(t) && t.n == a.m && t.m == a.n
    ensures forall i, j :: 0 <= i < a.n && 0 <= j < a.m ==> t.cells[j][i] == a.cells[i][j]
  {
    Matrix(a.m, a.n, Transpose(a.cells, a.n, a.m))
  }

  /** `operator+`: entrywise sum when both dimensions agree, otherwise the empty matrix. */
  function Add(a: Matrix, b: Matrix): (r: Matrix)
    requires Valid(a) && Valid(b)
    ensures Valid(r)
    ensures a.n == b.n && a.m == b.m ==>
      r.n == a.n && r.m == a.m &&
      forall i, j :: 0 <= i < a.n && 0 <= j < a.m ==> r.cells[i][j] == a.cells[i][j] + b.cells[i][j]
    ensures !(a.n == b.n && a.m == b.m) ==> r == Empty()
  {
    if !(b.n == a.n && b.m == a.m) then Empty()
    else Matrix(a.n, a.m, Plus(a.cells, b.cells, a.n, a.m))
  }

  /** `operator-`: entrywise difference when both dimensions agree, otherwise the empty matrix. */
  function Sub(a: Matrix, b: Matrix): (r: Matrix)
    requires Valid(a) && Valid(b)
    ensures Valid(r)
    ensures a.n == b.n && a.m == b.m ==>
      r.n == a.n && r.m == a.m &&
      forall i, j :: 0 <= i < a.n && 0 <= j < a.m ==> r.cells[i][j] == a.cells[i][j] - b.cells[i][j]
    ensures !(a.n == b.n && a.m == b.m) ==> r == Empty()
  {
    if !(b.n == a.n && b.m == a.m) then Empty()
    else Matrix(a.n, a.m, Minus(a.cells, b.cells, a.n, a.m))
  }

  /** `operator*`: defined when the inner dimensions agree (`a.m == b.n`),
      giving `a.n` x `b.m` with entry `(i, j)` the sum over `c < a.m` of
      `a[i][c] * b[c][j]`; otherwise the empty matrix. */
  function Mul(a: Matrix, b: Matrix): (r: Matrix)
    requires Valid(a) && Valid(b)
    ensures Valid(r)
    ensures a.m == b.n ==>
      r.n == a.n && r.m == b.m &&
      forall i, j :: 0 <= i < a.n && 0 <= j < b.m ==> r.cells[i][j] == SumProd(a.cells, b.cells, i, j, a.m)
    ensures a.m != b.n ==> r == Empty()
  {
    if a.m == b.n then Matrix(a.n, b.m, Times(a.cells, b.cells, a.n, a.m, b.m))
    else Empty()
  }

  /** Transposing twice returns the original matrix. */
  lemma TransposeInvolution(a: Matrix)
    requires Valid(a)
    ensures Transposed(Transposed(a)) == a
  {
    TransposeTwice(a.cells, a.n, a.m);
  }

  /** `+` does not depend on the order of its operands. */
  lemma AddCommutes(a: Matrix, b: Matrix)
    requires Valid(a) && Valid(b)
    ensures Add(a, b) == Add(b, a)
  {
    if a.n == b.n && a.m == b.m {
      var x, y := Add(a, b), Add(b, a);
      assert forall i :: 0 <= i < a.n ==> x.cells[i] == y.cells[i];
    }
  }

  /** Subtracting what was added gives the matrix back: `(A + B) - B == A`
      whenever the dimensions match. */
  lemma SubUndoesAdd(a: Matrix, b: Matrix)
    requires Valid(a) && Valid(b) && a.n == b.n && a.m == b.m
    ensures Sub(Add(a, b), b) == a
  {
    var x := Sub(Add(a, b), b);
    assert forall i :: 0 <= i < a.n ==> x.cells[i] == a.cells[i];
  }

  /** The zero matrix built by the constructor is neutral for `+`. */
  lemma NewIsNeutral(a: Matrix)
    requires Valid(a)
    ensures Add(New(a.n, a.m), a) == a
  {
    var x := Add(New(a.n, a.m), a);
    assert forall i :: 0 <= i < a.n ==> x.cells[i] == a.cells[i];
  }
}
