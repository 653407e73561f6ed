/** The `n` x `n` integer matrix of the square-matrix calculator. Its size
    check compares `n` alone; a failed check yields the size-0 matrix. The
    elimination/permutation program repeats these three operators verbatim
    on its own square class, so the same members model both. */
module SquareIntMatrix {
  import opened IntGrid

  datatype Square = Square(n: nat, cells: Grid)

  predicate Valid(a: Square) {
    IsGrid(a.cells, a.n, a.n)
  }

  /** The size-0 matrix returned after "Error: the dimensional problem occurred". */
  function Empty(): Square {
    Square(0, [])
  }

  /** `transposed`: same size, entries mirrored across the diagonal. */
  function Transposed(a: Square): (t: Square)
    requires Valid(a)
    ensures Valid(t) && t.n == a.n
    ensures forall i, j :: 0 <= i < a.n && 0 <= j < a.n ==> t.cells[j][i] == a.cells[i][j]
  {
    Square(a.n, Transpose(a.cells, a.n, a.n))
  }

  /** `operator+`: entrywise on equal sizes, otherwise size 0. */
  function Add(a: Square, b: Square): (r: Square)
    requires Valid(a) && Valid(b)
    ensures Valid(r)
    ensures a.n == b.n ==>
      r.n == a.n &&
      forall i, j :: 0 <= i < a.n && 0 <= j < a.n ==> r.cells[i][j] == a.cells[i][j] + b.cells[i][j]
    ensures a.n != b.n ==> r == Empty()
  {
    if b.n != a.n then Empty() else Square(a.n, Plus(a.cells, b.cells, a.n, a.n))
  }

  /** `operator-`: entrywise on equal sizes, otherwise size 0. */
  function Sub(a: Square, b: Square): (r: Square)
    requires Valid(a) && Valid(b)
    ensures Valid(r)
    ensures a.n == b.n ==>
      r.n == a.n &&
      forall i, j :: 0 <= i < a.n && 0 <= j < a.n ==> r.cells[i][j] == a.cells[i][j] - b.cells[i][j]
    ensures a.n != b.n ==> r == Empty()
  {
    if b.n != a.n then Empty() else Square(a.n, Minus(a.cells, b.cells, a.n, a.n))
  }

  /** `operator*`: on equal sizes entry `(i, j)` is the sum over `c < n` of
      `a[i][c] * b[c][j]`; otherwise size 0. */
  function Mul(a: Square, b: Square): (r: Square)
    requires Valid(a) && Valid(b)
    ensures Valid(r)
    ensures a.n == b.n ==>
      r.n == a.n &&
      forall i, j :: 0 <= i < a.n && 0 <= j < a.n ==> r.cells[i][j] == SumProd(a.cells, b.cells, i, j, a.n)
    ensures a.n != b.n ==> r == Empty()
  {
    if a.n == b.n then Square(a.n, Times(a.cells, b.cells, a.n, a.n, a.n)) else Empty()
  }

  /** Transposition is an involution. */
  lemma TransposeInvolution(a: Square)
    requires Valid(a)
    ensures Transposed(Transposed(a)) == a
  {
    TransposeTwice(a.cells, a.n, a.n);
  }

  /** Because `+` is entrywise, it commutes with transposition: `(A + B)^T == A^T + B^T`. */
  lemma TransposeOfSum(a: Square, b: Square)
    requires Valid(a) && Valid(b) && a.n == b.n
    ensures Transposed(Add(a, b)) == Add(Transposed(a), Transposed(b))
  {
    var x, y := Transposed(Add(a, b)), Add(Transposed(a), Transposed(b));
    assert forall i :: 0 <= i < a.n ==> x.cells[i] == y.cells[i];
  }

  /** Swapping the operands of `-` negates every entry. */
  lemma SubAntisymmetric(a: Square, b: Square)
    requires Valid(a) && Valid(b) && a.n == b.n
    ensures forall i, j :: 0 <= i < a.n && 0 <= j < a.n ==>
      Sub(b, a).cells[i][j] == -Sub(a, b).cells[i][j]
  {
  }

  /** Every operator reports a size mismatch in the same way: the result has size 0. */
  lemma MismatchYieldsEmpty(a: Square, b: Square)
    requires Valid(a) && Valid(b) && a.n != b.n
    ensures Add(a, b).n == 0 && Sub(a, b).n == 0 && Mul(a, b).n == 0
    ensures Add(a, b).cells == [] && Sub(a, b).cells == [] && Mul(a, b).cells == []
  {
  }
}
