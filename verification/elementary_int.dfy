/** Identity, elimination and permutation matrices of the integer
    elimination/permutation program, built as plain square matrices.
    Indices passed to `MakeElimination`, `Change` and `MakePermutation`
    are 1-based, as in the program. */
module ElementaryInt {
  import opened IntGrid
  import opened SquareIntMatrix

  /** C++ integer division: the quotient is truncated toward zero, so the
      remainder is either zero or carries the sign of the dividend. (Dafny's
      own `/` is Euclidean and differs for negative operands.) */
  function TruncDiv(a: int, b: int): (q: int)
    requires b != 0
    ensures var r := a - q * b;
      (if r < 0 then -r else r) < (if b < 0 then -b else b) &&
      (r == 0 || (r < 0 <==> a < 0))
  {
    var ua := if a < 0 then -a else a;
    var ub := if b < 0 then -b else b;
    var q0 := ua / ub;
    assert ua == q0 * ub + ua % ub;
    if (a < 0) == (b < 0) then
      assert a - q0 * b == (if a < 0 then -(ua % ub) else ua % ub);
      q0
    else
      assert a - (-q0) * b == (if a < 0 then -(ua % ub) else ua % ub);
      -q0
  }

  /** `IdentityMatrix(n)`: ones on the diagonal, zeros elsewhere. */
  function Identity(n: nat): (e: Square)
    ensures Valid(e) && e.n == n
    ensures forall i, j :: 0 <= i < n && 0 <= j < n ==> e.cells[i][j] == (if i == j then 1 else 0)
  {
    Square(n, seq(n, i => seq(n, j => if i == j then 1 else 0)))
  }

  /** `makeElimination(q, w, el)`: the identity with `-el` written at the
      1-based position `(q, w)` (written last, so it wins on the diagonal). */
  function MakeElimination(n: nat, q: nat, w: nat, el: int): (e: Square)
    requires 1 <= q <= n && 1 <= w <= n
    ensures Valid(e) && e.n == n
    ensures e.cells[q - 1][w - 1] == -el
    ensures forall i, j :: 0 <= i < n && 0 <= j < n && (i != q - 1 || j != w - 1) ==>
      e.cells[i][j] == if i == j then 1 else 0
  {
    Square(n, seq(n, i => seq(n, j => if i == q - 1 && j == w - 1 then -el else if i == j then 1 else 0)))
  }

  /** `change(q, w)`: the multiplier that clears the 1-based entry `(q, w)`,
      i.e. that entry divided (truncating) by the diagonal entry of the
      smaller index. C++ division by zero is undefined, hence the requirement. */
  function Change(a: Square, q: nat, w: nat): (el: int)
    requires Valid(a) && 1 <= q <= a.n && 1 <= w <= a.n
    requires (if q < w then a.cells[q - 1][q - 1] else a.cells[w - 1][w - 1]) != 0
    ensures var d := if q < w then a.cells[q - 1][q - 1] else a.cells[w - 1][w - 1];
      var r := a.cells[q - 1][w - 1] - el * d;
      (if r < 0 then -r else r) < (if d < 0 then -d else d) &&
      (r == 0 || (r < 0 <==> a.cells[q - 1][w - 1] < 0))
  {
    if q - 1 < w - 1 then TruncDiv(a.cells[q - 1][w - 1], a.cells[q - 1][q - 1])
    else TruncDiv(a.cells[q - 1][w - 1], a.cells[w - 1][w - 1])
  }

  /** `makePermutation(q, w)`: swap the 1-based rows `q` and `w`. */
  function MakePermutation(a: Square, q: nat, w: nat): (p: Square)
    requires Valid(a) && 1 <= q <= a.n && 1 <= w <= a.n
    ensures Valid(p) && p.n == a.n
    ensures p.cells[q - 1] == a.cells[w - 1] && p.cells[w - 1] == a.cells[q - 1]
    ensures forall i :: 0 <= i < a.n && i != q - 1 && i != w - 1 ==> p.cells[i] == a.cells[i]
  {
    Square(a.n, a.cells[q - 1 := a.cells[w - 1]][w - 1 := a.cells[q - 1]])
  }

  /** `I * A == A` for every `n` x `n` matrix `A`. */
  lemma IdentityLeft(a: Square)
    requires Valid(a)
    ensures Mul(Identity(a.n), a) == a
  {
    var e := Identity(a.n);
    var r := Mul(e, a);
    forall i, j | 0 <= i < a.n && 0 <= j < a.n
      ensures r.cells[i][j] == a.cells[i][j]
    {
      SumProdUnitRow(e.cells, a.cells, i, j, a.n, i);
    }
    assert forall i :: 0 <= i < a.n ==> r.cells[i] == a.cells[i];
  }

  /** For `q != w`, `E * A` subtracts `el` times row `w` from row `q`
      (1-based) and leaves every other row as it was. */
  lemma EliminationRowOp(a: Square, q: nat, w: nat, el: int)
    requires Valid(a) && 1 <= q <= a.n && 1 <= w <= a.n && q != w
    ensures Mul(MakeElimination(a.n, q, w, el), a).cells ==
      a.cells[q - 1 := seq(a.n, j requires 0 <= j < a.n => a.cells[q - 1][j] - el * a.cells[w - 1][j])]
  {
    var r := Mul(MakeElimination(a.n, q, w, el), a);
    var want := a.cells[q - 1 := seq(a.n, j requires 0 <= j < a.n => a.cells[q - 1][j] - el * a.cells[w - 1][j])];
    forall i | 0 <= i < a.n
      ensures r.cells[i] == want[i]
    {
      forall j | 0 <= j < a.n
        ensures r.cells[i][j] == want[i][j]
      {
        EliminationEntry(a, q, w, el, i, j);
      }
    }
  }

  /** One entry of `E * A`: row `q - 1` combines two rows of `A`, every
      other row is copied. */
  lemma EliminationEntry(a: Square, q: nat, w: nat, el: int, i: nat, j: nat)
    requires Valid(a) && 1 <= q <= a.n && 1 <= w <= a.n && q != w && i < a.n && j < a.n
    ensures Mul(MakeElimination(a.n, q, w, el), a).cells[i][j] ==
      if i == q - 1 then a.cells[q - 1][j] - el * a.cells[w - 1][j] else a.cells[i][j]
  {
    var e := MakeElimination(a.n, q, w, el);
    if i == q - 1 {
      SumProdEliminationRow(e.cells, a.cells, i, j, a.n, w - 1, el);
    } else {
      SumProdUnitRow(e.cells, a.cells, i, j, a.n, i);
    }
  }

  /** The program's use of the multiplier: with `el = change(2, 1)` and
      `a[0][0]` dividing `a[1][0]`, the product `E21 * A` has a zero at (1, 0). */
  lemma ChangeClearsEntry(a: Square)
    requires Valid(a) && a.n >= 2 && a.cells[0][0] != 0
    requires a.cells[1][0] % a.cells[0][0] == 0
    ensures Mul(MakeElimination(a.n, 2, 1, Change(a, 2, 1)), a).cells[1][0] == 0
  {
    var el := Change(a, 2, 1);
    ExactQuotient(a.cells[1][0], a.cells[0][0], el);
    EliminationRowOp(a, 2, 1, el);
  }

  /** When `d` divides `x`, a multiplier that leaves a remainder smaller
      than `|d|` leaves none at all. */
  lemma ExactQuotient(x: int, d: int, el: int)
    requires d != 0 && x % d == 0
    requires var r := x - el * d; (if r < 0 then -r else r) < (if d < 0 then -d else d)
    ensures x - el * d == 0
  {
    var m := x / d;
    assert x == m * d;
    // The remainder `x - el * d` is a multiple of `d` smaller than `|d|`, so it is zero.
    assert x - el * d == (m - el) * d;
    SmallMultipleIsZero(x - el * d, d, m - el);
  }

  /** A multiple of `d` whose magnitude is below `|d|` is zero. */
  lemma SmallMultipleIsZero(r: int, d: int, t: int)
    requires d != 0 && r == t * d
    requires (if r < 0 then -r else r) < (if d < 0 then -d else d)
    ensures r == 0
  {
  }

  /** With the identity as its starting array, the permutation matrix swaps
      the same two rows of `A` when multiplied on the left. */
  lemma PermutationSwapsRows(a: Square, q: nat, w: nat)
    requires Valid(a) && 1 <= q <= a.n && 1 <= w <= a.n
    ensures Mul(MakePermutation(Identity(a.n), q, w), a) == MakePermutation(a, q, w)
  {
    var p := MakePermutation(Identity(a.n), q, w);
    var r := Mul(p, a);
    var want := MakePermutation(a, q, w);
    forall i, j | 0 <= i < a.n && 0 <= j < a.n
      ensures r.cells[i][j] == want.cells[i][j]
    {
      var s := if i == w - 1 then q - 1 else if i == q - 1 then w - 1 else i;
      SumProdUnitRow(p.cells, a.cells, i, j, a.n, s);
    }
    assert forall i :: 0 <= i < a.n ==> r.cells[i] == want.cells[i];
  }

  /** Making the same permutation twice restores the matrix. */
  lemma PermutationInvolution(a: Square, q: nat, w: nat)
    requires Valid(a) && 1 <= q <= a.n && 1 <= w <= a.n
    ensures MakePermutation(MakePermutation(a, q, w), q, w) == a
  {
    var b := MakePermutation(MakePermutation(a, q, w), q, w);
    assert forall i :: 0 <= i < a.n ==> b.cells[i] == a.cells[i];
  }
}
