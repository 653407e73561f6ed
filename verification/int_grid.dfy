/** Cell-level arithmetic on integer grids (row-major `seq<seq<int>>`).
    The three integer programs share these definitions; each wraps them in
    its own dimension checks. Dafny's `int` is unbounded, so C++ `int`
    overflow is not modelled. */
module IntGrid {

  type Grid = seq<seq<int>>

  /** `a` has exactly `n` rows of exactly `m` cells each. */
  predicate IsGrid(a: Grid, n: nat, m: nat) {
    |a| == n && forall i :: 0 <= i < n ==> |a[i]| == m
  }

  /** The all-zero `n` x `m` grid (what `vector<vector<int>>(n, vector<int>(m))` holds). */
  function Zeros(n: nat, m: nat): (z: Grid)
    ensures IsGrid(z, n, m)
    ensures forall i, j :: 0 <= i < n && 0 <= j < m ==> z[i][j] == 0
  {
    seq(n, i => seq(m, j => 0))
  }

  /** `t[j][i] == a[i][j]`: the body of both `transposed` loops. */
  function Transpose(a: Grid, n: nat, m: nat): (t: Grid)
    requires IsGrid(a, n, m)
    ensures IsGrid(t, m, n)
  {
    seq(m, j requires 0 <= j < m => seq(n, i requires 0 <= i < n => a[i][j]))
  }

  /** Entrywise sum of two grids of one shape. */
  function Plus(a: Grid, b: Grid, n: nat, m: nat): (s: Grid)
    requires IsGrid(a, n, m) && IsGrid(b, n, m)
    ensures IsGrid(s, n, m)
  {
    seq(n, i requires 0 <= i < n => seq(m, j requires 0 <= j < m => a[i][j] + b[i][j]))
  }

  /** Entrywise difference of two grids of one shape. */
  function Minus(a: Grid, b: Grid, n: nat, m: nat): (s: Grid)
    requires IsGrid(a, n, m) && IsGrid(b, n, m)
    ensures IsGrid(s, n, m)
  {
    seq(n, i requires 0 <= i < n => seq(m, j requires 0 <= j < m => a[i][j] - b[i][j]))
  }

  /** The accumulated value of `temp[i][j] += a[i][c] * b[c][j]` after the
      inner loop has run for `c < k`. */
  function SumProd(a: Grid, b: Grid, i: nat, j: nat, k: nat): int
    requires i < |a| && k <= |a[i]| && k <= |b|
    requires forall c :: 0 <= c < k ==> j < |b[c]|
  {
    if k == 0 then 0 else SumProd(a, b, i, j, k - 1) + a[i][k - 1] * b[k - 1][j]
  }

  /** The `n` x `p` product of an `n` x `m` and an `m` x `p` grid. */
  function Times(a: Grid, b: Grid, n: nat, m: nat, p: nat): (c: Grid)
    requires IsGrid(a, n, m) && IsGrid(b, m, p)
    ensures IsGrid(c, n, p)
  {
    seq(n, i requires 0 <= i < n => seq(p, j requires 0 <= j < p => SumProd(a, b, i, j, m)))
  }

  /** Transposing twice gives back the grid. */
  lemma TransposeTwice(a: Grid, n: nat, m: nat)
    requires IsGrid(a, n, m)
    ensures Transpose(Transpose(a, n, m), m, n) == a
  {
    var tt := Transpose(Transpose(a, n, m), m, n);
    assert forall i :: 0 <= i < n ==> tt[i] == a[i];
  }

  /** When row `i` of `a` is the unit row selecting column `s`, the sum
      picks out `b[s][j]` (or nothing if `s` is outside the summed range). */
  lemma {:induction false} SumProdUnitRow(a: Grid, b: Grid, i: nat, j: nat, k: nat, s: nat)
    requires i < |a| && k <= |a[i]| && k <= |b|
    requires forall c :: 0 <= c < k ==> j < |b[c]|
    requires forall c :: 0 <= c < k ==> a[i][c] == (if c == s then 1 else 0)
    ensures SumProd(a, b, i, j, k) == (if s < k then b[s][j] else 0)
  {
    if k > 0 {
      SumProdUnitRow(a, b, i, j, k - 1, s);
    }
  }

  /** Row `i` of `a` is unit row `i` plus `-el` in column `w` (`w != i`):
      the sum is `b[i][j] - el * b[w][j]` once both columns are summed. */
  lemma {:induction false} SumProdEliminationRow(a: Grid, b: Grid, i: nat, j: nat, k: nat, w: nat, el: int)
    requires i < |a| && k <= |a[i]| && k <= |b| && w != i
    requires forall c :: 0 <= c < k ==> j < |b[c]|
    requires forall c :: 0 <= c < k ==> a[i][c] == (if c == i then 1 else if c == w then -el else 0)
    ensures SumProd(a, b, i, j, k) ==
      (if i < k then b[i][j] else 0) + (if w < k then -el * b[w][j] else 0)
  {
    if k > 0 {
      SumProdEliminationRow(a, b, i, j, k - 1, w, el);
    }
  }
}
