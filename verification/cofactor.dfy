/** The determinant by cofactor expansion along the first column: a
    definition that owes nothing to elimination, against which the pivoted
    computation of the determinant program is measured. The row rules that
    elimination relies on are proved from it: exchanging two rows negates
    the determinant, subtracting a multiple of one row from another keeps
    it, and on an upper triangular matrix it is the product of the
    diagonal. */
module Cofactor {
  import opened RealMatrix
  import opened RowOps
  import opened Elimination
  import opened GaussTheory

  /** `(-1)^k x`. */
  function Signed(k: nat, x: real): real {
    if k % 2 == 0 then x else -x
  }

  /** `a` without row `i` and without its first column. */
  function Minor(a: Mat, i: nat): (m: Mat)
    requires IsSquare(a) && i < |a|
    ensures IsSquare(m) && |m| == |a| - 1
    ensures forall k :: 0 <= k < |m| ==> m[k] == a[if k < i then k else k + 1][1..]
  {
    seq(|a| - 1, k requires 0 <= k < |a| - 1 => a[if k < i then k else k + 1][1..])
  }

  /** The determinant: 1 for the empty matrix, otherwise the expansion
      along the first column. */
  function Det(a: Mat): real
    requires IsSquare(a)
    decreases |a|, 3, 0
  {
    if |a| == 0 then 1.0 else Expand(a, |a|)
  }

  /** The sum of the expansion terms of rows `0..m-1`. */
  function Expand(a: Mat, m: nat): real
    requires IsSquare(a) && m <= |a|
    decreases |a|, 2, m
  {
    if m == 0 then 0.0 else Expand(a, m - 1) + Term(a, m - 1)
  }

  /** The expansion term of row `i`, with its sign `(-1)^i`. */
  function Term(a: Mat, i: nat): real
    requires IsSquare(a) && i < |a|
    decreases |a|, 1, 0
  {
    Signed(i, Product(a, i))
  }

  /** The first entry of row `i` times the determinant of its minor. */
  function Product(a: Mat, i: nat): real
    requires IsSquare(a) && i < |a|
    decreases |a|, 0, 0
  {
    a[i][0] * Det(Minor(a, i))
  }

  /** For one row the determinant is the single entry. */
  lemma DetOneByOne(p: real)
    ensures Det([[p]]) == p
  {
    var a := [[p]];
    assert Minor(a, 0) == [];
    assert Det(Minor(a, 0)) == 1.0;
    assert Product(a, 0) == p;
    assert Expand(a, 1) == Expand(a, 0) + Term(a, 0);
  }

  /** For two rows the determinant is `p s - q r`. */
  lemma DetTwoByTwo(p: real, q: real, r: real, s: real)
    ensures Det([[p, q], [r, s]]) == p * s - q * r
  {
    var a := [[p, q], [r, s]];
    assert Minor(a, 0) == [[s]] && Minor(a, 1) == [[q]];
    DetOneByOne(s);
    DetOneByOne(q);
    assert Product(a, 0) == p * s;
    assert Product(a, 1) == r * q;
    assert Term(a, 1) == -(r * q);
    assert Expand(a, 1) == p * s;
    assert Expand(a, 2) == p * s - r * q;
  }

  // ----------------------------------------------------------------------
  // Arithmetic steps, kept apart so that no proof below multiplies

  lemma SignedDifference(i: nat, px: real, py: real, pz: real)
    requires pz == px - py
    ensures Signed(i, pz) == Signed(i, px) - Signed(i, py)
  {
  }

  lemma SignedScaled(i: nat, p: real, pw: real, k: real)
    requires pw == k * p
    ensures Signed(i, pw) == k * Signed(i, p)
  {
  }

  lemma SumScaled(e: real, t: real, ew: real, tw: real, k: real)
    requires ew == k * e && tw == k * t
    ensures ew + tw == k * (e + t)
  {
  }

  lemma SignedNext(k: nat, x: real)
    ensures Signed(k + 1, x) == -Signed(k, x)
  {
  }

  lemma ProductOfNegation(c: real, d: real)
    ensures c * -d == -(c * d)
  {
  }

  lemma RowProductDifference(u: real, v: real, d: real)
    ensures (u - v) * d == u * d - v * d
  {
  }

  lemma MinorProductDifference(c: real, dx: real, dy: real)
    ensures c * (dx - dy) == c * dx - c * dy
  {
  }

  lemma RowProductScaled(u: real, k: real, d: real)
    ensures (k * u) * d == k * (u * d)
  {
  }

  lemma MinorProductScaled(c: real, k: real, d: real)
    ensures c * (k * d) == k * (c * d)
  {
  }

  lemma ProductStep(pa: real, pm: real, c: real, d: real, pa': real, pm': real)
    requires pa == c * pm && pa' == pa * d && pm' == pm * d
    ensures pa' == c * pm'
  {
  }

  // ----------------------------------------------------------------------
  // Linearity in one row

  /** `x`, `y` and `z` agree off row `r`, where `z` is `x - y`. */
  predicate RowDifference(x: Mat, y: Mat, z: Mat, r: nat) {
    IsSquare(x) && IsSquare(y) && IsSquare(z) && |y| == |x| && |z| == |x| && r < |x| &&
    (forall i :: 0 <= i < |x| && i != r ==> y[i] == x[i] && z[i] == x[i]) &&
    z[r] == VSub(x[r], y[r])
  }

  /** `w` is `y` with row `r` multiplied by `k`. */
  predicate RowScaled(y: Mat, w: Mat, r: nat, k: real) {
    IsSquare(y) && IsSquare(w) && |w| == |y| && r < |y| &&
    (forall i :: 0 <= i < |y| && i != r ==> w[i] == y[i]) &&
    w[r] == VScale(k, y[r])
  }

  /** Matrices that differ only in row `i` have the same minor for row `i`. */
  lemma MinorIgnoresRow(a: Mat, b: Mat, i: nat)
    requires IsSquare(a) && IsSquare(b) && |b| == |a| && i < |a|
    requires forall k :: 0 <= k < |a| && k != i ==> a[k] == b[k]
    ensures Minor(a, i) == Minor(b, i)
  {
  }

  lemma MinorRowDifference(x: Mat, y: Mat, z: Mat, r: nat, i: nat)
    requires RowDifference(x, y, z, r) && i < |x| && i != r
    ensures RowDifference(Minor(x, i), Minor(y, i), Minor(z, i), if r < i then r else r - 1)
    ensures z[i][0] == x[i][0] && y[i][0] == x[i][0]
  {
    var r' := if r < i then r else r - 1;
    var mx, my, mz := Minor(x, i), Minor(y, i), Minor(z, i);
    assert mz[r'] == z[r][1..] && mx[r'] == x[r][1..] && my[r'] == y[r][1..];
    SubTail(x[r], y[r]);
  }

  lemma MinorRowScaled(y: Mat, w: Mat, r: nat, k: real, i: nat)
    requires RowScaled(y, w, r, k) && i < |y| && i != r
    ensures RowScaled(Minor(y, i), Minor(w, i), if r < i then r else r - 1, k)
    ensures w[i][0] == y[i][0]
  {
    var r' := if r < i then r else r - 1;
    var my, mw := Minor(y, i), Minor(w, i);
    assert mw[r'] == w[r][1..] && my[r'] == y[r][1..];
    ScaleTail(k, y[r]);
  }

  /** Dropping the first entry commutes with the row operations. */
  lemma SubTail(u: Vec, v: Vec)
    requires |u| == |v| && 0 < |u|
    ensures VSub(u, v)[1..] == VSub(u[1..], v[1..])
  {
    var lhs, rhs := VSub(u, v)[1..], VSub(u[1..], v[1..]);
    forall j | 0 <= j < |lhs|
      ensures lhs[j] == rhs[j]
    {
      assert lhs[j] == u[j + 1] - v[j + 1];
    }
  }

  lemma ScaleTail(k: real, u: Vec)
    requires 0 < |u|
    ensures VScale(k, u)[1..] == VScale(k, u[1..])
  {
    var lhs, rhs := VScale(k, u)[1..], VScale(k, u[1..]);
    forall j | 0 <= j < |lhs|
      ensures lhs[j] == rhs[j]
    {
      assert lhs[j] == k * u[j + 1];
    }
  }

  /** The elimination update is a difference with a scaled row. */
  lemma CombineIsDifference(u: Vec, k: real, v: Vec)
    requires |u| == |v|
    ensures VCombine(u, k, v) == VSub(u, VScale(k, v))
  {
    var lhs, rhs := VCombine(u, k, v), VSub(u, VScale(k, v));
    forall j | 0 <= j < |u|
      ensures lhs[j] == rhs[j]
    {
      assert rhs[j] == u[j] - k * v[j];
    }
  }

  /** The determinant is additive in each row. */
  lemma {:induction false} DetDifference(x: Mat, y: Mat, z: Mat, r: nat)
    requires RowDifference(x, y, z, r)
    ensures Det(z) == Det(x) - Det(y)
    decreases |x|, 3, 0
  {
    ExpandDifference(x, y, z, r, |x|);
  }

  lemma {:induction false} ExpandDifference(x: Mat, y: Mat, z: Mat, r: nat, m: nat)
    requires RowDifference(x, y, z, r) && m <= |x|
    ensures Expand(z, m) == Expand(x, m) - Expand(y, m)
    decreases |x|, 2, m
  {
    if m > 0 {
      ExpandDifference(x, y, z, r, m - 1);
      ProductDifference(x, y, z, r, m - 1);
      SignedDifference(m - 1, Product(x, m - 1), Product(y, m - 1), Product(z, m - 1));
    }
  }

  lemma {:induction false} ProductDifference(x: Mat, y: Mat, z: Mat, r: nat, i: nat)
    requires RowDifference(x, y, z, r) && i < |x|
    ensures Product(z, i) == Product(x, i) - Product(y, i)
    decreases |x|, 0, 0
  {
    if i == r {
      MinorIgnoresRow(x, z, r);
      MinorIgnoresRow(x, y, r);
      RowProductDifference(x[i][0], y[i][0], Det(Minor(x, i)));
    } else {
      MinorRowDifference(x, y, z, r, i);
      DetDifference(Minor(x, i), Minor(y, i), Minor(z, i), if r < i then r else r - 1);
      MinorProductDifference(x[i][0], Det(Minor(x, i)), Det(Minor(y, i)));
    }
  }

  /** Multiplying one row by `k` multiplies the determinant by `k`. */
  lemma {:induction false} DetScaled(y: Mat, w: Mat, r: nat, k: real)
    requires RowScaled(y, w, r, k)
    ensures Det(w) == k * Det(y)
    decreases |y|, 3, 0
  {
    ExpandScaled(y, w, r, k, |y|);
  }

  lemma {:induction false} ExpandScaled(y: Mat, w: Mat, r: nat, k: real, m: nat)
    requires RowScaled(y, w, r, k) && m <= |y|
    ensures Expand(w, m) == k * Expand(y, m)
    decreases |y|, 2, m
  {
    if m == 0 {
      assert k * 0.0 == 0.0;
    } else {
      ExpandScaled(y, w, r, k, m - 1);
      TermScaled(y, w, r, k, m - 1);
      SumScaled(Expand(y, m - 1), Term(y, m - 1), Expand(w, m - 1), Term(w, m - 1), k);
    }
  }

  lemma {:induction false} TermScaled(y: Mat, w: Mat, r: nat, k: real, i: nat)
    requires RowScaled(y, w, r, k) && i < |y|
    ensures Term(w, i) == k * Term(y, i)
    decreases |y|, 1, 0
  {
    ProductScaled(y, w, r, k, i);
    SignedScaled(i, Product(y, i), Product(w, i), k);
  }

  lemma {:induction false} ProductScaled(y: Mat, w: Mat, r: nat, k: real, i: nat)
    requires RowScaled(y, w, r, k) && i < |y|
    ensures Product(w, i) == k * Product(y, i)
    decreases |y|, 0, 0
  {
    if i == r {
      MinorIgnoresRow(y, w, r);
      RowProductScaled(y[i][0], k, Det(Minor(y, i)));
    } else {
      MinorRowScaled(y, w, r, k, i);
      DetScaled(Minor(y, i), Minor(w, i), if r < i then r else r - 1, k);
      MinorProductScaled(y[i][0], k, Det(Minor(y, i)));
    }
  }

  // ----------------------------------------------------------------------
  // Exchanging rows

  /** `b` is `a` with rows `q < w` exchanged. */
  predicate Exchanged(a: Mat, b: Mat, q: nat, w: nat) {
    IsSquare(a) && IsSquare(b) && |b| == |a| && q < w < |a| &&
    b[q] == a[w] && b[w] == a[q] &&
    forall i :: 0 <= i < |a| && i != q && i != w ==> b[i] == a[i]
  }

  /** Removing a row other than the two exchanged ones leaves the exchange
      in place in the minor. */
  lemma MinorExchangedNext(a: Mat, b: Mat, r: nat, i: nat)
    requires Exchanged(a, b, r, r + 1) && i < |a| && i != r && i != r + 1
    ensures Exchanged(Minor(a, i), Minor(b, i), if r < i then r else r - 1, if r < i then r + 1 else r)
    ensures b[i][0] == a[i][0]
  {
  }

  /** Removing one of two adjacent exchanged rows from `b` leaves what
      removing the other leaves from `a`. */
  lemma MinorCross(a: Mat, b: Mat, r: nat)
    requires Exchanged(a, b, r, r + 1)
    ensures Minor(b, r) == Minor(a, r + 1) && Minor(b, r + 1) == Minor(a, r)
  {
  }

  lemma {:induction false} DetExchangeNext(a: Mat, b: Mat, r: nat)
    requires Exchanged(a, b, r, r + 1)
    ensures Det(b) == -Det(a)
    decreases |a|, 3, 0
  {
    ExpandExchangeNext(a, b, r, |a|);
  }

  lemma {:induction false} ExpandExchangeNext(a: Mat, b: Mat, r: nat, m: nat)
    requires Exchanged(a, b, r, r + 1) && m <= |a| && (m <= r || r + 2 <= m)
    ensures Expand(b, m) == -Expand(a, m)
    decreases |a|, 2, m
  {
    if m == r + 2 {
      ExpandExchangeNext(a, b, r, r);
      MinorCross(a, b, r);
      assert Product(b, r) == Product(a, r + 1) && Product(b, r + 1) == Product(a, r);
      SignedNext(r, Product(a, r));
      SignedNext(r, Product(a, r + 1));
      assert Expand(b, m) == Expand(b, r) + Term(b, r) + Term(b, r + 1);
      assert Expand(a, m) == Expand(a, r) + Term(a, r) + Term(a, r + 1);
    } else if m > 0 {
      ExpandExchangeNext(a, b, r, m - 1);
      ProductExchangeNext(a, b, r, m - 1);
    }
  }

  lemma {:induction false} ProductExchangeNext(a: Mat, b: Mat, r: nat, i: nat)
    requires Exchanged(a, b, r, r + 1) && i < |a| && i != r && i != r + 1
    ensures Product(b, i) == -Product(a, i)
    decreases |a|, 0, 0
  {
    MinorExchangedNext(a, b, r, i);
    DetExchangeNext(Minor(a, i), Minor(b, i), if r < i then r else r - 1);
    ProductOfNegation(a[i][0], Det(Minor(a, i)));
  }

  /** Exchanging any two rows negates the determinant: the exchange of `q`
      and `w` is three exchanges of neighbours around the shorter exchange
      of `q + 1` and `w`. */
  lemma {:induction false} DetExchange(a: Mat, b: Mat, q: nat, w: nat)
    requires Exchanged(a, b, q, w)
    ensures Det(b) == -Det(a)
    decreases w - q
  {
    if w == q + 1 {
      DetExchangeNext(a, b, q);
    } else {
      var c1 := SwapRows(a, q, q + 1);
      var c2 := SwapRows(c1, q + 1, w);
      DetExchangeNext(a, c1, q);
      DetExchange(c1, c2, q + 1, w);
      DetExchangeNext(c2, b, q);
    }
  }

  /** A matrix with two equal rows has determinant zero. */
  lemma DetRepeatedRow(a: Mat, q: nat, w: nat)
    requires IsSquare(a) && q < |a| && w < |a| && q != w && a[q] == a[w]
    ensures Det(a) == 0.0
  {
    if q < w {
      DetExchange(a, a, q, w);
    } else {
      DetExchange(a, a, w, q);
    }
  }

  // ----------------------------------------------------------------------
  // The row operations of elimination

  /** Exchanging two distinct rows negates the determinant. */
  lemma DetSwapRows(a: Mat, q: nat, w: nat)
    requires IsSquare(a) && q < |a| && w < |a| && q != w
    ensures Det(SwapRows(a, q, w)) == -Det(a)
  {
    if q < w {
      DetExchange(a, SwapRows(a, q, w), q, w);
    } else {
      DetExchange(a, SwapRows(a, q, w), w, q);
    }
  }

  /** Subtracting a multiple of another row keeps the determinant: the
      result is the input minus a matrix whose row `r` is `k` times row
      `p`, and that matrix is `k` times one with two equal rows. */
  lemma DetEliminateRow(a: Mat, r: nat, p: nat, k: real)
    requires IsSquare(a) && r < |a| && p < |a| && r != p
    ensures Det(EliminateRow(a, r, p, k)) == Det(a)
  {
    var y := a[r := a[p]];
    var w := a[r := VScale(k, a[p])];
    var z := EliminateRow(a, r, p, k);
    CombineIsDifference(a[r], k, a[p]);
    assert RowDifference(a, w, z, r);
    DetDifference(a, w, z, r);
    assert RowScaled(y, w, r, k);
    DetScaled(y, w, r, k);
    DetRepeatedRow(y, r, p);
  }

  // ----------------------------------------------------------------------
  // Triangular matrices

  /** Only the first row contributes to the expansion of an upper
      triangular matrix. */
  lemma {:induction false} ExpandFirstOnly(a: Mat, m: nat)
    requires IsSquare(a) && UpperTriangular(a) && 1 <= m <= |a|
    ensures Expand(a, m) == Term(a, 0)
  {
    if m > 1 {
      ExpandFirstOnly(a, m - 1);
      assert a[m - 1][0] == 0.0;
      assert Product(a, m - 1) == 0.0;
    }
  }

  /** The diagonal product splits into the corner entry and the diagonal
      product of a matrix whose diagonal is the rest of the diagonal. */
  lemma {:induction false} DiagonalProductSplit(a: Mat, m: Mat, k: nat)
    requires IsSquare(a) && IsSquare(m) && k < |a| && k <= |m|
    requires forall i :: 0 <= i < k ==> m[i][i] == a[i + 1][i + 1]
    ensures DiagonalProduct(a, k + 1) == a[0][0] * DiagonalProduct(m, k)
  {
    if k == 0 {
      assert DiagonalProduct(a, 1) == 1.0 * a[0][0];
    } else {
      DiagonalProductSplit(a, m, k - 1);
      DiagonalProductNext(a, k);
      DiagonalProductNext(m, k - 1);
      ProductStep(DiagonalProduct(a, k), DiagonalProduct(m, k - 1), a[0][0], a[k][k],
                  DiagonalProduct(a, k + 1), DiagonalProduct(m, k));
    }
  }

  lemma DiagonalProductNext(a: Mat, k: nat)
    requires IsSquare(a) && k < |a|
    ensures DiagonalProduct(a, k + 1) == DiagonalProduct(a, k) * a[k][k]
  {
  }

  /** On an upper triangular matrix the determinant is the product of the
      diagonal. */
  lemma {:induction false} DetUpperTriangular(a: Mat)
    requires IsSquare(a) && UpperTriangular(a)
    ensures Det(a) == DiagonalProduct(a, |a|)
    decreases |a|
  {
    if |a| > 0 {
      var m := Minor(a, 0);
      MinorUpperTriangular(a);
      DetUpperTriangular(m);
      ExpandFirstOnly(a, |a|);
      forall i | 0 <= i < |m|
        ensures m[i][i] == a[i + 1][i + 1]
      {
      }
      DiagonalProductSplit(a, m, |a| - 1);
      assert Det(a) == Product(a, 0);
    }
  }

  lemma MinorUpperTriangular(a: Mat)
    requires IsSquare(a) && UpperTriangular(a) && 0 < |a|
    ensures UpperTriangular(Minor(a, 0))
  {
    var m := Minor(a, 0);
    forall i, j | 0 <= j < |m| && j < i < |m|
      ensures m[i][j] == 0.0
    {
      assert m[i][j] == a[i + 1][j + 1];
    }
  }
}
