/** Dense real matrices and vectors. The floating-point programs compute in
    `double`; this model computes in Dafny's exact `real`, so rounding,
    NaN and infinities are not represented. */
module RealMatrix {

  type Vec = seq<real>
  type Mat = seq<seq<real>>

  function Abs(x: real): real {
    if x < 0.0 then -x else x
  }

  /** `a` has exactly `n` rows of exactly `m` entries each. */
  predicate IsMat(a: Mat, n: nat, m: nat) {
    |a| == n && forall i :: 0 <= i < n ==> |a[i]| == m
  }

  predicate IsSquare(a: Mat) {
    IsMat(a, |a|, |a|)
  }

  /** Number of columns, read off the first row. */
  function Width(a: Mat): nat {
    if |a| == 0 then 0 else |a[0]|
  }

  /** Every row has the same length. */
  predicate Rect(a: Mat) {
    IsMat(a, |a|, Width(a))
  }

  /** Sum of `u[c] * v[c]`, accumulated from the first index upward. */
  function Dot(u: Vec, v: Vec): real
    requires |u| == |v|
    decreases |u|
  {
    if |u| == 0 then 0.0 else Dot(u[..|u| - 1], v[..|v| - 1]) + u[|u| - 1] * v[|v| - 1]
  }

  /** Sum of the entries, from the first upward. */
  function Sum(w: Vec): real
    decreases |w|
  {
    if |w| == 0 then 0.0 else Sum(w[..|w| - 1]) + w[|w| - 1]
  }

  function Column(b: Mat, j: nat): (col: Vec)
    requires forall c :: 0 <= c < |b| ==> j < |b[c]|
    ensures |col| == |b|
  {
    seq(|b|, c requires 0 <= c < |b| => b[c][j])
  }

  /** One row of a product: `r` times the `|r|` x `m` matrix `b`. */
  function RowTimes(r: Vec, b: Mat, m: nat): (s: Vec)
    requires IsMat(b, |r|, m)
    ensures |s| == m
  {
    seq(m, j requires 0 <= j < m => Dot(r, Column(b, j)))
  }

  /** Matrix product; the number of columns is taken from `b`. */
  function Mul(a: Mat, b: Mat): (c: Mat)
    requires Rect(b) && forall i :: 0 <= i < |a| ==> |a[i]| == |b|
    ensures IsMat(c, |a|, Width(b))
  {
    seq(|a|, i requires 0 <= i < |a| => RowTimes(a[i], b, Width(b)))
  }

  /** Matrix times column vector. */
  function MatVec(a: Mat, v: Vec): (w: Vec)
    requires forall i :: 0 <= i < |a| ==> |a[i]| == |v|
    ensures |w| == |a|
  {
    seq(|a|, i requires 0 <= i < |a| => Dot(a[i], v))
  }

  function Identity(n: nat): (e: Mat)
    ensures IsMat(e, n, n)
  {
    seq(n, i => seq(n, j => if i == j then 1.0 else 0.0))
  }

  function ZeroVec(n: nat): (z: Vec)
    ensures |z| == n
  {
    seq(n, i => 0.0)
  }

  /** Entrywise vector sum and difference. */
  function VAdd(u: Vec, v: Vec): (w: Vec)
    requires |u| == |v|
    ensures |w| == |u|
  {
    seq(|u|, i requires 0 <= i < |u| => u[i] + v[i])
  }

  function VSub(u: Vec, v: Vec): (w: Vec)
    requires |u| == |v|
    ensures |w| == |u| && forall i :: 0 <= i < |u| ==> w[i] + v[i] == u[i]
  {
    seq(|u|, i requires 0 <= i < |u| => u[i] - v[i])
  }

  function VScale(k: real, u: Vec): (w: Vec)
    ensures |w| == |u|
  {
    seq(|u|, i requires 0 <= i < |u| => k * u[i])
  }

  /** `u - k w`: the row update of one elimination step. */
  function VCombine(u: Vec, k: real, w: Vec): (x: Vec)
    requires |u| == |w|
    ensures |x| == |u|
  {
    seq(|u|, j requires 0 <= j < |u| => u[j] - k * w[j])
  }

  /** `u / d`: the row update of diagonal normalization. */
  function VDiv(u: Vec, d: real): (x: Vec)
    requires d != 0.0
    ensures |x| == |u|
  {
    seq(|u|, j requires 0 <= j < |u| => u[j] / d)
  }

  /** Entrywise matrix sum and difference of two `n` x `m` matrices. */
  function MAdd(a: Mat, b: Mat): (c: Mat)
    requires Rect(a) && IsMat(b, |a|, Width(a))
    ensures IsMat(c, |a|, Width(a))
  {
    seq(|a|, i requires 0 <= i < |a| => VAdd(a[i], b[i]))
  }

  function MSub(a: Mat, b: Mat): (c: Mat)
    requires Rect(a) && IsMat(b, |a|, Width(a))
    ensures IsMat(c, |a|, Width(a))
    ensures forall i, j :: 0 <= i < |a| && 0 <= j < Width(a) ==> c[i][j] + b[i][j] == a[i][j]
  {
    seq(|a|, i requires 0 <= i < |a| => VSub(a[i], b[i]))
  }

  /** A vector as an `n` x 1 matrix. */
  function ToColumn(v: Vec): (c: Mat)
    ensures IsMat(c, |v|, 1)
  {
    seq(|v|, i requires 0 <= i < |v| => [v[i]])
  }

  // ---------------------------------------------------------------------
  // Algebra of `Dot`

  lemma {:induction false} DotSplitLast(u: Vec, v: Vec)
    requires |u| == |v| && |u| > 0
    ensures Dot(u, v) == Dot(u[..|u| - 1], v[..|v| - 1]) + u[|u| - 1] * v[|v| - 1]
  {
  }

  lemma {:induction false} DotCommutes(u: Vec, v: Vec)
    requires |u| == |v|
    ensures Dot(u, v) == Dot(v, u)
    decreases |u|
  {
    if |u| > 0 {
      DotCommutes(u[..|u| - 1], v[..|v| - 1]);
    }
  }

  /** The dot product with the `s`-th unit vector picks out entry `s`. */
  lemma {:induction false} DotUnit(u: Vec, e: Vec, s: nat)
    requires |u| == |e| && s < |u|
    requires forall c :: 0 <= c < |e| ==> e[c] == (if c == s then 1.0 else 0.0)
    ensures Dot(u, e) == u[s]
  {
    DotUnitPrefix(u, e, s, |u|);
    assert u[..|u|] == u && e[..|e|] == e;
  }

  lemma {:induction false} DotUnitPrefix(u: Vec, e: Vec, s: nat, k: nat)
    requires |u| == |e| && k <= |u|
    requires forall c :: 0 <= c < |e| ==> e[c] == (if c == s then 1.0 else 0.0)
    ensures Dot(u[..k], e[..k]) == (if s < k then u[s] else 0.0)
  {
    if k > 0 {
      DotUnitPrefix(u, e, s, k - 1);
      assert u[..k][..k - 1] == u[..k - 1] && e[..k][..k - 1] == e[..k - 1];
    }
  }

  /** When every product but the `i`-th vanishes, only that one remains. */
  lemma {:induction false} DotOnly(u: Vec, v: Vec, i: nat)
    requires |u| == |v| && i < |u|
    requires forall j :: 0 <= j < |u| && j != i ==> u[j] == 0.0 || v[j] == 0.0
    ensures Dot(u, v) == u[i] * v[i]
  {
    DotOnlyPrefix(u, v, i, |u|);
    assert u[..|u|] == u && v[..|v|] == v;
  }

  lemma {:induction false} DotOnlyPrefix(u: Vec, v: Vec, i: nat, k: nat)
    requires |u| == |v| && k <= |u|
    requires forall j :: 0 <= j < |u| && j != i ==> u[j] == 0.0 || v[j] == 0.0
    ensures Dot(u[..k], v[..k]) == (if i < k then u[i] * v[i] else 0.0)
  {
    if k > 0 {
      DotOnlyPrefix(u, v, i, k - 1);
      assert u[..k][..k - 1] == u[..k - 1] && v[..k][..k - 1] == v[..k - 1];
    }
  }

  /** Changing entry `i` of `v` to `t` moves the dot product by `u[i] * (t - v[i])`. */
  lemma {:induction false} DotUpdate(u: Vec, v: Vec, i: nat, t: real)
    requires |u| == |v| && i < |u|
    ensures Dot(u, v[i := t]) == Dot(u, v) + u[i] * (t - v[i])
    decreases |u|
  {
    var n := |u| - 1;
    var w := v[i := t];
    if i == n {
      assert w[..n] == v[..n];
    } else {
      assert w[..n] == v[..n][i := t];
      DotUpdate(u[..n], v[..n], i, t);
    }
  }

  /** `Dot` is linear in its first argument: `(u - k w) . v == u . v - k (w . v)`. */
  lemma {:induction false} DotCombine(u: Vec, k: real, w: Vec, v: Vec)
    requires |u| == |w| == |v|
    ensures Dot(VCombine(u, k, w), v) == Dot(u, v) - k * Dot(w, v)
    decreases |u|
  {
    if |u| > 0 {
      var n := |u| - 1;
      var x := VCombine(u, k, w);
      DotCombine(u[..n], k, w[..n], v[..n]);
      assert forall j :: 0 <= j < n ==> x[..n][j] == VCombine(u[..n], k, w[..n])[j];
      assert x[..n] == VCombine(u[..n], k, w[..n]);
      assert x[n] * v[n] == u[n] * v[n] - k * (w[n] * v[n]);
    }
  }

  /** `(u / d) . v == (u . v) / d`. */
  lemma {:induction false} DotDiv(u: Vec, d: real, v: Vec)
    requires |u| == |v| && d != 0.0
    ensures Dot(VDiv(u, d), v) == Dot(u, v) / d
    decreases |u|
  {
    if |u| > 0 {
      var n := |u| - 1;
      var x := VDiv(u, d);
      DotDiv(u[..n], d, v[..n]);
      assert forall j :: 0 <= j < n ==> x[..n][j] == VDiv(u[..n], d)[j];
      assert x[..n] == VDiv(u[..n], d);
      assert x[n] * v[n] == (u[n] * v[n]) / d;
    }
  }

  /** `Dot` is additive in its second argument. */
  lemma {:induction false} DotAddRight(u: Vec, v: Vec, w: Vec)
    requires |u| == |v| == |w|
    ensures Dot(u, VAdd(v, w)) == Dot(u, v) + Dot(u, w)
    decreases |u|
  {
    if |u| > 0 {
      var n := |u| - 1;
      DotAddRight(u[..n], v[..n], w[..n]);
      assert VAdd(v, w)[..n] == VAdd(v[..n], w[..n]);
    }
  }

  /** `Dot` is additive in its first argument. */
  lemma DotAddLeft(u: Vec, v: Vec, w: Vec)
    requires |u| == |v| == |w|
    ensures Dot(VAdd(u, v), w) == Dot(u, w) + Dot(v, w)
  {
    DotCommutes(VAdd(u, v), w);
    DotCommutes(u, w);
    DotCommutes(v, w);
    DotAddRight(w, u, v);
  }

  /** `Dot` distributes over a difference in its first argument. */
  lemma {:induction false} DotSubLeft(u: Vec, v: Vec, w: Vec)
    requires |u| == |v| == |w|
    ensures Dot(VSub(u, v), w) == Dot(u, w) - Dot(v, w)
    decreases |u|
  {
    if |u| > 0 {
      var n := |u| - 1;
      DotSubLeft(u[..n], v[..n], w[..n]);
      assert VSub(u, v)[..n] == VSub(u[..n], v[..n]);
    }
  }

  lemma {:induction false} DotZeroLeft(u: Vec, v: Vec)
    requires |u| == |v|
    requires forall c :: 0 <= c < |u| ==> u[c] == 0.0
    ensures Dot(u, v) == 0.0
    decreases |u|
  {
    if |u| > 0 {
      DotZeroLeft(u[..|u| - 1], v[..|v| - 1]);
    }
  }

  // ---------------------------------------------------------------------
  // Algebra of products

  /** `I * b == b`. */
  lemma IdentityTimes(b: Mat)
    requires Rect(b)
    ensures Mul(Identity(|b|), b) == b
  {
    var e := Identity(|b|);
    var r := Mul(e, b);
    forall i, j | 0 <= i < |b| && 0 <= j < Width(b)
      ensures r[i][j] == b[i][j]
    {
      DotCommutes(e[i], Column(b, j));
      DotUnit(Column(b, j), e[i], i);
    }
    assert forall i :: 0 <= i < |b| ==> r[i] == b[i];
  }

  /** `a * I == a`. */
  lemma TimesIdentity(a: Mat, m: nat)
    requires IsMat(a, |a|, m)
    ensures Mul(a, Identity(m)) == a
  {
    var e := Identity(m);
    var r := Mul(a, e);
    assert Width(e) == m;
    forall i, j | 0 <= i < |a| && 0 <= j < m
      ensures r[i][j] == a[i][j]
    {
      DotUnit(a[i], Column(e, j), j);
    }
    assert forall i :: 0 <= i < |a| ==> r[i] == a[i];
  }

  /** `I v == v`. */
  lemma IdentityMatVec(v: Vec)
    ensures MatVec(Identity(|v|), v) == v
  {
    var e := Identity(|v|);
    forall i | 0 <= i < |v|
      ensures MatVec(e, v)[i] == v[i]
    {
      DotCommutes(e[i], v);
      DotUnit(v, e[i], i);
    }
  }

  /** A product with a column vector is the column of `MatVec`. */
  lemma MulColumn(a: Mat, v: Vec)
    requires IsMat(a, |a|, |v|) && (|v| > 0 || |a| == 0)
    ensures Mul(a, ToColumn(v)) == ToColumn(MatVec(a, v))
  {
    var c := ToColumn(v);
    var r := Mul(a, c);
    var w := ToColumn(MatVec(a, v));
    if |v| > 0 {
      assert Width(c) == 1;
      assert Column(c, 0) == v;
      assert forall i :: 0 <= i < |a| ==> r[i] == w[i];
    }
  }

  lemma ToColumnInjective(u: Vec, v: Vec)
    requires ToColumn(u) == ToColumn(v)
    ensures u == v
  {
    assert |u| == |ToColumn(u)| == |v|;
    forall i | 0 <= i < |u| ensures u[i] == v[i] {
      assert ToColumn(u)[i] == [u[i]];
    }
  }

  /** Row `r` times `b`, after dropping the last entry of `r` and the last
      row of `b`, plus the dropped entry times the dropped row. */
  lemma RowTimesSplitLast(r: Vec, b: Mat, m: nat)
    requires IsMat(b, |r|, m) && |r| > 0
    ensures var n := |r| - 1;
      RowTimes(r, b, m) == VAdd(RowTimes(r[..n], b[..n], m), VScale(r[n], b[n]))
  {
    var n := |r| - 1;
    var lhs := RowTimes(r, b, m);
    var rhs := VAdd(RowTimes(r[..n], b[..n], m), VScale(r[n], b[n]));
    forall j | 0 <= j < m
      ensures lhs[j] == rhs[j]
    {
      assert Column(b, j)[..n] == Column(b[..n], j);
    }
  }

  lemma {:induction false} DotScale(k: real, row: Vec, x: Vec)
    requires |row| == |x|
    ensures Dot(VScale(k, row), x) == k * Dot(row, x)
    decreases |row|
  {
    if |row| > 0 {
      var n := |row| - 1;
      DotScale(k, row[..n], x[..n]);
      assert forall j :: 0 <= j < n ==> VScale(k, row)[..n][j] == VScale(k, row[..n])[j];
      assert VScale(k, row)[..n] == VScale(k, row[..n]);
      assert VScale(k, row)[n] * x[n] == k * (row[n] * x[n]);
    }
  }

  /** The first `n` entries of `b x` come from the first `n` rows of `b`. */
  lemma MatVecPrefix(b: Mat, x: Vec, n: nat)
    requires IsMat(b, |b|, |x|) && n < |b|
    ensures MatVec(b, x)[..n] == MatVec(b[..n], x) && MatVec(b, x)[n] == Dot(b[n], x)
  {
    assert forall i :: 0 <= i < n ==> MatVec(b, x)[..n][i] == MatVec(b[..n], x)[i];
  }

  /** Associativity at the level of one row: `(r b) . x == r . (b x)`. */
  lemma {:induction false} RowTimesDot(r: Vec, b: Mat, m: nat, x: Vec)
    requires IsMat(b, |r|, m) && |x| == m
    ensures Dot(RowTimes(r, b, m), x) == Dot(r, MatVec(b, x))
    decreases |r|
  {
    if |r| == 0 {
      DotZeroLeft(RowTimes(r, b, m), x);
    } else {
      var n := |r| - 1;
      var p := RowTimes(r[..n], b[..n], m);
      var q := VScale(r[n], b[n]);
      var bx := MatVec(b, x);
      calc {
        Dot(RowTimes(r, b, m), x);
        { RowTimesSplitLast(r, b, m); }
        Dot(VAdd(p, q), x);
        { DotAddLeft(p, q, x); }
        Dot(p, x) + Dot(q, x);
        { RowTimesDot(r[..n], b[..n], m, x); DotScale(r[n], b[n], x); }
        Dot(r[..n], MatVec(b[..n], x)) + r[n] * Dot(b[n], x);
        { MatVecPrefix(b, x, n); }
        Dot(r[..n], bx[..n]) + r[n] * bx[n];
        { DotSplitLast(r, bx); }
        Dot(r, bx);
      }
    }
  }

  /** `(a b) x == a (b x)`. */
  lemma MulMatVecAssoc(a: Mat, b: Mat, x: Vec)
    requires Rect(b) && |x| == Width(b) && IsMat(a, |a|, |b|)
    ensures MatVec(Mul(a, b), x) == MatVec(a, MatVec(b, x))
  {
    forall i | 0 <= i < |a|
      ensures MatVec(Mul(a, b), x)[i] == MatVec(a, MatVec(b, x))[i]
    {
      RowTimesDot(a[i], b, Width(b), x);
    }
  }

  /** Column `j` of a product is the left factor times column `j`. */
  lemma ColumnOfMul(b: Mat, c: Mat, j: nat)
    requires Rect(c) && IsMat(b, |b|, |c|) && j < Width(c)
    ensures Column(Mul(b, c), j) == MatVec(b, Column(c, j))
  {
  }

  /** `(a b) c == a (b c)`. */
  lemma MulAssoc(a: Mat, b: Mat, c: Mat)
    requires Rect(c) && Rect(b) && Width(b) == |c| && IsMat(a, |a|, |b|)
    ensures Mul(Mul(a, b), c) == Mul(a, Mul(b, c))
  {
    var lhs := Mul(Mul(a, b), c);
    var rhs := Mul(a, Mul(b, c));
    var m := Width(c);
    forall i, j | 0 <= i < |a| && 0 <= j < m
      ensures lhs[i][j] == rhs[i][j]
    {
      RowTimesDot(a[i], b, Width(b), Column(c, j));
      ColumnOfMul(b, c, j);
    }
    assert forall i :: 0 <= i < |a| ==> lhs[i] == rhs[i];
  }

  /** `a (u + v) == a u + a v`. */
  lemma MatVecAdd(a: Mat, u: Vec, v: Vec)
    requires IsMat(a, |a|, |u|) && |u| == |v|
    ensures MatVec(a, VAdd(u, v)) == VAdd(MatVec(a, u), MatVec(a, v))
  {
    forall i | 0 <= i < |a|
      ensures MatVec(a, VAdd(u, v))[i] == VAdd(MatVec(a, u), MatVec(a, v))[i]
    {
      DotAddRight(a[i], u, v);
    }
  }

  /** `(a + b) x == a x + b x`. */
  lemma MAddMatVec(a: Mat, b: Mat, x: Vec)
    requires IsMat(a, |a|, |x|) && IsMat(b, |a|, |x|)
    ensures MatVec(MAdd(a, b), x) == VAdd(MatVec(a, x), MatVec(b, x))
  {
    forall i | 0 <= i < |a|
      ensures MatVec(MAdd(a, b), x)[i] == VAdd(MatVec(a, x), MatVec(b, x))[i]
    {
      DotAddLeft(a[i], b[i], x);
    }
  }

  /** `(a - b) x == a x - b x`. */
  lemma MSubMatVec(a: Mat, b: Mat, x: Vec)
    requires IsMat(a, |a|, |x|) && IsMat(b, |a|, |x|)
    ensures MatVec(MSub(a, b), x) == VSub(MatVec(a, x), MatVec(b, x))
  {
    forall i | 0 <= i < |a|
      ensures MatVec(MSub(a, b), x)[i] == VSub(MatVec(a, x), MatVec(b, x))[i]
    {
      DotSubLeft(a[i], b[i], x);
    }
  }

  /** `a (u - v) == a u - a v`. */
  lemma MatVecSub(a: Mat, u: Vec, v: Vec)
    requires IsMat(a, |a|, |u|) && |u| == |v|
    ensures MatVec(a, VSub(u, v)) == VSub(MatVec(a, u), MatVec(a, v))
  {
    forall i | 0 <= i < |a|
      ensures MatVec(a, VSub(u, v))[i] == VSub(MatVec(a, u), MatVec(a, v))[i]
    {
      DotCommutes(a[i], VSub(u, v));
      DotSubLeft(u, v, a[i]);
      DotCommutes(u, a[i]);
      DotCommutes(v, a[i]);
    }
  }

  /** Vector `-` undoes vector `+`, and `+` undoes `-`. */
  lemma AddSubCancel(u: Vec, v: Vec)
    requires |u| == |v|
    ensures VSub(VAdd(u, v), v) == u && VAdd(VSub(u, v), v) == u
  {
    var s, d := VAdd(u, v), VSub(u, v);
    assert forall i :: 0 <= i < |u| ==> s[i] == u[i] + v[i] && d[i] == u[i] - v[i];
    assert forall i :: 0 <= i < |u| ==> VSub(s, v)[i] == u[i] && VAdd(d, v)[i] == u[i];
  }

  /** With a two-sided inverse `r` of `m`, `y == r z` exactly when `m y == z`. */
  lemma InverseApply(m: Mat, r: Mat, y: Vec, z: Vec)
    requires IsMat(m, |y|, |y|) && IsMat(r, |y|, |y|) && |z| == |y|
    requires Mul(r, m) == Identity(|y|) && Mul(m, r) == Identity(|y|)
    ensures y == MatVec(r, z) <==> MatVec(m, y) == z
  {
    if y == MatVec(r, z) {
      MulMatVecAssoc(m, r, z);
      IdentityMatVec(z);
    }
    if MatVec(m, y) == z {
      MulMatVecAssoc(r, m, y);
      IdentityMatVec(y);
    }
  }
}
