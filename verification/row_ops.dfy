/** The three elementary row operations the elimination engine performs,
    and traces of them. Every operation commutes with multiplication on the
    right and can be undone, which is what makes the engine's "apply the same
    operation to the companion" design correct. */
module RowOps {
  import opened RealMatrix

  datatype RowOp =
    | Swap(q: nat, w: nat)                        // exchange rows `q` and `w`
    | Eliminate(row: nat, pivot: nat, k: real)    // row `row` -= k * row `pivot`
    | Divide(row: nat, d: real)                   // row `row` /= d

  predicate ValidOp(op: RowOp, n: nat) {
    match op
    case Swap(q, w) => q < n && w < n
    case Eliminate(r, p, _) => r < n && p < n && r != p
    case Divide(r, d) => r < n && d != 0.0
  }

  predicate ValidTrace(t: seq<RowOp>, n: nat) {
    forall i :: 0 <= i < |t| ==> ValidOp(t[i], n)
  }

  function SwapRows(a: Mat, q: nat, w: nat): (b: Mat)
    requires q < |a| && w < |a|
    ensures |b| == |a| && b[q] == a[w] && b[w] == a[q]
    ensures forall i :: 0 <= i < |a| && i != q && i != w ==> b[i] == a[i]
  {
    if q == w then a else a[q := a[w]][w := a[q]]
  }

  function EliminateRow(a: Mat, r: nat, p: nat, k: real): (b: Mat)
    requires r < |a| && p < |a| && |a[r]| == |a[p]|
    ensures |b| == |a| && b[r] == VCombine(a[r], k, a[p])
    ensures forall i :: 0 <= i < |a| && i != r ==> b[i] == a[i]
  {
    a[r := VCombine(a[r], k, a[p])]
  }

  function DivideRow(a: Mat, r: nat, d: real): (b: Mat)
    requires r < |a| && d != 0.0
    ensures |b| == |a| && b[r] == VDiv(a[r], d)
    ensures forall i :: 0 <= i < |a| && i != r ==> b[i] == a[i]
  {
    a[r := VDiv(a[r], d)]
  }

  function Apply(op: RowOp, a: Mat): (b: Mat)
    requires ValidOp(op, |a|) && Rect(a)
    ensures IsMat(b, |a|, Width(a)) && Width(b) == Width(a)
  {
    match op
    case Swap(q, w) => SwapRows(a, q, w)
    case Eliminate(r, p, k) => EliminateRow(a, r, p, k)
    case Divide(r, d) => DivideRow(a, r, d)
  }

  /** The operations of `t`, first to last, applied to `a`. */
  function ApplyAll(t: seq<RowOp>, a: Mat): (b: Mat)
    requires ValidTrace(t, |a|) && Rect(a)
    ensures IsMat(b, |a|, Width(a)) && Width(b) == Width(a)
    decreases |t|
  {
    if |t| == 0 then a else Apply(t[|t| - 1], ApplyAll(t[..|t| - 1], a))
  }

  function CountSwaps(t: seq<RowOp>): nat
    decreases |t|
  {
    if |t| == 0 then 0 else CountSwaps(t[..|t| - 1]) + (if t[|t| - 1].Swap? then 1 else 0)
  }

  /** Swaps and eliminations are numbered steps; divisions are not. */
  function CountSteps(t: seq<RowOp>): nat
    decreases |t|
  {
    if |t| == 0 then 0 else CountSteps(t[..|t| - 1]) + (if t[|t| - 1].Divide? then 0 else 1)
  }

  function ZeroMat(n: nat, m: nat): (z: Mat)
    ensures IsMat(z, n, m)
  {
    seq(n, i => seq(m, j => 0.0))
  }

  /** With the multiplier `u[c] / w[c]`, the combination clears entry `c`;
      wherever `w` is zero it leaves `u` as it was. */
  lemma CombineClears(u: Vec, w: Vec, c: nat)
    requires |u| == |w| && c < |u| && w[c] != 0.0
    ensures VCombine(u, u[c] / w[c], w)[c] == 0.0
    ensures forall j :: 0 <= j < |u| && w[j] == 0.0 ==> VCombine(u, u[c] / w[c], w)[j] == u[j]
  {
    var k := u[c] / w[c];
    assert k * w[c] == u[c];
  }

  // ---------------------------------------------------------------------

  lemma RowTimesCombine(u: Vec, k: real, w: Vec, x: Mat, m: nat)
    requires IsMat(x, |u|, m) && |w| == |u|
    ensures RowTimes(VCombine(u, k, w), x, m) == VCombine(RowTimes(u, x, m), k, RowTimes(w, x, m))
  {
    var lhs := RowTimes(VCombine(u, k, w), x, m);
    var rhs := VCombine(RowTimes(u, x, m), k, RowTimes(w, x, m));
    forall j | 0 <= j < m
      ensures lhs[j] == rhs[j]
    {
      DotCombine(u, k, w, Column(x, j));
    }
  }

  lemma RowTimesDiv(u: Vec, d: real, x: Mat, m: nat)
    requires IsMat(x, |u|, m) && d != 0.0
    ensures RowTimes(VDiv(u, d), x, m) == VDiv(RowTimes(u, x, m), d)
  {
    var lhs := RowTimes(VDiv(u, d), x, m);
    var rhs := VDiv(RowTimes(u, x, m), d);
    forall j | 0 <= j < m
      ensures lhs[j] == rhs[j]
    {
      DotDiv(u, d, Column(x, j));
    }
  }

  /** A row operation on `a` followed by `* x` equals `* x` followed by the
      same row operation. */
  lemma ApplyCommutes(op: RowOp, a: Mat, x: Mat)
    requires Rect(x) && IsMat(a, |a|, |x|) && ValidOp(op, |a|)
    ensures Apply(op, Mul(a, x)) == Mul(Apply(op, a), x)
  {
    var m := Width(x);
    var lhs := Apply(op, Mul(a, x));
    var rhs := Mul(Apply(op, a), x);
    match op
    case Swap(q, w) =>
      assert forall i :: 0 <= i < |a| ==> lhs[i] == rhs[i];
    case Eliminate(r, p, k) =>
      RowTimesCombine(a[r], k, a[p], x, m);
      assert forall i :: 0 <= i < |a| ==> lhs[i] == rhs[i];
    case Divide(r, d) =>
      RowTimesDiv(a[r], d, x, m);
      assert forall i :: 0 <= i < |a| ==> lhs[i] == rhs[i];
  }

  /** The same holds for a whole trace. */
  lemma {:induction false} TraceCommutes(t: seq<RowOp>, a: Mat, x: Mat)
    requires Rect(x) && IsMat(a, |a|, |x|) && ValidTrace(t, |a|)
    ensures ApplyAll(t, Mul(a, x)) == Mul(ApplyAll(t, a), x)
    decreases |t|
  {
    if |t| > 0 {
      var s := t[..|t| - 1];
      assert ValidTrace(s, |a|);
      TraceCommutes(s, a, x);
      ApplyCommutes(t[|t| - 1], ApplyAll(s, a), x);
    }
  }

  /** Every valid row operation can be undone, so it is injective. */
  lemma ApplyInjective(op: RowOp, a: Mat, b: Mat)
    requires Rect(a) && IsMat(b, |a|, Width(a)) && ValidOp(op, |a|)
    requires Apply(op, a) == Apply(op, b)
    ensures a == b
  {
    var fa, fb := Apply(op, a), Apply(op, b);
    match op
    case Swap(q, w) =>
      assert forall i :: 0 <= i < |a| ==> a[i] == b[i] by {
        forall i | 0 <= i < |a| ensures a[i] == b[i] {
          if i == q { assert fa[w] == fb[w]; }
          else if i == w { assert fa[q] == fb[q]; }
          else { assert fa[i] == fb[i]; }
        }
      }
    case Eliminate(r, p, k) =>
      assert a[p] == fa[p] == fb[p] == b[p];
      forall j | 0 <= j < |a[r]| ensures a[r][j] == b[r][j] {
        assert fa[r][j] == fb[r][j];
      }
      assert a[r] == b[r];
      assert forall i :: 0 <= i < |a| && i != r ==> a[i] == fa[i] == fb[i] == b[i];
    case Divide(r, d) =>
      forall j | 0 <= j < |a[r]| ensures a[r][j] == b[r][j] {
        assert fa[r][j] == fb[r][j];
        assert a[r][j] == fa[r][j] * d;
        assert b[r][j] == fb[r][j] * d;
      }
      assert a[r] == b[r];
      assert forall i :: 0 <= i < |a| && i != r ==> a[i] == fa[i] == fb[i] == b[i];
  }

  lemma {:induction false} TraceInjective(t: seq<RowOp>, a: Mat, b: Mat)
    requires Rect(a) && IsMat(b, |a|, Width(a)) && ValidTrace(t, |a|)
    requires ApplyAll(t, a) == ApplyAll(t, b)
    ensures a == b
    decreases |t|
  {
    if |t| > 0 {
      var s := t[..|t| - 1];
      assert ValidTrace(s, |a|);
      if |a| > 0 {
        assert Width(b) == Width(a);
      }
      ApplyInjective(t[|t| - 1], ApplyAll(s, a), ApplyAll(s, b));
      TraceInjective(s, a, b);
    }
  }

  /** Row operations leave the zero matrix alone. */
  lemma {:induction false} TraceKeepsZero(t: seq<RowOp>, n: nat, m: nat)
    requires ValidTrace(t, n)
    ensures Rect(ZeroMat(n, m)) && ApplyAll(t, ZeroMat(n, m)) == ZeroMat(n, m)
    decreases |t|
  {
    var z := ZeroMat(n, m);
    if n > 0 {
      assert Width(z) == m;
    }
    if |t| > 0 {
      var s := t[..|t| - 1];
      assert ValidTrace(s, n);
      TraceKeepsZero(s, n, m);
      var b := Apply(t[|t| - 1], z);
      assert forall i :: 0 <= i < n ==> b[i] == z[i];
    }
  }

  /** Appending one operation to a trace. */
  lemma ApplyAllSnoc(t: seq<RowOp>, op: RowOp, a: Mat)
    requires Rect(a) && ValidTrace(t, |a|) && ValidOp(op, |a|)
    ensures ValidTrace(t + [op], |a|)
    ensures ApplyAll(t + [op], a) == Apply(op, ApplyAll(t, a))
    ensures CountSwaps(t + [op]) == CountSwaps(t) + (if op.Swap? then 1 else 0)
    ensures CountSteps(t + [op]) == CountSteps(t) + (if op.Divide? then 0 else 1)
  {
    assert (t + [op])[..|t|] == t;
  }
}
