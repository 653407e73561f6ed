/** The pivoted Gaussian process shared by the determinant, inverse, linear
    system, least-squares and Seidel programs. The matrix being reduced
    (`array` in the programs) and a companion (`tempArray`: a matrix, or a
    vector seen as one column) receive the same row operations. A run also
    remembers the matrices it started from and the operations performed so
    far, which is what lets the results be tied back to the input. */
module Elimination {
  import opened RealMatrix
  import opened RowOps

  /** `swaps` and `steps` are the programs' counters: the swap count that
      `upperTriangular` returns, and the number of permutation and
      elimination steps announced so far. */
  datatype Run = Run(origin: Mat, originComp: Mat, work: Mat, comp: Mat, trace: seq<RowOp>,
                     swaps: nat, steps: nat)

  /** A square working matrix and a companion with as many rows. */
  predicate Shaped(run: Run) {
    IsSquare(run.work) && Rect(run.comp) && |run.comp| == |run.work|
  }

  /** `work` and `comp` are the starting matrices with the trace applied,
      and the counters count the trace's swaps and non-division steps. */
  predicate Tracks(run: Run) {
    var n := |run.work|;
    Shaped(run) && IsMat(run.origin, n, n) && Rect(run.originComp) && |run.originComp| == n &&
    ValidTrace(run.trace, n) &&
    run.work == ApplyAll(run.trace, run.origin) &&
    run.comp == ApplyAll(run.trace, run.originComp) &&
    run.swaps == CountSwaps(run.trace) && run.steps == CountSteps(run.trace)
  }

  /** Same starting matrices, same companion width. */
  predicate SameOrigin(r: Run, run: Run) {
    r.origin == run.origin && r.originComp == run.originComp &&
    |r.work| == |run.work| && Width(r.comp) == Width(run.comp)
  }

  function Start(a: Mat, c: Mat): (run: Run)
    requires IsSquare(a) && Rect(c) && |c| == |a|
    ensures Tracks(run) && run.work == a && run.comp == c
    ensures run.swaps == 0 && run.steps == 0
  {
    Run(a, c, a, c, [], 0, 0)
  }

  /** Perform one row operation on both matrices and log it. */
  function Record(run: Run, op: RowOp): (r: Run)
    requires Shaped(run) && ValidOp(op, |run.work|)
    ensures Shaped(r) && SameOrigin(r, run)
    ensures r.trace == run.trace + [op]
    ensures r.work == Apply(op, run.work) && r.comp == Apply(op, run.comp)
    ensures r.swaps == run.swaps + (if op.Swap? then 1 else 0)
    ensures r.steps == run.steps + (if op.Divide? then 0 else 1)
  {
    Run(run.origin, run.originComp, Apply(op, run.work), Apply(op, run.comp), run.trace + [op],
        run.swaps + (if op.Swap? then 1 else 0), run.steps + (if op.Divide? then 0 else 1))
  }

  /** Recording keeps the run faithful to its log. */
  lemma RecordTracks(run: Run, op: RowOp)
    requires Tracks(run) && ValidOp(op, |run.work|)
    ensures Tracks(Record(run, op))
  {
    ApplyAllSnoc(run.trace, op, run.origin);
    ApplyAllSnoc(run.trace, op, run.originComp);
  }

  // ----------------------------------------------------------------------
  // Pivot choice

  /** The scan over rows `i..n-1` of column `c`: a row replaces the best so
      far only when its magnitude is strictly greater. Returns the best
      magnitude and its row. */
  function Scan(a: Mat, c: nat, i: nat, mx: real, temp: nat): (res: (real, nat))
    requires IsSquare(a) && c < |a| && i <= |a|
    ensures res.0 >= mx
    ensures forall r :: i <= r < |a| ==> Abs(a[r][c]) <= res.0
    ensures res.0 == mx ==> res.1 == temp
    ensures res.0 > mx ==>
      i <= res.1 < |a| && Abs(a[res.1][c]) == res.0 &&
      forall r :: i <= r < res.1 ==> Abs(a[r][c]) < res.0
    decreases |a| - i
  {
    if i == |a| then (mx, temp)
    else if Abs(a[i][c]) > mx then Scan(a, c, i + 1, Abs(a[i][c]), i)
    else Scan(a, c, i + 1, mx, temp)
  }

  /** The scan as the programs start it: from row `c`, with `mx = 0` and `temp = 0`. */
  function PivotOf(a: Mat, c: nat): (res: (real, nat))
    requires IsSquare(a) && c < |a|
    ensures Abs(a[c][c]) <= res.0
    ensures res.0 == 0.0 ==> res.1 == 0
    ensures res.0 != 0.0 ==> c <= res.1 < |a| && Abs(a[res.1][c]) == res.0
  {
    Scan(a, c, c, 0.0, 0)
  }

  /** The pivot row holds the largest magnitude of the column from row `c`
      down, and no earlier row reaches it. */
  lemma PivotOfMaximal(a: Mat, c: nat)
    requires IsSquare(a) && c < |a|
    ensures forall r :: c <= r < |a| ==> Abs(a[r][c]) <= PivotOf(a, c).0
    ensures forall r :: c <= r < PivotOf(a, c).1 ==> Abs(a[r][c]) < PivotOf(a, c).0
  {
  }

  /** The swap test `temp > 0 && abs(mx) != abs(array[c][c])`. */
  predicate SwapWanted(a: Mat, c: nat)
    requires IsSquare(a) && c < |a|
    ensures SwapWanted(a, c) ==> Abs(a[c][c]) < PivotOf(a, c).0
  {
    var (mx, temp) := PivotOf(a, c);
    temp > 0 && Abs(mx) != Abs(a[c][c])
  }

  /** The swap test fires exactly when some row at or below `c` has a
      strictly larger magnitude in column `c` than the diagonal entry; the
      row chosen then lies below `c` and is the first row of largest
      magnitude. */
  lemma SwapWantedIff(a: Mat, c: nat)
    requires IsSquare(a) && c < |a|
    ensures SwapWanted(a, c) <==> exists r :: c <= r < |a| && Abs(a[r][c]) > Abs(a[c][c])
    ensures SwapWanted(a, c) ==>
      var (mx, temp) := PivotOf(a, c);
      c < temp < |a| && Abs(a[temp][c]) == mx &&
      (forall r :: c <= r < |a| ==> Abs(a[r][c]) <= mx) &&
      (forall r :: c <= r < temp ==> Abs(a[r][c]) < mx)
  {
    var (mx, temp) := PivotOf(a, c);
    assert Abs(a[c][c]) <= mx;
    if exists r :: c <= r < |a| && Abs(a[r][c]) > Abs(a[c][c]) {
      var r :| c <= r < |a| && Abs(a[r][c]) > Abs(a[c][c]);
      assert mx > 0.0;
    }
  }

  /** Every row at or below `c` is dominated in column `c` by the diagonal. */
  predicate Dominated(a: Mat, c: nat, lo: nat)
    requires IsSquare(a) && c < |a|
  {
    forall r :: lo <= r < |a| ==> Abs(a[r][c]) <= Abs(a[c][c])
  }

  /** Every entry left of column `c` and below the diagonal is zero. */
  predicate ClearedBelow(a: Mat, c: nat)
    requires IsSquare(a)
  {
    forall i, j :: 0 <= j < c && j < i < |a| ==> a[i][j] == 0.0
  }

  predicate UpperTriangular(a: Mat)
    requires IsSquare(a)
  {
    ClearedBelow(a, |a|)
  }

  /** The pivot step for column `c`: swap in the chosen row when the test
      fires. Afterwards no entry at or below the diagonal in column `c` is
      larger in magnitude than the diagonal entry. */
  function PivotStep(run: Run, c: nat): (r: Run)
    requires Shaped(run) && c < |run.work|
    ensures Shaped(r) && SameOrigin(r, run)
    ensures Dominated(r.work, c, c)
    ensures forall k :: 0 <= k < c ==> r.work[k] == run.work[k]
    ensures ClearedBelow(run.work, c) ==> ClearedBelow(r.work, c)
    ensures r.swaps == run.swaps + (if SwapWanted(run.work, c) then 1 else 0)
    ensures r.steps == run.steps + (if SwapWanted(run.work, c) then 1 else 0)
  {
    SwapWantedIff(run.work, c);
    if SwapWanted(run.work, c) then Record(run, Swap(PivotOf(run.work, c).1, c))
    else run
  }

  lemma PivotStepTracks(run: Run, c: nat)
    requires Tracks(run) && c < |run.work|
    ensures Tracks(PivotStep(run, c))
  {
    SwapWantedIff(run.work, c);
    if SwapWanted(run.work, c) {
      RecordTracks(run, Swap(PivotOf(run.work, c).1, c));
    }
  }

  // ----------------------------------------------------------------------
  // Elimination below and above a pivot

  /** How many of the rows `lo..hi-1` have a nonzero entry in column `c`. */
  function CountNonzero(a: Mat, c: nat, lo: nat, hi: nat): nat
    requires lo <= hi <= |a| && forall k :: lo <= k < hi ==> c < |a[k]|
    decreases hi - lo
  {
    if lo == hi then 0 else (if a[lo][c] != 0.0 then 1 else 0) + CountNonzero(a, c, lo + 1, hi)
  }

  lemma {:induction false} CountNonzeroSame(a: Mat, b: Mat, c: nat, lo: nat, hi: nat)
    requires lo <= hi <= |a| && hi <= |b|
    requires forall k :: lo <= k < hi ==> c < |a[k]| && c < |b[k]| && a[k][c] == b[k][c]
    ensures CountNonzero(a, c, lo, hi) == CountNonzero(b, c, lo, hi)
    decreases hi - lo
  {
    if lo < hi {
      CountNonzeroSame(a, b, c, lo + 1, hi);
    }
  }

  lemma {:induction false} CountNonzeroLast(a: Mat, c: nat, lo: nat, hi: nat)
    requires lo < hi <= |a| && forall k :: lo <= k < hi ==> c < |a[k]|
    ensures CountNonzero(a, c, lo, hi) ==
      CountNonzero(a, c, lo, hi - 1) + (if a[hi - 1][c] != 0.0 then 1 else 0)
    decreases hi - lo
  {
    if lo + 1 < hi {
      CountNonzeroLast(a, c, lo + 1, hi);
    }
  }

  /** One guarded elimination: when row `i` has a nonzero entry in column
      `c`, it loses the multiple of the pivot row `c` that clears that entry;
      otherwise nothing happens. The multiplier is formed only in the first
      case, so its divisor is nonzero whenever it is formed. */
  function ClearEntry(run: Run, c: nat, i: nat): (r: Run)
    requires Shaped(run) && c < |run.work| && i < |run.work| && i != c
    requires run.work[i][c] != 0.0 ==> run.work[c][c] != 0.0
    ensures Shaped(r) && SameOrigin(r, run)
    ensures forall k :: 0 <= k < |run.work| && k != i ==> r.work[k] == run.work[k]
    ensures r.work[i][c] == 0.0
    ensures forall j :: 0 <= j < |run.work| && run.work[c][j] == 0.0 ==> r.work[i][j] == run.work[i][j]
    ensures r.swaps == run.swaps
    ensures r.steps == run.steps + (if run.work[i][c] != 0.0 then 1 else 0)
  {
    if run.work[i][c] != 0.0 then
      var k := run.work[i][c] / run.work[c][c];
      var r := Record(run, Eliminate(i, c, k));
      CombineClears(run.work[i], run.work[c], c);
      assert r.work[i] == VCombine(run.work[i], k, run.work[c]);
      r
    else run
  }

  lemma ClearEntryTracks(run: Run, c: nat, i: nat)
    requires Tracks(run) && c < |run.work| && i < |run.work| && i != c
    requires run.work[i][c] != 0.0 ==> run.work[c][c] != 0.0
    ensures Tracks(ClearEntry(run, c, i))
  {
    if run.work[i][c] != 0.0 {
      RecordTracks(run, Eliminate(i, c, run.work[i][c] / run.work[c][c]));
    }
  }

  /** Forward elimination in column `c` for rows `i..n-1` (`makeElimination`
      with its forward flag). Dominance by the pivot means a nonzero entry
      below it implies a nonzero pivot. Every entry below the pivot becomes
      zero, rows above `i` are untouched, and the step counter grows by the
      number of rows actually changed. */
  function EliminateBelow(run: Run, c: nat, i: nat): (r: Run)
    requires Shaped(run) && c < i <= |run.work|
    requires Dominated(run.work, c, i)
    ensures Shaped(r) && SameOrigin(r, run)
    ensures forall k :: 0 <= k < i ==> r.work[k] == run.work[k]
    ensures forall k :: i <= k < |run.work| ==> r.work[k][c] == 0.0
    ensures forall k, j :: i <= k < |run.work| && 0 <= j < |run.work| && run.work[c][j] == 0.0 ==>
      r.work[k][j] == run.work[k][j]
    ensures r.swaps == run.swaps
    ensures r.steps == run.steps + CountNonzero(run.work, c, i, |run.work|)
    decreases |run.work| - i
  {
    if i == |run.work| then run
    else
      var next := ClearEntry(run, c, i);
      CountNonzeroSame(run.work, next.work, c, i + 1, |run.work|);
      EliminateBelow(next, c, i + 1)
  }

  lemma {:induction false} EliminateBelowTracks(run: Run, c: nat, i: nat)
    requires Tracks(run) && c < i <= |run.work|
    requires Dominated(run.work, c, i)
    ensures Tracks(EliminateBelow(run, c, i))
    decreases |run.work| - i
  {
    if i < |run.work| {
      ClearEntryTracks(run, c, i);
      EliminateBelowTracks(ClearEntry(run, c, i), c, i + 1);
    }
  }

  /** Backward elimination in column `c` for rows `g-1` down to `0`
      (`makeElimination` with its backward flag), with a pivot row that is
      zero except on the diagonal: exactly the entries of column `c` above
      row `g` become zero. */
  function EliminateAbove(run: Run, c: nat, g: nat): (r: Run)
    requires Shaped(run) && g <= c < |run.work| && run.work[c][c] != 0.0
    requires forall j :: 0 <= j < |run.work| && j != c ==> run.work[c][j] == 0.0
    ensures Shaped(r) && SameOrigin(r, run)
    ensures forall i :: g <= i < |run.work| ==> r.work[i] == run.work[i]
    ensures forall i :: 0 <= i < g ==> r.work[i][c] == 0.0
    ensures forall i, j :: 0 <= i < g && 0 <= j < |run.work| && j != c ==> r.work[i][j] == run.work[i][j]
    ensures r.swaps == run.swaps
    decreases g
  {
    if g == 0 then run
    else
      var next := ClearEntry(run, c, g - 1);
      ClearAboveStep(run, c, g - 1);
      EliminateAbove(next, c, g - 1)
  }

  /** The step counter grows by the number of rows above `g` that had a
      nonzero entry in column `c`. */
  lemma {:induction false} EliminateAboveSteps(run: Run, c: nat, g: nat)
    requires Shaped(run) && g <= c < |run.work| && run.work[c][c] != 0.0
    requires forall j :: 0 <= j < |run.work| && j != c ==> run.work[c][j] == 0.0
    ensures EliminateAbove(run, c, g).steps == run.steps + CountNonzero(run.work, c, 0, g)
    decreases g
  {
    if g > 0 {
      var next := ClearEntry(run, c, g - 1);
      ClearAboveStep(run, c, g - 1);
      CountNonzeroSame(run.work, next.work, c, 0, g - 1);
      CountNonzeroLast(run.work, c, 0, g);
      EliminateAboveSteps(next, c, g - 1);
    }
  }

  /** Clearing above a pivot whose row is zero elsewhere changes only
      column `c` of row `i` and keeps the pivot row. */
  lemma ClearAboveStep(run: Run, c: nat, i: nat)
    requires Shaped(run) && i < c < |run.work| && run.work[c][c] != 0.0
    requires forall j :: 0 <= j < |run.work| && j != c ==> run.work[c][j] == 0.0
    ensures var next := ClearEntry(run, c, i);
      next.work[c] == run.work[c] &&
      forall j :: 0 <= j < |run.work| && j != c ==> next.work[i][j] == run.work[i][j]
  {
  }

  lemma {:induction false} EliminateAboveTracks(run: Run, c: nat, g: nat)
    requires Tracks(run) && g <= c < |run.work| && run.work[c][c] != 0.0
    requires forall j :: 0 <= j < |run.work| && j != c ==> run.work[c][j] == 0.0
    ensures Tracks(EliminateAbove(run, c, g))
    decreases g
  {
    if g > 0 {
      ClearEntryTracks(run, c, g - 1);
      ClearAboveStep(run, c, g - 1);
      EliminateAboveTracks(ClearEntry(run, c, g - 1), c, g - 1);
    }
  }

  // ----------------------------------------------------------------------
  // The two passes

  /** Forward pass over the columns `c..n-1`: pivot, then eliminate below.
      The result is upper triangular. */
  function ForwardFrom(run: Run, c: nat): (r: Run)
    requires Shaped(run) && c <= |run.work| && ClearedBelow(run.work, c)
    ensures Shaped(r) && SameOrigin(r, run)
    ensures UpperTriangular(r.work)
    ensures forall k :: 0 <= k < c ==> r.work[k] == run.work[k]
    decreases |run.work| - c
  {
    if c == |run.work| then run
    else
      ColumnStepClears(run, c);
      ForwardFrom(EliminateBelow(PivotStep(run, c), c, c + 1), c + 1)
  }

  /** One column of the forward pass extends the cleared region by one column. */
  lemma ColumnStepClears(run: Run, c: nat)
    requires Shaped(run) && c < |run.work| && ClearedBelow(run.work, c)
    ensures ClearedBelow(EliminateBelow(PivotStep(run, c), c, c + 1).work, c + 1)
  {
    var p := PivotStep(run, c);
    var e := EliminateBelow(p, c, c + 1);
    forall i, j | 0 <= j < c + 1 && j < i < |run.work|
      ensures e.work[i][j] == 0.0
    {
      if j < c {
        assert p.work[c][j] == 0.0 && p.work[i][j] == 0.0;
      }
    }
  }

  lemma {:induction false} ForwardFromTracks(run: Run, c: nat)
    requires Tracks(run) && c <= |run.work| && ClearedBelow(run.work, c)
    ensures Tracks(ForwardFrom(run, c))
    decreases |run.work| - c
  {
    if c < |run.work| {
      var p := PivotStep(run, c);
      PivotStepTracks(run, c);
      var e := EliminateBelow(p, c, c + 1);
      EliminateBelowTracks(p, c, c + 1);
      ColumnStepClears(run, c);
      ForwardFromTracks(e, c + 1);
    }
  }

  /** `upperTriangular`, and the first half of `GaussianProcess`. */
  function Forward(a: Mat, comp: Mat): (r: Run)
    requires IsSquare(a) && Rect(comp) && |comp| == |a|
    ensures Tracks(r) && r.origin == a && r.originComp == comp
    ensures UpperTriangular(r.work)
  {
    ForwardFromTracks(Start(a, comp), 0);
    ForwardFrom(Start(a, comp), 0)
  }

  predicate NonzeroDiagonal(a: Mat)
    requires IsSquare(a)
  {
    forall i :: 0 <= i < |a| ==> a[i][i] != 0.0
  }

  predicate Diagonal(a: Mat)
    requires IsSquare(a)
  {
    forall i, j :: 0 <= i < |a| && 0 <= j < |a| && i != j ==> a[i][j] == 0.0
  }

  /** Every entry above the diagonal in the columns `k..n-1` is zero. */
  predicate ClearedAbove(a: Mat, k: nat)
    requires IsSquare(a)
  {
    forall i, j :: k <= j < |a| && 0 <= i < j ==> a[i][j] == 0.0
  }

  /** Backward pass over the columns `k-1` down to `1`, on an upper
      triangular matrix with a nonzero diagonal: the result is diagonal and
      the diagonal itself is not changed. */
  function BackwardFrom(run: Run, k: nat): (r: Run)
    requires Shaped(run) && k <= |run.work|
    requires UpperTriangular(run.work) && NonzeroDiagonal(run.work) && ClearedAbove(run.work, k)
    ensures Shaped(r) && SameOrigin(r, run)
    ensures Diagonal(r.work)
    ensures forall i :: 0 <= i < |run.work| ==> r.work[i][i] == run.work[i][i]
    ensures r.swaps == run.swaps
    decreases k
  {
    if k <= 1 then run
    else
      var e := EliminateAbove(run, k - 1, k - 1);
      assert ClearedAbove(e.work, k - 1);
      BackwardFrom(e, k - 1)
  }

  lemma {:induction false} BackwardFromTracks(run: Run, k: nat)
    requires Tracks(run) && k <= |run.work|
    requires UpperTriangular(run.work) && NonzeroDiagonal(run.work) && ClearedAbove(run.work, k)
    ensures Tracks(BackwardFrom(run, k))
    decreases k
  {
    if k > 1 {
      EliminateAboveTracks(run, k - 1, k - 1);
      var e := EliminateAbove(run, k - 1, k - 1);
      assert ClearedAbove(e.work, k - 1);
      BackwardFromTracks(e, k - 1);
    }
  }

  /** `GaussianProcess`: the forward pass followed by the backward pass. The
      backward pass divides by every diagonal entry of the triangular form,
      so that diagonal must be nonzero. */
  function GaussianProcess(a: Mat, comp: Mat): (r: Run)
    requires IsSquare(a) && Rect(comp) && |comp| == |a|
    requires NonzeroDiagonal(Forward(a, comp).work)
    ensures Tracks(r) && r.origin == a && r.originComp == comp
    ensures Diagonal(r.work) && NonzeroDiagonal(r.work)
  {
    var f := Forward(a, comp);
    BackwardFromTracks(f, |f.work|);
    BackwardFrom(f, |f.work|)
  }

  // ----------------------------------------------------------------------
  // Diagonal normalization

  /** `diagonalNormalization` for the rows `i..n-1`: each row of both
      matrices is divided by the working matrix's diagonal entry of that row. */
  function NormalizeFrom(run: Run, i: nat): (r: Run)
    requires Shaped(run) && i <= |run.work|
    requires forall k :: i <= k < |run.work| ==> run.work[k][k] != 0.0
    ensures Shaped(r) && SameOrigin(r, run)
    ensures forall k :: 0 <= k < i ==> r.work[k] == run.work[k] && r.comp[k] == run.comp[k]
    ensures forall k :: i <= k < |run.work| ==>
      r.work[k] == VDiv(run.work[k], run.work[k][k]) &&
      r.comp[k] == VDiv(run.comp[k], run.work[k][k])
    ensures r.swaps == run.swaps
    decreases |run.work| - i
  {
    if i == |run.work| then run
    else
      var next := Record(run, Divide(i, run.work[i][i]));
      assert forall k :: 0 <= k < |run.work| && k != i ==> next.work[k] == run.work[k] && next.comp[k] == run.comp[k];
      NormalizeFrom(next, i + 1)
  }

  lemma {:induction false} NormalizeFromTracks(run: Run, i: nat)
    requires Tracks(run) && i <= |run.work|
    requires forall k :: i <= k < |run.work| ==> run.work[k][k] != 0.0
    ensures Tracks(NormalizeFrom(run, i))
    decreases |run.work| - i
  {
    if i < |run.work| {
      RecordTracks(run, Divide(i, run.work[i][i]));
      var next := Record(run, Divide(i, run.work[i][i]));
      assert forall k :: 0 <= k < |run.work| && k != i ==> next.work[k] == run.work[k];
      NormalizeFromTracks(next, i + 1);
    }
  }

  /** A diagonal matrix with a nonzero diagonal normalizes to the identity. */
  function Normalize(run: Run): (r: Run)
    requires Tracks(run) && NonzeroDiagonal(run.work)
    ensures Tracks(r) && SameOrigin(r, run) && r.swaps == run.swaps
    ensures forall k :: 0 <= k < |run.work| ==>
      r.work[k] == VDiv(run.work[k], run.work[k][k]) &&
      r.comp[k] == VDiv(run.comp[k], run.work[k][k])
    ensures Diagonal(run.work) ==> r.work == Identity(|run.work|)
  {
    NormalizeFromTracks(run, 0);
    var r := NormalizeFrom(run, 0);
    if Diagonal(run.work) then
      forall i, j | 0 <= i < |run.work| && 0 <= j < |run.work|
        ensures r.work[i][j] == Identity(|run.work|)[i][j]
      {
        DivDiagonal(run.work[i][j], run.work[i][i], i == j);
      }
      assert forall i :: 0 <= i < |run.work| ==> r.work[i] == Identity(|run.work|)[i];
      r
    else r
  }

  lemma DivDiagonal(x: real, d: real, onDiagonal: bool)
    requires d != 0.0 && (onDiagonal ==> x == d) && (!onDiagonal ==> x == 0.0)
    ensures x / d == (if onDiagonal then 1.0 else 0.0)
  {
  }
}
