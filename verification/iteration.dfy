/** The iterative loop shared by Jacobi's and Seidel's methods: from a
    start vector, repeat `x := x * alpha + beta` (the program's notation for
    `alpha x + beta`) until two successive approximations are within the
    requested accuracy. The number of rounds the loop may take is given as
    a bound, because the programs loop for as long as the numbers demand. */
module Iteration {
  import opened RealMatrix
  import opened Opt
  import IterativeSetup

  /** One round: `x * alpha + beta`. */
  function Step(al: Mat, be: Vec, x: Vec): (y: Vec)
    requires IsMat(al, |x|, |x|) && |be| == |x|
    ensures |y| == |x|
  {
    VAdd(IterativeSetup.Times(x, al), be)
  }

  /** Entry `i` of the update is row `i` of alpha applied to `x`, plus
      `beta[i]`. Kept apart from `Step` so that unfolding an iterate does
      not unfold every product behind it. */
  lemma StepEntries(al: Mat, be: Vec, x: Vec)
    requires IsMat(al, |x|, |x|) && |be| == |x|
    ensures forall i :: 0 <= i < |x| ==> Step(al, be, x)[i] == Dot(al[i], x) + be[i]
  {
  }

  /** The `k`-th approximation after `start`. */
  function Iterate(al: Mat, be: Vec, start: Vec, k: nat): (x: Vec)
    requires IsMat(al, |be|, |be|) && |start| == |be|
    ensures |x| == |be|
  {
    if k == 0 then start else Step(al, be, Iterate(al, be, start, k - 1))
  }

  /** Square of the Euclidean distance, the radicand of `condition`. */
  function SquaredDistance(u: Vec, v: Vec): (s: real)
    requires |u| == |v|
    ensures s >= 0.0
    decreases |u|
  {
    if |u| == 0 then 0.0
    else
      var d := u[|u| - 1] - v[|v| - 1];
      SquaredDistance(u[..|u| - 1], v[..|v| - 1]) + d * d
  }

  lemma PositiveProduct(x: real, y: real)
    requires x > 0.0 && y > 0.0
    ensures x * y > 0.0
  {
  }

  lemma NonnegativeProduct(x: real, y: real)
    requires x >= 0.0 && y >= 0.0
    ensures x * y >= 0.0
  {
  }

  /** A vector is at distance zero from itself. */
  lemma {:induction false} SquaredDistanceSelf(u: Vec)
    ensures SquaredDistance(u, u) == 0.0
    decreases |u|
  {
    if |u| > 0 {
      var n := |u| - 1;
      SquaredDistanceSelf(u[..n]);
      assert u[n] - u[n] == 0.0;
    }
  }

  /** The loop condition `ex > e`, with `ex` the square root of the
      squared distance, stated without the root. Two equal iterates never
      keep the loop going for a nonnegative tolerance. */
  predicate Far(u: Vec, v: Vec, e: real)
    requires |u| == |v|
    ensures u == v ==> (Far(u, v, e) <==> e < 0.0)
  {
    SquaredDistanceSelf(u);
    e < 0.0 || SquaredDistance(u, v) > e * e
  }

  /** `Far` is the source's test on the root: for `ex` the nonnegative
      square root of the squared distance, `ex > e` exactly when `Far`. */
  lemma FarIffRootExceeds(u: Vec, v: Vec, e: real, ex: real)
    requires |u| == |v| && ex >= 0.0 && ex * ex == SquaredDistance(u, v)
    ensures Far(u, v, e) <==> ex > e
  {
    RootComparison(ex, SquaredDistance(u, v), e);
  }

  /** For a nonnegative `r` with `r * r == s`, `r > e` exactly when `Far`
      says so: comparing the root with `e` is comparing `s` with `e * e`. */
  lemma RootComparison(r: real, s: real, e: real)
    requires r >= 0.0 && r * r == s
    ensures r > e <==> (e < 0.0 || s > e * e)
  {
    if e >= 0.0 {
      assert s - e * e == (r - e) * (r + e);
      if r > e {
        PositiveProduct(r - e, r + e);
      } else {
        NonnegativeProduct(e - r, r + e);
        assert e * e - s == (e - r) * (r + e);
      }
    }
  }

  /** Round `j` ends the loop: its approximation is within `e` of the one
      before. */
  predicate Settles(al: Mat, be: Vec, start: Vec, e: real, j: nat)
    requires IsMat(al, |be|, |be|) && |start| == |be| && j >= 1
  {
    !Far(Iterate(al, be, start, j), Iterate(al, be, start, j - 1), e)
  }

  /** The first round from `k` on, within `fuel` rounds, that settles. */
  function FirstClose(al: Mat, be: Vec, start: Vec, e: real, k: nat, fuel: nat): (r: Option<nat>)
    requires IsMat(al, |be|, |be|) && |start| == |be| && k >= 1
    ensures r.Some? ==> k <= r.value < k + fuel && Settles(al, be, start, e, r.value)
    ensures r.Some? ==> forall j :: k <= j < r.value ==> !Settles(al, be, start, e, j)
    ensures r.None? ==> forall j :: k <= j < k + fuel ==> !Settles(al, be, start, e, j)
    decreases fuel
  {
    if fuel == 0 then None
    else if Settles(al, be, start, e, k) then Some(k)
    else FirstClose(al, be, start, e, k + 1, fuel - 1)
  }

  datatype Outcome =
    | NotApplicable                    // "The method is not applicable"
    | Converged(round: nat, x: Vec)    // the answer printed as `x~`
    | Unfinished                       // still looping after the allowed rounds

  /** The `while (ex > e)` loop with at most `rounds` rounds: the answer is
      the first approximation within `e` of its predecessor. */
  function Loop(al: Mat, be: Vec, start: Vec, e: real, rounds: nat): (o: Outcome)
    requires IsMat(al, |be|, |be|) && |start| == |be|
    ensures !o.NotApplicable?
    ensures o.Converged? ==> (
      1 <= o.round <= rounds && o.x == Iterate(al, be, start, o.round) &&
      Settles(al, be, start, e, o.round) &&
      forall j :: 1 <= j < o.round ==> !Settles(al, be, start, e, j))
    ensures o.Unfinished? ==> forall j :: 1 <= j <= rounds ==> !Settles(al, be, start, e, j)
  {
    match FirstClose(al, be, start, e, 1, rounds)
    case None => Unfinished
    case Some(k) => Converged(k, Iterate(al, be, start, k))
  }

  /** The error of a round is `alpha` applied to the error before it. */
  lemma StepError(al: Mat, be: Vec, x: Vec, xs: Vec)
    requires IsMat(al, |x|, |x|) && |be| == |x| == |xs|
    requires Step(al, be, xs) == xs
    ensures VSub(Step(al, be, x), xs) == MatVec(al, VSub(x, xs))
  {
    MatVecSub(al, x, xs);
    var lhs := VSub(Step(al, be, x), xs);
    var rhs := MatVec(al, VSub(x, xs));
    forall i | 0 <= i < |x|
      ensures lhs[i] == rhs[i]
    {
      assert xs[i] == Dot(al[i], xs) + be[i];
    }
  }

  /** Once an approximation is a fixed point of the round, the next one
      repeats it and the loop stops there for any nonnegative accuracy. */
  lemma StopsAtFixedPoint(al: Mat, be: Vec, start: Vec, e: real, k: nat)
    requires IsMat(al, |be|, |be|) && |start| == |be| && e >= 0.0
    requires Step(al, be, Iterate(al, be, start, k)) == Iterate(al, be, start, k)
    ensures Iterate(al, be, start, k + 1) == Iterate(al, be, start, k)
    ensures Settles(al, be, start, e, k + 1)
  {
    SquaredDistanceSelf(Iterate(al, be, start, k));
  }
}
