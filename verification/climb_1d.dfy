/** `HC1D::solve`, hill climbing over the integers: each pass reads the
    objective at every point of the window `sol - radius .. sol + radius`,
    in increasing order, and keeps a point whenever its value minus the best
    value so far is at least `eps`; a pass that kept one moves the climb to
    the last point kept. The climb stops after a pass that kept nothing or
    after `maxIter` passes. The objective is any function `int -> int`. */
module Climb1D {

  /** No point of the window around `x` comes out `eps` or more above
      `val`. */
  ghost predicate Peak(f: int -> int, eps: int, radius: int, x: int, val: int) {
    forall n :: x - radius <= n <= x + radius ==> f(n) - val < eps
  }

  /** The state of a pass around `x` (whose value is `f(x)`) when the point
      `m` is next: without a kept point, nothing read qualified; with one,
      `cand` is the last kept point, it came out `eps` or more above `f(x)`
      when `eps >= 0`, and nothing read after it comes out `eps` above it. */
  ghost predicate Window(f: int -> int, eps: int, radius: int, x: int, m: int,
                         found: bool, best: int, cand: int)
  {
    && (!found ==> best == f(x) && cand == x && forall n :: x - radius <= n < m ==> f(n) - f(x) < eps)
    && (found ==>
         && x - radius <= cand < m && best == f(cand)
         && (forall n :: cand < n < m ==> f(n) - best < eps)
         && (eps >= 0 ==> best - f(x) >= eps && forall n :: x - radius <= n < m ==> f(n) <= best || f(n) - best < eps))
  }

  /** The scan of a pass from the point `n` to `hi`, in increasing order,
      starting from the state `(found, best, cand)`: a point whose value
      minus `best` is at least `eps` replaces the kept one. */
  function ScanFrom(f: int -> int, eps: int, n: int, hi: int, found: bool, best: int, cand: int): (bool, int, int)
    decreases hi - n + 1
  {
    if n > hi then (found, best, cand)
    else if f(n) - best >= eps then ScanFrom(f, eps, n + 1, hi, true, f(n), n)
    else ScanFrom(f, eps, n + 1, hi, found, best, cand)
  }

  /** The outcome of a pass around `x`: whether a point was kept, its value
      and the point, or `x` itself when none was. */
  function Next(f: int -> int, eps: int, radius: int, x: int): (bool, int, int) {
    ScanFrom(f, eps, x - radius, x + radius, false, f(x), x)
  }

  /** The scan keeps the state of a pass up to the end of the window. */
  lemma {:induction false} ScanKeeps(f: int -> int, eps: int, radius: int, x: int, n: int,
                                     found: bool, best: int, cand: int)
    requires x - radius <= n <= x + radius + 1
    requires Window(f, eps, radius, x, n, found, best, cand)
    decreases x + radius - n + 1
    ensures var r := ScanFrom(f, eps, n, x + radius, found, best, cand);
      Window(f, eps, radius, x, x + radius + 1, r.0, r.1, r.2)
  {
    if n <= x + radius {
      if f(n) - best >= eps {
        ScanKeeps(f, eps, radius, x, n + 1, true, f(n), n);
      } else {
        ScanKeeps(f, eps, radius, x, n + 1, found, best, cand);
      }
    }
  }

  /** What a pass establishes: it keeps nothing exactly when `x` is a peak of
      its window; otherwise it keeps a point of the window, no later point
      beats it by `eps`, it is `eps` above `x` when `eps >= 0`, and with
      `eps == 0` it is a highest point. With `eps <= 0` a pass always keeps
      a point. */
  lemma NextFacts(f: int -> int, eps: int, radius: int, x: int)
    ensures var r := Next(f, eps, radius, x);
      && (!r.0 <==> Peak(f, eps, radius, x, f(x)))
      && (!r.0 ==> r.1 == f(x) && r.2 == x)
      && (r.0 ==> x - radius <= r.2 <= x + radius && r.1 == f(r.2))
      && (r.0 ==> forall n :: r.2 < n <= x + radius ==> f(n) - r.1 < eps)
      && (r.0 && eps >= 0 ==> r.1 - f(x) >= eps)
      && (r.0 && eps == 0 ==> forall n :: x - radius <= n <= x + radius ==> f(n) <= r.1)
      && (eps <= 0 && radius >= 0 ==> r.0)
  {
    var r := Next(f, eps, radius, x);
    if radius >= 0 {
      ScanKeeps(f, eps, radius, x, x - radius, false, f(x), x);
    }
  }

  /** One pass of the `while` loop around `x`, whose value is `val`. */
  method Pass(x: int, f: int -> int, radius: int, eps: int, val: int)
    returns (found: bool, best: int, cand: int)
    requires val == f(x)
    ensures (found, best, cand) == Next(f, eps, radius, x)
    ensures !found <==> Peak(f, eps, radius, x, val)
    ensures !found ==> best == val && cand == x
    ensures found ==> x - radius <= cand <= x + radius && best == f(cand)
    ensures found ==> forall n :: cand < n <= x + radius ==> f(n) - best < eps
    ensures found && eps >= 0 ==> best - val >= eps
    ensures found && eps == 0 ==> forall n :: x - radius <= n <= x + radius ==> f(n) <= best
    ensures eps <= 0 && radius >= 0 ==> found
  {
    found, best, cand := false, val, x;
    var n := x - radius;
    while n <= x + radius
      invariant x - radius <= n <= x + radius + 1 || (radius < 0 && n == x - radius)
      invariant ScanFrom(f, eps, n, x + radius, found, best, cand) == Next(f, eps, radius, x)
      decreases x + radius - n
    {
      if f(n) - best >= eps {
        best, cand, found := f(n), n, true;
      }
      n := n + 1;
    }
    NextFacts(f, eps, radius, x);
  }

  /** A move of the climb: the next point is the one a pass around the point
      before keeps; it lies within `radius` of that point and, when
      `eps >= 0`, is `eps` or more above it. */
  ghost predicate Moved(f: int -> int, eps: int, radius: int, trail: seq<int>, k: int)
    requires 0 <= k < |trail| - 1
  {
    && Next(f, eps, radius, trail[k]) == (true, f(trail[k + 1]), trail[k + 1])
    && trail[k] - radius <= trail[k + 1] <= trail[k] + radius
    && (eps >= 0 ==> f(trail[k + 1]) - f(trail[k]) >= eps)
  }

  /** Every point of `trail` is a move from the one before. */
  ghost predicate Ascent(f: int -> int, eps: int, radius: int, trail: seq<int>) {
    forall k :: 0 <= k < |trail| - 1 ==> Moved(f, eps, radius, trail, k)
  }

  /** `HC1D::solve`. `converged` is the flag of the last pass, so it is false
      exactly when a pass kept nothing; `passes` counts the passes. */
  method Solve(start: int, f: int -> int, radius: int, eps: int, maxIter: int)
    returns (sol: int, fVal: int, converged: bool, ghost passes: nat, ghost trail: seq<int>)
    ensures fVal == f(sol)
    ensures passes <= if maxIter <= 0 then 0 else maxIter
    ensures converged ==> passes == if maxIter <= 0 then 0 else maxIter
    ensures !converged ==> Peak(f, eps, radius, sol, fVal) && !Next(f, eps, radius, sol).0
    ensures eps <= 0 && radius >= 0 ==> converged
    ensures |trail| >= 1 && trail[0] == start && trail[|trail| - 1] == sol && Ascent(f, eps, radius, trail)
    ensures |trail| == if converged then passes + 1 else passes
  {
    sol := start;
    var iter := 0;
    fVal := f(sol);
    var found := true;
    trail := [start];
    while found && iter < maxIter
      invariant 0 <= iter && (iter <= maxIter || iter == 0)
      invariant fVal == f(sol)
      invariant !found ==> Peak(f, eps, radius, sol, fVal) && !Next(f, eps, radius, sol).0
      invariant eps <= 0 && radius >= 0 ==> found
      invariant |trail| >= 1 && trail[0] == start && trail[|trail| - 1] == sol && Ascent(f, eps, radius, trail)
      invariant |trail| == if found then iter + 1 else iter
      decreases maxIter - iter
    {
      var localVal, cand;
      found, localVal, cand := Pass(sol, f, radius, eps, fVal);
      if found {
        AscentSnoc(f, eps, radius, trail, cand);
        sol, fVal := cand, localVal;
        trail := trail + [sol];
      }
      iter := iter + 1;
    }
    converged, passes := found, iter;
  }

  /** An ascent extends by the point a pass keeps. */
  lemma AscentSnoc(f: int -> int, eps: int, radius: int, trail: seq<int>, y: int)
    requires |trail| >= 1 && Ascent(f, eps, radius, trail)
    requires trail[|trail| - 1] - radius <= y <= trail[|trail| - 1] + radius
    requires eps >= 0 ==> f(y) - f(trail[|trail| - 1]) >= eps
    requires Next(f, eps, radius, trail[|trail| - 1]) == (true, f(y), y)
    ensures Ascent(f, eps, radius, trail + [y])
  {
    var u := trail + [y];
    forall k | 0 <= k < |u| - 1 ensures Moved(f, eps, radius, u, k) {
      if k < |trail| - 1 {
        assert Moved(f, eps, radius, trail, k);
      }
    }
  }

  /** With `eps >= 0` the value never goes down along the climb, and the
      last point is `eps` per move above the first; each point lies within
      `radius` per move of the first. */
  lemma {:induction false} AscentBounds(f: int -> int, eps: int, radius: int, trail: seq<int>, l: int)
    requires Ascent(f, eps, radius, trail) && 0 <= l < |trail|
    ensures eps >= 0 ==> f(trail[l]) >= f(trail[0]) + l * eps
    ensures trail[0] - l * radius <= trail[l] <= trail[0] + l * radius
  {
    if l > 0 {
      AscentBounds(f, eps, radius, trail, l - 1);
      assert Moved(f, eps, radius, trail, l - 1);
      assert l * eps == (l - 1) * eps + eps;
      assert l * radius == (l - 1) * radius + radius;
    }
  }
}
