/** `HC::solve` of the steepest-descent travelling salesman example: from a
    tour `start`, each pass tries every exchange of two positions `i < j`,
    in the order of `i` then `j`, and keeps a tried tour whenever its value
    minus the best value so far is below `eps`; a pass that kept one moves
    the climb there. The climb stops after a pass that kept nothing or after
    `maxIter` passes. The objective `f` is any function of the tour (the
    example passes `TspTour.TourCost`). */
module TspClimb {

  /** `s` with the entries at `i` and `j` exchanged. */
  function Swap(s: seq<int>, i: int, j: int): (t: seq<int>)
    requires 0 <= i < |s| && 0 <= j < |s|
    ensures |t| == |s| && t[i] == s[j] && t[j] == s[i]
    ensures forall k :: 0 <= k < |s| && k != i && k != j ==> t[k] == s[k]
    ensures multiset(t) == multiset(s)
  {
    s[i := s[j]][j := s[i]]
  }

  /** A pair of positions a pass tries. */
  predicate Pair(n: int, i: int, j: int) {
    0 <= i < j < n
  }

  /** `(i', j')` is tried before `(i, j)`. */
  predicate Earlier(i': int, j': int, i: int, j: int) {
    i' < i || (i' == i && j' < j)
  }

  /** No exchange of `s` comes out more than `-eps` below `val`: with `eps`
      of zero, `s` is a local minimum. */
  ghost predicate Stuck(f: seq<int> -> int, eps: int, s: seq<int>, val: int) {
    forall i, j :: Pair(|s|, i, j) ==> f(Swap(s, i, j)) - val >= eps
  }

  /** `(bi, bj)` is the first exchange of least value. */
  ghost predicate Steepest(f: seq<int> -> int, s: seq<int>, bi: int, bj: int) {
    && Pair(|s|, bi, bj)
    && forall i, j :: Pair(|s|, i, j) ==>
         f(Swap(s, i, j)) >= f(Swap(s, bi, bj)) && (Earlier(i, j, bi, bj) ==> f(Swap(s, i, j)) > f(Swap(s, bi, bj)))
  }

  /** The state of a pass over `s` (whose value is `f(s)`) when `(i, j)` is
      next: without a kept exchange, nothing tried qualified; with one,
      `(bi, bj)` is the last kept, `(fi, fj)` the first, nothing tried after
      `(bi, bj)` beat it by `-eps`, and with `eps <= 0` every exchange tried
      before it is worse. */
  ghost predicate Swept(f: seq<int> -> int, eps: int, s: seq<int>, i: int, j: int,
                        improved: bool, bestVal: int, bestSol: seq<int>, bi: int, bj: int, fi: int, fj: int)
  {
    && (!improved ==>
         && bestVal == f(s) && bestSol == s
         && forall i', j' :: Pair(|s|, i', j') && Earlier(i', j', i, j) ==> f(Swap(s, i', j')) - f(s) >= eps)
    && (improved ==>
         && Pair(|s|, bi, bj) && Earlier(bi, bj, i, j) && bestSol == Swap(s, bi, bj) && bestVal == f(bestSol)
         && Pair(|s|, fi, fj) && Earlier(fi, fj, i, j) && f(Swap(s, fi, fj)) - f(s) < eps
         && (forall i', j' :: Pair(|s|, i', j') && Earlier(i', j', i, j) && Earlier(bi, bj, i', j') ==>
               f(Swap(s, i', j')) - bestVal >= eps)
         && (eps <= 0 ==>
               && bestVal - f(s) < eps
               && forall i', j' :: Pair(|s|, i', j') && Earlier(i', j', bi, bj) ==> f(Swap(s, i', j')) > bestVal))
  }

  /** The scan of a pass over `s` from the pair `(i, j)` on, row `i` first
      and each row in increasing `j`, starting from the state `(improved,
      bestVal, bestSol, bi, bj)`: a tried tour whose value minus `bestVal` is
      below `eps` replaces the kept one. */
  function SweepFrom(f: seq<int> -> int, eps: int, s: seq<int>, i: int, j: int,
                     improved: bool, bestVal: int, bestSol: seq<int>, bi: int, bj: int): (bool, int, seq<int>, int, int)
    requires 0 <= i < j
    decreases |s| - i, |s| - j
  {
    if i >= |s| then (improved, bestVal, bestSol, bi, bj)
    else if j >= |s| then SweepFrom(f, eps, s, i + 1, i + 2, improved, bestVal, bestSol, bi, bj)
    else if f(Swap(s, i, j)) - bestVal < eps then SweepFrom(f, eps, s, i, j + 1, true, f(Swap(s, i, j)), Swap(s, i, j), i, j)
    else SweepFrom(f, eps, s, i, j + 1, improved, bestVal, bestSol, bi, bj)
  }

  /** The outcome of a pass over `s`: whether an exchange was kept, the kept
      tour's value, the tour (`s` itself when none was kept) and the pair. */
  function Next(f: seq<int> -> int, eps: int, s: seq<int>): (bool, int, seq<int>, int, int) {
    SweepFrom(f, eps, s, 0, 1, false, f(s), s, 0, 0)
  }

  /** The scan keeps the state of a pass up to the last row: its outcome is
      returned with `(fi', fj')`, the first kept exchange. */
  lemma {:induction false} SweepKeeps(f: seq<int> -> int, eps: int, s: seq<int>, i: int, j: int,
                                      improved: bool, bestVal: int, bestSol: seq<int>, bi: int, bj: int,
                                      fi: int, fj: int)
    returns (improved': bool, bestVal': int, bestSol': seq<int>, bi': int, bj': int, fi': int, fj': int)
    requires 0 <= i < j && i <= |s| && (i < |s| ==> j <= |s|)
    requires Swept(f, eps, s, i, j, improved, bestVal, bestSol, bi, bj, fi, fj)
    decreases |s| - i, |s| - j
    ensures (improved', bestVal', bestSol', bi', bj') == SweepFrom(f, eps, s, i, j, improved, bestVal, bestSol, bi, bj)
    ensures Swept(f, eps, s, |s|, 0, improved', bestVal', bestSol', bi', bj', fi', fj')
  {
    if i >= |s| {
      improved', bestVal', bestSol', bi', bj', fi', fj' := improved, bestVal, bestSol, bi, bj, fi, fj;
    } else {
      var i1, j1, imp1, val1, sol1, bi1, bj1, fi1, fj1 := SweepStep(f, eps, s, i, j, improved, bestVal, bestSol, bi, bj, fi, fj);
      improved', bestVal', bestSol', bi', bj', fi', fj' := SweepKeeps(f, eps, s, i1, j1, imp1, val1, sol1, bi1, bj1, fi1, fj1);
    }
  }

  /** One step of the scan, from a pair of a row or from the end of a row,
      keeps the state of a pass. */
  lemma SweepStep(f: seq<int> -> int, eps: int, s: seq<int>, i: int, j: int,
                  improved: bool, bestVal: int, bestSol: seq<int>, bi: int, bj: int, fi: int, fj: int)
    returns (i1: int, j1: int, improved1: bool, bestVal1: int, bestSol1: seq<int>, bi1: int, bj1: int, fi1: int, fj1: int)
    requires 0 <= i < j && i < |s| && j <= |s|
    requires Swept(f, eps, s, i, j, improved, bestVal, bestSol, bi, bj, fi, fj)
    ensures 0 <= i1 < j1 && i1 <= |s| && (i1 < |s| ==> j1 <= |s|)
    ensures (i1, j1) == (if j < |s| then (i, j + 1) else (i + 1, i + 2))
    ensures Swept(f, eps, s, i1, j1, improved1, bestVal1, bestSol1, bi1, bj1, fi1, fj1)
    ensures SweepFrom(f, eps, s, i1, j1, improved1, bestVal1, bestSol1, bi1, bj1)
         == SweepFrom(f, eps, s, i, j, improved, bestVal, bestSol, bi, bj)
  {
    if j == |s| {
      RowEnd(f, eps, s, i, improved, bestVal, bestSol, bi, bj, fi, fj);
      RowStart(f, eps, s, i + 1, improved, bestVal, bestSol, bi, bj, fi, fj);
      i1, j1, improved1, bestVal1, bestSol1, bi1, bj1, fi1, fj1 := i + 1, i + 2, improved, bestVal, bestSol, bi, bj, fi, fj;
    } else {
      var t := Swap(s, i, j);
      if f(t) - bestVal < eps {
        Kept(f, eps, s, i, j, improved, bestVal, bestSol, bi, bj, fi, fj);
        var (gi, gj) := if improved then (fi, fj) else (i, j);
        i1, j1, improved1, bestVal1, bestSol1, bi1, bj1, fi1, fj1 := i, j + 1, true, f(t), t, i, j, gi, gj;
      } else {
        Tried(f, eps, s, i, j, improved, bestVal, bestSol, bi, bj, fi, fj);
        i1, j1, improved1, bestVal1, bestSol1, bi1, bj1, fi1, fj1 := i, j + 1, improved, bestVal, bestSol, bi, bj, fi, fj;
      }
    }
  }

  /** What a pass establishes: it keeps nothing exactly when `s` is stuck;
      otherwise it keeps an exchange of `s` that no later exchange undercuts
      by `eps`, below `s` by more than `-eps` when `eps <= 0`, and the first
      exchange of least value when `eps` is zero. */
  lemma NextFacts(f: seq<int> -> int, eps: int, s: seq<int>)
    ensures var r := Next(f, eps, s);
      && (!r.0 <==> Stuck(f, eps, s, f(s)))
      && (!r.0 ==> r.1 == f(s) && r.2 == s)
      && (r.0 ==> Pair(|s|, r.3, r.4) && r.2 == Swap(s, r.3, r.4) && r.1 == f(r.2))
      && (r.0 ==> forall i, j :: Pair(|s|, i, j) && Earlier(r.3, r.4, i, j) ==> f(Swap(s, i, j)) - r.1 >= eps)
      && (r.0 && eps <= 0 ==> r.1 - f(s) < eps)
      && (r.0 && eps == 0 ==> Steepest(f, s, r.3, r.4))
  {
    var improved, bestVal, bestSol, bi, bj, fi, fj := SweepKeeps(f, eps, s, 0, 1, false, f(s), s, 0, 0, 0, 0);
    Finished(f, eps, s, |s|, improved, bestVal, bestSol, bi, bj, fi, fj);
  }

  /** One pass of the `while` loop over `sol`, whose value is `val`. */
  method Pass(s: seq<int>, f: seq<int> -> int, eps: int, val: int)
    returns (improved: bool, bestVal: int, bestSol: seq<int>, ghost bi: int, ghost bj: int)
    requires val == f(s)
    ensures (improved, bestVal, bestSol, bi, bj) == Next(f, eps, s)
    ensures !improved <==> Stuck(f, eps, s, val)
    ensures !improved ==> bestVal == val && bestSol == s
    ensures improved ==> Pair(|s|, bi, bj) && bestSol == Swap(s, bi, bj) && bestVal == f(bestSol)
    ensures improved ==> forall i, j :: Pair(|s|, i, j) && Earlier(bi, bj, i, j) ==> f(Swap(s, i, j)) - bestVal >= eps
    ensures improved && eps <= 0 ==> bestVal - val < eps
    ensures improved && eps == 0 ==> Steepest(f, s, bi, bj)
  {
    var n := |s|;
    improved, bestVal, bestSol, bi, bj := false, val, s, 0, 0;
    var i := 0;
    while i < n
      invariant 0 <= i <= n || (n == 0 && i == 0)
      invariant SweepFrom(f, eps, s, i, i + 1, improved, bestVal, bestSol, bi, bj) == Next(f, eps, s)
    {
      improved, bestVal, bestSol, bi, bj := Row(s, f, eps, i, improved, bestVal, bestSol, bi, bj);
      i := i + 1;
    }
    NextFacts(f, eps, s);
  }

  /** The inner `for` loop of a pass: try `(i, j)` for every `j > i`. */
  method Row(s: seq<int>, f: seq<int> -> int, eps: int, i: int,
             improved0: bool, bestVal0: int, bestSol0: seq<int>, ghost bi0: int, ghost bj0: int)
    returns (improved: bool, bestVal: int, bestSol: seq<int>, ghost bi: int, ghost bj: int)
    requires 0 <= i < |s|
    ensures SweepFrom(f, eps, s, i + 1, i + 2, improved, bestVal, bestSol, bi, bj)
         == SweepFrom(f, eps, s, i, i + 1, improved0, bestVal0, bestSol0, bi0, bj0)
  {
    improved, bestVal, bestSol, bi, bj := improved0, bestVal0, bestSol0, bi0, bj0;
    var j := i + 1;
    while j < |s|
      invariant i + 1 <= j <= |s|
      invariant SweepFrom(f, eps, s, i, j, improved, bestVal, bestSol, bi, bj)
             == SweepFrom(f, eps, s, i, i + 1, improved0, bestVal0, bestSol0, bi0, bj0)
    {
      var test := s[i := s[j]][j := s[i]];
      var curr := f(test);
      if curr - bestVal < eps {
        improved, bestVal, bestSol, bi, bj := true, curr, test, i, j;
      }
      j := j + 1;
    }
  }

  /** A row starts at `j = i + 1`: no pair before it is skipped. */
  lemma RowStart(f: seq<int> -> int, eps: int, s: seq<int>, i: int,
                 improved: bool, bestVal: int, bestSol: seq<int>, bi: int, bj: int, fi: int, fj: int)
    requires Swept(f, eps, s, i, 0, improved, bestVal, bestSol, bi, bj, fi, fj)
    ensures Swept(f, eps, s, i, i + 1, improved, bestVal, bestSol, bi, bj, fi, fj)
  {
  }

  /** A row ends at `j = |s|`: the next row starts. */
  lemma RowEnd(f: seq<int> -> int, eps: int, s: seq<int>, i: int,
               improved: bool, bestVal: int, bestSol: seq<int>, bi: int, bj: int, fi: int, fj: int)
    requires Swept(f, eps, s, i, |s|, improved, bestVal, bestSol, bi, bj, fi, fj)
    ensures Swept(f, eps, s, i + 1, 0, improved, bestVal, bestSol, bi, bj, fi, fj)
  {
  }

  /** An exchange that beats the best by more than `-eps` becomes the kept
      one. */
  lemma Kept(f: seq<int> -> int, eps: int, s: seq<int>, i: int, j: int,
             improved: bool, bestVal: int, bestSol: seq<int>, bi: int, bj: int, fi: int, fj: int)
    requires Pair(|s|, i, j)
    requires Swept(f, eps, s, i, j, improved, bestVal, bestSol, bi, bj, fi, fj)
    requires f(Swap(s, i, j)) - bestVal < eps
    ensures var (fi', fj') := if improved then (fi, fj) else (i, j);
      Swept(f, eps, s, i, j + 1, true, f(Swap(s, i, j)), Swap(s, i, j), i, j, fi', fj')
  {
    var c := f(Swap(s, i, j));
    if eps <= 0 {
      forall i', j' | Pair(|s|, i', j') && Earlier(i', j', i, j)
        ensures f(Swap(s, i', j')) > c
      {
        if improved && Earlier(bi, bj, i', j') {
          assert f(Swap(s, i', j')) - bestVal >= eps;
        } else if improved && i' == bi && j' == bj {
        } else if improved {
          assert f(Swap(s, i', j')) > bestVal;
        }
      }
    }
  }

  /** An exchange that does not beat the best changes nothing. */
  lemma Tried(f: seq<int> -> int, eps: int, s: seq<int>, i: int, j: int,
              improved: bool, bestVal: int, bestSol: seq<int>, bi: int, bj: int, fi: int, fj: int)
    requires Pair(|s|, i, j)
    requires Swept(f, eps, s, i, j, improved, bestVal, bestSol, bi, bj, fi, fj)
    requires f(Swap(s, i, j)) - bestVal >= eps
    ensures Swept(f, eps, s, i, j + 1, improved, bestVal, bestSol, bi, bj, fi, fj)
  {
  }

  /** What a pass's state says once every row is done. */
  lemma Finished(f: seq<int> -> int, eps: int, s: seq<int>, i: int,
                 improved: bool, bestVal: int, bestSol: seq<int>, bi: int, bj: int, fi: int, fj: int)
    requires i >= |s| && Swept(f, eps, s, i, 0, improved, bestVal, bestSol, bi, bj, fi, fj)
    ensures !improved <==> Stuck(f, eps, s, f(s))
    ensures improved ==> forall i', j' :: Pair(|s|, i', j') && Earlier(bi, bj, i', j') ==> f(Swap(s, i', j')) - bestVal >= eps
    ensures improved && eps == 0 ==> Steepest(f, s, bi, bj)
  {
    if improved && eps == 0 {
      forall i', j' | Pair(|s|, i', j')
        ensures f(Swap(s, i', j')) >= bestVal
      {
        if Earlier(bi, bj, i', j') {
        } else if !(i' == bi && j' == bj) {
          assert Earlier(i', j', bi, bj);
        }
      }
    }
  }

  /** A move of the climb: the next tour is the one a pass over the tour
      before keeps, an exchange of two of its positions, below it by more than `-eps` when `eps <= 0`, and the
      first least exchange when `eps` is zero. */
  ghost predicate Moved(f: seq<int> -> int, eps: int, trail: seq<seq<int>>, k: int)
    requires 0 <= k < |trail| - 1
  {
    && Next(f, eps, trail[k]).0 && Next(f, eps, trail[k]).2 == trail[k + 1]
    && (exists i, j :: Pair(|trail[k]|, i, j) && trail[k + 1] == Swap(trail[k], i, j)
          && (eps <= 0 ==> f(trail[k + 1]) - f(trail[k]) < eps)
          && (eps == 0 ==> Steepest(f, trail[k], i, j)))
  }

  /** Every tour of `trail` is a move from the one before. */
  ghost predicate Descent(f: seq<int> -> int, eps: int, trail: seq<seq<int>>) {
    forall k :: 0 <= k < |trail| - 1 ==> Moved(f, eps, trail, k)
  }

  /** `HC::solve`. `converged` is the flag of the last pass, so it is false
      exactly when a pass kept nothing; `passes` counts the passes. */
  method Solve(start: seq<int>, f: seq<int> -> int, eps: int, maxIter: int)
    returns (sol: seq<int>, fVal: int, converged: bool, ghost passes: nat, ghost trail: seq<seq<int>>)
    ensures fVal == f(sol) && multiset(sol) == multiset(start)
    ensures passes <= if maxIter <= 0 then 0 else maxIter
    ensures converged ==> passes == if maxIter <= 0 then 0 else maxIter
    ensures !converged ==> Stuck(f, eps, sol, fVal) && !Next(f, eps, sol).0
    ensures |trail| >= 1 && trail[0] == start && trail[|trail| - 1] == sol && Descent(f, eps, trail)
    ensures |trail| == if converged then passes + 1 else passes
  {
    sol := start;
    var iter := 0;
    fVal := f(sol);
    var improved := true;
    trail := [start];
    while iter < maxIter && improved
      invariant 0 <= iter && (iter <= maxIter || iter == 0)
      invariant fVal == f(sol) && multiset(sol) == multiset(start)
      invariant !improved ==> Stuck(f, eps, sol, fVal) && !Next(f, eps, sol).0
      invariant |trail| >= 1 && trail[0] == start && trail[|trail| - 1] == sol && Descent(f, eps, trail)
      invariant |trail| == if improved then iter + 1 else iter
      decreases maxIter - iter
    {
      var localVal, testSol;
      ghost var bi, bj;
      improved, localVal, testSol, bi, bj := Pass(sol, f, eps, fVal);
      if improved {
        DescentSnoc(f, eps, trail, testSol, bi, bj);
        sol, fVal := testSol, localVal;
        trail := trail + [sol];
      }
      iter := iter + 1;
    }
    converged, passes := improved, iter;
  }

  /** A descent extends by the tour a pass keeps. */
  lemma DescentSnoc(f: seq<int> -> int, eps: int, trail: seq<seq<int>>, t: seq<int>, i: int, j: int)
    requires |trail| >= 1 && Descent(f, eps, trail)
    requires Pair(|trail[|trail| - 1]|, i, j) && t == Swap(trail[|trail| - 1], i, j)
    requires eps <= 0 ==> f(t) - f(trail[|trail| - 1]) < eps
    requires eps == 0 ==> Steepest(f, trail[|trail| - 1], i, j)
    requires Next(f, eps, trail[|trail| - 1]).0 && Next(f, eps, trail[|trail| - 1]).2 == t
    ensures Descent(f, eps, trail + [t])
  {
    var u := trail + [t];
    forall k | 0 <= k < |u| - 1 ensures Moved(f, eps, u, k) {
      if k < |trail| - 1 {
        assert Moved(f, eps, trail, k);
        assert u[k] == trail[k] && u[k + 1] == trail[k + 1];
      } else {
        assert u[k] == trail[|trail| - 1] && u[k + 1] == t;
      }
    }
  }

  /** With `eps <= 0` the climb strictly descends: every tour of the trail
      is below each one before it, so no tour is visited twice. */
  lemma {:induction false} DescentDecreases(f: seq<int> -> int, eps: int, trail: seq<seq<int>>, k: int, l: int)
    requires eps <= 0 && Descent(f, eps, trail) && 0 <= k < l < |trail|
    ensures f(trail[l]) + (l - k) <= f(trail[k]) && trail[l] != trail[k]
  {
    assert Moved(f, eps, trail, l - 1);
    if k < l - 1 {
      DescentDecreases(f, eps, trail, k, l - 1);
    }
  }
}
