/** The route finder's hill climbing over shortcuts. Starting from a random
    route, each pass scans the position pairs `1 <= i`, `i + 2 <= j` of the
    current route in order; a pair qualifies when the map lists a distance
    from the city at `i` straight to the city at `j` that is below the cost
    of the route's segment between them. The pass keeps the cheapest route
    obtained by cutting out a qualifying segment (the earliest on ties), and
    the climb moves to it when it is cheaper than the current route; the
    first pass that moves nowhere ends the climb. The scan never starts at
    position 0, so a segment that begins at the start city is never cut. */
module RouteHill {
  import opened Common
  import opened RouteGraph
  import opened RandomRoute
  import opened RouteCut

  /** One move of the climb: `q` is `p` with the kept pair's segment cut out. */
  ghost predicate Step(el: EdgeList, p: seq<City>, q: seq<City>) {
    exists i, j :: Steepest(el, p, i, j) && q == Shortcut(p, i, j)
  }

  /** Every route of `s` is reached from the one before by a move that
      lowers the cost. */
  ghost predicate Chain(el: EdgeList, s: seq<seq<City>>) {
    forall k :: 0 <= k < |s| - 1 ==> Moves(el, s, k)
  }

  /** The route after position `k` of `s` is a cheaper move from it. */
  ghost predicate Moves(el: EdgeList, s: seq<seq<City>>, k: int)
    requires 0 <= k < |s| - 1
  {
    Step(el, s[k], s[k + 1]) && Below(RouteCost(el, s[k + 1]), RouteCost(el, s[k]))
  }

  /** The number of pairs one pass over a route of `n` cities evaluates. */
  function Pairs(n: nat): nat {
    RowsFrom(n, 1)
  }

  /** The pairs `(i', j)` with `i <= i'` and `i' + 2 <= j < n`: row `i`
      holds `n - i - 2` of them. */
  function RowsFrom(n: nat, i: nat): nat
    decreases n - i
  {
    if i + 2 >= n then 0 else (n - i - 2) + RowsFrom(n, i + 1)
  }

  /** Counted in closed form, a pass over `n >= 3` cities evaluates
      `(n - 2) * (n - 3) / 2` pairs; from `i == 1`, `RowsFrom(n, 1)` is that
      count. */
  lemma {:induction false} RowsCount(n: nat, i: nat)
    requires i + 2 <= n
    ensures 2 * RowsFrom(n, i) == (n - i - 2) * (n - i - 1)
    decreases n - i
  {
    if i + 2 < n {
      RowsCount(n, i + 1);
    }
  }

  /** The evaluations of the passes over the routes of `trail`. */
  function PassEvals(trail: seq<seq<City>>): nat {
    if |trail| == 0 then 0 else PassEvals(trail[..|trail| - 1]) + Pairs(|trail[|trail| - 1]|)
  }

  /** The body of the inner loop: evaluate the pair `(i, j)`. */
  method Consider(el: EdgeList, path: seq<City>, c0: Cost, i: nat, j: nat,
                  best0: Option<seq<City>>, bestCost0: Cost, ghost bi0: int, ghost bj0: int)
    returns (best: Option<seq<City>>, bestCost: Cost, ghost bi: int, ghost bj: int)
    requires 1 <= i && i + 2 <= j < |path|
    requires Scanned(el, path, c0, i, j, best0, bestCost0, bi0, bj0)
    ensures Scanned(el, path, c0, i, j + 1, best, bestCost, bi, bj)
  {
    best, bestCost, bi, bj := best0, bestCost0, bi0, bj0;
    var direct := Lookup(el, path[i], path[j]);
    if direct.None? {
      Unqualified(el, path, c0, i, j, best, bestCost, bi, bj);
      return;
    }
    var segment := PathCost(el, path[i..j + 1]);
    if !Below(Fin(direct.value), segment) {
      Unqualified(el, path, c0, i, j, best, bestCost, bi, bj);
      return;
    }
    var candidate := path[..i + 1] + path[j..];
    var candidateCost := PathCost(el, candidate);
    if Below(candidateCost, bestCost) {
      Taken(el, path, c0, i, j, best0, bestCost0, bi0, bj0);
      best, bestCost, bi, bj := Some(candidate), candidateCost, i, j;
    } else {
      Passed(el, path, c0, i, j, best, bestCost, bi, bj);
    }
  }

  /** One pass: evaluate every pair `1 <= i`, `i + 2 <= j < |path|` in order.
      Nothing is kept exactly when no pair qualifies; otherwise the kept
      pair is the steepest one and its cut is cheaper than the route. */
  method Scan(el: EdgeList, path: seq<City>, c0: Cost)
    returns (best: Option<seq<City>>, bestCost: Cost, evals: nat, ghost bi: int, ghost bj: int)
    requires Linked(el, path) && c0 == RouteCost(el, path)
    ensures evals == Pairs(|path|)
    ensures best.None? <==> forall i, j :: !Improves(el, path, i, j)
    ensures best.None? ==> bestCost == c0
    ensures best.Some? ==> Steepest(el, path, bi, bj) && best.value == Shortcut(path, bi, bj)
    ensures best.Some? ==> bestCost == RouteCost(el, best.value) && Below(bestCost, c0)
  {
    best, bestCost, evals, bi, bj := None, c0, 0, 0, 0;
    var n := |path|;
    var i := 1;
    while i < n - 1
      invariant 1 <= i && (n >= 2 ==> i <= n - 1)
      invariant evals + RowsFrom(n, i) == Pairs(n)
      invariant Scanned(el, path, c0, i, 0, best, bestCost, bi, bj)
    {
      var rowEvals;
      RowStart(el, path, c0, i, best, bestCost, bi, bj);
      best, bestCost, rowEvals, bi, bj := ScanRow(el, path, c0, i, best, bestCost, bi, bj);
      RowEnd(el, path, c0, i, best, bestCost, bi, bj);
      evals := evals + rowEvals;
      i := i + 1;
    }
    Concluded(el, path, c0, i, best, bestCost, bi, bj);
  }

  /** The inner loop of a pass: evaluate the pairs `(i, j)` for
      `i + 2 <= j < |path|`. */
  method ScanRow(el: EdgeList, path: seq<City>, c0: Cost, i: nat,
                 best0: Option<seq<City>>, bestCost0: Cost, ghost bi0: int, ghost bj0: int)
    returns (best: Option<seq<City>>, bestCost: Cost, evals: nat, ghost bi: int, ghost bj: int)
    requires 1 <= i && i + 2 <= |path|
    requires Scanned(el, path, c0, i, i + 2, best0, bestCost0, bi0, bj0)
    ensures evals == |path| - i - 2
    ensures Scanned(el, path, c0, i, |path|, best, bestCost, bi, bj)
  {
    var n := |path|;
    best, bestCost, evals, bi, bj := best0, bestCost0, 0, bi0, bj0;
    var j := i + 2;
    while j < n
      invariant i + 2 <= j <= n && evals == j - i - 2
      invariant Scanned(el, path, c0, i, j, best, bestCost, bi, bj)
    {
      evals := evals + 1;
      best, bestCost, bi, bj := Consider(el, path, c0, i, j, best, bestCost, bi, bj);
      j := j + 1;
    }
  }

  /** The state of the climb between passes: `path` is a linked route from
      the first to the last city of the random route `init`, picked out of it
      by `idx`, with its cost `cost`; `trail` holds the routes of the passes
      so far, each one shorter than the one before, and every route of
      `trail + [path]` is a cheaper move from the one before. */
  ghost predicate Climbing(el: EdgeList, init: seq<City>, path: seq<City>, cost: Cost,
                           trail: seq<seq<City>>, idx: seq<nat>)
  {
    && |init| >= 1 && |path| >= 1 && path[0] == init[0] && path[|path| - 1] == init[|init| - 1]
    && Linked(el, path) && cost == RouteCost(el, path) && cost.Fin?
    && Picks(path, init, idx)
    && |trail| + |path| <= |init|
    && Chain(el, trail + [path]) && (trail + [path])[0] == init
  }

  /** The body of the climb's loop: one pass over `path`, then a move to the
      kept cut when there is one and it is cheaper. Without a move, no pair
      of `path` qualifies. */
  method Climb(el: EdgeList, path: seq<City>, cost: Cost, evals0: nat,
               ghost init: seq<City>, ghost trail: seq<seq<City>>, ghost idx: seq<nat>)
    returns (moved: bool, path': seq<City>, cost': Cost, evals: nat,
             ghost trail': seq<seq<City>>, ghost idx': seq<nat>)
    requires Climbing(el, init, path, cost, trail, idx) && evals0 == PassEvals(trail)
    ensures trail' == trail + [path] && evals == evals0 + Pairs(|path|) && evals == PassEvals(trail')
    ensures moved ==> Climbing(el, init, path', cost', trail', idx') && |path'| < |path|
    ensures !moved ==> path' == path && cost' == cost && forall i, j :: !Improves(el, path, i, j)
  {
    var best, bestCost, passEvals;
    ghost var bi, bj;
    best, bestCost, passEvals, bi, bj := Scan(el, path, cost);
    evals := evals0 + passEvals;
    trail' := trail + [path];
    Passes(trail, path);
    if best.Some? && best.value != [] && Below(bestCost, cost) {
      idx' := Moved(el, init, path, cost, trail, idx, bi, bj);
      moved, path', cost' := true, best.value, bestCost;
    } else {
      moved, path', cost', idx' := false, path, cost, idx;
    }
  }

  /** Moving to the steepest cut keeps the climb's state. */
  lemma Moved(el: EdgeList, init: seq<City>, path: seq<City>, cost: Cost,
              trail: seq<seq<City>>, idx: seq<nat>, i: int, j: int) returns (idx': seq<nat>)
    requires Climbing(el, init, path, cost, trail, idx) && Steepest(el, path, i, j)
    ensures Climbing(el, init, Shortcut(path, i, j), CutCost(el, path, i, j), trail + [path], idx')
    ensures |Shortcut(path, i, j)| < |path|
  {
    var cut := ShortcutPicks(path, i, j);
    idx' := PicksCompose(Shortcut(path, i, j), path, init, cut, idx);
    ChainSnoc(el, trail + [path], Shortcut(path, i, j), i, j);
    ShortcutCheaper(el, path, i, j);
    RouteCostFinite(el, Shortcut(path, i, j));
    assert (trail + [path])[0] == init;
  }

  /** `hill_climbing`: climb from a random route to the goal until a pass
      finds no cheaper cut. The ghost `trail` holds the route each pass
      scanned: the first is the random route, each later one the steepest
      cut of the one before, and the last the route returned. */
  method HillClimbing(el: EdgeList, start: City, goal: City, avoid: Option<City>,
                      shuffle: seq<City> -> seq<City>)
    returns (path: seq<City>, cost: Cost, iterations: nat, lastImproved: nat, evals: nat,
             ghost trail: seq<seq<City>>)
    requires forall s :: multiset(shuffle(s)) == multiset(s)
    ensures path == [] <==> forall p :: !FreeRoute(el, avoid, p, start, goal)
    ensures path == [] ==> cost == Inf && iterations == 0 && lastImproved == 0 && evals == 0 && trail == []
    ensures path != [] ==> FreeRoute(el, avoid, path, start, goal) && NoDup(path) && cost == RouteCost(el, path) && cost.Fin?
    ensures path != [] ==> forall i, j :: !Improves(el, path, i, j)
    ensures path != [] ==> |trail| == iterations == lastImproved + 1 && trail[iterations - 1] == path
    ensures path != [] ==> FreeRoute(el, avoid, trail[0], start, goal) && NoDup(trail[0]) && Embeds(path, trail[0])
    ensures path != [] ==> Chain(el, trail) && iterations + |path| <= |trail[0]| + 1
    ensures evals == PassEvals(trail)
  {
    var route := InitialRoute(el, start, goal, avoid, shuffle);
    // a route found holds at least the start, so `not current_path` is
    // only true when nothing was found
    if route.None? {
      return [], Inf, 0, 0, 0, [];
    }
    path, cost, iterations, lastImproved, evals, trail := Climbs(el, avoid, start, goal, route.value);
  }

  /** The loop of `hill_climbing`, from the random route `init`: one pass per
      iteration until a pass moves nowhere. */
  method Climbs(el: EdgeList, avoid: Option<City>, start: City, goal: City, init: seq<City>)
    returns (path: seq<City>, cost: Cost, iterations: nat, lastImproved: nat, evals: nat,
             ghost trail: seq<seq<City>>)
    requires FreeRoute(el, avoid, init, start, goal) && NoDup(init)
    ensures FreeRoute(el, avoid, path, start, goal) && NoDup(path) && path != []
    ensures cost == RouteCost(el, path) && cost.Fin?
    ensures forall i, j :: !Improves(el, path, i, j)
    ensures |trail| == iterations == lastImproved + 1 && trail[iterations - 1] == path
    ensures trail[0] == init && Embeds(path, init)
    ensures Chain(el, trail) && iterations + |path| <= |init| + 1
    ensures evals == PassEvals(trail)
  {
    path := init;
    RouteCostFinite(el, path);
    cost := PathCost(el, path);
    evals, iterations, lastImproved, trail := 0, 0, 0, [];
    ghost var idx: seq<nat> := seq(|path|, k requires 0 <= k < |path| => k);
    while true
      invariant Climbing(el, init, path, cost, trail, idx)
      invariant lastImproved == iterations == |trail| && evals == PassEvals(trail)
      decreases |path|
    {
      iterations := iterations + 1;
      var moved, path', cost';
      ghost var trail', idx';
      moved, path', cost', evals, trail', idx' := Climb(el, path, cost, evals, init, trail, idx);
      if !moved {
        Finish(el, avoid, init, path, cost, trail, idx, start, goal);
        trail := trail';
        return;
      }
      path, cost, idx := path', cost', idx';
      lastImproved, trail := iterations, trail';
    }
  }

  /** What the climb's state says once a pass over `path` has moved nowhere. */
  lemma Finish(el: EdgeList, avoid: Option<City>, init: seq<City>, path: seq<City>, cost: Cost,
               trail: seq<seq<City>>, idx: seq<nat>, start: City, goal: City)
    requires Climbing(el, init, path, cost, trail, idx)
    requires FreeRoute(el, avoid, init, start, goal) && NoDup(init)
    ensures FreeRoute(el, avoid, path, start, goal) && NoDup(path) && path != []
    ensures (trail + [path])[0] == init && Embeds(path, init) && Chain(el, trail + [path])
    ensures |trail| + 1 + |path| <= |init| + 1 && (trail + [path])[|trail|] == path
  {
    Inherit(avoid, path, init, idx);
  }

  /** Appending a pass adds its evaluations. */
  lemma Passes(trail: seq<seq<City>>, p: seq<City>)
    ensures PassEvals(trail + [p]) == PassEvals(trail) + Pairs(|p|)
  {
    assert (trail + [p])[..|trail|] == trail;
  }

  /** A chain ending in `p` extends by the steepest cut of `p`. */
  lemma ChainSnoc(el: EdgeList, s: seq<seq<City>>, q: seq<City>, i: int, j: int)
    requires |s| >= 1 && Chain(el, s) && Linked(el, s[|s| - 1])
    requires Steepest(el, s[|s| - 1], i, j) && q == Shortcut(s[|s| - 1], i, j)
    ensures Chain(el, s + [q]) && (s + [q])[0] == s[0]
  {
    ShortcutCheaper(el, s[|s| - 1], i, j);
    forall k | 0 <= k < |s + [q]| - 1 ensures Moves(el, s + [q], k) {
      if k == |s| - 1 {
        assert (s + [q])[k + 1] == q;
      } else {
        assert Moves(el, s, k);
        assert (s + [q])[k] == s[k] && (s + [q])[k + 1] == s[k + 1];
      }
    }
  }
}
