/** The shortcuts the route finder's hill climbing looks for: cutting the
    cities strictly between positions `i` and `j` out of a route, which
    pairs qualify, which one a pass keeps, and what a pass knows part-way
    through its scan. */
module RouteCut {
  import opened Common
  import opened RouteGraph
  import opened RandomRoute
  /** Python's `a < b` on costs: nothing is below infinity but finite
      costs, and infinity is below nothing. */
  predicate Below(a: Cost, b: Cost) {
    a.Fin? && (b.Inf? || a.val < b.val)
  }

  /** `path[:i+1] + path[j:]`: the route with the cities strictly between
      positions `i` and `j` cut out. */
  function Shortcut(p: seq<City>, i: int, j: int): seq<City>
    requires 0 <= i < j <= |p|
  {
    p[..i + 1] + p[j..]
  }

  /** The cost of the route with the segment from `i` to `j` cut out. */
  function CutCost(el: EdgeList, p: seq<City>, i: int, j: int): Cost
    requires 0 <= i < j <= |p|
  {
    RouteCost(el, Shortcut(p, i, j))
  }

  /** The scan's test of the pair `(i, j)`: a position pair of the scan, a
      listed distance from `p[i]` to `p[j]`, and that distance below the cost
      of the segment `p[i..j + 1]`. */
  predicate Improves(el: EdgeList, p: seq<City>, i: int, j: int) {
    && 1 <= i && i + 2 <= j < |p|
    && var d := FirstWeight(Neighbours(el, p[i]), p[j]);
       d.Some? && Below(Fin(d.value), RouteCost(el, p[i..j + 1]))
  }

  /** `(i', j')` comes before `(i, j)` in the scan order. */
  predicate Earlier(i': int, j': int, i: int, j: int) {
    i' < i || (i' == i && j' < j)
  }

  /** `(i, j)` is the pair a pass keeps: it qualifies, no qualifying cut is
      cheaper, and every qualifying cut scanned before it is dearer. */
  ghost predicate Steepest(el: EdgeList, p: seq<City>, i: int, j: int) {
    && Improves(el, p, i, j)
    && forall i', j' :: Improves(el, p, i', j') ==>
         && !Below(CutCost(el, p, i', j'), CutCost(el, p, i, j))
         && (Earlier(i', j', i, j) ==> Below(CutCost(el, p, i, j), CutCost(el, p, i', j')))
  }

  /** `idx` picks the cities of `a`, in order, out of `b`. */
  ghost predicate Picks(a: seq<City>, b: seq<City>, idx: seq<nat>) {
    && |idx| == |a|
    && (forall k :: 0 <= k < |a| ==> idx[k] < |b| && a[k] == b[idx[k]])
    && (forall k, l :: 0 <= k < l < |a| ==> idx[k] < idx[l])
  }

  /** `a` is a subsequence of `b`. */
  ghost predicate Embeds(a: seq<City>, b: seq<City>) {
    exists idx :: Picks(a, b, idx)
  }

  /** A cut route is a subsequence of the route it was cut from, with the
      same first and last city. */
  lemma ShortcutPicks(p: seq<City>, i: int, j: int) returns (idx: seq<nat>)
    requires 0 <= i < j < |p|
    ensures Picks(Shortcut(p, i, j), p, idx)
    ensures Shortcut(p, i, j)[0] == p[0] && Shortcut(p, i, j)[|Shortcut(p, i, j)| - 1] == p[|p| - 1]
    ensures |Shortcut(p, i, j)| == |p| - (j - i - 1)
  {
    var q := Shortcut(p, i, j);
    idx := seq(|q|, k requires 0 <= k < |q| => if k <= i then k else k + (j - i - 1));
    forall k | 0 <= k < |q| ensures idx[k] < |p| && q[k] == p[idx[k]] {
      if k > i {
        assert q[k] == p[j..][k - (i + 1)];
      }
    }
  }

  /** Picking out of a picked subsequence picks out of the original. */
  lemma PicksCompose(a: seq<City>, b: seq<City>, c: seq<City>, ab: seq<nat>, bc: seq<nat>) returns (ac: seq<nat>)
    requires Picks(a, b, ab) && Picks(b, c, bc)
    ensures Picks(a, c, ac)
  {
    ac := seq(|a|, k requires 0 <= k < |a| => bc[ab[k]]);
  }

  /** A subsequence that keeps the first city of a repetition-free route
      whose later cities are not excluded is again such a route. */
  lemma Inherit(avoid: Option<City>, a: seq<City>, c: seq<City>, idx: seq<nat>)
    requires Picks(a, c, idx) && NoDup(c)
    requires forall m :: 0 < m < |c| ==> !Excluded(avoid, c[m])
    ensures NoDup(a) && forall m :: 0 < m < |a| ==> !Excluded(avoid, a[m])
  {
    forall m | 0 < m < |a| ensures !Excluded(avoid, a[m]) {
      assert idx[0] < idx[m];
    }
  }

  /** Cutting out a qualifying segment of a linked route keeps it linked and
      makes it strictly cheaper. */
  lemma ShortcutCheaper(el: EdgeList, p: seq<City>, i: int, j: int)
    requires Linked(el, p) && Improves(el, p, i, j)
    ensures Linked(el, Shortcut(p, i, j)) && Below(CutCost(el, p, i, j), RouteCost(el, p))
  {
    var d := FirstWeight(Neighbours(el, p[i]), p[j]).value;
    RouteCostFinite(el, p);
    SplitCost(el, p, i, j);
    CutCostIs(el, p, i, j, d);
    CutArith(RouteCost(el, p[..i + 1]), RouteCost(el, p[i..j + 1]), RouteCost(el, p[j..]), d);
    RouteCostFinite(el, Shortcut(p, i, j));
  }

  /** The cost of a route is the sum of the costs of its pieces. */
  lemma SplitCost(el: EdgeList, p: seq<City>, i: int, j: int)
    requires 0 <= i < j < |p|
    ensures RouteCost(el, p) == Plus(Plus(RouteCost(el, p[..i + 1]), RouteCost(el, p[i..j + 1])), RouteCost(el, p[j..]))
  {
    Pieces(p, i, j);
    RouteCostJoin(el, p[..i + 1], p[i..j + 1]);
    RouteCostJoin(el, p[..j + 1], p[j..]);
  }

  /** The cost of a cut is the cost before `i`, the direct distance and the
      cost after `j`. */
  lemma CutCostIs(el: EdgeList, p: seq<City>, i: int, j: int, d: nat)
    requires 0 <= i < j < |p| && FirstWeight(Neighbours(el, p[i]), p[j]) == Some(d)
    ensures CutCost(el, p, i, j) == Plus(AddCost(RouteCost(el, p[..i + 1]), d), RouteCost(el, p[j..]))
  {
    Pieces(p, i, j);
    RouteCostSnoc(el, p[..i + 1], p[j]);
    RouteCostJoin(el, p[..i + 1] + [p[j]], p[j..]);
  }

  /** Replacing a segment's cost by a smaller distance lowers a finite sum. */
  lemma CutArith(ca: Cost, cs: Cost, cb: Cost, d: nat)
    requires Plus(Plus(ca, cs), cb).Fin? && Below(Fin(d), cs)
    ensures Below(Plus(AddCost(ca, d), cb), Plus(Plus(ca, cs), cb))
  {
  }

  /** The route and its cut, assembled from the pieces before `i`, between
      `i` and `j` and after `j`. */
  lemma Pieces(p: seq<City>, i: int, j: int)
    requires 0 <= i < j < |p|
    ensures p[..j + 1] == p[..i + 1] + p[i..j + 1][1..]
    ensures p == p[..j + 1] + p[j..][1..]
    ensures Shortcut(p, i, j) == (p[..i + 1] + [p[j]]) + p[j..][1..]
  {
    assert p[j..] == [p[j]] + p[j..][1..];
  }

  /** What a pass knows once every pair before `(i, j)` is evaluated: the
      kept pair and its cut (`Kept`), and how every earlier qualifying cut
      compares with the best cost (`Beaten`). */
  ghost predicate Scanned(el: EdgeList, p: seq<City>, c0: Cost, i: int, j: int,
                          best: Option<seq<City>>, bestCost: Cost, bi: int, bj: int)
  {
    Kept(el, p, c0, i, j, best, bestCost, bi, bj) && Beaten(el, p, i, j, best, bestCost, bi, bj)
  }

  /** With nothing kept, the best cost is still the route's own `c0`;
      otherwise the kept pair `(bi, bj)` was scanned and qualified, and its
      cut is the best route, cheaper than the current one. */
  ghost predicate Kept(el: EdgeList, p: seq<City>, c0: Cost, i: int, j: int,
                       best: Option<seq<City>>, bestCost: Cost, bi: int, bj: int)
  {
    && (best.None? ==> bestCost == c0)
    && (best.Some? ==>
         && Improves(el, p, bi, bj) && Earlier(bi, bj, i, j)
         && best.value == Shortcut(p, bi, bj) && bestCost == CutCost(el, p, bi, bj) && Below(bestCost, c0))
  }

  /** No qualifying cut scanned before `(i, j)` is below the best cost, and
      those scanned before the kept pair are above it. */
  ghost predicate Beaten(el: EdgeList, p: seq<City>, i: int, j: int,
                         best: Option<seq<City>>, bestCost: Cost, bi: int, bj: int)
  {
    forall i', j' :: Improves(el, p, i', j') && Earlier(i', j', i, j) ==>
      && !Below(CutCost(el, p, i', j'), bestCost)
      && (best.Some? && Earlier(i', j', bi, bj) ==> Below(bestCost, CutCost(el, p, i', j')))
  }

  /** Moving the scan position over pairs that cannot qualify changes
      nothing. */
  lemma Skip(el: EdgeList, p: seq<City>, c0: Cost, i: int, j: int, i2: int, j2: int,
             best: Option<seq<City>>, bestCost: Cost, bi: int, bj: int)
    requires Scanned(el, p, c0, i, j, best, bestCost, bi, bj)
    requires forall i', j' :: Improves(el, p, i', j') ==> (Earlier(i', j', i, j) <==> Earlier(i', j', i2, j2))
    ensures Scanned(el, p, c0, i2, j2, best, bestCost, bi, bj)
  {
  }

  /** A pair that does not qualify changes nothing. */
  lemma Unqualified(el: EdgeList, p: seq<City>, c0: Cost, i: int, j: int,
                    best: Option<seq<City>>, bestCost: Cost, bi: int, bj: int)
    requires Scanned(el, p, c0, i, j, best, bestCost, bi, bj) && !Improves(el, p, i, j)
    ensures Scanned(el, p, c0, i, j + 1, best, bestCost, bi, bj)
  {
    Skip(el, p, c0, i, j, i, j + 1, best, bestCost, bi, bj);
  }

  /** A qualifying pair whose cut beats the best so far becomes the kept
      pair. */
  lemma Taken(el: EdgeList, p: seq<City>, c0: Cost, i: int, j: int,
              best0: Option<seq<City>>, bestCost0: Cost, bi0: int, bj0: int)
    requires Improves(el, p, i, j)
    requires Scanned(el, p, c0, i, j, best0, bestCost0, bi0, bj0)
    requires Below(CutCost(el, p, i, j), bestCost0)
    ensures Scanned(el, p, c0, i, j + 1, Some(Shortcut(p, i, j)), CutCost(el, p, i, j), i, j)
  {
    var c := CutCost(el, p, i, j);
    forall i', j' | Improves(el, p, i', j') && Earlier(i', j', i, j + 1)
      ensures !Below(CutCost(el, p, i', j'), c) && (Earlier(i', j', i, j) ==> Below(c, CutCost(el, p, i', j')))
    {
      if Earlier(i', j', i, j) {
        BelowOrder(CutCost(el, p, i', j'), bestCost0, c);
      } else {
        assert i' == i && j' == j;
        BelowOrder(c, c, c);
      }
    }
    if best0.Some? {
      BelowOrder(c, bestCost0, c0);
    }
  }

  /** Python's `<` on costs is a strict order. */
  lemma BelowOrder(x: Cost, y: Cost, z: Cost)
    ensures !Below(x, x)
    ensures Below(x, y) && Below(y, z) ==> Below(x, z)
    ensures !Below(x, y) && Below(z, y) ==> !Below(x, z) && Below(z, x)
  {
  }

  /** A qualifying pair whose cut does not beat the best so far leaves the
      kept pair alone. */
  lemma Passed(el: EdgeList, p: seq<City>, c0: Cost, i: int, j: int,
               best: Option<seq<City>>, bestCost: Cost, bi: int, bj: int)
    requires Improves(el, p, i, j)
    requires Scanned(el, p, c0, i, j, best, bestCost, bi, bj)
    requires !Below(CutCost(el, p, i, j), bestCost)
    ensures Scanned(el, p, c0, i, j + 1, best, bestCost, bi, bj)
  {
    forall i', j' | Improves(el, p, i', j') && Earlier(i', j', i, j + 1)
      ensures !Below(CutCost(el, p, i', j'), bestCost)
      ensures best.Some? && Earlier(i', j', bi, bj) ==> Below(bestCost, CutCost(el, p, i', j'))
    {
      if !Earlier(i', j', i, j) {
        assert i' == i && j' == j;
      }
    }
  }

  /** A row starts at `j = i + 2`: no pair before that qualifies. */
  lemma RowStart(el: EdgeList, p: seq<City>, c0: Cost, i: int,
                 best: Option<seq<City>>, bestCost: Cost, bi: int, bj: int)
    requires Scanned(el, p, c0, i, 0, best, bestCost, bi, bj)
    ensures Scanned(el, p, c0, i, i + 2, best, bestCost, bi, bj)
  {
    Skip(el, p, c0, i, 0, i, i + 2, best, bestCost, bi, bj);
  }

  /** A row ends at `j = |p|`: no pair after that qualifies. */
  lemma RowEnd(el: EdgeList, p: seq<City>, c0: Cost, i: int,
               best: Option<seq<City>>, bestCost: Cost, bi: int, bj: int)
    requires Scanned(el, p, c0, i, |p|, best, bestCost, bi, bj)
    ensures Scanned(el, p, c0, i + 1, 0, best, bestCost, bi, bj)
  {
    Skip(el, p, c0, i, |p|, i + 1, 0, best, bestCost, bi, bj);
  }

  /** After the last row every pair has been scanned. */
  lemma Concluded(el: EdgeList, path: seq<City>, c0: Cost, i: int,
                  best: Option<seq<City>>, bestCost: Cost, bi: int, bj: int)
    requires Linked(el, path) && c0 == RouteCost(el, path)
    requires Scanned(el, path, c0, i, 0, best, bestCost, bi, bj) && i >= |path| - 1
    ensures best.None? <==> forall i, j :: !Improves(el, path, i, j)
    ensures best.None? ==> bestCost == c0
    ensures best.Some? ==> Steepest(el, path, bi, bj) && best.value == Shortcut(path, bi, bj)
    ensures best.Some? ==> bestCost == RouteCost(el, best.value) && Below(bestCost, c0)
  {
    Skip(el, path, c0, i, 0, |path|, 0, best, bestCost, bi, bj);
    forall i', j' | Improves(el, path, i', j') ensures best.Some? {
      ShortcutCheaper(el, path, i', j');
    }
  }
}
