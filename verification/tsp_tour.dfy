/** The tour cost of the steepest-descent travelling salesman example: the
    distance table is triangular, row `a` holding the distances from `a` to
    `a + 1`, `a + 2`, ..., and a tour pays the distance of each consecutive
    pair, the last city back to the first included. */
module TspTour {

  /** `d` has a row for each of the `m` cities and row `a` has an entry for
      every city after `a`. */
  predicate Triangular(d: seq<seq<int>>, m: nat) {
    |d| >= m && forall a :: 0 <= a < m ==> |d[a]| >= m - a - 1
  }

  /** Every entry of `p` is one of the `m` cities. */
  predicate Cities(p: seq<int>, m: nat) {
    forall k :: 0 <= k < |p| ==> 0 <= p[k] < m
  }

  function Min(u: int, v: int): int { if u <= v then u else v }
  function Max(u: int, v: int): int { if u <= v then v else u }

  /** The distance between two cities: nothing from a city to itself, and
      otherwise the entry of the smaller city's row for the larger one. */
  function Dist(d: seq<seq<int>>, m: nat, u: int, v: int): (r: int)
    requires Triangular(d, m) && 0 <= u < m && 0 <= v < m
    ensures u == v ==> r == 0
  {
    if u == v then 0 else d[Min(u, v)][Max(u, v) - Min(u, v) - 1]
  }

  /** The table is read the same way in both directions. */
  lemma DistSymmetric(d: seq<seq<int>>, m: nat, u: int, v: int)
    requires Triangular(d, m) && 0 <= u < m && 0 <= v < m
    ensures Dist(d, m, u, v) == Dist(d, m, v, u)
  {
  }

  /** The cost of walking `p` from its first city to its last. */
  function Walk(d: seq<seq<int>>, m: nat, p: seq<int>): int
    requires Triangular(d, m) && Cities(p, m)
  {
    if |p| <= 1 then 0 else Walk(d, m, p[..|p| - 1]) + Dist(d, m, p[|p| - 2], p[|p| - 1])
  }

  /** The cost of the closed tour `p`: the walk and the way back. */
  function Tour(d: seq<seq<int>>, m: nat, p: seq<int>): int
    requires Triangular(d, m) && Cities(p, m)
  {
    if |p| == 0 then 0 else Walk(d, m, p) + Dist(d, m, p[|p| - 1], p[0])
  }

  /** The lambda `F`: for each position `i`, add the distance from `p[i]` to
      `p[(i + 1) % n]`, skipping a pair that names one city twice. */
  method TourCost(d: seq<seq<int>>, m: nat, p: seq<int>) returns (tot: int)
    requires Triangular(d, m) && Cities(p, m)
    ensures tot == Tour(d, m, p)
  {
    tot := 0;
    var n := |p|;
    var i := 0;
    while i < n
      invariant i <= n
      invariant tot == if i == n then Tour(d, m, p) else Walk(d, m, p[..i + 1])
    {
      NextIndex(i, n);
      var u, v := p[i], p[(i + 1) % n];
      if u != v {
        tot := tot + d[Min(u, v)][Max(u, v) - Min(u, v) - 1];
      }
      WalkStep(d, m, p, i);
      i := i + 1;
    }
  }

  /** The position after `i` in a cycle of `n`. */
  lemma NextIndex(i: int, n: int)
    requires 0 <= i < n
    ensures (i + 1) % n == if i + 1 < n then i + 1 else 0
  {
  }

  /** One more pair of the loop of `TourCost`. */
  lemma WalkStep(d: seq<seq<int>>, m: nat, p: seq<int>, i: nat)
    requires Triangular(d, m) && Cities(p, m) && i < |p|
    ensures i + 1 < |p| ==> Walk(d, m, p[..i + 2]) == Walk(d, m, p[..i + 1]) + Dist(d, m, p[i], p[i + 1])
    ensures i + 1 == |p| ==> Tour(d, m, p) == Walk(d, m, p[..i + 1]) + Dist(d, m, p[i], p[0])
  {
    if i + 1 < |p| {
      assert p[..i + 2][..i + 1] == p[..i + 1];
    } else {
      assert p[..i + 1] == p;
    }
  }

  /** A walk splits after its first city. */
  lemma {:induction false} WalkCons(d: seq<seq<int>>, m: nat, p: seq<int>)
    requires Triangular(d, m) && Cities(p, m) && |p| >= 2
    ensures Walk(d, m, p) == Dist(d, m, p[0], p[1]) + Walk(d, m, p[1..])
  {
    if |p| > 2 {
      var q := p[..|p| - 1];
      WalkCons(d, m, q);
      assert q[1..] == p[1..][..|p[1..]| - 1];
    } else {
      assert p[..1] == [p[0]];
    }
  }

  /** Starting the tour at its second city leaves its cost unchanged. */
  lemma TourRotate(d: seq<seq<int>>, m: nat, p: seq<int>)
    requires Triangular(d, m) && Cities(p, m) && |p| >= 1
    ensures Cities(p[1..] + [p[0]], m)
    ensures Tour(d, m, p[1..] + [p[0]]) == Tour(d, m, p)
  {
    var q := p[1..] + [p[0]];
    assert Cities(q, m) by {
      forall k | 0 <= k < |q| ensures 0 <= q[k] < m {
        if k < |p| - 1 { assert q[k] == p[k + 1]; }
      }
    }
    if |p| >= 2 {
      WalkCons(d, m, p);
      assert q[..|q| - 1] == p[1..];
    } else {
      assert q == p;
    }
  }

  /** Every rotation of a tour costs the same. */
  lemma {:induction false} TourRotations(d: seq<seq<int>>, m: nat, p: seq<int>, k: nat)
    requires Triangular(d, m) && Cities(p, m) && k <= |p|
    ensures Cities(p[k..] + p[..k], m)
    ensures Tour(d, m, p[k..] + p[..k]) == Tour(d, m, p)
  {
    if k == 0 {
      assert p[k..] + p[..k] == p;
    } else {
      TourRotations(d, m, p, k - 1);
      var r := p[k - 1..] + p[..k - 1];
      TourRotate(d, m, r);
      RotateOnce(p, k);
    }
  }

  /** Moving the first city of a rotation to the back gives the next one. */
  lemma RotateOnce(p: seq<int>, k: nat)
    requires 1 <= k <= |p|
    ensures var r := p[k - 1..] + p[..k - 1]; r[1..] + [r[0]] == p[k..] + p[..k]
  {
    var r := p[k - 1..] + p[..k - 1];
    assert r[0] == p[k - 1];
    assert r[1..] == p[k..] + p[..k - 1];
    assert p[..k] == p[..k - 1] + [p[k - 1]];
  }

  /** `p` read backwards. */
  function Reverse(p: seq<int>): (r: seq<int>)
    ensures |r| == |p| && forall k :: 0 <= k < |p| ==> r[k] == p[|p| - 1 - k]
  {
    if |p| == 0 then [] else [p[|p| - 1]] + Reverse(p[..|p| - 1])
  }

  /** A walk costs the same backwards. */
  lemma {:induction false} WalkReverse(d: seq<seq<int>>, m: nat, p: seq<int>)
    requires Triangular(d, m) && Cities(p, m)
    ensures Cities(Reverse(p), m) && Walk(d, m, Reverse(p)) == Walk(d, m, p)
  {
    var r := Reverse(p);
    assert Cities(r, m) by {
      forall k | 0 <= k < |r| ensures 0 <= r[k] < m {
        assert r[k] == p[|p| - 1 - k];
      }
    }
    if |p| >= 2 {
      var q := p[..|p| - 1];
      WalkReverse(d, m, q);
      WalkCons(d, m, r);
      assert r[1..] == Reverse(q);
      DistSymmetric(d, m, p[|p| - 2], p[|p| - 1]);
    }
  }

  /** A tour costs the same backwards. */
  lemma TourReverse(d: seq<seq<int>>, m: nat, p: seq<int>)
    requires Triangular(d, m) && Cities(p, m)
    ensures Cities(Reverse(p), m) && Tour(d, m, Reverse(p)) == Tour(d, m, p)
  {
    WalkReverse(d, m, p);
    if |p| >= 1 {
      DistSymmetric(d, m, p[|p| - 1], p[0]);
    }
  }
}
