/** The road map of the route finder: a dictionary from a city to its list of
    (neighbour, distance) pairs, read the way `edge_list.get(city, [])`
    reads it, and the path cost it assigns by taking, for each consecutive
    pair of cities, the distance of the first matching pair in the list.
    Distances are natural numbers here; the infinite cost is `Inf`. */
module RouteGraph {
  import opened Common
  import opened Walks

  type City = string
  type EdgeList = map<City, seq<(City, nat)>>

  /** The list of (neighbour, distance) pairs of `u`, empty when `u` has none. */
  function Neighbours(el: EdgeList, u: City): seq<(City, nat)> {
    if u in el then el[u] else []
  }

  /** The distance of the first pair in `es` naming `v`. */
  function FirstWeight(es: seq<(City, nat)>, v: City): Option<nat> {
    if |es| == 0 then None
    else if es[0].0 == v then Some(es[0].1)
    else FirstWeight(es[1..], v)
  }

  /** A distance is found exactly when some pair names `v`, and it is the
      distance of the first such pair. */
  lemma {:induction false} FirstWeightSpec(es: seq<(City, nat)>, v: City)
    ensures var r := FirstWeight(es, v);
      && (r.Some? <==> exists k :: 0 <= k < |es| && es[k].0 == v)
      && (r.Some? ==> exists k :: 0 <= k < |es| && es[k] == (v, r.value) && forall m :: 0 <= m < k ==> es[m].0 != v)
  {
    if |es| > 0 && es[0].0 != v {
      FirstWeightSpec(es[1..], v);
      var r := FirstWeight(es, v);
      if r.Some? {
        var k :| 0 <= k < |es[1..]| && es[1..][k] == (v, r.value) && forall m :: 0 <= m < k ==> es[1..][m].0 != v;
        assert es[k + 1] == (v, r.value);
        assert forall m :: 0 <= m < k + 1 ==> es[m].0 != v by {
          forall m | 0 <= m < k + 1 ensures es[m].0 != v {
            if m > 0 {
              assert es[m] == es[1..][m - 1];
            }
          }
        }
      } else {
        forall k | 0 <= k < |es| ensures es[k].0 != v {
          if k > 0 {
            assert es[k] == es[1..][k - 1];
          }
        }
      }
    } else if |es| > 0 {
      assert es[0] == (v, es[0].1);
    }
  }

  /** The first matching pair of a list that names its neighbours once is
      the only matching pair. */
  lemma FirstWeightUnique(es: seq<(City, nat)>, v: City, w: nat)
    requires (v, w) in es && forall i, j :: 0 <= i < j < |es| ==> es[i].0 != es[j].0
    ensures FirstWeight(es, v) == Some(w)
  {
    FirstWeightSpec(es, v);
    var k :| 0 <= k < |es| && es[k] == (v, w);
    var r := FirstWeight(es, v);
    var k' :| 0 <= k' < |es| && es[k'] == (v, r.value) && forall m :: 0 <= m < k' ==> es[m].0 != v;
    assert k == k';
  }

  /** Every city the road map names: each city with a list and each city
      listed as a neighbour. */
  ghost function Places(el: EdgeList): set<City> {
    el.Keys + (set u, k | u in el && 0 <= k < |el[u]| :: el[u][k].0)
  }

  /** A listed neighbour is a city of the map. */
  lemma ListedPlace(el: EdgeList, u: City, k: nat)
    requires u in el && k < |el[u]|
    ensures el[u][k].0 in Places(el)
  {
    assert el[u][k].0 in (set u, k | u in el && 0 <= k < |el[u]| :: el[u][k].0);
  }

  /** `v` is listed as a neighbour of `u` (see `FirstWeight`). */
  predicate HasEdge(el: EdgeList, u: City, v: City) {
    FirstWeight(Neighbours(el, u), v).Some?
  }

  /** Every consecutive pair of `p` is listed as an edge. */
  ghost predicate Linked(el: EdgeList, p: seq<City>) {
    forall i :: 0 <= i < |p| - 1 ==> HasEdge(el, p[i], p[i + 1])
  }

  /** The cost `get_path_cost` gives a path: the first listed distance of each
      consecutive pair, added up, and infinite as soon as a pair is not listed.
      A path of at most one city costs nothing. */
  function RouteCost(el: EdgeList, p: seq<City>): Cost {
    if |p| <= 1 then Fin(0)
    else match FirstWeight(Neighbours(el, p[|p| - 2]), p[|p| - 1])
      case None => Inf
      case Some(w) => AddCost(RouteCost(el, p[..|p| - 1]), w)
  }

  /** A path has a finite cost exactly when every consecutive pair is listed. */
  lemma {:induction false} RouteCostFinite(el: EdgeList, p: seq<City>)
    ensures RouteCost(el, p).Fin? <==> Linked(el, p)
  {
    if |p| > 1 {
      var q := p[..|p| - 1];
      RouteCostFinite(el, q);
      LinkedSnoc(el, p);
    }
  }

  /** A path of at least two cities is linked exactly when the path without
      its last city is and the last pair is listed. */
  lemma LinkedSnoc(el: EdgeList, p: seq<City>)
    requires |p| > 1
    ensures Linked(el, p) <==> Linked(el, p[..|p| - 1]) && HasEdge(el, p[|p| - 2], p[|p| - 1])
  {
    var q := p[..|p| - 1];
    if Linked(el, q) && HasEdge(el, p[|p| - 2], p[|p| - 1]) {
      forall i | 0 <= i < |p| - 1 ensures HasEdge(el, p[i], p[i + 1]) {
        if i < |p| - 2 {
          assert HasEdge(el, q[i], q[i + 1]);
        }
      }
    }
  }

  /** `a + b` on costs: infinite when either side is. */
  function Plus(a: Cost, b: Cost): Cost {
    if b.Inf? then Inf else AddCost(a, b.val)
  }

  /** Extending a path by one city adds the first listed distance to it. */
  lemma RouteCostSnoc(el: EdgeList, a: seq<City>, v: City)
    requires |a| >= 1
    ensures RouteCost(el, a + [v]) == match FirstWeight(Neighbours(el, a[|a| - 1]), v)
      case None => Inf
      case Some(w) => AddCost(RouteCost(el, a), w)
  {
    assert (a + [v])[..|a|] == a;
  }

  /** Joining two paths at a shared city adds their costs. */
  lemma {:induction false} RouteCostJoin(el: EdgeList, a: seq<City>, b: seq<City>)
    requires |a| >= 1 && |b| >= 1 && a[|a| - 1] == b[0]
    ensures RouteCost(el, a + b[1..]) == Plus(RouteCost(el, a), RouteCost(el, b))
  {
    if |b| == 1 {
      assert a + b[1..] == a;
    } else {
      var b', v := b[..|b| - 1], b[|b| - 1];
      RouteCostJoin(el, a, b');
      JoinSnoc(a, b);
      RouteCostSnoc(el, a + b'[1..], v);
      RouteCostSnoc(el, b', v);
      PlusSnoc(RouteCost(el, a), RouteCost(el, b'), FirstWeight(Neighbours(el, b'[|b'| - 1]), v));
    }
  }

  /** The join with `b` is the join with `b` but its last city, then that
      city, and the city before it is the one before it in `b`. */
  lemma JoinSnoc(a: seq<City>, b: seq<City>)
    requires |a| >= 1 && |b| >= 2 && a[|a| - 1] == b[0]
    ensures var b' := b[..|b| - 1];
      && a + b[1..] == (a + b'[1..]) + [b[|b| - 1]] && b == b' + [b[|b| - 1]]
      && (a + b'[1..])[|a + b'[1..]| - 1] == b'[|b'| - 1]
  {
    var b' := b[..|b| - 1];
    assert b[1..] == b'[1..] + [b[|b| - 1]];
  }

  /** Adding one more distance, or infinity, on the right of a sum. */
  lemma PlusSnoc(x: Cost, y: Cost, w: Option<nat>)
    ensures (match w case None => Inf case Some(d) => AddCost(Plus(x, y), d))
         == Plus(x, match w case None => Inf case Some(d) => AddCost(y, d))
  {
  }

  /** A prefix with an infinite cost makes the whole path cost infinite. */
  lemma {:induction false} InfinitePrefix(el: EdgeList, p: seq<City>, k: nat)
    requires k <= |p| && RouteCost(el, p[..k]).Inf?
    ensures RouteCost(el, p).Inf?
  {
    if k < |p| {
      assert p[..|p| - 1][..k] == p[..k];
      InfinitePrefix(el, p[..|p| - 1], k);
    } else {
      assert p[..k] == p;
    }
  }

  /** `p` is a walk along listed pairs, `ws[i]` the distance of a listed pair
      from `p[i]` to `p[i + 1]`. */
  ghost predicate IsWalkW(el: EdgeList, p: seq<City>, ws: seq<nat>) {
    && |p| >= 1 && |ws| == |p| - 1
    && forall i :: 0 <= i < |p| - 1 ==> p[i] in el && (p[i + 1], ws[i]) in el[p[i]]
  }

  /** A walk extends by a listed pair of its last city. */
  lemma WalkSnoc(el: EdgeList, p: seq<City>, ws: seq<nat>, v: City, w: nat)
    requires IsWalkW(el, p, ws) && p[|p| - 1] in el && (v, w) in el[p[|p| - 1]]
    ensures IsWalkW(el, p + [v], ws + [w]) && Sum(ws + [w]) == Sum(ws) + w
  {
    assert (ws + [w])[..|ws|] == ws;
  }

  /** No city lists the same neighbour twice. */
  ghost predicate NoParallel(el: EdgeList) {
    forall u, i, j :: u in el && 0 <= i < j < |el[u]| ==> el[u][i].0 != el[u][j].0
  }

  /** Without repeated neighbours, the cost of a walk is the sum of its
      distances. */
  lemma {:induction false} WalkCost(el: EdgeList, p: seq<City>, ws: seq<nat>)
    requires IsWalkW(el, p, ws) && NoParallel(el)
    ensures RouteCost(el, p) == Fin(Sum(ws))
  {
    if |p| > 1 {
      var q, qs := p[..|p| - 1], ws[..|ws| - 1];
      assert IsWalkW(el, q, qs);
      WalkCost(el, q, qs);
      var u, v, w := p[|p| - 2], p[|p| - 1], ws[|ws| - 1];
      FirstWeightUnique(el[u], v, w);
    }
  }

  /** The lookup loop shared by `get_path_cost` and the shortcut scan: walk
      the pairs of `u` and stop at the first one naming `v`. */
  method Lookup(el: EdgeList, u: City, v: City) returns (d: Option<nat>)
    ensures d == FirstWeight(Neighbours(el, u), v)
  {
    var es := Neighbours(el, u);
    var i := 0;
    while i < |es|
      invariant i <= |es| && FirstWeight(es, v) == FirstWeight(es[i..], v)
    {
      if es[i].0 == v {
        return Some(es[i].1);
      }
      assert es[i..][1..] == es[i + 1..];
      i := i + 1;
    }
    return None;
  }

  /** `get_path_cost`: add up the first listed distance of each consecutive
      pair, returning infinity at the first pair that is not listed. */
  method PathCost(el: EdgeList, path: seq<City>) returns (cost: Cost)
    ensures cost == RouteCost(el, path)
    ensures cost.Fin? <==> Linked(el, path)
  {
    var acc: nat := 0;
    var i := 0;
    while i + 1 < |path|
      invariant i < |path| || (i == 0 && |path| == 0)
      invariant |path| == 0 ==> acc == 0
      invariant |path| > 0 ==> RouteCost(el, path[..i + 1]) == Fin(acc)
    {
      var d := Lookup(el, path[i], path[i + 1]);
      PrefixStep(el, path, i);
      if d.None? {
        InfinitePrefix(el, path, i + 2);
        RouteCostFinite(el, path);
        return Inf;
      }
      acc := acc + d.value;
      i := i + 1;
    }
    if |path| > 0 {
      assert path[..i + 1] == path;
    }
    RouteCostFinite(el, path);
    return Fin(acc);
  }

  /** One more pair of `get_path_cost`'s loop. */
  lemma PrefixStep(el: EdgeList, p: seq<City>, i: nat)
    requires i + 1 < |p|
    ensures RouteCost(el, p[..i + 2]) == match FirstWeight(Neighbours(el, p[i]), p[i + 1])
      case None => Inf
      case Some(w) => AddCost(RouteCost(el, p[..i + 1]), w)
  {
    assert p[..i + 2][..i + 1] == p[..i + 1];
  }
}
