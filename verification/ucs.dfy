/** Uniform-cost search (Dijkstra's algorithm) from applied-ai/ucs.cpp.

    The graph lists each node's edges as (weight, neighbour) pairs, the reverse
    of the A* files. The loop is the best-first loop with a zero heuristic: the
    queue holds (distance, node), a stale pop is skipped, popping the target
    stores its popped distance and stops, and an improving edge records the
    parent, lowers the distance and pushes the node. The result is the list of
    nodes from the source to the target, each carrying its distance, except the
    target, which carries 0. */
module Ucs {
  import opened Common
  import opened Walks
  import opened Chains
  import opened BestFirst
  import opened SearchLoop
  import opened Routes

  /** A node of the returned list. */
  datatype UcsNode = UcsNode(id: nat, cost: nat)

  /** `adj[u]` lists (weight, neighbour) pairs whose neighbours are nodes. */
  predicate ValidUcsAdj(adj: seq<seq<(nat, nat)>>) {
    forall u, i :: 0 <= u < |adj| && 0 <= i < |adj[u]| ==> adj[u][i].1 < |adj|
  }

  /** The same graph with its pairs in (neighbour, weight) order. */
  function Swap(adj: seq<seq<(nat, nat)>>): (r: Adj)
    ensures |r| == |adj|
    ensures forall u :: 0 <= u < |adj| ==> |r[u]| == |adj[u]|
    ensures forall u, i :: 0 <= u < |adj| && 0 <= i < |adj[u]| ==> r[u][i] == (adj[u][i].1, adj[u][i].0)
  {
    seq(|adj|, u requires 0 <= u < |adj| =>
      seq(|adj[u]|, i requires 0 <= i < |adj[u]| => (adj[u][i].1, adj[u][i].0)))
  }

  /** The zero heuristic: uniform-cost search orders the queue by distance alone. */
  function Zeros(n: nat): (h: seq<nat>)
    ensures |h| == n && forall i :: 0 <= i < n ==> h[i] == 0
  {
    Fill<nat>(n, 0)
  }

  function Ids(ns: seq<UcsNode>): (r: seq<nat>)
    ensures |r| == |ns| && forall j :: 0 <= j < |ns| ==> r[j] == ns[j].id
  {
    seq(|ns|, j requires 0 <= j < |ns| => ns[j].id)
  }

  /** The list the reconstruction builds from route `p` and distances `dist`:
      the target at the end carries 0, as it is built without a cost. */
  ghost function Listing(p: seq<nat>, dist: seq<Cost>): seq<UcsNode>
    requires forall j :: 0 <= j < |p| ==> p[j] < |dist|
  {
    seq(|p|, j requires 0 <= j < |p| =>
      if j == |p| - 1 then UcsNode(p[j], 0) else UcsNode(p[j], Stored(dist[p[j]])))
  }

  /** What `findPath` returns: `[S]` with cost 0 when `S == T`, nothing when
      the target was never reached, else the listing of the reported route. */
  ghost function Expected(adj: seq<seq<(nat, nat)>>, s: nat, t: nat): Option<seq<UcsNode>>
    requires ValidUcsAdj(adj) && s < |adj| && t < |adj|
  {
    if s == t then Some([UcsNode(s, 0)])
    else
      var a, h := Swap(adj), Zeros(|adj|);
      RouteChain(a, h, s, t);
      match Route(a, h, s, t)
      case None => None
      case Some(p) => Some(Listing(p, Explore(a, h, s, t).f))
  }

  /** The reconstruction loop: start from the target node, which carries no
      cost, and prepend the parent of the current node, with its distance,
      until the source is reached. */
  method Trace(parents: seq<int>, dist: seq<Cost>, s: nat, t: nat, ghost p: seq<nat>) returns (head: seq<UcsNode>)
    requires IsChain(parents, p, s, t) && |dist| == |parents|
    ensures head == Listing(p, dist)
  {
    var curr := t;
    head := [UcsNode(t, 0)];
    ghost var m: nat := |p| - 1;
    while curr != s
      invariant m < |p| && curr == p[m]
      invariant head == Listing(p, dist)[m..]
      decreases m
    {
      assert parents[p[m]] == p[m - 1];
      curr := parents[curr] as nat;
      m := m - 1;
      head := [UcsNode(curr, Stored(dist[curr]))] + head;
    }
  }

  /** `UCS::findPath`: the search loop, then the walk back along parent links
      from the target, prepending one node per step. */
  method FindPath(adj: seq<seq<(nat, nat)>>, s: nat, t: nat) returns (r: Option<seq<UcsNode>>)
    requires ValidUcsAdj(adj) && s < |adj| && t < |adj|
    ensures r == Expected(adj, s, t)
  {
    if s == t {
      return Some([UcsNode(s, 0)]);
    }
    var a, h := Swap(adj), Zeros(|adj|);
    var visited, parents, g, dist, log := Search(a, h, s, t);
    RouteChain(a, h, s, t);
    if parents[t] == -1 {
      return None;
    }
    var head := Trace(parents, dist, s, t, Route(a, h, s, t).value);
    return Some(head);
  }

  /** What a returned list promises: it runs from `s` to `t` without repeating
      a node, along a least-cost walk; every node but the target carries its
      least distance from `s`, and the target carries 0. */
  ghost predicate Reports(a: Adj, s: nat, t: nat, ns: seq<UcsNode>) {
    && |ns| >= 1 && ns[0].id == s && ns[|ns| - 1] == UcsNode(t, 0)
    && NoDup(Ids(ns))
    && (forall j :: 0 <= j < |ns| - 1 ==> IsShortest(a, s, ns[j].id, ns[j].cost))
    && exists ws :: WalkFromTo(a, Ids(ns), ws, s, t) && IsShortest(a, s, t, Sum(ws))
  }

  /** What the result means. `S == T` gives the one-node list with cost 0.
      Otherwise a list is returned exactly when the target is reachable, and
      a returned list reports a least-cost walk (`Reports`). */
  lemma FindPathCorrect(adj: seq<seq<(nat, nat)>>, s: nat, t: nat)
    requires ValidUcsAdj(adj) && s < |adj| && t < |adj|
    ensures var r := Expected(adj, s, t);
      && (s == t ==> r == Some([UcsNode(s, 0)]))
      && (s != t ==> (r.None? <==> Unreachable(Swap(adj), s, t)))
      && (r.Some? ==> Reports(Swap(adj), s, t, r.value))
  {
    var a, h := Swap(adj), Zeros(|adj|);
    if s == t {
      SingleListing(a, s);
    } else {
      RouteExists(a, h, s, t);
      if Route(a, h, s, t).Some? {
        ZeroConsistent(a, h);
        var ws := RouteFacts(a, h, s, t);
        var fin := Explore(a, h, s, t);
        var p := Route(a, h, s, t).value;
        ListingFacts(a, h, s, t, p, ws, fin.g, fin.f);
        assert Expected(adj, s, t) == Some(Listing(p, fin.f));
      }
    }
  }

  /** The listing of a repetition-free least-cost route whose nodes carry their
      least distances is a report of it. */
  lemma ListingFacts(a: Adj, h: seq<nat>, s: nat, t: nat, p: seq<nat>, ws: seq<nat>, g: seq<Cost>, dist: seq<Cost>)
    requires NoDup(p) && WalkFromTo(a, p, ws, s, t) && CostsAlong(g, p, ws)
    requires forall i :: 0 <= i < |h| ==> h[i] == 0
    requires forall j :: 0 <= j < |p| ==> p[j] < |dist| && p[j] < |h| && dist[p[j]] == AddCost(g[p[j]], h[p[j]])
    requires forall j :: 0 <= j < |p| ==> p[j] < |g| && g[p[j]].Fin? && IsShortest(a, s, p[j], g[p[j]].val)
    ensures Reports(a, s, t, Listing(p, dist))
  {
    var ns := Listing(p, dist);
    assert Ids(ns) == p;
    assert g[p[|p| - 1]] == Fin(Sum(ws[..|p| - 1]));
    assert ws[..|p| - 1] == ws;
  }

  /** The one-node list returned when `S == T` reports the empty walk, of cost 0. */
  lemma SingleListing(a: Adj, s: nat)
    requires s < |a|
    ensures Reports(a, s, s, [UcsNode(s, 0)])
  {
    assert Ids([UcsNode(s, 0)]) == [s];
    assert WalkFromTo(a, [s], [], s, s);
    assert IsShortest(a, s, s, Sum([]));
  }
}
