/** A* with a heuristic table, from applied-ai/astar_exercise.cpp.

    The graph lists each node's edges as (neighbour, weight) pairs and `h[v]`
    is the heuristic value of node `v`. The loop is the best-first loop: the
    source is queued with priority 0, `g` is the best-known cost, `f = g + h`
    is the priority an improved node is queued with, every non-stale pop is
    appended to the expansion log, and popping the target stores its popped
    priority in `f[T]` and stops. The result is the list of nodes from the
    source to the target, each carrying its `f` and `g`, except the target,
    which carries zeros. */
module AStarTable {
  import opened Common
  import opened Walks
  import opened Chains
  import opened BestFirst
  import opened SearchLoop
  import opened Routes

  /** A node of the returned list. */
  datatype PathNode = PathNode(id: nat, f: nat, g: nat)

  function Ids(ns: seq<PathNode>): (r: seq<nat>)
    ensures |r| == |ns| && forall j :: 0 <= j < |ns| ==> r[j] == ns[j].id
  {
    seq(|ns|, j requires 0 <= j < |ns| => ns[j].id)
  }

  /** The list the reconstruction builds from route `p` and the vectors `f`
      and `g`: the target at the end carries zeros, as it is built without them. */
  ghost function Listing(p: seq<nat>, f: seq<Cost>, g: seq<Cost>): seq<PathNode>
    requires forall j :: 0 <= j < |p| ==> p[j] < |f| && p[j] < |g|
  {
    seq(|p|, j requires 0 <= j < |p| =>
      if j == |p| - 1 then PathNode(p[j], 0, 0) else PathNode(p[j], Stored(f[p[j]]), Stored(g[p[j]])))
  }

  /** What `findPath` returns, with the expansion log it leaves behind: `[S]`
      and an empty log when `S == T`; otherwise the search's log, and nothing
      when the target was never reached, else the listing of the reported route. */
  ghost function Expected(adj: Adj, s: nat, t: nat, h: seq<nat>): (Option<seq<PathNode>>, seq<nat>)
    requires ValidAdj(adj) && s < |adj| && t < |adj| && |adj| <= |h|
  {
    if s == t then (Some([PathNode(s, 0, 0)]), [])
    else
      RouteChain(adj, h, s, t);
      var fin := Explore(adj, h, s, t);
      match Route(adj, h, s, t)
      case None => (None, fin.log)
      case Some(p) => (Some(Listing(p, fin.f, fin.g)), fin.log)
  }

  /** The reconstruction loop: start from the target node, which carries
      zeros, and prepend the parent of the current node, with its `f` and
      `g`, until the source is reached. */
  method Trace(parents: seq<int>, f: seq<Cost>, g: seq<Cost>, s: nat, t: nat, ghost p: seq<nat>)
    returns (head: seq<PathNode>)
    requires IsChain(parents, p, s, t) && |f| == |parents| && |g| == |parents|
    ensures head == Listing(p, f, g)
  {
    var curr := t;
    head := [PathNode(t, 0, 0)];
    ghost var m: nat := |p| - 1;
    while curr != s
      invariant m < |p| && curr == p[m]
      invariant head == Listing(p, f, g)[m..]
      decreases m
    {
      assert parents[p[m]] == p[m - 1];
      curr := parents[curr] as nat;
      m := m - 1;
      head := [PathNode(curr, Stored(f[curr]), Stored(g[curr]))] + head;
    }
  }

  /** `AStar::findPath`: clear the log, search, then walk back along parent
      links from the target. */
  method FindPath(adj: Adj, s: nat, t: nat, h: seq<nat>) returns (path: Option<seq<PathNode>>, expansionLog: seq<nat>)
    requires ValidAdj(adj) && s < |adj| && t < |adj| && |adj| <= |h|
    ensures (path, expansionLog) == Expected(adj, s, t, h)
  {
    expansionLog := [];
    if s == t {
      return Some([PathNode(s, 0, 0)]), expansionLog;
    }
    var visited, parents, g, f;
    visited, parents, g, f, expansionLog := Search(adj, h, s, t);
    RouteChain(adj, h, s, t);
    if parents[t] == -1 {
      return None, expansionLog;
    }
    var head := Trace(parents, f, g, s, t, Route(adj, h, s, t).value);
    return Some(head), expansionLog;
  }

  /** What a returned list promises: it runs from `s` to `t` without repeating
      a node, along a walk whose prefix costs are the nodes' `g` values, with
      `f = g + h` on every node but the target, which carries zeros; with a
      consistent heuristic the walk has least cost. */
  ghost predicate Reports(adj: Adj, h: seq<nat>, s: nat, t: nat, ns: seq<PathNode>) {
    && |ns| >= 1 && ns[0].id == s && ns[|ns| - 1] == PathNode(t, 0, 0)
    && NoDup(Ids(ns))
    && exists ws ::
         && WalkFromTo(adj, Ids(ns), ws, s, t)
         && (forall j :: 0 <= j < |ns| - 1 ==> ns[j].g == Sum(ws[..j]) && ns[j].id < |h| && ns[j].f == ns[j].g + h[ns[j].id])
         && (Consistent(adj, h) ==> IsShortest(adj, s, t, Sum(ws)))
  }

  /** The listing of a repetition-free walk whose nodes carry the prefix costs
      as `g` and `g + h` as `f` is a report of that walk. */
  lemma ListingFacts(adj: Adj, h: seq<nat>, s: nat, t: nat, p: seq<nat>, ws: seq<nat>, f: seq<Cost>, g: seq<Cost>)
    requires NoDup(p) && WalkFromTo(adj, p, ws, s, t) && CostsAlong(g, p, ws) && |adj| <= |h|
    requires forall j :: 0 <= j < |p| ==> p[j] < |f| && f[p[j]] == AddCost(g[p[j]], h[p[j]])
    requires Consistent(adj, h) ==> IsShortest(adj, s, t, Sum(ws))
    ensures Reports(adj, h, s, t, Listing(p, f, g))
  {
    var ns := Listing(p, f, g);
    assert Ids(ns) == p;
  }

  /** The one-node list returned when `S == T` reports the empty walk, of cost 0. */
  lemma SingleListing(adj: Adj, h: seq<nat>, s: nat)
    requires s < |adj|
    ensures Reports(adj, h, s, s, [PathNode(s, 0, 0)])
  {
    assert Ids([PathNode(s, 0, 0)]) == [s];
    assert WalkFromTo(adj, [s], [], s, s);
    assert IsShortest(adj, s, s, Sum([]));
  }

  /** What the log and the absence of a result mean. `S == T` leaves the log
      empty. Otherwise the log starts at the source and names no node twice;
      a list is returned exactly when the target is reachable, which is
      exactly when the target was logged, and then it was logged last. */
  lemma FindPathLog(adj: Adj, s: nat, t: nat, h: seq<nat>)
    requires ValidAdj(adj) && s < |adj| && t < |adj| && |adj| <= |h|
    ensures var (path, log) := Expected(adj, s, t, h);
      && (s == t ==> log == [])
      && (s != t ==>
            && (path.None? <==> Unreachable(adj, s, t))
            && |log| >= 1 && log[0] == s && NoDup(log)
            && (forall i :: 0 <= i < |log| ==> log[i] < |adj|)
            && (path.Some? <==> t in log)
            && (t in log ==> log[|log| - 1] == t))
  {
    if s != t {
      ExpectedParts(adj, s, t, h);
      RouteExists(adj, h, s, t);
      LogFacts(adj, h, s, t);
    }
  }

  /** Away from `S == T`, the log is the search's and a list comes back
      exactly when a route does. */
  lemma ExpectedParts(adj: Adj, s: nat, t: nat, h: seq<nat>)
    requires ValidAdj(adj) && s < |adj| && t < |adj| && |adj| <= |h| && s != t
    ensures Expected(adj, s, t, h).1 == Explore(adj, h, s, t).log
    ensures Expected(adj, s, t, h).0.None? <==> Route(adj, h, s, t).None?
  {
  }

  /** What a returned list means: `S == T` gives the one-node list, and every
      returned list reports a walk from the source to the target (`Reports`). */
  lemma FindPathRoute(adj: Adj, s: nat, t: nat, h: seq<nat>)
    requires ValidAdj(adj) && s < |adj| && t < |adj| && |adj| <= |h|
    ensures var path := Expected(adj, s, t, h).0;
      && (s == t ==> path == Some([PathNode(s, 0, 0)]))
      && (path.Some? ==> Reports(adj, h, s, t, path.value))
  {
    if s == t {
      SingleListing(adj, h, s);
    } else if Route(adj, h, s, t).Some? {
      var ws := RouteFacts(adj, h, s, t);
      var fin := Explore(adj, h, s, t);
      var p := Route(adj, h, s, t).value;
      if Consistent(adj, h) {
        assert fin.g[p[|p| - 1]] == Fin(Sum(ws[..|p| - 1]));
        assert ws[..|p| - 1] == ws;
      }
      ListingFacts(adj, h, s, t, p, ws, fin.f, fin.g);
    }
  }
}
