/** What the parent-link reconstruction shared by uniform-cost search and A*
    can rely on: the route the search reports, read node by node. */
module Routes {
  import opened Common
  import opened Walks
  import opened Chains
  import opened BestFirst

  /** With optimal closed costs, a closed node's cost is its shortest distance:
      the parent links give a walk of exactly that cost. */
  lemma ClosedShortest(adj: Adj, h: seq<nat>, s: nat, fin: State, v: nat)
    requires Basic(adj, h, s, fin) && Optimal(adj, s, fin) && v < |adj| && fin.visited[v]
    ensures fin.g[v].Fin? && IsShortest(adj, s, v, fin.g[v].val)
  {
    BasicLinked(adj, s, fin);
    var ws := ChainWalk(adj, s, fin, v);
    var p := PathTo(fin.parents, Rank(fin), s, v);
    assert fin.g[p[|p| - 1]] == Fin(Sum(ws[..|p| - 1]));
    assert ws[..|p| - 1] == ws;
    assert WalkFromTo(adj, p, ws, s, v);
  }

  /** The parent chain from a closed target, node by node: it runs from `s` to
      `t`, each node after the first is the recorded child of the one before it
      and is not `s`, and every node is closed with a finite cost that is the
      cost of the chain up to it. */
  lemma ChainFacts(adj: Adj, h: seq<nat>, s: nat, t: nat, fin: State) returns (ws: seq<nat>, p: seq<nat>)
    requires Final(adj, h, s, t, fin) && fin.visited[t]
    ensures |fin.visited| == |adj| && |fin.parents| == |adj| && |fin.g| == |adj| && t < |adj|
    ensures Linked(fin.parents, Rank(fin), s) && fin.parents[t] != -1
    ensures p == PathTo(fin.parents, Rank(fin), s, t)
    ensures
      && |p| >= 1 && p[0] == s && p[|p| - 1] == t
      && (forall j :: 0 <= j < |p| ==> p[j] < |adj| && fin.visited[p[j]] && fin.g[p[j]].Fin?)
      && (forall j :: 0 < j < |p| ==> p[j] != s && fin.parents[p[j]] == p[j - 1])
      && NoDup(p)
      && WalkFromTo(adj, p, ws, s, t)
      && CostsAlong(fin.g, p, ws)
  {
    ws := FoundRoute(adj, h, s, t, fin);
    p := PathTo(fin.parents, Rank(fin), s, t);
    PathToProps(fin.parents, Rank(fin), s, t);
    ChainClosed(adj, s, t, fin, p);
  }

  /** Every node of a parent chain ending at a closed node is closed: each
      one is the recorded parent of the next. */
  lemma ChainClosed(adj: Adj, s: nat, t: nat, fin: State, p: seq<nat>)
    requires Sized(adj, fin) && TreeOk(adj, s, fin) && t < |adj| && fin.visited[t]
    requires |p| >= 1 && p[|p| - 1] == t && forall j :: 0 <= j < |p| ==> p[j] < |adj|
    requires forall j :: 0 < j < |p| ==> fin.parents[p[j]] == p[j - 1]
    ensures forall j :: 0 <= j < |p| ==> fin.visited[p[j]] && fin.g[p[j]].Fin?
  {
    forall j | 0 <= j < |p| - 1 ensures fin.visited[p[j]] {
      assert fin.parents[p[j + 1]] == p[j];
      assert ParentOk(adj, fin, p[j + 1]);
    }
  }

  /** With optimal closed costs, every node of the chain carries its shortest distance. */
  lemma ChainShortest(adj: Adj, h: seq<nat>, s: nat, t: nat, fin: State)
    requires Final(adj, h, s, t, fin) && fin.visited[t] && Optimal(adj, s, fin)
    ensures Linked(fin.parents, Rank(fin), s) && fin.parents[t] != -1
    ensures var p := PathTo(fin.parents, Rank(fin), s, t);
      forall j :: 0 <= j < |p| ==>
        p[j] < |adj| && fin.g[p[j]].Fin? && IsShortest(adj, s, p[j], fin.g[p[j]].val)
  {
    var ws, _ := ChainFacts(adj, h, s, t, fin);
    var p := PathTo(fin.parents, Rank(fin), s, t);
    forall j | 0 <= j < |p| ensures IsShortest(adj, s, p[j], fin.g[p[j]].val) {
      ClosedShortest(adj, h, s, fin, p[j]);
    }
  }

  /** The reported route as the reconstruction loop walks it: sizes agree with
      the graph, a route exists exactly when the target has a parent, and the
      route runs from `s` to `t` with each later node the recorded child of
      the one before it and distinct from `s`. */
  lemma RouteChain(adj: Adj, h: seq<nat>, s: nat, t: nat)
    requires ValidAdj(adj) && s < |adj| && t < |adj| && |adj| <= |h| && s != t
    ensures var fin := Explore(adj, h, s, t);
      && |fin.visited| == |adj| && |fin.parents| == |adj| && |fin.g| == |adj| && |fin.f| == |adj|
      && (Route(adj, h, s, t).Some? <==> fin.parents[t] != -1)
      && (Route(adj, h, s, t).Some? ==> IsChain(fin.parents, Route(adj, h, s, t).value, s, t))
  {
    var fin := Explore(adj, h, s, t);
    ExploreFacts(adj, h, s, t);
    if fin.parents[t] != -1 {
      var ws, _ := ChainFacts(adj, h, s, t, fin);
    }
  }

  /** A route is reported exactly when the target is reachable. */
  lemma RouteExists(adj: Adj, h: seq<nat>, s: nat, t: nat)
    requires ValidAdj(adj) && s < |adj| && t < |adj| && |adj| <= |h| && s != t
    ensures Route(adj, h, s, t).None? <==> Unreachable(adj, s, t)
  {
    var fin := Explore(adj, h, s, t);
    ExploreFacts(adj, h, s, t);
    if fin.visited[t] {
      var ws, _ := ChainFacts(adj, h, s, t, fin);
      var p := PathTo(fin.parents, Rank(fin), s, t);
      assert WalkFromTo(adj, p, ws, s, t);
    }
  }

  /** The reported route is a repetition-free walk from `s` to `t` whose
      prefixes cost the recorded `g` values, its nodes' priorities are `g + h`,
      and with a consistent heuristic each node's cost is its shortest distance. */
  lemma RouteFacts(adj: Adj, h: seq<nat>, s: nat, t: nat) returns (ws: seq<nat>)
    requires ValidAdj(adj) && s < |adj| && t < |adj| && |adj| <= |h| && s != t
    requires Route(adj, h, s, t).Some?
    ensures var fin := Explore(adj, h, s, t);
      var p := Route(adj, h, s, t).value;
      && NoDup(p) && WalkFromTo(adj, p, ws, s, t) && CostsAlong(fin.g, p, ws)
      && (forall j :: 0 <= j < |p| ==> p[j] < |fin.f| && fin.f[p[j]] == AddCost(fin.g[p[j]], h[p[j]]))
      && (Consistent(adj, h) ==>
            forall j :: 0 <= j < |p| ==>
              p[j] < |fin.g| && fin.g[p[j]].Fin? && IsShortest(adj, s, p[j], fin.g[p[j]].val))
  {
    ws := RouteWalk(adj, h, s, t);
    RoutePriorities(adj, h, s, t);
    RouteShortest(adj, h, s, t);
  }

  lemma RouteWalk(adj: Adj, h: seq<nat>, s: nat, t: nat) returns (ws: seq<nat>)
    requires ValidAdj(adj) && s < |adj| && t < |adj| && |adj| <= |h| && s != t
    requires Route(adj, h, s, t).Some?
    ensures var fin := Explore(adj, h, s, t);
      var p := Route(adj, h, s, t).value;
      NoDup(p) && WalkFromTo(adj, p, ws, s, t) && CostsAlong(fin.g, p, ws)
  {
    var fin := Explore(adj, h, s, t);
    ExploreFacts(adj, h, s, t);
    var p;
    ws, p := ChainFacts(adj, h, s, t, fin);
    assert Route(adj, h, s, t).value == PathTo(fin.parents, Rank(fin), s, t);
  }

  lemma RoutePriorities(adj: Adj, h: seq<nat>, s: nat, t: nat)
    requires ValidAdj(adj) && s < |adj| && t < |adj| && |adj| <= |h| && s != t
    requires Route(adj, h, s, t).Some?
    ensures var fin := Explore(adj, h, s, t);
      var p := Route(adj, h, s, t).value;
      forall j :: 0 <= j < |p| ==> p[j] < |fin.f| && fin.f[p[j]] == AddCost(fin.g[p[j]], h[p[j]])
  {
    var ws := RouteWalk(adj, h, s, t);
    ExplorePriorities(adj, h, s, t);
    assert IsWalk(adj, Route(adj, h, s, t).value, ws);
  }

  /** Every node's priority is its cost plus its heuristic. */
  lemma ExplorePriorities(adj: Adj, h: seq<nat>, s: nat, t: nat)
    requires ValidAdj(adj) && s < |adj| && t < |adj| && |adj| <= |h| && s != t
    ensures var fin := Explore(adj, h, s, t);
      |fin.f| == |adj| && |fin.g| == |adj| && forall v :: 0 <= v < |adj| ==> fin.f[v] == AddCost(fin.g[v], h[v])
  {
    ExploreFacts(adj, h, s, t);
    assert FOk(adj, h, Explore(adj, h, s, t));
  }

  lemma RouteShortest(adj: Adj, h: seq<nat>, s: nat, t: nat)
    requires ValidAdj(adj) && s < |adj| && t < |adj| && |adj| <= |h| && s != t
    requires Route(adj, h, s, t).Some?
    ensures var fin := Explore(adj, h, s, t);
      var p := Route(adj, h, s, t).value;
      Consistent(adj, h) ==>
        forall j :: 0 <= j < |p| ==>
          p[j] < |fin.g| && fin.g[p[j]].Fin? && IsShortest(adj, s, p[j], fin.g[p[j]].val)
  {
    var fin := Explore(adj, h, s, t);
    ExploreFacts(adj, h, s, t);
    if Consistent(adj, h) {
      ChainShortest(adj, h, s, t, fin);
      assert Route(adj, h, s, t).value == PathTo(fin.parents, Rank(fin), s, t);
    }
  }

  /** The expansion log: the source first, no node twice, only nodes of the
      graph, the target in it exactly when a route is reported, and then last. */
  lemma LogFacts(adj: Adj, h: seq<nat>, s: nat, t: nat)
    requires ValidAdj(adj) && s < |adj| && t < |adj| && |adj| <= |h| && s != t
    ensures var log := Explore(adj, h, s, t).log;
      && |log| >= 1 && log[0] == s
      && NoDup(log)
      && (forall i :: 0 <= i < |log| ==> log[i] < |adj|)
      && (Route(adj, h, s, t).Some? <==> t in log)
      && (t in log ==> log[|log| - 1] == t)
  {
    var fin := Explore(adj, h, s, t);
    ExploreFacts(adj, h, s, t);
    if fin.visited[t] {
      var ws, _ := ChainFacts(adj, h, s, t, fin);
    }
  }
}
