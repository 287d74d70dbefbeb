/** A* with a heuristic callable, from applied-ai/astar.cpp.

    The same search as the table-driven A*, except that the heuristic is a
    function `h(node, T)` of a node and the target, there is no expansion log,
    and each edge is read as (neighbour, weight). Because `h` is pure, calling
    it when a node is improved gives the same values as reading a table of
    `h(v, T)` filled in advance, which is how the model hands it to the loop. */
module AStarCallable {
  import opened Common
  import opened Walks
  import opened BestFirst
  import opened SearchLoop
  import opened Routes
  import opened AStarTable

  /** The heuristic values towards the target `t`, one per node. */
  function Table(h: (nat, nat) -> nat, n: nat, t: nat): (r: seq<nat>)
    ensures |r| == n && forall i :: 0 <= i < n ==> r[i] == h(i, t)
  {
    seq(n, (i: nat) => h(i, t))
  }

  /** What the templated `findPath` returns: the table-driven result for the
      heuristic values `h(v, T)`. */
  ghost function Expected(adj: Adj, s: nat, t: nat, h: (nat, nat) -> nat): Option<seq<PathNode>>
    requires ValidAdj(adj) && s < |adj| && t < |adj|
  {
    AStarTable.Expected(adj, s, t, Table(h, |adj|, t)).0
  }

  /** `AStar::findPath<Heuristic>`: search, then walk back along parent links
      from the target. */
  method FindPath(adj: Adj, s: nat, t: nat, h: (nat, nat) -> nat) returns (path: Option<seq<PathNode>>)
    requires ValidAdj(adj) && s < |adj| && t < |adj|
    ensures path == Expected(adj, s, t, h)
  {
    if s == t {
      return Some([PathNode(s, 0, 0)]);
    }
    var table := Table(h, |adj|, t);
    var visited, parents, g, f, log := Search(adj, table, s, t);
    RouteChain(adj, table, s, t);
    if parents[t] == -1 {
      return None;
    }
    var head := Trace(parents, f, g, s, t, Route(adj, table, s, t).value);
    return Some(head);
  }

  /** What the result means. `S == T` gives the one-node list. Otherwise a list
      is returned exactly when the target is reachable, and it reports a walk
      from the source to the target with `f = g + h(v, T)` on its nodes, of
      least cost when `h(·, T)` is consistent. */
  lemma FindPathCorrect(adj: Adj, s: nat, t: nat, h: (nat, nat) -> nat)
    requires ValidAdj(adj) && s < |adj| && t < |adj|
    ensures var path := Expected(adj, s, t, h);
      && (s == t ==> path == Some([PathNode(s, 0, 0)]))
      && (s != t ==> (path.None? <==> Unreachable(adj, s, t)))
      && (path.Some? ==> Reports(adj, Table(h, |adj|, t), s, t, path.value))
  {
    FindPathLog(adj, s, t, Table(h, |adj|, t));
    FindPathRoute(adj, s, t, Table(h, |adj|, t));
  }
}
