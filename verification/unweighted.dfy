/** Unweighted directed graphs as adjacency lists of node indices, the form
    `vector<vector<int>>` takes in the breadth-first, depth-first, greedy and
    iterative-deepening searches, and the paths in them. */
module Unweighted {

  type Graph = seq<seq<nat>>

  /** Every listed neighbour names a node of the graph. */
  predicate ValidGraph(graph: Graph) {
    forall u, i :: 0 <= u < |graph| && 0 <= i < |graph[u]| ==> graph[u][i] < |graph|
  }

  /** `p` is a path: a non-empty sequence of nodes, each listed as a
      neighbour of the one before it. */
  ghost predicate IsPath(graph: Graph, p: seq<nat>) {
    && |p| >= 1
    && (forall i :: 0 <= i < |p| ==> p[i] < |graph|)
    && (forall i :: 0 <= i < |p| - 1 ==> p[i + 1] in graph[p[i]])
  }

  ghost predicate PathFromTo(graph: Graph, p: seq<nat>, s: nat, t: nat) {
    IsPath(graph, p) && p[0] == s && p[|p| - 1] == t
  }

  /** Some path leads from `s` to `t`. */
  ghost predicate Reaches(graph: Graph, s: nat, t: nat) {
    exists p :: PathFromTo(graph, p, s, t)
  }

  /** The nodes marked in `inside` have all their neighbours marked too. */
  ghost predicate ClosedSet(graph: Graph, inside: seq<bool>) {
    && ValidGraph(graph) && |inside| == |graph|
    && forall u, i :: 0 <= u < |graph| && inside[u] && 0 <= i < |graph[u]| ==> inside[graph[u][i]]
  }

  /** A path that starts inside a closed set never leaves it. */
  lemma {:induction false} ClosedSetKeepsPath(graph: Graph, inside: seq<bool>, p: seq<nat>)
    requires ValidGraph(graph) && ClosedSet(graph, inside) && IsPath(graph, p) && inside[p[0]]
    ensures forall j :: 0 <= j < |p| ==> inside[p[j]]
  {
    if |p| > 1 {
      var q := p[..|p| - 1];
      assert IsPath(graph, q);
      ClosedSetKeepsPath(graph, inside, q);
      var u := p[|p| - 2];
      var i :| 0 <= i < |graph[u]| && graph[u][i] == p[|p| - 1];
      assert inside[q[|q| - 1]];
    }
  }

  /** Hence nothing outside a closed set is reachable from inside it. */
  lemma ClosedSetBlocks(graph: Graph, inside: seq<bool>, s: nat, t: nat)
    requires ValidGraph(graph) && ClosedSet(graph, inside) && s < |graph| && inside[s]
    requires t >= |graph| || !inside[t]
    ensures !Reaches(graph, s, t)
  {
    if Reaches(graph, s, t) {
      var p :| PathFromTo(graph, p, s, t);
      ClosedSetKeepsPath(graph, inside, p);
      assert false;
    }
  }
}
