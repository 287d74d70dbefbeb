/** Breadth-first search, from applied-ai/bfs.cpp: a FIFO queue, nodes marked
    when enqueued, the scan of a dequeued node's neighbours stopping as soon as
    the target is discovered, and the route read back along parent links.

    Besides the shared invariant of `Discovery`, the proof keeps a ghost
    `level`: the depth of the node dequeued last. The queue holds depths
    `level` and `level + 1` in non-decreasing order, the depth of a marked node
    is the length of a shortest path to it, and an unmarked node is more than
    `level` edges away. */
module Bfs {
  import opened Common
  import opened Chains
  import opened Unweighted
  import opened Discovery

  /** Depth of a marked node is a lower bound on the edges of every path to it. */
  ghost predicate Shortest(adj: Graph, s: nat, visited: seq<bool>, depth: seq<nat>)
    requires |visited| == |adj| && |depth| == |adj|
  {
    forall v, p :: 0 <= v < |adj| && visited[v] && PathFromTo(adj, p, s, v) ==> depth[v] <= |p| - 1
  }

  /** Every path to an unmarked node has more than `level` edges. */
  ghost predicate Beyond(adj: Graph, s: nat, visited: seq<bool>, level: nat)
    requires |visited| == |adj|
  {
    forall w, p :: 0 <= w < |adj| && !visited[w] && PathFromTo(adj, p, s, w) ==> level < |p| - 1
  }

  /** The queue discipline: popped nodes lie at most `level` deep, queued nodes
      at `level` or `level + 1` in non-decreasing order, and the node being
      scanned, if any, at `level`. */
  ghost predicate Layered(adj: Graph, depth: seq<nat>, closed: seq<bool>, work: seq<nat>, level: nat, except: int)
    requires |depth| == |adj| && |closed| == |adj|
    requires forall k :: 0 <= k < |work| ==> work[k] < |adj|
  {
    && (forall v :: 0 <= v < |adj| && closed[v] ==> depth[v] <= level)
    && (forall k :: 0 <= k < |work| ==> level <= depth[work[k]] <= level + 1)
    && (forall i, j :: 0 <= i < j < |work| ==> depth[work[i]] <= depth[work[j]])
    && (except != -1 ==> 0 <= except < |adj| && depth[except] == level)
  }

  ghost predicate BfsInv(adj: Graph, s: nat, visited: seq<bool>, parents: seq<int>, depth: seq<nat>,
                         closed: seq<bool>, work: seq<nat>, level: nat, except: int) {
    && Inv(adj, s, visited, parents, depth, closed, work, except)
    && Layered(adj, depth, closed, work, level, except)
    && Shortest(adj, s, visited, depth)
    && Beyond(adj, s, visited, level)
  }

  lemma InitBfs(adj: Graph, s: nat)
    requires ValidGraph(adj) && s < |adj|
    ensures var n := |adj|;
      BfsInv(adj, s, Fill(n, false)[s := true], Fill(n, -1), Fill(n, 0), Fill(n, false), [s], 0, -1)
  {
    InitInv(adj, s);
    var visited := Fill(|adj|, false)[s := true];
    forall w, p | 0 <= w < |adj| && !visited[w] && PathFromTo(adj, p, s, w) ensures 0 < |p| - 1 {
      assert w != s;
    }
  }

  /** When every queued node is a level deeper than `level`, every marked node
      at most `level` deep has been popped and scanned, so every node at most
      `level + 1` edges away is marked. */
  lemma LevelUp(adj: Graph, s: nat, visited: seq<bool>, parents: seq<int>, depth: seq<nat>,
                closed: seq<bool>, work: seq<nat>, level: nat)
    requires BfsInv(adj, s, visited, parents, depth, closed, work, level, -1)
    requires forall k :: 0 <= k < |work| ==> level + 1 <= depth[work[k]]
    ensures Beyond(adj, s, visited, level + 1)
  {
    forall w, p | 0 <= w < |adj| && !visited[w] && PathFromTo(adj, p, s, w) ensures level + 1 < |p| - 1 {
      if |p| - 1 == level + 1 {
        var x := p[|p| - 2];
        var q := p[..|p| - 1];
        assert PathFromTo(adj, q, s, x);
      }
    }
  }

  /** Dequeuing the front of the queue keeps the shared invariant. */
  lemma PopFrontInv(adj: Graph, s: nat, visited: seq<bool>, parents: seq<int>, depth: seq<nat>,
                    closed: seq<bool>, work: seq<nat>)
    requires Inv(adj, s, visited, parents, depth, closed, work, -1) && |work| > 0
    ensures work[0] < |adj| && !closed[work[0]]
    ensures Inv(adj, s, visited, parents, depth, closed[work[0] := true], work[1..], work[0])
  {
    PopKeeps(adj, s, visited, parents, depth, closed, work, 0);
    assert work[..0] + work[1..] == work[1..];
  }

  /** Dequeuing the front of the queue moves `level` to its depth and keeps
      the queue discipline. */
  lemma PopFrontLayers(adj: Graph, depth: seq<nat>, closed: seq<bool>, work: seq<nat>, level: nat)
    requires |depth| == |adj| && |closed| == |adj| && |work| > 0
    requires forall k :: 0 <= k < |work| ==> work[k] < |adj|
    requires Layered(adj, depth, closed, work, level, -1)
    ensures level <= depth[work[0]]
    ensures Layered(adj, depth, closed[work[0] := true], work[1..], depth[work[0]], work[0])
  {
  }

  /** Dequeuing the front of the queue moves `level` to its depth and keeps
      the invariant, with the dequeued node's neighbours still to be scanned. */
  lemma PopFront(adj: Graph, s: nat, visited: seq<bool>, parents: seq<int>, depth: seq<nat>,
                 closed: seq<bool>, work: seq<nat>, level: nat)
    requires BfsInv(adj, s, visited, parents, depth, closed, work, level, -1) && |work| > 0
    ensures work[0] < |adj| && level <= depth[work[0]]
    ensures BfsInv(adj, s, visited, parents, depth, closed[work[0] := true], work[1..], depth[work[0]], work[0])
  {
    PopFrontInv(adj, s, visited, parents, depth, closed, work);
    PopFrontLayers(adj, depth, closed, work, level);
    if depth[work[0]] > level {
      LevelUp(adj, s, visited, parents, depth, closed, work, level);
    }
  }

  /** Marking and enqueuing the unmarked neighbour `v` of the node `u` being
      scanned, one level below it, keeps the invariant. */
  lemma MarkBfs(adj: Graph, s: nat, visited: seq<bool>, parents: seq<int>, depth: seq<nat>,
                closed: seq<bool>, work: seq<nat>, level: nat, u: nat, v: nat)
    requires BfsInv(adj, s, visited, parents, depth, closed, work, level, u)
    requires u < |adj| && closed[u] && v < |adj| && v in adj[u] && !visited[v]
    ensures BfsInv(adj, s, visited[v := true], parents[v := u], depth[v := depth[u] + 1], closed, work + [v], level, u)
  {
    MarkKeeps(adj, s, visited, parents, depth, closed, work, u, v);
    assert v !in work;
  }

  /** One neighbour `v` of the node `u` being scanned: if it is unmarked it is
      marked, gets `u` as parent, raises `found` when it is the target, and is
      enqueued. */
  method Visit(adj: Graph, s: nat, t: nat, u: nat, v: nat, visited0: seq<bool>, parents0: seq<int>,
               work0: seq<nat>, ghost depth0: seq<nat>, ghost closed: seq<bool>, ghost level: nat)
    returns (visited: seq<bool>, parents: seq<int>, work: seq<nat>, found: bool, ghost depth: seq<nat>)
    requires BfsInv(adj, s, visited0, parents0, depth0, closed, work0, level, u)
    requires u < |adj| && closed[u] && v < |adj| && v in adj[u] && t < |adj| && !visited0[t]
    ensures BfsInv(adj, s, visited, parents, depth, closed, work, level, u)
    ensures visited[v] && found == visited[t]
    ensures forall x :: 0 <= x < |adj| && visited0[x] ==> visited[x]
    ensures CountFalse(visited) + |work| <= CountFalse(visited0) + |work0|
  {
    visited, parents, work, found, depth := visited0, parents0, work0, false, depth0;
    if !visited[v] {
      MarkBfs(adj, s, visited, parents, depth, closed, work, level, u, v);
      CountFalseSet(visited, v);
      visited := visited[v := true];
      parents := parents[v := u];
      depth := depth[v := depth[u] + 1];
      if v == t {
        found := true;
      }
      work := work + [v];
    }
  }

  /** The scan of the dequeued node `u`'s neighbours, in adjacency order,
      which stops right after the target is discovered. */
  method Scan(adj: Graph, s: nat, t: nat, u: nat, visited0: seq<bool>, parents0: seq<int>, work0: seq<nat>,
              ghost depth0: seq<nat>, ghost closed: seq<bool>, ghost level: nat)
    returns (visited: seq<bool>, parents: seq<int>, work: seq<nat>, found: bool, ghost depth: seq<nat>)
    requires BfsInv(adj, s, visited0, parents0, depth0, closed, work0, level, u)
    requires u < |adj| && closed[u] && t < |adj| && !visited0[t]
    ensures BfsInv(adj, s, visited, parents, depth, closed, work, level, if found then u else -1)
    ensures found == visited[t]
    ensures CountFalse(visited) + |work| <= CountFalse(visited0) + |work0|
  {
    visited, parents, work, found, depth := visited0, parents0, work0, false, depth0;
    var i := 0;
    while i < |adj[u]|
      invariant BfsInv(adj, s, visited, parents, depth, closed, work, level, u)
      invariant i <= |adj[u]| && !found && !visited[t]
      invariant forall k :: 0 <= k < i ==> visited[adj[u][k]]
      invariant CountFalse(visited) + |work| <= CountFalse(visited0) + |work0|
    {
      ghost var before := visited;
      visited, parents, work, found, depth := Visit(adj, s, t, u, adj[u][i], visited, parents, work, depth, closed, level);
      if found {
        return;
      }
      MarkedPrefix(before, visited, adj[u], i);
      i := i + 1;
    }
    ScanDone(adj, s, visited, parents, depth, closed, work, u);
  }

  /** What the search leaves for the reconstruction: the parent tree, the
      target's depth as a lower bound on every path to it when it was marked,
      and otherwise every marked node popped and scanned. */
  ghost predicate Outcome(adj: Graph, s: nat, t: nat, visited: seq<bool>, parents: seq<int>, depth: seq<nat>,
                          closed: seq<bool>) {
    && Shape(adj, visited, parents, depth, closed) && s < |adj| && t < |adj|
    && Tree(adj, visited, parents, depth, closed, s)
    && (visited[t] ==> forall p :: PathFromTo(adj, p, s, t) ==> depth[t] <= |p| - 1)
    && (!visited[t] ==> Expanded(adj, visited, closed, -1) && forall v :: 0 <= v < |adj| && visited[v] ==> closed[v])
  }

  /** The queue loop: dequeue the front, scan its neighbours, until the queue
      is empty or the target has been discovered. */
  method Search(adj: Graph, s: nat, t: nat)
    returns (visited: seq<bool>, parents: seq<int>, ghost depth: seq<nat>, ghost closed: seq<bool>)
    requires ValidGraph(adj) && s < |adj| && t < |adj| && s != t
    ensures Outcome(adj, s, t, visited, parents, depth, closed)
  {
    var n := |adj|;
    visited := Fill(n, false);
    var found := false;
    visited := visited[s := true];
    var work := [s];
    parents := Fill(n, -1);
    depth, closed := Fill(n, 0), Fill(n, false);
    ghost var level: nat := 0;
    ghost var except: int := -1;
    InitBfs(adj, s);

    while |work| > 0 && !found
      invariant BfsInv(adj, s, visited, parents, depth, closed, work, level, except)
      invariant found == visited[t] && (!found ==> except == -1)
      decreases CountFalse(visited) + |work|
    {
      var u := work[0];
      PopFront(adj, s, visited, parents, depth, closed, work, level);
      level, except := depth[u], u;
      closed := closed[u := true];
      work := work[1..];
      visited, parents, work, found, depth := Scan(adj, s, t, u, visited, parents, work, depth, closed, level);
      if !found {
        except := -1;
      }
    }
  }

  /** `BFS::findPath`: the route from `s` to `t` as a list of nodes, `None`
      for the null list when `t` is never discovered. */
  method FindPath(adj: Graph, s: nat, t: nat) returns (r: Option<seq<nat>>)
    requires ValidGraph(adj) && s < |adj| && t < |adj|
    ensures s == t ==> r == Some([s])
    ensures r.None? <==> !Reaches(adj, s, t)
    ensures r.Some? ==> PathFromTo(adj, r.value, s, t) && NoDup(r.value)
    ensures r.Some? ==> forall p :: PathFromTo(adj, p, s, t) ==> |r.value| <= |p|
  {
    if s == t {
      assert PathFromTo(adj, [s], s, s);
      return Some([s]);
    }
    var visited, parents, depth, closed := Search(adj, s, t);
    if parents[t] == -1 {
      Drained(adj, s, visited, closed, t);
      return None;
    }
    ghost var p := ChainToSource(adj, s, visited, parents, depth, closed, t);
    var head := Trace(parents, s, t, p);
    r := Some(head);
  }
}
