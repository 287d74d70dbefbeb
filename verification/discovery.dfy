/** What the breadth-first and depth-first searches of applied-ai/bfs.cpp and
    applied-ai/dfs.cpp have in common: a node is marked when it is discovered
    and then put on a worklist (a FIFO queue or a LIFO stack), a popped node
    scans its neighbours, each newly marked neighbour records the popped node
    as its parent, and the route is read back along the parent links.

    The proofs track two ghost vectors: `depth`, the number of parent links
    from the source, and `closed`, the nodes already popped. */
module Discovery {
  import opened Common
  import opened Chains
  import opened Unweighted

  ghost predicate Shape(adj: Graph, visited: seq<bool>, parents: seq<int>, depth: seq<nat>, closed: seq<bool>) {
    && ValidGraph(adj)
    && |visited| == |adj| && |parents| == |adj| && |depth| == |adj| && |closed| == |adj|
  }

  /** The parent links form a tree rooted at `s`: every marked node other than
      `s` has a popped parent that lists it as a neighbour, one level closer to
      `s`; only marked nodes are popped. */
  ghost predicate Tree(adj: Graph, visited: seq<bool>, parents: seq<int>, depth: seq<nat>, closed: seq<bool>, s: nat)
    requires Shape(adj, visited, parents, depth, closed) && s < |adj|
  {
    && visited[s] && parents[s] == -1 && depth[s] == 0
    && (forall v :: 0 <= v < |adj| && parents[v] != -1 ==>
          && 0 <= parents[v] < |adj| && visited[v] && closed[parents[v]]
          && v in adj[parents[v]] && depth[v] == depth[parents[v]] + 1)
    && (forall v :: 0 <= v < |adj| && visited[v] && v != s ==> parents[v] != -1)
    && (forall v :: 0 <= v < |adj| && closed[v] ==> visited[v])
  }

  /** Every popped node other than `except`, the one whose neighbours are
      being scanned, has all its neighbours marked. */
  ghost predicate Expanded(adj: Graph, visited: seq<bool>, closed: seq<bool>, except: int)
    requires ValidGraph(adj) && |visited| == |adj| && |closed| == |adj|
  {
    forall u, i :: 0 <= u < |adj| && closed[u] && u != except && 0 <= i < |adj[u]| ==> visited[adj[u][i]]
  }

  /** The worklist holds each marked, unpopped node exactly once, and nothing else. */
  ghost predicate Pending(visited: seq<bool>, closed: seq<bool>, work: seq<nat>)
    requires |closed| == |visited|
  {
    Waiting(visited, closed, work) && Distinct(work) && Covers(visited, closed, work)
  }

  /** Every worklist entry is a marked, unpopped node. */
  ghost predicate Waiting(visited: seq<bool>, closed: seq<bool>, work: seq<nat>)
    requires |closed| == |visited|
  {
    forall k :: 0 <= k < |work| ==> work[k] < |visited| && visited[work[k]] && !closed[work[k]]
  }

  /** No node is on the worklist twice. */
  ghost predicate Distinct(work: seq<nat>) {
    forall i, j :: 0 <= i < j < |work| ==> work[i] != work[j]
  }

  /** Every marked, unpopped node is on the worklist. */
  ghost predicate Covers(visited: seq<bool>, closed: seq<bool>, work: seq<nat>)
    requires |closed| == |visited|
  {
    forall v :: 0 <= v < |visited| && visited[v] && !closed[v] ==> v in work
  }

  /** What holds between pops. */
  ghost predicate Inv(adj: Graph, s: nat, visited: seq<bool>, parents: seq<int>, depth: seq<nat>,
                      closed: seq<bool>, work: seq<nat>, except: int) {
    && Shape(adj, visited, parents, depth, closed) && s < |adj|
    && Tree(adj, visited, parents, depth, closed, s)
    && Expanded(adj, visited, closed, except)
    && Pending(visited, closed, work)
  }

  /** The state after marking and pushing the source. */
  lemma InitInv(adj: Graph, s: nat)
    requires ValidGraph(adj) && s < |adj|
    ensures var n := |adj|;
      Inv(adj, s, Fill(n, false)[s := true], Fill(n, -1), Fill(n, 0), Fill(n, false), [s], -1)
  {
  }

  /** Removing the entry at index `k` from the worklist and marking its node
      popped keeps the worklist exact. */
  lemma PopPending(visited: seq<bool>, closed: seq<bool>, work: seq<nat>, k: nat)
    requires |closed| == |visited| && Pending(visited, closed, work) && k < |work|
    ensures Pending(visited, closed[work[k] := true], work[..k] + work[k + 1..])
  {
    RemoveAt(work, k);
    PopWaiting(visited, closed, work, k);
    PopDistinct(work, k);
    PopCovers(visited, closed, work, k);
  }

  /** The worklist without its entry at index `k`, position by position. */
  lemma RemoveAt(work: seq<nat>, k: nat)
    requires k < |work|
    ensures var w := work[..k] + work[k + 1..];
      |w| == |work| - 1 && forall j :: 0 <= j < |w| ==> w[j] == if j < k then work[j] else work[j + 1]
  {
  }

  lemma PopWaiting(visited: seq<bool>, closed: seq<bool>, work: seq<nat>, k: nat)
    requires |closed| == |visited| && Waiting(visited, closed, work) && Distinct(work) && k < |work|
    ensures Waiting(visited, closed[work[k] := true], work[..k] + work[k + 1..])
  {
    var work', closed' := work[..k] + work[k + 1..], closed[work[k] := true];
    RemoveAt(work, k);
    forall j | 0 <= j < |work'| ensures work'[j] < |visited| && visited[work'[j]] && !closed'[work'[j]] {
      var j' := if j < k then j else j + 1;
      assert work'[j] == work[j'];
      assert work[j'] != work[k] by {
        if j' < k {
          assert work[j'] != work[k];
        } else {
          assert work[k] != work[j'];
        }
      }
    }
  }

  lemma PopDistinct(work: seq<nat>, k: nat)
    requires Distinct(work) && k < |work|
    ensures Distinct(work[..k] + work[k + 1..])
  {
    var work' := work[..k] + work[k + 1..];
    RemoveAt(work, k);
    forall i, j | 0 <= i < j < |work'| ensures work'[i] != work'[j] {
      var i', j' := if i < k then i else i + 1, if j < k then j else j + 1;
      assert work'[i] == work[i'] && work'[j] == work[j'] && i' < j';
    }
  }

  lemma PopCovers(visited: seq<bool>, closed: seq<bool>, work: seq<nat>, k: nat)
    requires |closed| == |visited| && Covers(visited, closed, work) && k < |work| && work[k] < |visited|
    ensures Covers(visited, closed[work[k] := true], work[..k] + work[k + 1..])
  {
    var work', closed' := work[..k] + work[k + 1..], closed[work[k] := true];
    RemoveAt(work, k);
    forall v | 0 <= v < |visited| && visited[v] && !closed'[v] ensures v in work' {
      var j :| 0 <= j < |work| && work[j] == v;
      if j < k {
        assert work'[j] == v;
      } else {
        assert work'[j - 1] == v;
      }
    }
  }

  /** Popping the worklist entry at index `k` keeps the invariant, with the
      popped node's neighbours still to be scanned. */
  lemma PopKeeps(adj: Graph, s: nat, visited: seq<bool>, parents: seq<int>, depth: seq<nat>,
                 closed: seq<bool>, work: seq<nat>, k: nat)
    requires Inv(adj, s, visited, parents, depth, closed, work, -1) && k < |work|
    ensures work[k] < |adj| && !closed[work[k]]
    ensures Inv(adj, s, visited, parents, depth, closed[work[k] := true], work[..k] + work[k + 1..], work[k])
  {
    PopPending(visited, closed, work, k);
  }

  /** Marking the unmarked neighbour `v` of the node `u` being scanned, with
      `u` as its parent one level further from `s`, and pushing it keeps the
      invariant. */
  lemma MarkKeeps(adj: Graph, s: nat, visited: seq<bool>, parents: seq<int>, depth: seq<nat>,
                  closed: seq<bool>, work: seq<nat>, u: nat, v: nat)
    requires Inv(adj, s, visited, parents, depth, closed, work, u)
    requires u < |adj| && closed[u] && v < |adj| && v in adj[u] && !visited[v]
    ensures Inv(adj, s, visited[v := true], parents[v := u], depth[v := depth[u] + 1], closed, work + [v], u)
  {
  }

  /** Once all of `u`'s neighbours are marked, `u` joins the fully scanned nodes. */
  lemma ScanDone(adj: Graph, s: nat, visited: seq<bool>, parents: seq<int>, depth: seq<nat>,
                 closed: seq<bool>, work: seq<nat>, u: nat)
    requires Inv(adj, s, visited, parents, depth, closed, work, u)
    requires u < |adj| && forall i :: 0 <= i < |adj[u]| ==> visited[adj[u][i]]
    ensures Inv(adj, s, visited, parents, depth, closed, work, -1)
  {
  }

  /** Once every marked node has been popped and scanned, the marked nodes
      are closed under edges, so nothing unmarked is reachable from `s`. */
  lemma Drained(adj: Graph, s: nat, visited: seq<bool>, closed: seq<bool>, t: nat)
    requires ValidGraph(adj) && |visited| == |adj| && |closed| == |adj| && s < |adj| && visited[s]
    requires Expanded(adj, visited, closed, -1) && forall v :: 0 <= v < |adj| && visited[v] ==> closed[v]
    requires t < |adj| && !visited[t]
    ensures !Reaches(adj, s, t)
  {
    assert ClosedSet(adj, visited) by {
      forall u, i | 0 <= u < |adj| && visited[u] && 0 <= i < |adj[u]| ensures visited[adj[u][i]] {
        assert closed[u];
      }
    }
    ClosedSetBlocks(adj, visited, s, t);
  }

  /** The parent chain from a marked node back to `s` is a repetition-free
      path of the graph with one edge per level of depth. */
  lemma ChainToSource(adj: Graph, s: nat, visited: seq<bool>, parents: seq<int>, depth: seq<nat>,
                      closed: seq<bool>, t: nat) returns (p: seq<nat>)
    requires Shape(adj, visited, parents, depth, closed) && s < |adj|
    requires Tree(adj, visited, parents, depth, closed, s)
    requires t < |adj| && visited[t]
    ensures IsChain(parents, p, s, t) && PathFromTo(adj, p, s, t) && NoDup(p) && |p| == depth[t] + 1
  {
    assert Linked(parents, depth, s);
    p := PathTo(parents, depth, s, t);
    PathToProps(parents, depth, s, t);
    RankedNoDup(p, depth);
    forall j | 0 <= j < |p| - 1 ensures p[j + 1] in adj[p[j]] && depth[p[j + 1]] == depth[p[j]] + 1 {
      assert parents[p[j + 1]] == p[j];
    }
    DepthAlong(p, depth);
  }

  /** Along a sequence whose depth grows by one per step, the last depth is
      the first plus the number of steps. */
  lemma {:induction false} DepthAlong(p: seq<nat>, depth: seq<nat>)
    requires |p| >= 1 && forall j :: 0 <= j < |p| ==> p[j] < |depth|
    requires forall j :: 0 <= j < |p| - 1 ==> depth[p[j + 1]] == depth[p[j]] + 1
    ensures depth[p[|p| - 1]] == depth[p[0]] + |p| - 1
  {
    if |p| > 1 {
      DepthAlong(p[..|p| - 1], depth);
    }
  }

  /** The reconstruction loop: starting from `t`, prepend the parent of the
      current node until `s` is reached; the list then runs from `s` to `t`. */
  method Trace(parents: seq<int>, s: nat, t: nat, ghost p: seq<nat>) returns (head: seq<nat>)
    requires IsChain(parents, p, s, t)
    ensures head == p
  {
    var curr: nat := t;
    head := [t];
    ghost var m: nat := |p| - 1;
    while curr != s
      invariant m < |p| && curr == p[m] && head == p[m..]
      decreases m
    {
      assert parents[p[m]] == p[m - 1];
      curr := parents[curr] as nat;
      m := m - 1;
      head := [curr] + head;
    }
  }
}
