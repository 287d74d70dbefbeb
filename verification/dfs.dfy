/** Depth-first search, from applied-ai/dfs.cpp: a LIFO stack, nodes marked
    when pushed, a popped node's neighbours scanned from the last listed to
    the first so that the first-listed one ends up on top, the scan stopping
    as soon as the target is discovered, and the route read back along parent
    links. The shared invariant is that of `Discovery`. */
module Dfs {
  import opened Common
  import opened Chains
  import opened Unweighted
  import opened Discovery

  /** The nodes a scan of `ns` from index `i` down to 0 pushes, in push order,
      when `marked` holds the marks at its start: each unmarked entry is marked
      and pushed, and the scan ends right after pushing `t`. */
  ghost function Pushes(ns: seq<nat>, i: int, marked: seq<bool>, t: nat): seq<nat>
    requires -1 <= i < |ns| && forall k :: 0 <= k < |ns| ==> ns[k] < |marked|
    decreases i + 1
  {
    if i < 0 then []
    else if marked[ns[i]] then Pushes(ns, i - 1, marked, t)
    else if ns[i] == t then [ns[i]]
    else [ns[i]] + Pushes(ns, i - 1, marked[ns[i] := true], t)
  }

  /** Without repeated entries and without meeting `t`, a scan leaves on top
      of the stack the first-listed entry `ns[j]` that was unmarked. */
  lemma {:induction false} TopIsFirst(ns: seq<nat>, i: int, marked: seq<bool>, t: nat, j: nat)
    requires -1 <= i < |ns| && forall k :: 0 <= k < |ns| ==> ns[k] < |marked|
    requires NoDup(ns) && forall k :: 0 <= k <= i ==> ns[k] != t
    requires j <= i && !marked[ns[j]] && forall k :: 0 <= k < j ==> marked[ns[k]]
    ensures var ps := Pushes(ns, i, marked, t); |ps| > 0 && ps[|ps| - 1] == ns[j]
    decreases i + 1
  {
    if marked[ns[i]] {
      TopIsFirst(ns, i - 1, marked, t, j);
    } else {
      var marked' := marked[ns[i] := true];
      if i == j {
        NothingPushed(ns, i - 1, marked', t);
      } else {
        assert ns[j] != ns[i];
        TopIsFirst(ns, i - 1, marked', t, j);
      }
    }
  }

  /** One step of the scan, as `Visit` performs it, advances the account of
      the pushes still to come; pushing `t` completes it. */
  lemma ScanStep(pushed: seq<nat>, stack: seq<nat>, work: seq<nat>, ns: seq<nat>, i: nat,
                 before: seq<bool>, after: seq<bool>, t: nat)
    requires i < |ns| && forall k :: 0 <= k < |ns| ==> ns[k] < |before|
    requires pushed == stack + Pushes(ns, i, before, t)
    requires after == (if before[ns[i]] then before else before[ns[i] := true])
    requires work == (if before[ns[i]] then stack else stack + [ns[i]])
    ensures ns[i] == t && !before[t] ==> pushed == work
    ensures ns[i] != t || before[t] ==> pushed == work + Pushes(ns, i - 1, after, t)
  {
  }

  /** A scan over entries that are all marked pushes nothing. */
  lemma {:induction false} NothingPushed(ns: seq<nat>, i: int, marked: seq<bool>, t: nat)
    requires -1 <= i < |ns| && forall k :: 0 <= k < |ns| ==> ns[k] < |marked|
    requires forall k :: 0 <= k <= i ==> marked[ns[k]]
    ensures Pushes(ns, i, marked, t) == []
    decreases i + 1
  {
    if i >= 0 {
      NothingPushed(ns, i - 1, marked, t);
    }
  }

  /** The neighbour `adj[u][i]` of the node `u` being scanned: if it is
      unmarked it is marked, gets `u` as parent, raises `found` when it is the
      target, and is pushed. `pushed` accounts for the stack the whole scan
      will leave. */
  method Visit(adj: Graph, s: nat, t: nat, u: nat, i: nat, visited0: seq<bool>, parents0: seq<int>,
               work0: seq<nat>, ghost depth0: seq<nat>, ghost closed: seq<bool>, ghost pushed: seq<nat>)
    returns (visited: seq<bool>, parents: seq<int>, work: seq<nat>, found: bool, ghost depth: seq<nat>)
    requires Inv(adj, s, visited0, parents0, depth0, closed, work0, u)
    requires u < |adj| && closed[u] && i < |adj[u]| && t < |adj| && !visited0[t]
    requires forall k :: i < k < |adj[u]| ==> visited0[adj[u][k]]
    requires pushed == work0 + Pushes(adj[u], i, visited0, t)
    ensures Inv(adj, s, visited, parents, depth, closed, work, u)
    ensures found == visited[t]
    ensures forall k :: i <= k < |adj[u]| ==> visited[adj[u][k]]
    ensures found ==> pushed == work
    ensures !found ==> pushed == work + Pushes(adj[u], i - 1, visited, t)
    ensures CountFalse(visited) + |work| == CountFalse(visited0) + |work0|
  {
    var v := adj[u][i];
    visited, parents, work, found, depth := visited0, parents0, work0, false, depth0;
    if !visited[v] {
      MarkKeeps(adj, s, visited, parents, depth, closed, work, u, v);
      CountFalseSet(visited, v);
      visited := visited[v := true];
      parents := parents[v := u];
      depth := depth[v := depth[u] + 1];
      if v == t {
        found := true;
      }
      work := work + [v];
    }
    ScanStep(pushed, work0, work, adj[u], i, visited0, visited, t);
    MarkedSuffix(visited0, visited, adj[u], i);
  }

  /** The scan of the popped node `u`'s neighbours from the last listed to the
      first, which stops right after the target is discovered: the stack
      grows by exactly the nodes `Pushes` lists. */
  method Scan(adj: Graph, s: nat, t: nat, u: nat, visited0: seq<bool>, parents0: seq<int>, work0: seq<nat>,
              ghost depth0: seq<nat>, ghost closed: seq<bool>)
    returns (visited: seq<bool>, parents: seq<int>, work: seq<nat>, found: bool, ghost depth: seq<nat>)
    requires Inv(adj, s, visited0, parents0, depth0, closed, work0, u)
    requires u < |adj| && closed[u] && t < |adj| && !visited0[t]
    ensures Inv(adj, s, visited, parents, depth, closed, work, if found then u else -1)
    ensures found == visited[t]
    ensures work == work0 + Pushes(adj[u], |adj[u]| - 1, visited0, t)
    ensures CountFalse(visited) + |work| == CountFalse(visited0) + |work0|
  {
    visited, parents, work, found, depth := visited0, parents0, work0, false, depth0;
    ghost var pushed := work0 + Pushes(adj[u], |adj[u]| - 1, visited0, t);
    var i: int := |adj[u]| - 1;
    while i >= 0
      invariant Inv(adj, s, visited, parents, depth, closed, work, u)
      invariant -1 <= i < |adj[u]| && !found && !visited[t]
      invariant forall k :: i < k < |adj[u]| ==> visited[adj[u][k]]
      invariant pushed == work + Pushes(adj[u], i, visited, t)
      invariant CountFalse(visited) + |work| == CountFalse(visited0) + |work0|
    {
      visited, parents, work, found, depth := Visit(adj, s, t, u, i, visited, parents, work, depth, closed, pushed);
      if found {
        return;
      }
      i := i - 1;
    }
    ScanDone(adj, s, visited, parents, depth, closed, work, u);
  }

  /** What the search leaves for the reconstruction: the parent tree, and,
      when the target was not marked, every marked node popped and scanned. */
  ghost predicate Outcome(adj: Graph, s: nat, t: nat, visited: seq<bool>, parents: seq<int>, depth: seq<nat>,
                          closed: seq<bool>) {
    && Shape(adj, visited, parents, depth, closed) && s < |adj| && t < |adj|
    && Tree(adj, visited, parents, depth, closed, s)
    && (!visited[t] ==> Expanded(adj, visited, closed, -1) && forall v :: 0 <= v < |adj| && visited[v] ==> closed[v])
  }

  /** The stack loop: pop the top, scan its neighbours, until the stack is
      empty or the target has been discovered. */
  method Search(adj: Graph, s: nat, t: nat)
    returns (visited: seq<bool>, parents: seq<int>, ghost depth: seq<nat>, ghost closed: seq<bool>)
    requires ValidGraph(adj) && s < |adj| && t < |adj| && s != t
    ensures Outcome(adj, s, t, visited, parents, depth, closed)
  {
    var n := |adj|;
    visited := Fill(n, false);
    var found := false;
    visited := visited[s := true];
    var work := [s];
    parents := Fill(n, -1);
    depth, closed := Fill(n, 0), Fill(n, false);
    ghost var except: int := -1;
    InitInv(adj, s);

    while |work| > 0 && !found
      invariant Inv(adj, s, visited, parents, depth, closed, work, except)
      invariant found == visited[t] && (!found ==> except == -1)
      decreases CountFalse(visited) + |work|
    {
      var u := work[|work| - 1];
      PopKeeps(adj, s, visited, parents, depth, closed, work, |work| - 1);
      assert work[..|work| - 1] + work[|work|..] == work[..|work| - 1];
      except := u;
      closed := closed[u := true];
      work := work[..|work| - 1];
      visited, parents, work, found, depth := Scan(adj, s, t, u, visited, parents, work, depth, closed);
      if !found {
        except := -1;
      }
    }
  }

  /** `DFS::findPath`: the route from `s` to `t` as a list of nodes, `None`
      for the null list when `t` is never discovered. */
  method FindPath(adj: Graph, s: nat, t: nat) returns (r: Option<seq<nat>>)
    requires ValidGraph(adj) && s < |adj| && t < |adj|
    ensures s == t ==> r == Some([s])
    ensures r.None? <==> !Reaches(adj, s, t)
    ensures r.Some? ==> PathFromTo(adj, r.value, s, t) && NoDup(r.value)
  {
    if s == t {
      assert PathFromTo(adj, [s], s, s);
      return Some([s]);
    }
    var visited, parents, depth, closed := Search(adj, s, t);
    if parents[t] == -1 {
      Drained(adj, s, visited, closed, t);
      return None;
    }
    ghost var p := ChainToSource(adj, s, visited, parents, depth, closed, t);
    var head := Trace(parents, s, t, p);
    r := Some(head);
  }
}
