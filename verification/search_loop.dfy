/** The priority-queue loop of uniform-cost search and A*, written as the
    sources write it: per-node vectors updated in place, a binary heap of
    (priority, node) pairs, `continue` on a stale pop and `break` when the
    target is popped. It is proved to compute exactly the search state that
    `BestFirst.Explore` describes, so every lemma about `Explore` holds of it. */
module SearchLoop {
  import opened Common
  import opened Frontier
  import opened Walks
  import opened BestFirst

  /** The search state the loop's local variables stand for. */
  ghost function Abs(visited: seq<bool>, parents: seq<int>, g: seq<Cost>, f: seq<Cost>,
                     pq: multiset<Entry>, log: seq<nat>): State
  {
    State(visited, parents, g, f, pq, log)
  }

  /** Relaxes the edge `e = (v, w)` out of the closed node `u`: when `v` is
      open and `g[u] + w` beats its cost, `v` gets `u` as parent, the new cost
      and priority, and is queued under that priority. */
  method RelaxOne(adj: Adj, h: seq<nat>, u: nat, e: (nat, nat), visited: seq<bool>, parents0: seq<int>,
                  g0: seq<Cost>, f0: seq<Cost>, pq0: multiset<Entry>, log: seq<nat>)
    returns (parents: seq<int>, g: seq<Cost>, f: seq<Cost>, pq: multiset<Entry>)
    requires WF(adj, h, Abs(visited, parents0, g0, f0, pq0, log)) && u < |adj| && visited[u] && e.0 < |adj|
    ensures Abs(visited, parents, g, f, pq, log) == RelaxEdge(adj, h, u, e, Abs(visited, parents0, g0, f0, pq0, log))
  {
    RelaxEdgeCases(adj, h, u, e, Abs(visited, parents0, g0, f0, pq0, log));
    parents, g, f, pq := parents0, g0, f0, pq0;
    var v, gv := e.0, g[u].val + e.1;
    if !visited[v] && Exceeds(g[v], gv) {
      parents := parents[v := u];
      g := g[v := Fin(gv)];
      f := f[v := Fin(gv + h[v])];
      pq := pq + multiset{(gv + h[v], v)};
    }
  }

  /** The inner `for` loop: relaxes every edge out of the just-closed `u`, in
      adjacency order. */
  method RelaxEdges(adj: Adj, h: seq<nat>, u: nat, visited: seq<bool>, parents0: seq<int>,
                    g0: seq<Cost>, f0: seq<Cost>, pq0: multiset<Entry>, log: seq<nat>)
    returns (parents: seq<int>, g: seq<Cost>, f: seq<Cost>, pq: multiset<Entry>)
    requires WF(adj, h, Abs(visited, parents0, g0, f0, pq0, log)) && u < |adj| && visited[u]
    ensures Abs(visited, parents, g, f, pq, log) == RelaxFrom(adj, h, u, 0, Abs(visited, parents0, g0, f0, pq0, log))
  {
    parents, g, f, pq := parents0, g0, f0, pq0;
    var i := 0;
    while i < |adj[u]|
      invariant i <= |adj[u]|
      invariant WF(adj, h, Abs(visited, parents, g, f, pq, log))
      invariant RelaxFrom(adj, h, u, i, Abs(visited, parents, g, f, pq, log))
             == RelaxFrom(adj, h, u, 0, Abs(visited, parents0, g0, f0, pq0, log))
    {
      parents, g, f, pq := RelaxOne(adj, h, u, adj[u][i], visited, parents, g, f, pq, log);
      i := i + 1;
    }
  }

  /** The loop from `s` towards `t` over `adj` with heuristic table `h`:
      it returns the closed flags, the parent links, the costs `g`, the
      priorities `f` and the expansion log. */
  method Search(adj: Adj, h: seq<nat>, s: nat, t: nat)
    returns (visited: seq<bool>, parents: seq<int>, g: seq<Cost>, f: seq<Cost>, log: seq<nat>)
    requires ValidAdj(adj) && s < |adj| && t < |adj| && |adj| <= |h|
    ensures var fin := Explore(adj, h, s, t);
      && visited == fin.visited && parents == fin.parents
      && g == fin.g && f == fin.f && log == fin.log
  {
    var pq;
    visited, parents, g, f, pq, log := Start(adj, h, s);
    ghost var fin := Explore(adj, h, s, t);
    while |pq| > 0
      invariant WF(adj, h, Abs(visited, parents, g, f, pq, log))
      invariant Run(adj, h, t, Abs(visited, parents, g, f, pq, log)) == fin
      decreases CountFalse(visited), |pq|
    {
      var done;
      done, visited, parents, g, f, pq, log := Turn(adj, h, t, visited, parents, g, f, pq, log);
      if done {
        break;
      }
    }
    RunEmpty(adj, h, t, Abs(visited, parents, g, f, pq, log));
  }

  /** The state before the loop: every node open, parentless and without a
      cost but the source, which costs 0, and `(0, s)` queued. */
  method Start(adj: Adj, h: seq<nat>, s: nat)
    returns (visited: seq<bool>, parents: seq<int>, g: seq<Cost>, f: seq<Cost>, pq: multiset<Entry>, log: seq<nat>)
    requires ValidAdj(adj) && s < |adj| && |adj| <= |h|
    ensures WF(adj, h, Abs(visited, parents, g, f, pq, log))
    ensures Abs(visited, parents, g, f, pq, log) == Init(|adj|, s, h)
  {
    var n := |adj|;
    visited := Fill(n, false);
    parents := Fill(n, -1);
    g := Fill(n, Inf);
    f := Fill(n, Inf);
    pq := multiset{(0, s)};
    log := [];
    g := g[s := Fin(0)];
    f := f[s := Fin(h[s])];
    assert Abs(visited, parents, g, f, pq, log) == Init(n, s, h);
  }

  /** The loop leaves an empty queue as it is. */
  lemma RunEmpty(adj: Adj, h: seq<nat>, t: nat, st: State)
    requires WF(adj, h, st)
    ensures |st.pq| == 0 ==> Run(adj, h, t, st) == st
  {
  }

  /** One turn of the loop: pop the least entry; skip it when its node is
      closed; otherwise close and log the node, and either stop (`done`) when
      it is `t`, recording its priority, or relax its edges. */
  method Turn(adj: Adj, h: seq<nat>, t: nat, visited0: seq<bool>, parents0: seq<int>, g0: seq<Cost>,
              f0: seq<Cost>, pq0: multiset<Entry>, log0: seq<nat>)
    returns (done: bool, visited: seq<bool>, parents: seq<int>, g: seq<Cost>, f: seq<Cost>,
             pq: multiset<Entry>, log: seq<nat>)
    requires WF(adj, h, Abs(visited0, parents0, g0, f0, pq0, log0)) && |pq0| > 0
    ensures var st := Abs(visited0, parents0, g0, f0, pq0, log0);
      && (done <==> Top(st).1 == t && !st.visited[t])
      && (done ==> Abs(visited, parents, g, f, pq, log) == Finish(adj, h, t, st))
      && (!done ==> Abs(visited, parents, g, f, pq, log) == Step(adj, h, t, st))
    ensures WF(adj, h, Abs(visited, parents, g, f, pq, log))
    ensures done ==> Run(adj, h, t, Abs(visited0, parents0, g0, f0, pq0, log0)) == Abs(visited, parents, g, f, pq, log)
    ensures !done ==> Run(adj, h, t, Abs(visited0, parents0, g0, f0, pq0, log0)) == Run(adj, h, t, Abs(visited, parents, g, f, pq, log))
    ensures !done ==> CountFalse(visited) < CountFalse(visited0) || (visited == visited0 && |pq| < |pq0|)
  {
    ghost var st := Abs(visited0, parents0, g0, f0, pq0, log0);
    visited, parents, g, f, pq, log := visited0, parents0, g0, f0, pq0, log0;
    done := false;
    LeastExists(pq);
    var top :| top in pq && forall x :: x in pq ==> EntryLe(top, x);
    LeastUnique(pq, top);
    var (cost, u) := top;
    pq := pq - multiset{top};
    assert Abs(visited, parents, g, f, pq, log) == Pop(adj, st);
    if visited[u] {
      return;
    }
    log := log + [u];
    visited := visited[u := true];
    if u == t {
      f := f[t := Fin(cost)];
      done := true;
      return;
    }
    assert Abs(visited, parents, g, f, pq, log) == Close(adj, Pop(adj, st), u);
    CountFalseSet(st.visited, u);
    parents, g, f, pq := RelaxEdges(adj, h, u, visited, parents, g, f, pq, log);
  }
}
