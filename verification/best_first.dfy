/** The best-first search loop shared by uniform-cost search and A*
    (applied-ai/ucs.cpp, applied-ai/astar_exercise.cpp, applied-ai/astar.cpp).

    A min priority queue holds (priority, node) entries. A popped entry whose
    node is already closed is stale and skipped. Otherwise the node is closed and
    logged; if it is the target the search stops, else every edge to an open node
    that lowers its cost `g` records the parent, sets `f = g + h` and pushes
    `(f, node)`. Uniform-cost search is this loop with `h` identically zero.

    `Run` is the loop as a function of the search state; the imperative
    searches are proved equal to it, and the lemmas below establish what it
    guarantees: each node is expanded once, parent links are edges that explain
    `g`, an exhausted queue means the target is unreachable, and with a
    consistent heuristic every closed node's `g` is its shortest distance. */
module BestFirst {
  import opened Common
  import opened Frontier
  import opened Walks
  import opened Chains

  /** The search's variables: closed flags, parent per node (`-1` for none), the
      best-known cost `g`, its priority `f`, the queue and the expansion log. */
  datatype State = State(
    visited: seq<bool>,
    parents: seq<int>,
    g: seq<Cost>,
    f: seq<Cost>,
    pq: multiset<Entry>,
    log: seq<nat>)

  /** The per-node vectors have one entry per node. */
  ghost predicate Shaped(adj: Adj, st: State) {
    |st.visited| == |adj| && |st.parents| == |adj| && |st.g| == |adj| && |st.f| == |adj|
  }

  /** Sizes agree with the graph, every queued node has a finite cost, and
      every closed node has a finite cost. */
  ghost predicate Sized(adj: Adj, st: State) {
    && Shaped(adj, st)
    && (forall e :: e in st.pq ==> e.1 < |adj| && st.g[e.1].Fin?)
    && (forall v :: 0 <= v < |adj| && st.visited[v] ==> st.g[v].Fin?)
  }

  /** A state of a search over `adj` with heuristic table `h`. */
  ghost predicate WF(adj: Adj, h: seq<nat>, st: State) {
    ValidAdj(adj) && |adj| <= |h| && Sized(adj, st)
  }

  /** The state before the loop: only the source has a cost, `(0, s)` is queued. */
  ghost function Init(n: nat, s: nat, h: seq<nat>): State
    requires s < n <= |h|
  {
    State(Falses(n), Fill(n, -1), Fill(n, Inf)[s := Fin(0)], Fill(n, Inf)[s := Fin(h[s])], multiset{(0, s)}, [])
  }

  /** The edge `e = (v, w)` out of `u` lowers the cost of the open node `v`. */
  ghost predicate Improves(st: State, u: nat, e: (nat, nat))
    requires u < |st.g| && st.g[u].Fin? && e.0 < |st.visited| && e.0 < |st.g|
  {
    !st.visited[e.0] && Exceeds(st.g[e.0], st.g[u].val + e.1)
  }

  /** Relaxing the edge `e = (v, w)` out of the closed node `u`. */
  ghost function RelaxEdge(adj: Adj, h: seq<nat>, u: nat, e: (nat, nat), st: State): (r: State)
    requires WF(adj, h, st) && u < |adj| && st.g[u].Fin? && e.0 < |adj|
    ensures WF(adj, h, r) && r.visited == st.visited && r.log == st.log
    ensures forall x :: 0 <= x < |adj| && st.g[x].Fin? ==> AtMost(r.g[x], st.g[x].val)
    ensures forall x :: 0 <= x < |adj| && st.visited[x] ==> r.g[x] == st.g[x]
  {
    var v := e.0;
    var gv := st.g[u].val + e.1;
    if Improves(st, u, e) then
      st.(parents := st.parents[v := u],
          g := st.g[v := Fin(gv)],
          f := st.f[v := Fin(gv + h[v])],
          pq := st.pq + multiset{(gv + h[v], v)})
    else st
  }

  /** The two outcomes of relaxing `(v, w)` out of `u`: an improvement of an
      open `v` records `u` as its parent, lowers `g[v]` to `g[u] + w`, sets
      `f[v]` to that plus `h[v]` and queues `v` with it; otherwise nothing changes. */
  lemma RelaxEdgeCases(adj: Adj, h: seq<nat>, u: nat, e: (nat, nat), st: State)
    requires WF(adj, h, st) && u < |adj| && st.g[u].Fin? && e.0 < |adj|
    ensures Improves(st, u, e) ==>
      var r := RelaxEdge(adj, h, u, e, st);
      && r.visited == st.visited && r.log == st.log
      && r.parents == st.parents[e.0 := u]
      && r.g == st.g[e.0 := Fin(st.g[u].val + e.1)]
      && r.f == st.f[e.0 := Fin(st.g[u].val + e.1 + h[e.0])]
      && r.pq == st.pq + multiset{(st.g[u].val + e.1 + h[e.0], e.0)}
    ensures !Improves(st, u, e) ==> RelaxEdge(adj, h, u, e, st) == st
  {
  }

  /** Relaxing the edges of `u` from the `i`-th onwards, in adjacency order. */
  ghost function RelaxFrom(adj: Adj, h: seq<nat>, u: nat, i: nat, st: State): (r: State)
    requires WF(adj, h, st) && u < |adj| && st.visited[u] && i <= |adj[u]|
    ensures WF(adj, h, r) && r.visited == st.visited && r.log == st.log
    ensures forall x :: 0 <= x < |adj| && st.visited[x] ==> r.g[x] == st.g[x]
    decreases |adj[u]| - i
  {
    if i == |adj[u]| then st
    else RelaxFrom(adj, h, u, i + 1, RelaxEdge(adj, h, u, adj[u][i], st))
  }

  /** The least queue entry: what `pq.top()` returns. */
  ghost function Top(st: State): Entry
    requires |st.pq| > 0
  {
    Least(st.pq)
  }

  /** The state after `pq.pop()`. */
  ghost function Pop(adj: Adj, st: State): (r: State)
    requires Sized(adj, st) && |st.pq| > 0
    ensures Sized(adj, r) && |r.pq| == |st.pq| - 1
  {
    st.(pq := st.pq - multiset{Top(st)})
  }

  /** The state after closing `u` and appending it to the expansion log. */
  ghost function Close(adj: Adj, st: State, u: nat): (r: State)
    requires Sized(adj, st) && u < |adj| && st.g[u].Fin?
    ensures Sized(adj, r)
  {
    st.(visited := st.visited[u := true], log := st.log + [u])
  }

  /** One iteration that does not end the loop: skipping a stale entry, or
      closing an open node other than `t` and relaxing its edges in order. */
  ghost function Step(adj: Adj, h: seq<nat>, t: nat, st: State): (r: State)
    requires WF(adj, h, st) && |st.pq| > 0 && !(Top(st).1 == t && !st.visited[t])
    ensures WF(adj, h, r)
    ensures CountFalse(r.visited) < CountFalse(st.visited) || (r.visited == st.visited && |r.pq| < |st.pq|)
  {
    var u := Top(st).1;
    if st.visited[u] then Pop(adj, st)
    else
      CountFalseSet(st.visited, u);
      RelaxFrom(adj, h, u, 0, Close(adj, Pop(adj, st), u))
  }

  /** The last iteration: `t` is popped open, closed and logged, and `f[t]`
      is overwritten with the popped priority. */
  ghost function Finish(adj: Adj, h: seq<nat>, t: nat, st: State): (r: State)
    requires WF(adj, h, st) && |st.pq| > 0 && Top(st).1 == t && !st.visited[t]
    ensures WF(adj, h, r)
  {
    var c := Close(adj, Pop(adj, st), t);
    c.(f := c.f[t := Fin(Top(st).0)])
  }

  /** The main loop, from state `st` until the queue is empty or `t` is popped. */
  ghost function Run(adj: Adj, h: seq<nat>, t: nat, st: State): (r: State)
    requires WF(adj, h, st)
    ensures WF(adj, h, r)
    decreases CountFalse(st.visited), |st.pq|
  {
    if |st.pq| == 0 then st
    else if Top(st).1 == t && !st.visited[t] then Finish(adj, h, t, st)
    else Run(adj, h, t, Step(adj, h, t, st))
  }

  /** The whole search from `s` towards `t`. */
  ghost function Explore(adj: Adj, h: seq<nat>, s: nat, t: nat): State
    requires ValidAdj(adj) && s < |adj| && |adj| <= |h|
  {
    Run(adj, h, t, Init(|adj|, s, h))
  }

  // ----- invariants -----------------------------------------------------------

  /** `v`'s parent is a closed node, expanded before `v`, joined to `v` by an
      edge whose weight is exactly the difference of their costs. */
  ghost predicate ParentOk(adj: Adj, st: State, v: nat)
    requires Shaped(adj, st) && v < |adj|
  {
    var p := st.parents[v];
    && 0 <= p < |adj|
    && st.visited[p]
    && Pos(st.log, p) < Pos(st.log, v)
    && st.g[v].Fin? && st.g[p].Fin?
    && exists w: nat :: (v, w) in adj[p] && st.g[v].val == st.g[p].val + w
  }

  /** The log lists exactly the closed nodes, each once. */
  ghost predicate LogOk(adj: Adj, st: State)
    requires Shaped(adj, st)
  {
    && NoDup(st.log)
    && (forall i :: 0 <= i < |st.log| ==> st.log[i] < |adj|)
    && (forall v :: 0 <= v < |adj| ==> (st.visited[v] <==> v in st.log))
  }

  /** The source costs nothing, has no parent, and is queued with priority 0 until closed. */
  ghost predicate SourceOk(adj: Adj, s: nat, st: State)
    requires Shaped(adj, st) && s < |adj|
  {
    && st.g[s] == Fin(0) && st.parents[s] == -1
    && (!st.visited[s] ==> (0, s) in st.pq)
  }

  /** Recorded parents are sound, and every other reached node has one. */
  ghost predicate TreeOk(adj: Adj, s: nat, st: State)
    requires Shaped(adj, st)
  {
    && (forall v :: 0 <= v < |adj| && st.parents[v] != -1 ==> ParentOk(adj, st, v))
    && (forall v :: 0 <= v < |adj| && v != s && st.g[v].Fin? ==> st.parents[v] != -1)
  }

  /** `f = g + h` everywhere. */
  ghost predicate FOk(adj: Adj, h: seq<nat>, st: State)
    requires Shaped(adj, st) && |adj| <= |h|
  {
    forall v :: 0 <= v < |adj| ==> st.f[v] == AddCost(st.g[v], h[v])
  }

  /** Every queued priority (other than the source's) is at least its node's
      current `f`, and every open reached node is queued with its current `f`. */
  ghost predicate QueueOk(adj: Adj, s: nat, st: State)
    requires Shaped(adj, st)
  {
    && (forall e :: e in st.pq && e.1 < |adj| && e.1 != s ==> AtMost(st.f[e.1], e.0))
    && (forall v :: 0 <= v < |adj| && v != s && !st.visited[v] && st.g[v].Fin? ==>
          st.f[v].Fin? && (st.f[v].val, v) in st.pq)
  }

  /** What holds of the search state at the head of every iteration. */
  ghost predicate Basic(adj: Adj, h: seq<nat>, s: nat, st: State) {
    && WF(adj, h, st) && s < |adj|
    && LogOk(adj, st)
    && SourceOk(adj, s, st)
    && TreeOk(adj, s, st)
    && FOk(adj, h, st)
    && QueueOk(adj, s, st)
  }
  /** The `i`-th edge of `u` leads to a closed node or to one whose cost is
      no more than `g[u]` plus the edge's weight. */
  ghost predicate EdgeDone(adj: Adj, st: State, u: nat, i: nat)
    requires Shaped(adj, st) && u < |adj| && i < |adj[u]|
  {
    var e := adj[u][i];
    e.0 < |adj| && (st.visited[e.0] || (st.g[u].Fin? && AtMost(st.g[e.0], st.g[u].val + e.1)))
  }

  /** Every closed node other than `except` has had all its edges relaxed. */
  ghost predicate Relaxed(adj: Adj, st: State, except: int)
    requires Shaped(adj, st)
  {
    forall u, i :: 0 <= u < |adj| && u != except && st.visited[u] && 0 <= i < |adj[u]| ==>
      EdgeDone(adj, st, u, i)
  }

  /** Every closed node's cost is at most the cost of any walk to it from `s`. */
  ghost predicate Optimal(adj: Adj, s: nat, st: State)
    requires Shaped(adj, st)
  {
    forall p, ws :: IsWalk(adj, p, ws) && p[0] == s && st.visited[p[|p| - 1]] ==>
      AtMost(st.g[p[|p| - 1]], Sum(ws))
  }

  /** The invariant of the main loop while the target is still open. */
  ghost predicate Inv(adj: Adj, h: seq<nat>, s: nat, t: nat, st: State) {
    && Basic(adj, h, s, st) && t < |adj| && t != s && !st.visited[t]
    && Relaxed(adj, st, -1)
  }

  /** What holds when the loop has ended. */
  ghost predicate Final(adj: Adj, h: seq<nat>, s: nat, t: nat, fin: State) {
    && Basic(adj, h, s, fin) && t < |adj| && t != s
    && (fin.visited[t] ==> |fin.log| > 0 && fin.log[|fin.log| - 1] == t)
    && (!fin.visited[t] ==> Unreachable(adj, s, t) && fin.parents[t] == -1)
  }

  // ----- the initial state ----------------------------------------------------

  lemma InitInv(adj: Adj, h: seq<nat>, s: nat, t: nat)
    requires ValidAdj(adj) && s < |adj| && t < |adj| && |adj| <= |h| && s != t
    ensures Inv(adj, h, s, t, Init(|adj|, s, h))
  {
    var st := Init(|adj|, s, h);
    assert forall v :: 0 <= v < |adj| ==> !st.visited[v] && v !in st.log;
  }

  /** Nothing is closed at the start, so every closed cost is optimal. */
  lemma InitOptimal(adj: Adj, h: seq<nat>, s: nat)
    requires s < |adj| <= |h|
    ensures Optimal(adj, s, Init(|adj|, s, h))
  {
  }

  // ----- one iteration --------------------------------------------------------

  /** The first open node of a walk whose last node is open. */
  function FirstOpen(visited: seq<bool>, p: seq<nat>): (k: nat)
    requires forall i :: 0 <= i < |p| ==> p[i] < |visited|
    requires exists i :: 0 <= i < |p| && !visited[p[i]]
    ensures k < |p| && !visited[p[k]]
    ensures forall j :: 0 <= j < k ==> visited[p[j]]
  {
    if !visited[p[0]] then 0
    else
      assert exists i :: 0 <= i < |p[1..]| && !visited[p[1..][i]] by {
        var i :| 0 <= i < |p| && !visited[p[i]];
        assert p[1..][i - 1] == p[i];
      }
      1 + FirstOpen(visited, p[1..])
  }

  /** A parent link stays sound in a later state that keeps the link, the costs
      of both ends, the parent closed and the expansion order between them. */
  lemma ParentKept(adj: Adj, st: State, r: State, v: nat)
    requires Shaped(adj, st) && Shaped(adj, r) && v < |adj| && ParentOk(adj, st, v)
    requires r.parents[v] == st.parents[v] && r.g[v] == st.g[v]
    requires r.g[st.parents[v]] == st.g[st.parents[v]] && r.visited[st.parents[v]]
    requires Pos(r.log, st.parents[v]) < Pos(r.log, v)
    ensures ParentOk(adj, r, v)
  {
  }

  /** A link from a logged closed node `u` to an unlogged node `v` over an edge
      `(v, w)` is sound when `v`'s cost is `u`'s plus `w`. */
  lemma ParentNew(adj: Adj, r: State, v: nat, u: nat, w: nat)
    requires Shaped(adj, r) && v < |adj| && u < |adj| && r.parents[v] == u
    requires r.visited[u] && u in r.log && v !in r.log
    requires (v, w) in adj[u] && r.g[u].Fin? && r.g[v] == Fin(r.g[u].val + w)
    ensures ParentOk(adj, r, v)
  {
  }

  /** Popping leaves the facts that do not mention the queue as they were. */
  lemma PopKeeps(adj: Adj, h: seq<nat>, s: nat, st: State)
    requires WF(adj, h, st) && s < |adj| && |st.pq| > 0
    ensures var p := Pop(adj, st);
      && (LogOk(adj, st) ==> LogOk(adj, p))
      && (TreeOk(adj, s, st) ==> TreeOk(adj, s, p))
      && (FOk(adj, h, st) ==> FOk(adj, h, p))
      && (Relaxed(adj, st, -1) ==> Relaxed(adj, p, -1))
  {
    var p := Pop(adj, st);
    if TreeOk(adj, s, st) {
      forall v | 0 <= v < |adj| && p.parents[v] != -1 ensures ParentOk(adj, p, v) {
        ParentKept(adj, st, p, v);
      }
    }
    if Relaxed(adj, st, -1) {
      forall u, i | 0 <= u < |adj| && p.visited[u] && 0 <= i < |adj[u]| ensures EdgeDone(adj, p, u, i) {
        assert EdgeDone(adj, st, u, i);
      }
    }
  }

  /** Popping the top entry keeps the queue facts. */
  lemma PopQueue(adj: Adj, s: nat, st: State)
    requires Sized(adj, st) && s < |adj| && QueueOk(adj, s, st) && |st.pq| > 0
    ensures st.visited[Top(st).1] ==> QueueOk(adj, s, Pop(adj, st))
    ensures !st.visited[Top(st).1] ==> QueueOk(adj, s, Close(adj, Pop(adj, st), Top(st).1))
  {
    var top := Top(st);
    var p := Pop(adj, st);
    var q := if st.visited[top.1] then p else Close(adj, p, top.1);
    assert q.pq == st.pq - multiset{top} && q.f == st.f && q.g == st.g;
    assert q.visited == st.visited[top.1 := true];
    forall v | 0 <= v < |adj| && v != s && !q.visited[v] && q.g[v].Fin?
      ensures q.f[v].Fin? && (q.f[v].val, v) in q.pq
    {
      assert (st.f[v].val, v) != top;
    }
  }

  /** Popping the top entry keeps the source facts. */
  lemma PopSource(adj: Adj, s: nat, st: State)
    requires Sized(adj, st) && s < |adj| && SourceOk(adj, s, st) && |st.pq| > 0
    ensures st.visited[Top(st).1] ==> SourceOk(adj, s, Pop(adj, st))
    ensures !st.visited[Top(st).1] ==> SourceOk(adj, s, Close(adj, Pop(adj, st), Top(st).1))
  {
  }

  /** The priority of a popped open node other than the source is its `f`. */
  lemma PopTop(adj: Adj, s: nat, st: State)
    requires Sized(adj, st) && s < |adj| && QueueOk(adj, s, st) && |st.pq| > 0
    requires Top(st).1 != s && !st.visited[Top(st).1]
    ensures st.f[Top(st).1] == Fin(Top(st).0)
  {
    var top := Top(st);
    assert (st.f[top.1].val, top.1) in st.pq;
  }

  /** Closing an open node appends it to the log once. */
  lemma CloseLog(adj: Adj, st: State, u: nat)
    requires Sized(adj, st) && LogOk(adj, st) && u < |adj| && !st.visited[u] && st.g[u].Fin?
    ensures LogOk(adj, Close(adj, st, u))
  {
    assert u !in st.log;
  }

  /** Closing an open node keeps the parent facts: expansion order only grows. */
  lemma CloseTree(adj: Adj, s: nat, st: State, u: nat)
    requires Sized(adj, st) && LogOk(adj, st) && TreeOk(adj, s, st)
    requires u < |adj| && !st.visited[u] && st.g[u].Fin?
    ensures TreeOk(adj, s, Close(adj, st, u))
  {
    var c := Close(adj, st, u);
    forall v | 0 <= v < |adj| && c.parents[v] != -1
      ensures ParentOk(adj, c, v)
    {
      var p := st.parents[v];
      assert ParentOk(adj, st, v);
      PosAppend(st.log, u, p);
      PosAppend(st.log, u, v);
      ParentKept(adj, st, c, v);
    }
  }

  /** Closing `u` leaves every other closed node relaxed. */
  lemma CloseRelaxed(adj: Adj, st: State, u: nat)
    requires ValidAdj(adj) && Sized(adj, st) && Relaxed(adj, st, -1)
    requires u < |adj| && st.g[u].Fin?
    ensures Relaxed(adj, Close(adj, st, u), u)
  {
    var c := Close(adj, st, u);
    forall x, i | 0 <= x < |adj| && x != u && c.visited[x] && 0 <= i < |adj[x]|
      ensures EdgeDone(adj, c, x, i)
    {
      assert EdgeDone(adj, st, x, i);
    }
  }

  /** Popping a stale entry keeps the invariant. */
  lemma PopStale(adj: Adj, h: seq<nat>, s: nat, st: State)
    requires Basic(adj, h, s, st) && Relaxed(adj, st, -1) && |st.pq| > 0
    requires st.visited[Top(st).1]
    ensures Basic(adj, h, s, Pop(adj, st)) && Relaxed(adj, Pop(adj, st), -1)
  {
    PopKeeps(adj, h, s, st);
    PopQueue(adj, s, st);
    PopSource(adj, s, st);
  }

  /** Popping the entry of an open node `u` and closing it keeps the invariant,
      except that `u`'s own edges are still to be relaxed; its priority is `f[u]`. */
  lemma PopFresh(adj: Adj, h: seq<nat>, s: nat, st: State)
    requires Basic(adj, h, s, st) && Relaxed(adj, st, -1) && |st.pq| > 0
    requires !st.visited[Top(st).1]
    ensures var u := Top(st).1;
      var c := Close(adj, Pop(adj, st), u);
      && Basic(adj, h, s, c) && Relaxed(adj, c, u)
      && (u != s ==> st.f[u] == Fin(Top(st).0))
  {
    var u := Top(st).1;
    var p := Pop(adj, st);
    PopKeeps(adj, h, s, st);
    PopQueue(adj, s, st);
    PopSource(adj, s, st);
    CloseLog(adj, p, u);
    CloseTree(adj, s, p, u);
    CloseRelaxed(adj, p, u);
    if u != s {
      PopTop(adj, s, st);
    }
  }

  /** The first open node `p[m]` of a walk from `s` is entered from a closed
      node, so its cost is at most the cost of the walk's first `m` steps. */
  lemma PrefixCost(adj: Adj, s: nat, st: State, p: seq<nat>, ws: seq<nat>, m: nat)
    requires Shaped(adj, st) && Relaxed(adj, st, -1) && Optimal(adj, s, st)
    requires IsWalk(adj, p, ws) && p[0] == s && 0 < m < |p| && st.visited[p[m - 1]] && !st.visited[p[m]]
    ensures AtMost(st.g[p[m]], Sum(ws[..m]))
  {
    var x, y := p[m - 1], p[m];
    WalkPrefix(adj, p, ws, m);
    assert p[..m][m - 1] == x;
    assert AtMost(st.g[x], Sum(ws[..m - 1]));
    var i :| 0 <= i < |adj[x]| && adj[x][i] == (y, ws[m - 1]);
    assert EdgeDone(adj, st, x, i);
    assert ws[..m][..m - 1] == ws[..m - 1];
  }

  /** For a walk from `s` to an open node `u`, some queued priority is at most
      the walk's cost plus `h[u]`: the walk's first open node is queued with
      its `f`, which a consistent heuristic bounds so. */
  lemma FrontierBound(adj: Adj, h: seq<nat>, s: nat, st: State, p: seq<nat>, ws: seq<nat>) returns (e: Entry)
    requires WF(adj, h, st) && s < |adj| && SourceOk(adj, s, st) && QueueOk(adj, s, st) && FOk(adj, h, st)
    requires Relaxed(adj, st, -1) && Consistent(adj, h) && Optimal(adj, s, st)
    requires IsWalk(adj, p, ws) && p[0] == s && !st.visited[p[|p| - 1]]
    ensures e in st.pq && e.0 <= Sum(ws) + h[p[|p| - 1]]
  {
    var m := FirstOpen(st.visited, p);
    var y := p[m];
    if y == s {
      e := (0, s);
    } else {
      PrefixCost(adj, s, st, p, ws, m);
      e := (st.f[y].val, y);
      WalkSuffix(adj, p, ws, m);
      ConsistentAlongWalk(adj, h, p[m..], ws[m..]);
      assert ws == ws[..m] + ws[m..];
      SumConcat(ws[..m], ws[m..]);
    }
  }

  /** With a consistent heuristic, the node popped from the queue, if open,
      already carries the least cost of any walk from `s` to it. */
  lemma PopOptimalWalk(adj: Adj, h: seq<nat>, s: nat, st: State, p: seq<nat>, ws: seq<nat>)
    requires Basic(adj, h, s, st) && Relaxed(adj, st, -1) && |st.pq| > 0
    requires Consistent(adj, h) && Optimal(adj, s, st)
    requires !st.visited[Top(st).1]
    requires WalkFromTo(adj, p, ws, s, Top(st).1)
    ensures AtMost(st.g[Top(st).1], Sum(ws))
  {
    if Top(st).1 != s {
      PopTop(adj, s, st);
      var e := FrontierBound(adj, h, s, st, p, ws);
      assert EntryLe(Top(st), e);
    }
  }

  /** Closing the popped node keeps `Optimal` when the heuristic is consistent. */
  lemma PopOptimal(adj: Adj, h: seq<nat>, s: nat, st: State)
    requires Basic(adj, h, s, st) && Relaxed(adj, st, -1) && |st.pq| > 0
    requires Consistent(adj, h) && Optimal(adj, s, st)
    requires !st.visited[Top(st).1]
    ensures Optimal(adj, s, Close(adj, Pop(adj, st), Top(st).1))
  {
    var u := Top(st).1;
    var c := Close(adj, Pop(adj, st), u);
    forall p, ws | IsWalk(adj, p, ws) && p[0] == s && c.visited[p[|p| - 1]]
      ensures AtMost(c.g[p[|p| - 1]], Sum(ws))
    {
      if p[|p| - 1] == u {
        PopOptimalWalk(adj, h, s, st, p, ws);
      }
    }
  }

  /** Relaxing an edge keeps the source facts: nothing beats cost 0. */
  lemma RelaxSource(adj: Adj, h: seq<nat>, s: nat, u: nat, e: (nat, nat), st: State)
    requires WF(adj, h, st) && s < |adj| && SourceOk(adj, s, st)
    requires u < |adj| && st.g[u].Fin? && e.0 < |adj|
    ensures SourceOk(adj, s, RelaxEdge(adj, h, u, e, st))
  {
  }

  /** Lowering the cost of an open node `v` to `g[u] + w` over an edge `(v, w)`
      of a closed node `u`, and recording `u` as its parent, keeps the parent
      facts: no recorded link points at the open `v`. */
  lemma TreeUpdate(adj: Adj, s: nat, st: State, r: State, u: nat, e: (nat, nat))
    requires Shaped(adj, st) && Shaped(adj, r) && LogOk(adj, st) && TreeOk(adj, s, st)
    requires u < |adj| && e.0 < |adj| && st.visited[u] && !st.visited[e.0] && st.g[u].Fin? && e in adj[u]
    requires r.visited == st.visited && r.log == st.log
    requires r.parents == st.parents[e.0 := u] && r.g == st.g[e.0 := Fin(st.g[u].val + e.1)]
    ensures TreeOk(adj, s, r)
  {
    forall x | 0 <= x < |adj| && r.parents[x] != -1
      ensures ParentOk(adj, r, x)
    {
      if x == e.0 {
        ParentNew(adj, r, e.0, u, e.1);
      } else {
        assert ParentOk(adj, st, x);
        var p := st.parents[x];
        assert r.parents[x] == p && r.g[x] == st.g[x] && r.g[p] == st.g[p];
      }
    }
  }

  /** Relaxing an edge of a closed node keeps the log and the parent facts. */
  lemma RelaxTree(adj: Adj, h: seq<nat>, s: nat, u: nat, i: nat, st: State)
    requires WF(adj, h, st) && s < |adj| && LogOk(adj, st) && TreeOk(adj, s, st)
    requires u < |adj| && st.visited[u] && i < |adj[u]|
    ensures var r := RelaxEdge(adj, h, u, adj[u][i], st);
      LogOk(adj, r) && TreeOk(adj, s, r)
  {
    var e := adj[u][i];
    RelaxEdgeCases(adj, h, u, e, st);
    if Improves(st, u, e) {
      TreeUpdate(adj, s, st, RelaxEdge(adj, h, u, e, st), u, e);
    }
  }

  /** Relaxing an edge keeps `f = g + h` and the queue facts: a lowered cost
      is pushed with its new priority, and older entries only become larger
      than the node's `f`. */
  lemma RelaxQueue(adj: Adj, h: seq<nat>, s: nat, u: nat, e: (nat, nat), st: State)
    requires WF(adj, h, st) && s < |adj| && FOk(adj, h, st) && QueueOk(adj, s, st)
    requires u < |adj| && st.g[u].Fin? && e.0 < |adj|
    ensures var r := RelaxEdge(adj, h, u, e, st);
      FOk(adj, h, r) && QueueOk(adj, s, r)
  {
  }

  /** Relaxing the `i`-th edge of `u` makes it done and keeps every edge that was done. */
  lemma RelaxDone(adj: Adj, h: seq<nat>, u: nat, i: nat, st: State)
    requires WF(adj, h, st) && Relaxed(adj, st, u)
    requires u < |adj| && st.visited[u] && i < |adj[u]|
    requires forall j :: 0 <= j < i ==> EdgeDone(adj, st, u, j)
    ensures var r := RelaxEdge(adj, h, u, adj[u][i], st);
      && Relaxed(adj, r, u)
      && (forall j :: 0 <= j <= i ==> EdgeDone(adj, r, u, j))
  {
    var r := RelaxEdge(adj, h, u, adj[u][i], st);
    forall x, j | 0 <= x < |adj| && x != u && r.visited[x] && 0 <= j < |adj[x]|
      ensures EdgeDone(adj, r, x, j)
    {
      assert EdgeDone(adj, st, x, j);
    }
    forall j | 0 <= j <= i ensures EdgeDone(adj, r, u, j) {
      if j < i { assert EdgeDone(adj, st, u, j); }
    }
  }

  /** Once every edge of `u` is done, every closed node is relaxed. */
  lemma AllDone(adj: Adj, st: State, u: nat)
    requires Shaped(adj, st) && Relaxed(adj, st, u) && u < |adj|
    requires forall j :: 0 <= j < |adj[u]| ==> EdgeDone(adj, st, u, j)
    ensures Relaxed(adj, st, -1)
  {
  }

  /** Relaxing the remaining edges of `u` keeps the source facts. */
  lemma {:induction false} RelaxFromSource(adj: Adj, h: seq<nat>, s: nat, u: nat, i: nat, st: State)
    requires WF(adj, h, st) && s < |adj| && SourceOk(adj, s, st)
    requires u < |adj| && st.visited[u] && i <= |adj[u]|
    ensures SourceOk(adj, s, RelaxFrom(adj, h, u, i, st))
    decreases |adj[u]| - i
  {
    if i < |adj[u]| {
      var r := RelaxEdge(adj, h, u, adj[u][i], st);
      RelaxSource(adj, h, s, u, adj[u][i], st);
      RelaxFromSource(adj, h, s, u, i + 1, r);
    }
  }

  /** Relaxing the remaining edges of `u` keeps the log and the parent facts. */
  lemma {:induction false} RelaxFromTree(adj: Adj, h: seq<nat>, s: nat, u: nat, i: nat, st: State)
    requires WF(adj, h, st) && s < |adj| && LogOk(adj, st) && TreeOk(adj, s, st)
    requires u < |adj| && st.visited[u] && i <= |adj[u]|
    ensures LogOk(adj, RelaxFrom(adj, h, u, i, st)) && TreeOk(adj, s, RelaxFrom(adj, h, u, i, st))
    decreases |adj[u]| - i
  {
    if i < |adj[u]| {
      var r := RelaxEdge(adj, h, u, adj[u][i], st);
      RelaxTree(adj, h, s, u, i, st);
      RelaxFromTree(adj, h, s, u, i + 1, r);
    }
  }

  /** Relaxing the remaining edges of `u` keeps `f = g + h` and the queue facts. */
  lemma {:induction false} RelaxFromQueue(adj: Adj, h: seq<nat>, s: nat, u: nat, i: nat, st: State)
    requires WF(adj, h, st) && s < |adj| && FOk(adj, h, st) && QueueOk(adj, s, st)
    requires u < |adj| && st.visited[u] && i <= |adj[u]|
    ensures FOk(adj, h, RelaxFrom(adj, h, u, i, st)) && QueueOk(adj, s, RelaxFrom(adj, h, u, i, st))
    decreases |adj[u]| - i
  {
    if i < |adj[u]| {
      var r := RelaxEdge(adj, h, u, adj[u][i], st);
      RelaxQueue(adj, h, s, u, adj[u][i], st);
      RelaxFromQueue(adj, h, s, u, i + 1, r);
    }
  }

  /** Relaxing the remaining edges of `u` makes all of them done and keeps the
      other closed nodes relaxed. */
  lemma {:induction false} RelaxFromDone(adj: Adj, h: seq<nat>, u: nat, i: nat, st: State)
    requires WF(adj, h, st) && Relaxed(adj, st, u)
    requires u < |adj| && st.visited[u] && i <= |adj[u]|
    requires forall j :: 0 <= j < i ==> EdgeDone(adj, st, u, j)
    ensures Relaxed(adj, RelaxFrom(adj, h, u, i, st), -1)
    decreases |adj[u]| - i
  {
    if i == |adj[u]| {
      AllDone(adj, st, u);
    } else {
      var r := RelaxEdge(adj, h, u, adj[u][i], st);
      RelaxDone(adj, h, u, i, st);
      RelaxFromDone(adj, h, u, i + 1, r);
    }
  }

  /** Relaxing all edges of the freshly closed `u` restores the full invariant. */
  lemma RelaxFromProps(adj: Adj, h: seq<nat>, s: nat, u: nat, st: State)
    requires Basic(adj, h, s, st) && Relaxed(adj, st, u) && u < |adj| && st.visited[u]
    ensures Basic(adj, h, s, RelaxFrom(adj, h, u, 0, st))
    ensures Relaxed(adj, RelaxFrom(adj, h, u, 0, st), -1)
  {
    RelaxFromSource(adj, h, s, u, 0, st);
    RelaxFromTree(adj, h, s, u, 0, st);
    RelaxFromQueue(adj, h, s, u, 0, st);
    RelaxFromDone(adj, h, u, 0, st);
  }

  /** Any walk from `s` to the open target meets the frontier: its first open
      node is the source, queued with priority 0, or an open node reached over an
      edge from a closed one, hence queued with its `f`. */
  lemma WalkMeetsQueue(adj: Adj, s: nat, t: nat, st: State, p: seq<nat>, ws: seq<nat>)
    requires Shaped(adj, st) && s < |adj| && t < |adj| && !st.visited[t]
    requires SourceOk(adj, s, st) && QueueOk(adj, s, st) && Relaxed(adj, st, -1)
    requires WalkFromTo(adj, p, ws, s, t)
    ensures |st.pq| > 0
  {
    var m := FirstOpen(st.visited, p);
    var y := p[m];
    if y != s {
      var x := p[m - 1];
      var i :| 0 <= i < |adj[x]| && adj[x][i] == (y, ws[m - 1]);
      assert EdgeDone(adj, st, x, i);
      assert (st.f[y].val, y) in st.pq;
    }
  }

  /** An open target with a parent is queued. */
  lemma ParentQueued(adj: Adj, s: nat, t: nat, st: State)
    requires Shaped(adj, st) && t < |adj| && t != s && !st.visited[t]
    requires TreeOk(adj, s, st) && QueueOk(adj, s, st) && st.parents[t] != -1
    ensures |st.pq| > 0
  {
    assert ParentOk(adj, st, t);
    assert (st.f[t].val, t) in st.pq;
  }

  /** An exhausted queue with the target still open means no walk reaches it. */
  lemma EmptyFrontier(adj: Adj, h: seq<nat>, s: nat, t: nat, st: State)
    requires Inv(adj, h, s, t, st) && |st.pq| == 0
    ensures Unreachable(adj, s, t) && st.parents[t] == -1
  {
    forall p, ws | WalkFromTo(adj, p, ws, s, t) ensures false {
      WalkMeetsQueue(adj, s, t, st, p, ws);
    }
    if st.parents[t] != -1 {
      ParentQueued(adj, s, t, st);
    }
  }

  /** A step that keeps the closed set and the costs of closed nodes keeps `Optimal`. */
  lemma OptimalKept(adj: Adj, s: nat, st: State, r: State)
    requires Shaped(adj, st) && Shaped(adj, r) && Optimal(adj, s, st)
    requires forall x :: 0 <= x < |adj| && r.visited[x] ==> st.visited[x] && r.g[x] == st.g[x]
    ensures Optimal(adj, s, r)
  {
  }

  // ----- the whole loop -------------------------------------------------------

  /** An iteration that does not end the loop keeps the invariant and only extends the log. */
  lemma StepInv(adj: Adj, h: seq<nat>, s: nat, t: nat, st: State)
    requires Inv(adj, h, s, t, st) && |st.pq| > 0 && Top(st).1 != t
    ensures Inv(adj, h, s, t, Step(adj, h, t, st))
    ensures st.log <= Step(adj, h, t, st).log
  {
    var u := Top(st).1;
    if st.visited[u] {
      PopStale(adj, h, s, st);
    } else {
      PopFresh(adj, h, s, st);
      RelaxFromProps(adj, h, s, u, Close(adj, Pop(adj, st), u));
    }
  }

  /** When the popped node is the target, overwriting `f[t]` with the popped
      priority changes nothing: the entry carries `t`'s current `f`. */
  lemma FinishIsClose(adj: Adj, h: seq<nat>, s: nat, t: nat, st: State)
    requires WF(adj, h, st) && s < |adj| && QueueOk(adj, s, st) && |st.pq| > 0
    requires Top(st).1 == t && t != s && !st.visited[t]
    ensures Finish(adj, h, t, st) == Close(adj, Pop(adj, st), t)
  {
    PopTop(adj, s, st);
    var c := Close(adj, Pop(adj, st), t);
    assert c.f[t := c.f[t]] == c.f;
  }

  /** The last iteration closes `t` and leaves the invariant intact. */
  lemma FinishFinal(adj: Adj, h: seq<nat>, s: nat, t: nat, st: State)
    requires Inv(adj, h, s, t, st) && |st.pq| > 0 && Top(st).1 == t
    ensures Final(adj, h, s, t, Finish(adj, h, t, st))
    ensures st.log <= Finish(adj, h, t, st).log
  {
    PopFresh(adj, h, s, st);
    FinishIsClose(adj, h, s, t, st);
  }

  /** From any state satisfying the invariant the loop ends in a final state:
      the log has only grown, the target is closed last if it was reached, and
      otherwise it is unreachable. */
  lemma {:induction false} RunProps(adj: Adj, h: seq<nat>, s: nat, t: nat, st: State)
    requires Inv(adj, h, s, t, st)
    ensures Final(adj, h, s, t, Run(adj, h, t, st))
    ensures st.log <= Run(adj, h, t, st).log
    decreases CountFalse(st.visited), |st.pq|
  {
    if |st.pq| == 0 {
      EmptyFrontier(adj, h, s, t, st);
    } else if Top(st).1 == t {
      FinishFinal(adj, h, s, t, st);
    } else {
      StepInv(adj, h, s, t, st);
      RunProps(adj, h, s, t, Step(adj, h, t, st));
    }
  }

  /** With a consistent heuristic, an iteration keeps every closed cost optimal. */
  lemma StepOptimal(adj: Adj, h: seq<nat>, s: nat, t: nat, st: State)
    requires Inv(adj, h, s, t, st) && |st.pq| > 0 && Consistent(adj, h) && Optimal(adj, s, st)
    ensures Top(st).1 != t ==> Optimal(adj, s, Step(adj, h, t, st))
    ensures Top(st).1 == t ==> Optimal(adj, s, Finish(adj, h, t, st))
  {
    var u := Top(st).1;
    if st.visited[u] {
      OptimalKept(adj, s, st, Pop(adj, st));
    } else {
      var c := Close(adj, Pop(adj, st), u);
      PopOptimal(adj, h, s, st);
      if u == t {
        OptimalKept(adj, s, c, Finish(adj, h, t, st));
      } else {
        OptimalKept(adj, s, c, RelaxFrom(adj, h, u, 0, c));
      }
    }
  }

  /** With a consistent heuristic, every node the loop closes gets its shortest distance. */
  lemma {:induction false} RunOptimal(adj: Adj, h: seq<nat>, s: nat, t: nat, st: State)
    requires Inv(adj, h, s, t, st) && Consistent(adj, h) && Optimal(adj, s, st)
    ensures Optimal(adj, s, Run(adj, h, t, st))
    decreases CountFalse(st.visited), |st.pq|
  {
    if |st.pq| > 0 {
      StepOptimal(adj, h, s, t, st);
      if Top(st).1 != t {
        StepInv(adj, h, s, t, st);
        RunOptimal(adj, h, s, t, Step(adj, h, t, st));
      }
    }
  }

  // ----- the route ------------------------------------------------------------

  /** Expansion order as a rank: a node's parent was expanded before it. */
  ghost function Rank(st: State): seq<nat> {
    seq(|st.parents|, v => Pos(st.log, v))
  }

  lemma BasicLinked(adj: Adj, s: nat, st: State)
    requires Shaped(adj, st) && s < |adj| && SourceOk(adj, s, st) && TreeOk(adj, s, st)
    ensures Linked(st.parents, Rank(st), s)
  {
    forall v | 0 <= v < |st.parents| && st.parents[v] != -1
      ensures && 0 <= st.parents[v] < |st.parents|
              && Rank(st)[st.parents[v]] < Rank(st)[v]
              && (st.parents[v] == s || st.parents[st.parents[v]] != -1)
    {
      assert ParentOk(adj, st, v);
    }
  }

  /** The first iteration pops `(0, s)` and closes the source. */
  lemma FirstStep(adj: Adj, h: seq<nat>, s: nat, t: nat)
    requires ValidAdj(adj) && s < |adj| && t < |adj| && |adj| <= |h| && s != t
    ensures var init := Init(|adj|, s, h);
      && |init.pq| > 0 && Top(init) == (0, s)
      && Inv(adj, h, s, t, Step(adj, h, t, init))
      && Step(adj, h, t, init).log == [s]
      && Explore(adj, h, s, t) == Run(adj, h, t, Step(adj, h, t, init))
  {
    var init := Init(|adj|, s, h);
    InitInv(adj, h, s, t);
    assert Top(init) == (0, s);
    StepInv(adj, h, s, t, init);
  }

  /** The search from `s` closes `s` first and ends in a final state. */
  lemma ExploreFinal(adj: Adj, h: seq<nat>, s: nat, t: nat)
    requires ValidAdj(adj) && s < |adj| && t < |adj| && |adj| <= |h| && s != t
    ensures var fin := Explore(adj, h, s, t);
      Final(adj, h, s, t, fin) && |fin.log| >= 1 && fin.log[0] == s
  {
    FirstStep(adj, h, s, t);
    RunProps(adj, h, s, t, Step(adj, h, t, Init(|adj|, s, h)));
  }

  /** With a consistent heuristic, every node the search closes has its shortest distance. */
  lemma ExploreOptimal(adj: Adj, h: seq<nat>, s: nat, t: nat)
    requires ValidAdj(adj) && s < |adj| && t < |adj| && |adj| <= |h| && s != t
    requires Consistent(adj, h)
    ensures Optimal(adj, s, Explore(adj, h, s, t))
  {
    InitInv(adj, h, s, t);
    InitOptimal(adj, h, s);
    RunOptimal(adj, h, s, t, Init(|adj|, s, h));
  }

  /** The search from `s`: it closes `s` first and ends in a final state, and
      with a consistent heuristic every node it closes has its shortest distance. */
  lemma ExploreFacts(adj: Adj, h: seq<nat>, s: nat, t: nat)
    requires ValidAdj(adj) && s < |adj| && t < |adj| && |adj| <= |h| && s != t
    ensures var fin := Explore(adj, h, s, t);
      && Final(adj, h, s, t, fin)
      && |fin.log| >= 1 && fin.log[0] == s
      && (Consistent(adj, h) ==> Optimal(adj, s, fin))
  {
    ExploreFinal(adj, h, s, t);
    if Consistent(adj, h) {
      ExploreOptimal(adj, h, s, t);
    }
  }

  /** The route the search reports: `None` when the target's parent was never
      set, else the nodes from `s` to `t` along parent links. */
  ghost function Route(adj: Adj, h: seq<nat>, s: nat, t: nat): Option<seq<nat>>
    requires ValidAdj(adj) && s < |adj| && t < |adj| && |adj| <= |h| && s != t
  {
    var fin := Explore(adj, h, s, t);
    ExploreFacts(adj, h, s, t);
    if fin.parents[t] == -1 then None
    else
      BasicLinked(adj, s, fin);
      Some(PathTo(fin.parents, Rank(fin), s, t))
  }

  /** The recorded cost of the `j`-th node of `p` is the cost of the first `j` steps. */
  ghost predicate CostsAlong(g: seq<Cost>, p: seq<nat>, ws: seq<nat>) {
    && |p| >= 1 && |ws| == |p| - 1
    && forall j :: 0 <= j < |p| ==> p[j] < |g| && g[p[j]] == Fin(Sum(ws[..j]))
  }

  /** Extending a walk by an edge whose weight is the cost difference keeps the costs explained. */
  lemma CostsExtend(g: seq<Cost>, p: seq<nat>, ws: seq<nat>, v: nat, w: nat)
    requires CostsAlong(g, p, ws) && v < |g| && g[p[|p| - 1]].Fin? && g[v] == Fin(g[p[|p| - 1]].val + w)
    ensures CostsAlong(g, p + [v], ws + [w])
  {
    var q, qs := p + [v], ws + [w];
    forall j | 0 <= j < |q| ensures q[j] < |g| && g[q[j]] == Fin(Sum(qs[..j])) {
      if j < |p| {
        assert qs[..j] == ws[..j];
      } else {
        assert qs[..j] == qs && qs[..|qs| - 1] == ws && ws[..|p| - 1] == ws;
      }
    }
  }

  /** Parent links explain costs: the route to any node with a parent is a walk
      whose prefix costs are the recorded `g` values. */
  lemma {:induction false} ChainWalk(adj: Adj, s: nat, st: State, v: nat) returns (ws: seq<nat>)
    requires Shaped(adj, st) && s < |adj| && SourceOk(adj, s, st) && TreeOk(adj, s, st)
    requires Linked(st.parents, Rank(st), s)
    requires v < |adj| && (v == s || st.parents[v] != -1)
    ensures var p := PathTo(st.parents, Rank(st), s, v);
      WalkFromTo(adj, p, ws, s, v) && CostsAlong(st.g, p, ws)
    decreases Rank(st)[v]
  {
    if v == s {
      ws := [];
    } else {
      var u := st.parents[v] as nat;
      var ws' := ChainWalk(adj, s, st, u);
      assert ParentOk(adj, st, v);
      var w: nat :| (v, w) in adj[u] && st.g[v].val == st.g[u].val + w;
      var p' := PathTo(st.parents, Rank(st), s, u);
      assert PathTo(st.parents, Rank(st), s, v) == p' + [v];
      WalkExtend(adj, p', ws', v, w);
      CostsExtend(st.g, p', ws', v, w);
      ws := ws' + [w];
    }
  }

  /** A found route is a repetition-free walk whose prefixes cost the recorded
      `g` values, and a shortest one when the closed costs are optimal. */
  lemma FoundRoute(adj: Adj, h: seq<nat>, s: nat, t: nat, fin: State) returns (ws: seq<nat>)
    requires Final(adj, h, s, t, fin) && fin.visited[t]
    ensures Linked(fin.parents, Rank(fin), s) && fin.parents[t] != -1
    ensures var p := PathTo(fin.parents, Rank(fin), s, t);
      && NoDup(p)
      && WalkFromTo(adj, p, ws, s, t)
      && CostsAlong(fin.g, p, ws)
      && (Optimal(adj, s, fin) ==> IsShortest(adj, s, t, Sum(ws)))
  {
    BasicLinked(adj, s, fin);
    var p := PathTo(fin.parents, Rank(fin), s, t);
    PathToProps(fin.parents, Rank(fin), s, t);
    RankedNoDup(p, Rank(fin));
    ws := ChainWalk(adj, s, fin, t);
    assert fin.g[p[|p| - 1]] == Fin(Sum(ws[..|p| - 1]));
    assert ws[..|p| - 1] == ws;
  }

  /** What the search returns: a route exactly when the target is reachable;
      the route is a repetition-free walk from `s` to `t` whose prefixes cost
      the recorded `g` values; with a consistent heuristic it is a shortest walk.
      Every node is expanded at most once, the source first, and the target is
      expanded (and then last) exactly when a route is returned. */
  lemma RouteCorrect(adj: Adj, h: seq<nat>, s: nat, t: nat)
    requires ValidAdj(adj) && s < |adj| && t < |adj| && |adj| <= |h| && s != t
    ensures var fin := Explore(adj, h, s, t);
      && |fin.g| == |adj| && |fin.f| == |adj| && |fin.log| >= 1 && fin.log[0] == s
      && NoDup(fin.log)
      && (forall v :: v in fin.log ==> v < |adj|)
      && (Route(adj, h, s, t).None? <==> Unreachable(adj, s, t))
      && (Route(adj, h, s, t).None? <==> t !in fin.log)
      && (t in fin.log ==> fin.log[|fin.log| - 1] == t)
      && (forall v :: 0 <= v < |adj| ==> fin.f[v] == AddCost(fin.g[v], h[v]))
      && (Route(adj, h, s, t).Some? ==>
            var p := Route(adj, h, s, t).value;
            && NoDup(p)
            && exists ws :: && WalkFromTo(adj, p, ws, s, t)
                            && CostsAlong(fin.g, p, ws)
                            && (Consistent(adj, h) ==> IsShortest(adj, s, t, Sum(ws))))
  {
    var fin := Explore(adj, h, s, t);
    ExploreFacts(adj, h, s, t);
    if fin.visited[t] {
      var ws := FoundRoute(adj, h, s, t, fin);
      var p := PathTo(fin.parents, Rank(fin), s, t);
      assert Route(adj, h, s, t) == Some(p);
      assert !Unreachable(adj, s, t) by {
        assert WalkFromTo(adj, p, ws, s, t);
      }
    }
  }
}
