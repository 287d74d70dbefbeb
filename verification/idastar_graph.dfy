/** The generic front end of iterative deepening A*: the graph and the
    heuristic come as hash maps keyed by node values, which are numbered
    densely in the order they are first met, the indexed adjacency lists and
    heuristic vector are built, the probe loop runs on indices, and the route
    is mapped back to node values. A hash map is modelled as the sequence of
    its entries in iteration order, with distinct keys. */
module IdaStarGraph {
  import opened Common
  import opened Walks
  import IdaStar

  /** `unordered_map<T, vector<pair<T, int>>>`: each entry a node and its
      (neighbour, weight) list. */
  type Table<T> = seq<(T, seq<(T, nat)>)>

  ghost predicate DistinctKeys<T(!new), V>(m: seq<(T, V)>) {
    forall i, j :: 0 <= i < j < |m| ==> m[i].0 != m[j].0
  }

  ghost predicate IsKey<T(!new), V>(m: seq<(T, V)>, x: T) {
    exists i :: 0 <= i < |m| && m[i].0 == x
  }

  /** `x` is the node of the entry `e` or one of its listed neighbours. */
  ghost predicate InEntry<T(!new)>(e: (T, seq<(T, nat)>), x: T) {
    e.0 == x || exists k :: 0 <= k < |e.1| && e.1[k].0 == x
  }

  /** `x` is a node of the graph: a key or a listed neighbour. */
  ghost predicate Mentioned<T(!new)>(graph: Table<T>, x: T) {
    exists i :: 0 <= i < |graph| && InEntry(graph[i], x)
  }

  /** The graph has an edge from `x` to `y` of weight `w`. */
  ghost predicate Edge<T(!new)>(graph: Table<T>, x: T, y: T, w: nat) {
    exists i, k :: 0 <= i < |graph| && graph[i].0 == x && 0 <= k < |graph[i].1| && graph[i].1[k] == (y, w)
  }

  /** A walk over node values from `s` to `t`, `ws` its edge weights. */
  ghost predicate TWalk<T(!new)>(graph: Table<T>, p: seq<T>, ws: seq<nat>, s: T, t: T) {
    && |p| >= 1 && |ws| == |p| - 1 && p[0] == s && p[|p| - 1] == t
    && forall j :: 0 <= j < |ws| ==> Edge(graph, p[j], p[j + 1], ws[j])
  }

  ghost predicate TUnreachable<T(!new)>(graph: Table<T>, s: T, t: T) {
    forall p, ws :: !TWalk(graph, p, ws, s, t)
  }

  /** The numbering `get_idx` maintains: `toIdx` and `fromIdx` are inverse. */
  ghost predicate Bijection<T(!new)>(toIdx: map<T, nat>, fromIdx: seq<T>) {
    && (forall x :: x in toIdx ==> toIdx[x] < |fromIdx| && fromIdx[toIdx[x]] == x)
    && (forall i :: 0 <= i < |fromIdx| ==> fromIdx[i] in toIdx && toIdx[fromIdx[i]] == i)
  }

  /** `get_idx`: the index of `x`, numbering it next when it is new. The
      source's counter is always the number of values numbered so far, so it
      is `|fromIdx|` here. */
  method GetIdx<T(==,!new)>(toIdx0: map<T, nat>, fromIdx0: seq<T>, x: T)
    returns (toIdx: map<T, nat>, fromIdx: seq<T>, idx: nat)
    requires Bijection(toIdx0, fromIdx0)
    ensures Bijection(toIdx, fromIdx) && x in toIdx && idx == toIdx[x]
    ensures x in toIdx0 ==> toIdx == toIdx0 && fromIdx == fromIdx0
    ensures x !in toIdx0 ==> toIdx == toIdx0[x := |fromIdx0|] && fromIdx == fromIdx0 + [x]
  {
    toIdx, fromIdx := toIdx0, fromIdx0;
    if x !in toIdx {
      toIdx := toIdx[x := |fromIdx|];
      fromIdx := fromIdx + [x];
    }
    idx := toIdx[x];
  }

  /** Numbers the node of one entry and then its neighbours, in list order. */
  method NumberEntry<T(==,!new)>(toIdx0: map<T, nat>, fromIdx0: seq<T>, e: (T, seq<(T, nat)>))
    returns (toIdx: map<T, nat>, fromIdx: seq<T>)
    requires Bijection(toIdx0, fromIdx0)
    ensures Bijection(toIdx, fromIdx)
    ensures forall x :: x in toIdx <==> x in toIdx0 || InEntry(e, x)
  {
    var idx;
    toIdx, fromIdx, idx := GetIdx(toIdx0, fromIdx0, e.0);
    for k := 0 to |e.1|
      invariant Bijection(toIdx, fromIdx)
      invariant forall x :: x in toIdx <==> x in toIdx0 || e.0 == x || exists m :: 0 <= m < k && e.1[m].0 == x
    {
      toIdx, fromIdx, idx := GetIdx(toIdx, fromIdx, e.1[k].0);
    }
  }

  /** The first loop: every node of the graph gets an index, and nothing else does. */
  method NumberNodes<T(==,!new)>(graph: Table<T>) returns (toIdx: map<T, nat>, fromIdx: seq<T>)
    ensures Bijection(toIdx, fromIdx)
    ensures forall x :: x in toIdx <==> Mentioned(graph, x)
  {
    toIdx, fromIdx := map[], [];
    for i := 0 to |graph|
      invariant Bijection(toIdx, fromIdx)
      invariant forall x :: x in toIdx <==> exists j :: 0 <= j < i && InEntry(graph[j], x)
    {
      toIdx, fromIdx := NumberEntry(toIdx, fromIdx, graph[i]);
    }
  }

  /** `row` is the indexed form of the neighbour list `ns`. */
  ghost predicate RowOf<T(!new)>(toIdx: map<T, nat>, ns: seq<(T, nat)>, row: seq<(nat, nat)>) {
    && |row| == |ns|
    && forall k :: 0 <= k < |ns| ==> ns[k].0 in toIdx && row[k] == (toIdx[ns[k].0], ns[k].1)
  }

  /** The indexed graph: the numbering covers exactly the graph's nodes, each
      key's row is its neighbour list with neighbours numbered, and a node that
      is only ever a neighbour has an empty row. */
  ghost predicate Indexed<T(!new)>(graph: Table<T>, toIdx: map<T, nat>, fromIdx: seq<T>, adj: Adj) {
    && Bijection(toIdx, fromIdx) && |adj| == |fromIdx|
    && (forall x :: x in toIdx <==> Mentioned(graph, x))
    && (forall i :: 0 <= i < |graph| ==> graph[i].0 in toIdx && RowOf(toIdx, graph[i].1, adj[toIdx[graph[i].0]]))
    && (forall u :: 0 <= u < |adj| && !IsKey(graph, fromIdx[u]) ==> adj[u] == [])
  }

  /** The inner loop of the second pass: appends the numbered neighbours of
      one key to that key's (still empty) row. */
  method AppendRow<T(==,!new)>(adj0: Adj, u: nat, toIdx: map<T, nat>, ns: seq<(T, nat)>) returns (adj: Adj)
    requires u < |adj0| && adj0[u] == [] && forall k :: 0 <= k < |ns| ==> ns[k].0 in toIdx
    ensures |adj| == |adj0| && RowOf(toIdx, ns, adj[u])
    ensures forall v :: 0 <= v < |adj| && v != u ==> adj[v] == adj0[v]
  {
    adj := adj0;
    for k := 0 to |ns|
      invariant |adj| == |adj0| && forall v :: 0 <= v < |adj| && v != u ==> adj[v] == adj0[v]
      invariant |adj[u]| == k && forall m :: 0 <= m < k ==> adj[u][m] == (toIdx[ns[m].0], ns[m].1)
    {
      adj := adj[u := adj[u] + [(toIdx[ns[k].0], ns[k].1)]];
    }
  }

  /** The second pass: one adjacency row per key, built in list order. Keys
      are distinct, so each row is written by exactly one entry. */
  method BuildAdj<T(==,!new)>(graph: Table<T>, toIdx: map<T, nat>, fromIdx: seq<T>) returns (adj: Adj)
    requires DistinctKeys(graph) && Bijection(toIdx, fromIdx)
    requires forall x :: x in toIdx <==> Mentioned(graph, x)
    ensures Indexed(graph, toIdx, fromIdx, adj)
  {
    adj := Fill(|fromIdx|, []);
    for i := 0 to |graph|
      invariant |adj| == |fromIdx|
      invariant forall j :: 0 <= j < i ==> graph[j].0 in toIdx && RowOf(toIdx, graph[j].1, adj[toIdx[graph[j].0]])
      invariant forall u :: 0 <= u < |adj| && (forall j :: 0 <= j < i ==> graph[j].0 != fromIdx[u]) ==> adj[u] == []
    {
      assert InEntry(graph[i], graph[i].0);
      var u := toIdx[graph[i].0];
      forall k | 0 <= k < |graph[i].1| ensures graph[i].1[k].0 in toIdx {
        assert InEntry(graph[i], graph[i].1[k].0);
      }
      ghost var before := adj;
      adj := AppendRow(adj, u, toIdx, graph[i].1);
      forall j | 0 <= j < i ensures RowOf(toIdx, graph[j].1, adj[toIdx[graph[j].0]]) {
        assert toIdx[graph[j].0] != u;
      }
    }
    forall u | 0 <= u < |adj| && !IsKey(graph, fromIdx[u]) ensures adj[u] == [] {
    }
  }

  /** The heuristic value the vector ends with for `x`, after the writes of
      the first `i` entries: the last of them with key `x`, 0 when none. */
  ghost function LastIn<T(!new)>(heuristic: seq<(T, nat)>, i: nat, x: T): nat
    requires i <= |heuristic|
  {
    if i == 0 then 0 else if heuristic[i - 1].0 == x then heuristic[i - 1].1 else LastIn(heuristic, i - 1, x)
  }

  /** The heuristic value of `x`: the value of its entry, 0 when it has none. */
  ghost function Heur<T(!new)>(heuristic: seq<(T, nat)>, x: T): nat {
    LastIn(heuristic, |heuristic|, x)
  }

  /** With distinct keys, a node's heuristic value is its entry's value, and a
      node without an entry gets 0. */
  lemma {:induction false} HeurEntry<T(!new)>(heuristic: seq<(T, nat)>, x: T, i: nat, j: nat)
    requires DistinctKeys(heuristic) && j <= i <= |heuristic|
    ensures j < i && heuristic[j].0 == x ==> LastIn(heuristic, i, x) == heuristic[j].1
    ensures (forall k :: 0 <= k < i ==> heuristic[k].0 != x) ==> LastIn(heuristic, i, x) == 0
  {
    if i > 0 {
      HeurEntry(heuristic, x, i - 1, if j < i then j else i - 1);
    }
  }

  /** The heuristic vector: 0 everywhere, then each entry whose node has an
      index writes its value there. */
  method BuildH<T(==,!new)>(heuristic: seq<(T, nat)>, toIdx: map<T, nat>, fromIdx: seq<T>) returns (h: seq<nat>)
    requires Bijection(toIdx, fromIdx)
    ensures |h| == |fromIdx| && forall v :: 0 <= v < |h| ==> h[v] == Heur(heuristic, fromIdx[v])
  {
    h := Fill(|fromIdx|, 0);
    for i := 0 to |heuristic|
      invariant |h| == |fromIdx| && forall v :: 0 <= v < |h| ==> h[v] == LastIn(heuristic, i, fromIdx[v])
    {
      var (x, val) := heuristic[i];
      if x in toIdx {
        h := h[toIdx[x] := val];
      }
    }
  }

  /** Every edge of the graph is an edge of the indexed graph. */
  lemma EdgeToIdx<T(!new)>(graph: Table<T>, toIdx: map<T, nat>, fromIdx: seq<T>, adj: Adj, x: T, y: T, w: nat)
    requires Indexed(graph, toIdx, fromIdx, adj) && Edge(graph, x, y, w)
    ensures x in toIdx && y in toIdx && (toIdx[y], w) in adj[toIdx[x]]
  {
    var i, k :| 0 <= i < |graph| && graph[i].0 == x && 0 <= k < |graph[i].1| && graph[i].1[k] == (y, w);
    assert adj[toIdx[x]][k] == (toIdx[y], w);
  }

  /** Every edge of the indexed graph is an edge of the graph. */
  lemma EdgeFromIdx<T(!new)>(graph: Table<T>, toIdx: map<T, nat>, fromIdx: seq<T>, adj: Adj, u: nat, v: nat, w: nat)
    requires Indexed(graph, toIdx, fromIdx, adj) && u < |adj| && (v, w) in adj[u]
    ensures v < |fromIdx| && Edge(graph, fromIdx[u], fromIdx[v], w)
  {
    assert IsKey(graph, fromIdx[u]);
    var i :| 0 <= i < |graph| && graph[i].0 == fromIdx[u];
    var k :| 0 <= k < |adj[u]| && adj[u][k] == (v, w);
    assert toIdx[graph[i].1[k].0] == v;
  }

  /** Every edge of the indexed graph, read as node values, is an edge of the graph. */
  ghost predicate Sound<T(!new)>(graph: Table<T>, fromIdx: seq<T>, adj: Adj) {
    forall u, k :: 0 <= u < |adj| && 0 <= k < |adj[u]| ==>
      u < |fromIdx| && adj[u][k].0 < |fromIdx| && Edge(graph, fromIdx[u], fromIdx[adj[u][k].0], adj[u][k].1)
  }

  /** Every edge of the graph is an edge of the indexed graph. */
  ghost predicate Complete<T(!new)>(graph: Table<T>, toIdx: map<T, nat>, adj: Adj) {
    forall x, y, w: nat :: Edge(graph, x, y, w) ==>
      x in toIdx && y in toIdx && toIdx[x] < |adj| && (toIdx[y], w) in adj[toIdx[x]]
  }

  /** The indexed graph has exactly the graph's edges, and its neighbours are
      indices of nodes. */
  lemma IndexedFacts<T(!new)>(graph: Table<T>, toIdx: map<T, nat>, fromIdx: seq<T>, adj: Adj)
    requires Indexed(graph, toIdx, fromIdx, adj)
    ensures ValidAdj(adj) && Sound(graph, fromIdx, adj) && Complete(graph, toIdx, adj)
  {
    forall u, k | 0 <= u < |adj| && 0 <= k < |adj[u]|
      ensures u < |fromIdx| && adj[u][k].0 < |fromIdx| && Edge(graph, fromIdx[u], fromIdx[adj[u][k].0], adj[u][k].1)
    {
      EdgeFromIdx(graph, toIdx, fromIdx, adj, u, adj[u][k].0, adj[u][k].1);
    }
    forall x, y, w: nat | Edge(graph, x, y, w) ensures x in toIdx && y in toIdx && toIdx[x] < |adj| && (toIdx[y], w) in adj[toIdx[x]] {
      EdgeToIdx(graph, toIdx, fromIdx, adj, x, y, w);
    }
  }

  /** The node values of a sequence of indices. */
  function Values<T>(fromIdx: seq<T>, ip: seq<nat>): (p: seq<T>)
    requires forall j :: 0 <= j < |ip| ==> ip[j] < |fromIdx|
    ensures |p| == |ip| && forall j :: 0 <= j < |ip| ==> p[j] == fromIdx[ip[j]]
  {
    if |ip| == 0 then [] else [fromIdx[ip[0]]] + Values(fromIdx, ip[1..])
  }

  /** A walk of the indexed graph, read as node values, is a walk of the graph
      with the same weights; a repetition-free one stays repetition-free. */
  lemma WalkToT<T(!new)>(graph: Table<T>, toIdx: map<T, nat>, fromIdx: seq<T>, adj: Adj, q: seq<nat>, ws: seq<nat>)
    requires Bijection(toIdx, fromIdx) && |adj| == |fromIdx| && Sound(graph, fromIdx, adj) && IsWalk(adj, q, ws)
    ensures TWalk(graph, Values(fromIdx, q), ws, fromIdx[q[0]], fromIdx[q[|q| - 1]])
    ensures NoDup(q) ==> NoDup(Values(fromIdx, q))
  {
    var p := Values(fromIdx, q);
    forall j | 0 <= j < |ws| ensures Edge(graph, p[j], p[j + 1], ws[j]) {
      var k :| 0 <= k < |adj[q[j]]| && adj[q[j]][k] == (q[j + 1], ws[j]);
    }
  }

  /** A walk of the graph from a numbered node is a walk of the indexed graph
      with the same weights. */
  lemma WalkToIdx<T(!new)>(graph: Table<T>, toIdx: map<T, nat>, fromIdx: seq<T>, adj: Adj,
                           p: seq<T>, ws: seq<nat>, s: T, t: T) returns (q: seq<nat>)
    requires Bijection(toIdx, fromIdx) && |adj| == |fromIdx| && Complete(graph, toIdx, adj)
    requires TWalk(graph, p, ws, s, t) && s in toIdx
    ensures t in toIdx && WalkFromTo(adj, q, ws, toIdx[s], toIdx[t])
  {
    forall j | 0 <= j < |p| ensures p[j] in toIdx && toIdx[p[j]] < |adj| {
      if j > 0 {
        assert Edge(graph, p[j - 1], p[j], ws[j - 1]);
      }
    }
    q := seq(|p|, j requires 0 <= j < |p| => toIdx[p[j]]);
    forall j | 0 <= j < |ws| ensures (q[j + 1], ws[j]) in adj[q[j]] {
      assert Edge(graph, p[j], p[j + 1], ws[j]);
    }
  }

  /** The heuristic never overestimates: from every node, every walk to the
      goal costs at least the node's heuristic value. */
  ghost predicate TAdmissible<T(!new)>(graph: Table<T>, heuristic: seq<(T, nat)>, goal: T) {
    forall x, p, ws :: TWalk(graph, p, ws, x, goal) ==> Heur(heuristic, x) <= Sum(ws)
  }

  /** An admissible heuristic stays admissible once indexed. */
  lemma AdmissibleIdx<T(!new)>(graph: Table<T>, heuristic: seq<(T, nat)>, toIdx: map<T, nat>, fromIdx: seq<T>,
                               adj: Adj, h: seq<nat>, goal: T)
    requires Bijection(toIdx, fromIdx) && |adj| == |fromIdx| && Sound(graph, fromIdx, adj) && goal in toIdx
    requires |h| == |fromIdx| && forall v :: 0 <= v < |h| ==> h[v] == Heur(heuristic, fromIdx[v])
    requires TAdmissible(graph, heuristic, goal)
    ensures IdaStar.Admissible(adj, h, toIdx[goal])
  {
    forall v: nat, p, ws | WalkFromTo(adj, p, ws, v, toIdx[goal]) ensures h[v] <= Sum(ws) {
      WalkToT(graph, toIdx, fromIdx, adj, p, ws);
    }
  }

  /** `findShortestPath`: number the nodes, give up with the empty route when
      the root or the goal is not a node of the graph, build the indexed
      adjacency lists and heuristic vector (0 for nodes without an entry),
      run the threshold loop, and map the route back to node values.

      With both ends in the graph, the route is empty exactly when the goal is
      unreachable; otherwise it is a repetition-free walk from the root to the
      goal, of least cost when the heuristic is admissible. */
  method FindShortestPath<T(==,!new)>(graph: Table<T>, heuristic: seq<(T, nat)>, root: T, goal: T)
    returns (path: seq<T>, ghost ws: seq<nat>)
    requires DistinctKeys(graph)
    ensures !Mentioned(graph, root) || !Mentioned(graph, goal) ==> path == []
    ensures path != [] ==> TWalk(graph, path, ws, root, goal) && NoDup(path)
    ensures Mentioned(graph, root) && Mentioned(graph, goal) ==> (path == [] <==> TUnreachable(graph, root, goal))
    ensures path != [] && TAdmissible(graph, heuristic, goal) ==>
      forall p, ws' :: TWalk(graph, p, ws', root, goal) ==> Sum(ws) <= Sum(ws')
  {
    var toIdx, fromIdx := NumberNodes(graph);
    if root !in toIdx || goal !in toIdx {
      return [], [];
    }
    var rootIdx, goalIdx := toIdx[root], toIdx[goal];
    var adj := BuildAdj(graph, toIdx, fromIdx);
    var h := BuildH(heuristic, toIdx, fromIdx);
    IndexedFacts(graph, toIdx, fromIdx, adj);
    var ip: seq<nat>;
    ghost var ths: seq<nat>;
    ghost var probes: seq<IdaStar.SearchVal>;
    ip, ws, ths, probes := IdaStar.Deepen(adj, h, rootIdx, goalIdx);
    if ip != [] {
      WalkToT(graph, toIdx, fromIdx, adj, ip, ws);
    }
    path := Values(fromIdx, ip);
    Conclude(graph, heuristic, toIdx, fromIdx, adj, h, root, goal, ip, ws);
  }

  /** What the index-level result says about node values. */
  lemma Conclude<T(!new)>(graph: Table<T>, heuristic: seq<(T, nat)>, toIdx: map<T, nat>, fromIdx: seq<T>,
                          adj: Adj, h: seq<nat>, root: T, goal: T, ip: seq<nat>, ws: seq<nat>)
    requires Bijection(toIdx, fromIdx) && |adj| == |fromIdx| && root in toIdx && goal in toIdx
    requires Sound(graph, fromIdx, adj) && Complete(graph, toIdx, adj)
    requires |h| == |fromIdx| && forall v :: 0 <= v < |h| ==> h[v] == Heur(heuristic, fromIdx[v])
    requires ip != [] ==> WalkFromTo(adj, ip, ws, toIdx[root], toIdx[goal])
    requires ip == [] <==> Unreachable(adj, toIdx[root], toIdx[goal])
    requires ip != [] && IdaStar.Admissible(adj, h, toIdx[goal]) ==>
      forall p, ws' :: WalkFromTo(adj, p, ws', toIdx[root], toIdx[goal]) ==> Sum(ws) <= Sum(ws')
    ensures ip == [] <==> TUnreachable(graph, root, goal)
    ensures ip != [] && TAdmissible(graph, heuristic, goal) ==>
      forall p, ws' :: TWalk(graph, p, ws', root, goal) ==> Sum(ws) <= Sum(ws')
  {
    if ip != [] {
      WalkToT(graph, toIdx, fromIdx, adj, ip, ws);
    } else {
      forall p, ws' | TWalk(graph, p, ws', root, goal) ensures false {
        var q := WalkToIdx(graph, toIdx, fromIdx, adj, p, ws', root, goal);
      }
    }
    if ip != [] && TAdmissible(graph, heuristic, goal) {
      AdmissibleIdx(graph, heuristic, toIdx, fromIdx, adj, h, goal);
      forall p, ws' | TWalk(graph, p, ws', root, goal) ensures Sum(ws) <= Sum(ws') {
        var q := WalkToIdx(graph, toIdx, fromIdx, adj, p, ws', root, goal);
      }
    }
  }
}
