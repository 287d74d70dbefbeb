/** Greedy best-first search, from applied-ai/gbfs.cpp.

    The queue is ordered by the heuristic value alone, (h[v], v), with ties to
    the smaller node index. A node is marked when it is pushed, so it is queued
    at most once and its parent is the node whose expansion discovered it.
    Every pop is appended to the expansion order; popping the goal stops the
    search. The path is read back from the goal along parent links, then
    reversed.

    The proof tracks a ghost vector `at`: the position of each node in the
    expansion order, `-1` for a node not expanded yet. */
module Gbfs {
  import opened Common
  import opened Frontier
  import opened Chains
  import opened Unweighted

  /** The vectors have one entry per node and the heuristic covers every node. */
  ghost predicate Shape(graph: Graph, heuristic: seq<nat>, visited: seq<bool>, parents: seq<int>, at: seq<int>) {
    && ValidGraph(graph) && |graph| <= |heuristic|
    && |visited| == |graph| && |parents| == |graph| && |at| == |graph|
  }

  /** `at` inverts the expansion order, which starts at the root and lists
      marked nodes only. */
  ghost predicate Ordered(visited: seq<bool>, order: seq<nat>, at: seq<int>, root: nat)
    requires |visited| == |at|
  {
    && (|order| > 0 ==> order[0] == root)
    && (forall k :: 0 <= k < |order| ==> order[k] < |at| && at[order[k]] == k)
    && (forall v :: 0 <= v < |at| && at[v] != -1 ==> 0 <= at[v] < |order| && order[at[v]] == v && visited[v])
  }

  /** Each queued entry is a marked, unexpanded node under its heuristic value,
      queued once, and every marked node not yet expanded is queued. */
  ghost predicate Queued(graph: Graph, heuristic: seq<nat>, visited: seq<bool>, at: seq<int>, pq: multiset<Entry>)
    requires |graph| <= |heuristic| && |visited| == |graph| && |at| == |graph|
  {
    && (forall e :: e in pq ==> e.1 < |graph| && visited[e.1] && at[e.1] == -1 && e.0 == heuristic[e.1] && pq[e] == 1)
    && (forall v :: 0 <= v < |graph| && visited[v] && at[v] == -1 ==> (heuristic[v], v) in pq)
  }

  /** The root is marked and has no parent; every other marked node has an
      expanded parent that lists it as a neighbour and was expanded before it. */
  ghost predicate Tree(graph: Graph, visited: seq<bool>, parents: seq<int>, at: seq<int>, root: nat)
    requires |visited| == |graph| && |parents| == |graph| && |at| == |graph| && root < |graph|
  {
    && visited[root] && parents[root] == -1
    && (forall v :: 0 <= v < |graph| && parents[v] != -1 ==>
          && 0 <= parents[v] < |graph| && visited[v]
          && at[parents[v]] != -1 && v in graph[parents[v]]
          && (at[v] == -1 || at[parents[v]] < at[v]))
    && (forall v :: 0 <= v < |graph| && visited[v] && v != root ==> parents[v] != -1)
  }

  /** Every expanded node other than `except` has all its neighbours marked,
      and each of them, the root aside, got its parent from this node or from
      one expanded earlier: the parent is the first expanded node listing it. */
  ghost predicate Expanded(graph: Graph, visited: seq<bool>, parents: seq<int>, order: seq<nat>, at: seq<int>,
                           root: nat, except: int)
    requires ValidGraph(graph) && |visited| == |graph| && |parents| == |graph| && |at| == |graph|
    requires forall k :: 0 <= k < |order| ==> order[k] < |graph|
  {
    forall k, i :: 0 <= k < |order| && order[k] != except && 0 <= i < |graph[order[k]]| ==>
      && visited[graph[order[k]][i]]
      && (graph[order[k]][i] == root ||
          (0 <= parents[graph[order[k]][i]] < |graph| && at[parents[graph[order[k]][i]]] <= k))
  }

  /** The greedy choice, stated on the tree: the node expanded at step `k`
      has a (heuristic, index) pair no larger than that of any node that was
      already queued then, i.e. whose parent was expanded before step `k` and
      which itself was not expanded by step `k`. */
  ghost predicate Greedy(heuristic: seq<nat>, visited: seq<bool>, parents: seq<int>, order: seq<nat>, at: seq<int>)
    requires |visited| <= |heuristic| && |parents| == |visited| && |at| == |visited|
    requires forall k :: 0 <= k < |order| ==> order[k] < |visited|
  {
    forall k, v :: 0 <= k < |order| && 0 <= v < |visited| && visited[v] && 0 <= parents[v] < |visited| &&
                   at[parents[v]] < k && (at[v] == -1 || k < at[v]) ==>
      EntryLe((heuristic[order[k]], order[k]), (heuristic[v], v))
  }

  /** What holds at the head of the main loop. */
  ghost predicate Inv(graph: Graph, heuristic: seq<nat>, root: nat, visited: seq<bool>, parents: seq<int>,
                      order: seq<nat>, at: seq<int>, pq: multiset<Entry>, except: int) {
    && Shape(graph, heuristic, visited, parents, at) && root < |graph|
    && Ordered(visited, order, at, root)
    && Queued(graph, heuristic, visited, at, pq)
    && Tree(graph, visited, parents, at, root)
    && Expanded(graph, visited, parents, order, at, root, except)
    && Greedy(heuristic, visited, parents, order, at)
  }

  /** Expansion positions as ranks; nodes not expanded rank after all others. */
  ghost function Ranks(at: seq<int>, last: nat): seq<nat> {
    seq(|at|, v requires 0 <= v < |at| => if at[v] >= 0 then at[v] as nat else last)
  }

  /** The state after pushing the root. */
  lemma InitInv(graph: Graph, heuristic: seq<nat>, root: nat)
    requires ValidGraph(graph) && root < |graph| && |graph| <= |heuristic|
    ensures var n := |graph|;
      Inv(graph, heuristic, root, Fill(n, false)[root := true], Fill(n, -1), [], Fill(n, -1),
          multiset{(heuristic[root], root)}, -1)
  {
  }

  /** Before the first pop only the root is marked, so the first pop is the root. */
  lemma FirstPop(graph: Graph, heuristic: seq<nat>, root: nat, visited: seq<bool>, parents: seq<int>,
                 at: seq<int>, pq: multiset<Entry>, top: Entry)
    requires Shape(graph, heuristic, visited, parents, at) && root < |graph|
    requires Ordered(visited, [], at, root) && Queued(graph, heuristic, visited, at, pq)
    requires Tree(graph, visited, parents, at, root)
    requires top in pq
    ensures top.1 == root
  {
    assert visited[top.1];
  }

  lemma PopOrdered(visited: seq<bool>, order: seq<nat>, at: seq<int>, root: nat, u: nat)
    requires |visited| == |at| && Ordered(visited, order, at, root)
    requires u < |at| && at[u] == -1 && visited[u] && (|order| == 0 ==> u == root)
    ensures Ordered(visited, order + [u], at[u := |order|], root)
  {
  }

  lemma PopQueued(graph: Graph, heuristic: seq<nat>, visited: seq<bool>, at: seq<int>, pq: multiset<Entry>,
                  top: Entry, k: nat)
    requires |graph| <= |heuristic| && |visited| == |graph| && |at| == |graph|
    requires Queued(graph, heuristic, visited, at, pq) && top in pq
    ensures Queued(graph, heuristic, visited, at[top.1 := k], pq - multiset{top})
  {
    var u := top.1;
    forall e | e in pq - multiset{top} ensures e.1 != u {
    }
  }

  lemma PopTree(graph: Graph, visited: seq<bool>, parents: seq<int>, order: seq<nat>, at: seq<int>,
                root: nat, u: nat)
    requires |visited| == |graph| && |parents| == |graph| && |at| == |graph| && root < |graph|
    requires Ordered(visited, order, at, root) && Tree(graph, visited, parents, at, root)
    requires u < |graph| && at[u] == -1
    ensures Tree(graph, visited, parents, at[u := |order|], root)
  {
  }

  lemma PopExpanded(graph: Graph, visited: seq<bool>, parents: seq<int>, order: seq<nat>, at: seq<int>,
                    root: nat, u: nat)
    requires ValidGraph(graph) && |visited| == |graph| && |parents| == |graph| && |at| == |graph| && root < |graph|
    requires Ordered(visited, order, at, root) && Tree(graph, visited, parents, at, root)
    requires Expanded(graph, visited, parents, order, at, root, -1)
    requires u < |graph| && at[u] == -1
    ensures Expanded(graph, visited, parents, order + [u], at[u := |order|], root, u)
  {
  }

  lemma PopGreedy(graph: Graph, heuristic: seq<nat>, visited: seq<bool>, parents: seq<int>, order: seq<nat>,
                  at: seq<int>, pq: multiset<Entry>, root: nat, top: Entry)
    requires Shape(graph, heuristic, visited, parents, at) && root < |graph|
    requires Ordered(visited, order, at, root) && Queued(graph, heuristic, visited, at, pq)
    requires Tree(graph, visited, parents, at, root) && Greedy(heuristic, visited, parents, order, at)
    requires top in pq && forall x :: x in pq ==> EntryLe(top, x)
    ensures Greedy(heuristic, visited, parents, order + [top.1], at[top.1 := |order|])
  {
    var u, k0 := top.1, |order|;
    var order', at' := order + [u], at[u := k0];
    forall k, v | 0 <= k < |order'| && 0 <= v < |visited| && visited[v] && 0 <= parents[v] < |visited| &&
                  at'[parents[v]] < k && (at'[v] == -1 || k < at'[v])
      ensures EntryLe((heuristic[order'[k]], order'[k]), (heuristic[v], v))
    {
      if k == k0 {
        assert v != u && at[v] == -1;
        assert (heuristic[v], v) in pq;
      } else if v == u {
        assert at[v] == -1;
      }
    }
  }

  /** Popping the least entry `top` and appending its node to the expansion
      order keeps the invariant, with the new node's edges still to be scanned. */
  lemma PopKeeps(graph: Graph, heuristic: seq<nat>, root: nat, visited: seq<bool>, parents: seq<int>,
                 order: seq<nat>, at: seq<int>, pq: multiset<Entry>, top: Entry)
    requires Inv(graph, heuristic, root, visited, parents, order, at, pq, -1)
    requires top in pq && forall x :: x in pq ==> EntryLe(top, x)
    ensures top.1 < |graph| && at[top.1] == -1
    ensures Inv(graph, heuristic, root, visited, parents, order + [top.1], at[top.1 := |order|],
                pq - multiset{top}, top.1)
  {
    var u := top.1;
    if |order| == 0 {
      FirstPop(graph, heuristic, root, visited, parents, at, pq, top);
    }
    PopOrdered(visited, order, at, root, u);
    PopQueued(graph, heuristic, visited, at, pq, top, |order|);
    PopTree(graph, visited, parents, order, at, root, u);
    PopExpanded(graph, visited, parents, order, at, root, u);
    PopGreedy(graph, heuristic, visited, parents, order, at, pq, root, top);
  }

  lemma MarkQueued(graph: Graph, heuristic: seq<nat>, visited: seq<bool>, at: seq<int>, pq: multiset<Entry>, v: nat)
    requires |graph| <= |heuristic| && |visited| == |graph| && |at| == |graph|
    requires Queued(graph, heuristic, visited, at, pq)
    requires v < |graph| && !visited[v] && at[v] == -1
    ensures Queued(graph, heuristic, visited[v := true], at, pq + multiset{(heuristic[v], v)})
  {
    assert (heuristic[v], v) !in pq;
  }

  lemma MarkTree(graph: Graph, visited: seq<bool>, parents: seq<int>, at: seq<int>, root: nat, u: nat, v: nat)
    requires |visited| == |graph| && |parents| == |graph| && |at| == |graph| && root < |graph|
    requires Tree(graph, visited, parents, at, root)
    requires u < |graph| && at[u] != -1 && v < |graph| && v in graph[u] && !visited[v] && at[v] == -1
    ensures Tree(graph, visited[v := true], parents[v := u], at, root)
  {
  }

  lemma MarkExpanded(graph: Graph, visited: seq<bool>, parents: seq<int>, order: seq<nat>, at: seq<int>,
                     root: nat, u: nat, v: nat)
    requires ValidGraph(graph) && |visited| == |graph| && |parents| == |graph| && |at| == |graph|
    requires forall k :: 0 <= k < |order| ==> order[k] < |graph|
    requires Expanded(graph, visited, parents, order, at, root, u)
    requires v < |graph| && !visited[v]
    ensures Expanded(graph, visited[v := true], parents[v := u], order, at, root, u)
  {
  }

  lemma MarkGreedy(heuristic: seq<nat>, visited: seq<bool>, parents: seq<int>, order: seq<nat>, at: seq<int>,
                   u: nat, v: nat)
    requires |visited| <= |heuristic| && |parents| == |visited| && |at| == |visited|
    requires forall k :: 0 <= k < |order| ==> order[k] < |visited|
    requires Greedy(heuristic, visited, parents, order, at)
    requires u < |visited| && at[u] == |order| - 1 && v < |visited| && !visited[v]
    ensures Greedy(heuristic, visited[v := true], parents[v := u], order, at)
  {
  }

  /** One neighbour `v` of the node `u` being expanded: when it is unmarked it
      is marked, gets `u` as parent and is queued under its heuristic value. */
  method MarkOne(graph: Graph, heuristic: seq<nat>, root: nat, u: nat, v: nat, visited0: seq<bool>,
                 parents0: seq<int>, pq0: multiset<Entry>, order: seq<nat>, ghost at: seq<int>)
    returns (visited: seq<bool>, parents: seq<int>, pq: multiset<Entry>)
    requires Inv(graph, heuristic, root, visited0, parents0, order, at, pq0, u)
    requires |order| > 0 && order[|order| - 1] == u
    requires v < |graph| && v in graph[u]
    ensures Inv(graph, heuristic, root, visited, parents, order, at, pq, u)
    ensures |visited| == |visited0| && forall x :: 0 <= x < |visited| ==> visited[x] == (visited0[x] || x == v)
    ensures CountFalse(visited) + |pq| == CountFalse(visited0) + |pq0|
  {
    visited, parents, pq := visited0, parents0, pq0;
    if !visited[v] {
      assert at[v] == -1;
      MarkQueued(graph, heuristic, visited, at, pq, v);
      MarkTree(graph, visited, parents, at, root, u, v);
      MarkExpanded(graph, visited, parents, order, at, root, u, v);
      MarkGreedy(heuristic, visited, parents, order, at, u, v);
      CountFalseSet(visited, v);
      visited := visited[v := true];
      parents := parents[v := u];
      pq := pq + multiset{(heuristic[v], v)};
    }
  }

  /** Once all of `u`'s neighbours are marked, `u` joins the fully expanded nodes. */
  lemma ExpandDone(graph: Graph, heuristic: seq<nat>, root: nat, u: nat, visited: seq<bool>, parents: seq<int>,
                   pq: multiset<Entry>, order: seq<nat>, at: seq<int>)
    requires Inv(graph, heuristic, root, visited, parents, order, at, pq, u)
    requires |order| > 0 && order[|order| - 1] == u
    requires forall k :: 0 <= k < |graph[u]| ==> visited[graph[u][k]]
    ensures Inv(graph, heuristic, root, visited, parents, order, at, pq, -1)
  {
  }

  /** The scan of `u`'s neighbours. Afterwards the marked nodes are the old
      ones plus `u`'s neighbours, so `u` joins the fully expanded nodes. */
  method Expand(graph: Graph, heuristic: seq<nat>, root: nat, u: nat, visited0: seq<bool>, parents0: seq<int>,
                pq0: multiset<Entry>, order: seq<nat>, ghost at: seq<int>)
    returns (visited: seq<bool>, parents: seq<int>, pq: multiset<Entry>)
    requires Inv(graph, heuristic, root, visited0, parents0, order, at, pq0, u)
    requires |order| > 0 && order[|order| - 1] == u
    ensures Inv(graph, heuristic, root, visited, parents, order, at, pq, -1)
    ensures forall v :: 0 <= v < |graph| ==> visited[v] == (visited0[v] || v in graph[u])
    ensures CountFalse(visited) + |pq| == CountFalse(visited0) + |pq0|
  {
    visited, parents, pq := visited0, parents0, pq0;
    for i := 0 to |graph[u]|
      invariant Inv(graph, heuristic, root, visited, parents, order, at, pq, u)
      invariant forall k :: 0 <= k < i ==> visited[graph[u][k]]
      invariant forall v :: 0 <= v < |graph| && visited[v] ==> visited0[v] || v in graph[u]
      invariant forall v :: 0 <= v < |graph| && visited0[v] ==> visited[v]
      invariant CountFalse(visited) + |pq| == CountFalse(visited0) + |pq0|
    {
      ghost var before := visited;
      visited, parents, pq := MarkOne(graph, heuristic, root, u, graph[u][i], visited, parents, pq, order, at);
      MarkedPrefix(before, visited, graph[u], i);
    }
    ExpandDone(graph, heuristic, root, u, visited, parents, pq, order, at);
  }

  /** `at` is the position of each expanded node in the order, and the order
      repeats no node. */
  lemma AtPos(visited: seq<bool>, order: seq<nat>, at: seq<int>, root: nat)
    requires |visited| == |at| && Ordered(visited, order, at, root)
    ensures NoDup(order)
    ensures forall v :: 0 <= v < |at| ==> (v in order <==> at[v] != -1)
    ensures forall v :: 0 <= v < |at| && at[v] != -1 ==> Pos(order, v) == at[v]
  {
    forall v | 0 <= v < |at| && v in order ensures at[v] != -1 {
      var k := Pos(order, v);
      assert order[k] == v;
    }
  }

  /** The parent links run from later to earlier expansions. */
  lemma TreeLinked(graph: Graph, heuristic: seq<nat>, visited: seq<bool>, parents: seq<int>, order: seq<nat>,
                   at: seq<int>, root: nat)
    requires Shape(graph, heuristic, visited, parents, at) && root < |graph|
    requires Ordered(visited, order, at, root) && Tree(graph, visited, parents, at, root)
    ensures Linked(parents, Ranks(at, |order|), root)
  {
  }

  /** The parent chain from a marked node back to the root is a path of the
      graph, and its nodes were expanded in the order they appear on it. */
  lemma ChainToRoot(graph: Graph, heuristic: seq<nat>, visited: seq<bool>, parents: seq<int>, order: seq<nat>,
                    at: seq<int>, root: nat, v: nat) returns (p: seq<nat>)
    requires Shape(graph, heuristic, visited, parents, at) && root < |graph|
    requires Ordered(visited, order, at, root) && Tree(graph, visited, parents, at, root)
    requires v < |graph| && visited[v]
    ensures IsChain(parents, p, root, v) && PathFromTo(graph, p, root, v) && NoDup(p)
    ensures forall j :: 0 <= j < |p| - 1 ==> 0 <= at[p[j]] && (at[p[j + 1]] == -1 || at[p[j]] < at[p[j + 1]])
  {
    var rank := Ranks(at, |order|);
    TreeLinked(graph, heuristic, visited, parents, order, at, root);
    p := PathTo(parents, rank, root, v);
    PathToProps(parents, rank, root, v);
    RankedNoDup(p, rank);
    forall j | 0 <= j < |p| - 1 ensures p[j + 1] in graph[p[j]] && 0 <= at[p[j]] {
      assert parents[p[j + 1]] == p[j];
    }
  }

  /** The expansion order of a greedy best-first search from `root`: it starts
      at the root and repeats no node, every later node is a neighbour of an
      earlier one, and the node expanded at step `i` has a (heuristic, index)
      pair no larger than that of any node already discovered but not yet
      expanded, i.e. listed by a node expanded before step `i` and absent from
      the order before step `i`, whether it is expanded later or never. */
  ghost predicate GreedyOrder(graph: Graph, heuristic: seq<nat>, root: nat, order: seq<nat>)
    requires |graph| <= |heuristic|
  {
    && |order| >= 1 && order[0] == root && NoDup(order)
    && (forall k :: 0 <= k < |order| ==> order[k] < |graph|)
    && (forall j :: 0 < j < |order| ==> exists m :: 0 <= m < j && order[j] in graph[order[m]])
    && GreedyChoice(graph, heuristic, order)
  }

  /** Each expansion picks a least (heuristic, index) pair among the nodes
      discovered and not yet expanded at that step. */
  ghost predicate GreedyChoice(graph: Graph, heuristic: seq<nat>, order: seq<nat>)
    requires |graph| <= |heuristic|
  {
    forall m, i, v :: 0 <= m < i < |order| && order[m] < |graph| && 0 <= v < |graph| &&
                      v in graph[order[m]] && v !in order[..i] ==>
      order[i] < |graph| && EntryLe((heuristic[order[i]], order[i]), (heuristic[v], v))
  }

  /** Every node expanded after the root was discovered by an earlier one: its parent. */
  lemma OrderDiscovered(graph: Graph, heuristic: seq<nat>, root: nat, visited: seq<bool>, parents: seq<int>,
                        order: seq<nat>, at: seq<int>)
    requires Shape(graph, heuristic, visited, parents, at) && root < |graph|
    requires Ordered(visited, order, at, root) && Tree(graph, visited, parents, at, root)
    ensures forall j :: 0 < j < |order| ==> exists m :: 0 <= m < j && order[j] in graph[order[m]]
  {
    forall j | 0 < j < |order| ensures exists m :: 0 <= m < j && order[j] in graph[order[m]] {
      var v := order[j];
      assert v != root;
      var m := at[parents[v]];
      assert order[m] == parents[v];
    }
  }

  /** The greedy choice, restated on the expansion order alone. */
  lemma OrderGreedy(graph: Graph, heuristic: seq<nat>, root: nat, visited: seq<bool>, parents: seq<int>,
                    order: seq<nat>, at: seq<int>, except: int)
    requires Shape(graph, heuristic, visited, parents, at) && root < |graph|
    requires Ordered(visited, order, at, root) && Tree(graph, visited, parents, at, root)
    requires Expanded(graph, visited, parents, order, at, root, except)
    requires Greedy(heuristic, visited, parents, order, at)
    requires |order| >= 1 && (except == -1 || except == order[|order| - 1])
    ensures GreedyChoice(graph, heuristic, order)
  {
    forall m, i, v | 0 <= m < i < |order| && order[m] < |graph| && 0 <= v < |graph| &&
                     v in graph[order[m]] && v !in order[..i]
      ensures order[i] < |graph| && EntryLe((heuristic[order[i]], order[i]), (heuristic[v], v))
    {
      assert at[order[m]] == m;
      assert order[m] != except;
      var x :| 0 <= x < |graph[order[m]]| && graph[order[m]][x] == v;
      assert order[..i][0] == root;
      if at[v] == i {
        assert order[i] == v;
      }
    }
  }

  /** The invariant, at either exit of the loop, gives the greedy order. */
  lemma OrderFacts(graph: Graph, heuristic: seq<nat>, root: nat, visited: seq<bool>, parents: seq<int>,
                   order: seq<nat>, at: seq<int>, except: int)
    requires Shape(graph, heuristic, visited, parents, at) && root < |graph|
    requires Ordered(visited, order, at, root) && Tree(graph, visited, parents, at, root)
    requires Expanded(graph, visited, parents, order, at, root, except)
    requires Greedy(heuristic, visited, parents, order, at)
    requires |order| >= 1 && (except == -1 || except == order[|order| - 1])
    ensures GreedyOrder(graph, heuristic, root, order)
  {
    AtPos(visited, order, at, root);
    OrderDiscovered(graph, heuristic, root, visited, parents, order, at);
    OrderGreedy(graph, heuristic, root, visited, parents, order, at, except);
  }

  /** When the queue runs dry, the expanded nodes are exactly those reachable
      from the root. */
  lemma Exhausted(graph: Graph, heuristic: seq<nat>, root: nat, visited: seq<bool>, parents: seq<int>,
                  order: seq<nat>, at: seq<int>, goal: nat)
    requires Inv(graph, heuristic, root, visited, parents, order, at, multiset{}, -1)
    requires goal !in order
    ensures forall v :: 0 <= v < |graph| ==> (v in order <==> Reaches(graph, root, v))
    ensures !Reaches(graph, root, goal)
  {
    AtPos(visited, order, at, root);
    assert forall v :: 0 <= v < |graph| && visited[v] ==> at[v] != -1;
    assert ClosedSet(graph, visited) by {
      forall u, i | 0 <= u < |graph| && visited[u] && 0 <= i < |graph[u]| ensures visited[graph[u][i]] {
        assert order[at[u]] == u;
      }
    }
    forall v | 0 <= v < |graph| ensures v in order <==> Reaches(graph, root, v) {
      if v in order {
        var p := ChainToRoot(graph, heuristic, visited, parents, order, at, root, v);
      } else {
        ClosedSetBlocks(graph, visited, root, v);
      }
    }
    ClosedSetBlocks(graph, visited, root, goal);
  }

  /** The reported path: a repetition-free path of the graph from the root to
      the goal, all of whose nodes were expanded, in path order, and each node
      after the first lists as its predecessor the first expanded node that
      has it as a neighbour. */
  ghost predicate TreeRoute(graph: Graph, root: nat, goal: nat, order: seq<nat>, path: seq<nat>)
    requires forall k :: 0 <= k < |order| ==> order[k] < |graph|
  {
    && PathFromTo(graph, path, root, goal) && NoDup(path)
    && (forall j :: 0 <= j < |path| ==> path[j] in order)
    && (forall j :: 0 <= j < |path| - 1 ==> Pos(order, path[j]) < Pos(order, path[j + 1]))
    && (forall j, m :: 0 <= j < |path| - 1 && 0 <= m < |order| && path[j + 1] in graph[order[m]] ==>
          Pos(order, path[j]) <= m)
  }

  /** Nodes whose expansion positions increase along `p` appear in the order
      in that sequence. */
  lemma RouteOrder(visited: seq<bool>, order: seq<nat>, at: seq<int>, root: nat, goal: nat, p: seq<nat>)
    requires |visited| == |at| && Ordered(visited, order, at, root)
    requires |order| >= 1 && order[|order| - 1] == goal
    requires |p| >= 1 && p[|p| - 1] == goal && forall j :: 0 <= j < |p| ==> p[j] < |at|
    requires forall j :: 0 <= j < |p| - 1 ==> 0 <= at[p[j]] && (at[p[j + 1]] == -1 || at[p[j]] < at[p[j + 1]])
    ensures forall j :: 0 <= j < |p| ==> p[j] in order
    ensures forall j :: 0 <= j < |p| - 1 ==> Pos(order, p[j]) < Pos(order, p[j + 1])
  {
    AtPos(visited, order, at, root);
    forall j | 0 <= j < |p| ensures at[p[j]] != -1 {
      if j == |p| - 1 {
        assert at[order[|order| - 1]] == |order| - 1;
      }
    }
  }

  /** Each node of the parent chain after the root got its parent from the
      first expanded node that lists it. */
  lemma RouteFirst(graph: Graph, visited: seq<bool>, parents: seq<int>, order: seq<nat>, at: seq<int>,
                   root: nat, goal: nat, p: seq<nat>)
    requires ValidGraph(graph) && |visited| == |graph| && |parents| == |graph| && |at| == |graph|
    requires Ordered(visited, order, at, root) && Expanded(graph, visited, parents, order, at, root, goal)
    requires |order| >= 1 && order[|order| - 1] == goal
    requires IsChain(parents, p, root, goal)
    requires forall j :: 0 <= j < |p| - 1 ==> 0 <= at[p[j]]
    ensures forall j, m :: 0 <= j < |p| - 1 && 0 <= m < |order| && p[j + 1] in graph[order[m]] ==>
              Pos(order, p[j]) <= m
  {
    AtPos(visited, order, at, root);
    forall j, m | 0 <= j < |p| - 1 && 0 <= m < |order| && p[j + 1] in graph[order[m]]
      ensures Pos(order, p[j]) <= m
    {
      assert Pos(order, p[j]) == at[p[j]];
      if order[m] != goal {
        var x :| 0 <= x < |graph[order[m]]| && graph[order[m]][x] == p[j + 1];
        assert parents[p[j + 1]] == p[j];
      }
    }
  }

  /** With the goal just popped, its parent chain is the route the search reports. */
  lemma RouteFacts(graph: Graph, heuristic: seq<nat>, root: nat, visited: seq<bool>, parents: seq<int>,
                   order: seq<nat>, at: seq<int>, goal: nat) returns (p: seq<nat>)
    requires Shape(graph, heuristic, visited, parents, at) && root < |graph|
    requires Ordered(visited, order, at, root) && Tree(graph, visited, parents, at, root)
    requires Expanded(graph, visited, parents, order, at, root, goal)
    requires |order| >= 1 && order[|order| - 1] == goal
    ensures IsChain(parents, p, root, goal) && parents[root] == -1
    ensures TreeRoute(graph, root, goal, order, p)
  {
    assert visited[goal];
    p := ChainToRoot(graph, heuristic, visited, parents, order, at, root, goal);
    RouteOrder(visited, order, at, root, goal, p);
    RouteFirst(graph, visited, parents, order, at, root, goal, p);
  }

  /** The state at the `break` taken on popping the goal. */
  ghost predicate Stopped(graph: Graph, heuristic: seq<nat>, root: nat, goal: nat, visited: seq<bool>,
                          parents: seq<int>, order: seq<nat>, at: seq<int>) {
    && Shape(graph, heuristic, visited, parents, at) && root < |graph|
    && Ordered(visited, order, at, root) && Tree(graph, visited, parents, at, root)
    && Expanded(graph, visited, parents, order, at, root, goal)
    && Greedy(heuristic, visited, parents, order, at)
    && |order| >= 1 && order[|order| - 1] == goal
  }

  /** The state when the queue runs dry without the goal being popped. */
  ghost predicate Drained(graph: Graph, heuristic: seq<nat>, root: nat, goal: nat, visited: seq<bool>,
                          parents: seq<int>, order: seq<nat>, at: seq<int>) {
    Inv(graph, heuristic, root, visited, parents, order, at, multiset{}, -1) && goal !in order
  }

  /** What the caller learns when the goal was popped. */
  lemma StoppedFacts(graph: Graph, heuristic: seq<nat>, root: nat, goal: nat, visited: seq<bool>,
                     parents: seq<int>, order: seq<nat>, at: seq<int>) returns (p: seq<nat>)
    requires Stopped(graph, heuristic, root, goal, visited, parents, order, at)
    ensures IsChain(parents, p, root, goal) && parents[root] == -1
    ensures GreedyOrder(graph, heuristic, root, order)
    ensures goal in order && order[|order| - 1] == goal && TreeRoute(graph, root, goal, order, p)
  {
    p := RouteFacts(graph, heuristic, root, visited, parents, order, at, goal);
    OrderFacts(graph, heuristic, root, visited, parents, order, at, goal);
  }

  /** What the caller learns when the queue ran dry. */
  lemma DrainedFacts(graph: Graph, heuristic: seq<nat>, root: nat, goal: nat, visited: seq<bool>,
                     parents: seq<int>, order: seq<nat>, at: seq<int>)
    requires Drained(graph, heuristic, root, goal, visited, parents, order, at)
    ensures GreedyOrder(graph, heuristic, root, order)
    ensures goal !in order && !Reaches(graph, root, goal)
    ensures forall v :: 0 <= v < |graph| ==> (v in order <==> Reaches(graph, root, v))
  {
    assert at[root] != -1;
    Exhausted(graph, heuristic, root, visited, parents, order, at, goal);
    OrderFacts(graph, heuristic, root, visited, parents, order, at, -1);
  }

  /** The main loop: pop the least (heuristic, node) entry, append it to the
      expansion order, stop if it is the goal, otherwise expand it. */
  method Search(graph: Graph, heuristic: seq<nat>, root: nat, goal: nat)
    returns (found: bool, visited: seq<bool>, parents: seq<int>, order: seq<nat>, ghost at: seq<int>)
    requires ValidGraph(graph) && root < |graph| && |graph| <= |heuristic|
    ensures found ==> Stopped(graph, heuristic, root, goal, visited, parents, order, at)
    ensures !found ==> Drained(graph, heuristic, root, goal, visited, parents, order, at)
  {
    var n := |graph|;
    parents := Fill(n, -1);
    visited := Fill(n, false);
    var pq: multiset<Entry> := multiset{(heuristic[root], root)};
    visited := visited[root := true];
    found := false;
    order := [];
    at := Fill(n, -1);
    InitInv(graph, heuristic, root);

    while |pq| > 0
      invariant Inv(graph, heuristic, root, visited, parents, order, at, pq, -1)
      invariant goal !in order
      decreases CountFalse(visited) + |pq|
    {
      LeastExists(pq);
      var top :| top in pq && forall x :: x in pq ==> EntryLe(top, x);
      PopKeeps(graph, heuristic, root, visited, parents, order, at, pq, top);
      var u: nat := top.1;
      pq := pq - multiset{top};
      at := at[u := |order|];
      order := order + [u];
      if u == goal {
        found := true;
        return;
      }
      visited, parents, pq := Expand(graph, heuristic, root, u, visited, parents, pq, order, at);
    }
  }

  /** Greedy best-first search from `root` for `goal`: returns the path found
      (empty when the goal is never popped) and the expansion order. */
  method FindShortestPath(graph: Graph, heuristic: seq<nat>, root: nat, goal: nat)
    returns (path: seq<nat>, order: seq<nat>)
    requires ValidGraph(graph) && root < |graph| && |graph| <= |heuristic|
    ensures GreedyOrder(graph, heuristic, root, order)
    ensures goal in order ==> order[|order| - 1] == goal && TreeRoute(graph, root, goal, order, path)
    ensures goal !in order ==> path == [] && !Reaches(graph, root, goal)
    ensures goal !in order ==> forall v :: 0 <= v < |graph| ==> (v in order <==> Reaches(graph, root, v))
  {
    var found, visited, parents;
    ghost var at;
    found, visited, parents, order, at := Search(graph, heuristic, root, goal);
    path := [];
    if found {
      ghost var p := StoppedFacts(graph, heuristic, root, goal, visited, parents, order, at);
      path := TracePath(parents, root, goal, p);
    } else {
      DrainedFacts(graph, heuristic, root, goal, visited, parents, order, at);
    }
  }
}
