/** Iterative deepening A* over dense node indices: a depth-first probe that
    keeps the nodes of the current path on a stack, cuts every path at the
    first node whose f-value `g + h` exceeds the threshold, and reports the
    least f-value it cut at; the driver repeats the probe with that value as
    the next threshold until the goal is found or nothing was cut.

    The probe is specified by the paths it explores. A goal path is a path
    the probe follows to the goal; a frontier path is one it follows to a
    node at which it cuts. Both are defined from their first node, exactly as
    the recursion visits them: a node must be off the stack, and the rest of
    the path is a path from one of its neighbours with that node pushed. */
module IdaStar {
  import opened Common
  import opened Walks
  import opened Chains

  datatype Outcome = Exceeded | Found | NotFound

  /** What one probe returns: its outcome and an f-value, `Inf` standing for
      the `INT_MAX` that comes with `NotFound`. */
  datatype SearchVal = SearchVal(state: Outcome, fVal: Cost)

  /** A path from `node`, reached at cost `g` with the nodes of `marked` on
      the stack, that the probe follows to the goal: every node on it is off
      the stack and within the threshold `th`, and it stops at the goal. */
  ghost predicate GoalPath(adj: Adj, h: seq<nat>, marked: seq<bool>, node: nat, g: nat, th: nat, goal: nat,
                           p: seq<nat>, ws: seq<nat>)
    decreases |p|
  {
    && |p| >= 1 && |ws| == |p| - 1 && p[0] == node
    && node < |adj| && node < |h| && node < |marked| && !marked[node]
    && g + h[node] <= th
    && (if node == goal then |p| == 1
        else
          && |p| >= 2 && (p[1], ws[0]) in adj[node]
          && GoalPath(adj, h, marked[node := true], p[1], g + ws[0], th, goal, p[1..], ws[1..]))
  }

  /** A path from `node` that the probe follows to a node where it cuts: the
      last node exceeds the threshold, every earlier one is within it and is
      not the goal, and every node is off the stack when it is reached. */
  ghost predicate FrontierPath(adj: Adj, h: seq<nat>, marked: seq<bool>, node: nat, g: nat, th: nat, goal: nat,
                               p: seq<nat>, ws: seq<nat>)
    decreases |p|
  {
    && |p| >= 1 && |ws| == |p| - 1 && p[0] == node && p[|p| - 1] < |h|
    && node < |adj| && node < |h| && node < |marked| && !marked[node]
    && (if g + h[node] > th then |p| == 1
        else
          && node != goal && |p| >= 2 && (p[1], ws[0]) in adj[node]
          && FrontierPath(adj, h, marked[node := true], p[1], g + ws[0], th, goal, p[1..], ws[1..]))
  }

  /** The f-value of the last node of a path entered at cost `g`. */
  ghost function EndF(h: seq<nat>, g: nat, p: seq<nat>, ws: seq<nat>): nat
    requires |p| >= 1 && |ws| == |p| - 1 && p[|p| - 1] < |h|
    decreases |p|
  {
    if |p| == 1 then g + h[p[0]] else EndF(h, g + ws[0], p[1..], ws[1..])
  }

  /** No goal path starts at `v` reached at cost `g`. */
  ghost predicate NoGoalFrom(adj: Adj, h: seq<nat>, marked: seq<bool>, v: nat, g: nat, th: nat, goal: nat) {
    forall q, qs :: !GoalPath(adj, h, marked, v, g, th, goal, q, qs)
  }

  /** `m` bounds from below the end f-value of every frontier path from `v`
      reached at cost `g`, and is `Inf` only when there is none. */
  ghost predicate BelowFrom(adj: Adj, h: seq<nat>, marked: seq<bool>, v: nat, g: nat, th: nat, goal: nat, m: Cost) {
    forall q, qs :: FrontierPath(adj, h, marked, v, g, th, goal, q, qs) ==> m.Fin? && m.val <= EndF(h, g, q, qs)
  }

  /** No child before index `i` of `node` starts a goal path. */
  ghost predicate NoGoalBelow(adj: Adj, h: seq<nat>, marked: seq<bool>, node: nat, g: nat, th: nat, goal: nat, i: nat)
    requires node < |adj|
  {
    forall k :: 0 <= k < i && k < |adj[node]| ==> NoGoalFrom(adj, h, marked, adj[node][k].0, g + adj[node][k].1, th, goal)
  }

  /** `m` bounds from below the end f-values of the frontier paths starting at
      the children before index `i` of `node`. */
  ghost predicate MinBelow(adj: Adj, h: seq<nat>, marked: seq<bool>, node: nat, g: nat, th: nat, goal: nat,
                           i: nat, m: Cost)
    requires node < |adj|
  {
    forall k :: 0 <= k < i && k < |adj[node]| ==> BelowFrom(adj, h, marked, adj[node][k].0, g + adj[node][k].1, th, goal, m)
  }

  /** A finite `m` is the end f-value of a frontier path starting at the child
      `k` of `node`, with `k` before index `i`. */
  ghost predicate Attained(adj: Adj, h: seq<nat>, marked: seq<bool>, node: nat, g: nat, th: nat, goal: nat,
                           i: nat, m: Cost, k: nat, q: seq<nat>, qs: seq<nat>)
    requires node < |adj| && |adj| <= |h| && ValidAdj(adj)
  {
    m.Fin? ==>
      && k < i && k < |adj[node]|
      && FrontierPath(adj, h, marked, adj[node][k].0, g + adj[node][k].1, th, goal, q, qs)
      && m.val == EndF(h, g + adj[node][k].1, q, qs)
  }

  /** Each node of a path after the first has the node before it as parent:
      the links the probe writes on its way down. */
  ghost predicate Stacked(parents: seq<int>, p: seq<nat>) {
    forall j :: 0 < j < |p| ==> p[j] < |parents| && parents[p[j]] == p[j - 1]
  }

  /** What the probe from `node` reports: `Found` with the goal path `p` it
      took; otherwise no goal path, and then `Exceeded` with the least end
      f-value of the frontier paths, attained by `p`, or `NotFound` when there
      is no frontier path at all. */
  ghost predicate Reported(adj: Adj, h: seq<nat>, marked: seq<bool>, node: nat, g: nat, th: nat, goal: nat,
                           r: SearchVal, p: seq<nat>, ws: seq<nat>) {
    && (r.state == Found ==> r.fVal == Fin(th) && GoalPath(adj, h, marked, node, g, th, goal, p, ws))
    && (r.state != Found ==> NoGoalFrom(adj, h, marked, node, g, th, goal))
    && (r.state == Exceeded ==>
          && r.fVal.Fin? && FrontierPath(adj, h, marked, node, g, th, goal, p, ws)
          && r.fVal.val == EndF(h, g, p, ws)
          && BelowFrom(adj, h, marked, node, g, th, goal, r.fVal))
    && (r.state == NotFound ==> r.fVal == Inf && BelowFrom(adj, h, marked, node, g, th, goal, Inf))
  }

  /** The recursive probe from `node`, reached at cost `g`, with the nodes
      flagged in `visited0` on the stack. It reports as `Reported` says; on
      `Found` the links along the path it took are written into `parents`,
      otherwise the stack flags are restored. Links of nodes on the stack,
      and of `node` itself, are left alone. */
  method Search(adj: Adj, h: seq<nat>, node: nat, g: nat, th: nat, goal: nat,
                parents0: seq<int>, visited0: seq<bool>)
    returns (r: SearchVal, parents: seq<int>, visited: seq<bool>, ghost p: seq<nat>, ghost ws: seq<nat>)
    requires ValidAdj(adj) && |adj| <= |h| && node < |adj|
    requires |parents0| == |adj| && |visited0| == |adj| && !visited0[node]
    decreases CountFalse(visited0), 0
    ensures |parents| == |adj| && |visited| == |adj|
    ensures forall x :: 0 <= x < |adj| && (visited0[x] || x == node) ==> parents[x] == parents0[x]
    ensures Reported(adj, h, visited0, node, g, th, goal, r, p, ws)
    ensures r.state == Found ==> Stacked(parents, p)
    ensures r.state != Found ==> visited == visited0
  {
    parents, visited := parents0, visited0;
    p, ws := [node], [];
    var f := g + h[node];
    if f > th {
      return SearchVal(Exceeded, Fin(f)), parents, visited, p, ws;
    }
    if node == goal {
      return SearchVal(Found, Fin(th)), parents, visited, p, ws;
    }
    visited := visited[node := true];
    CountFalseSet(visited0, node);
    var minEx := Inf;
    ghost var wk: nat, wq: seq<nat>, wqs: seq<nat> := 0, [], [];
    for i := 0 to |adj[node]|
      invariant visited == visited0[node := true] && |parents| == |adj|
      invariant forall x :: 0 <= x < |adj| && visited[x] ==> parents[x] == parents0[x]
      invariant NoGoalBelow(adj, h, visited, node, g, th, goal, i)
      invariant MinBelow(adj, h, visited, node, g, th, goal, i, minEx)
      invariant Attained(adj, h, visited, node, g, th, goal, i, minEx, wk, wq, wqs)
    {
      if visited[adj[node][i].0] {
        Skip(adj, h, visited, node, g, th, goal, i, minEx);
        continue;
      }
      var res: SearchVal;
      ghost var q: seq<nat>, qs: seq<nat>;
      res, parents, visited, minEx, wk, wq, wqs, q, qs :=
        Child(adj, h, node, g, th, goal, i, parents, visited, minEx, wk, wq, wqs);
      if res.state == Found {
        p, ws := [node] + q, [adj[node][i].1] + qs;
        FoundStep(adj, h, visited0, node, g, th, goal, i, q, qs);
        return res, parents, visited, p, ws;
      }
    }
    visited := visited[node := false];
    assert visited == visited0;
    NoGoalHere(adj, h, visited0, node, g, th, goal);
    if minEx != Inf {
      p, ws := [node] + wq, [adj[node][wk].1] + wqs;
      MinHere(adj, h, visited0, node, g, th, goal, minEx, wk, wq, wqs);
      return SearchVal(Exceeded, minEx), parents, visited, p, ws;
    }
    NoneHere(adj, h, visited0, node, g, th, goal);
    return SearchVal(NotFound, Inf), parents, visited, p, ws;
  }

  /** One pass of the probe's loop over the children of `node`, for a child
      `v` that is off the stack: link `v` to `node`, probe from `v`, and on
      `Exceeded` keep the smaller of the two f-values. Unless the child finds
      the goal, the loop's facts now cover the children up to index `i`. */
  method Child(adj: Adj, h: seq<nat>, node: nat, g: nat, th: nat, goal: nat, i: nat,
               parents0: seq<int>, marked: seq<bool>, minEx0: Cost, ghost wk0: nat, ghost wq0: seq<nat>, ghost wqs0: seq<nat>)
    returns (res: SearchVal, parents: seq<int>, visited: seq<bool>, minEx: Cost,
             ghost wk: nat, ghost wq: seq<nat>, ghost wqs: seq<nat>, ghost q: seq<nat>, ghost qs: seq<nat>)
    requires ValidAdj(adj) && |adj| <= |h| && node < |adj| && i < |adj[node]|
    requires |parents0| == |adj| && |marked| == |adj| && marked[node] && !marked[adj[node][i].0]
    requires MinBelow(adj, h, marked, node, g, th, goal, i, minEx0)
    requires Attained(adj, h, marked, node, g, th, goal, i, minEx0, wk0, wq0, wqs0)
    requires NoGoalBelow(adj, h, marked, node, g, th, goal, i)
    decreases CountFalse(marked), 1
    ensures |parents| == |adj| && |visited| == |adj|
    ensures forall x :: 0 <= x < |adj| && marked[x] ==> parents[x] == parents0[x]
    ensures res.state == Found ==>
      && res.fVal == Fin(th)
      && GoalPath(adj, h, marked, adj[node][i].0, g + adj[node][i].1, th, goal, q, qs)
      && Stacked(parents, [node] + q)
    ensures res.state != Found ==>
      && visited == marked
      && NoGoalBelow(adj, h, marked, node, g, th, goal, i + 1)
      && MinBelow(adj, h, marked, node, g, th, goal, i + 1, minEx)
      && Attained(adj, h, marked, node, g, th, goal, i + 1, minEx, wk, wq, wqs)
  {
    var (v, w) := adj[node][i];
    parents := parents0[v := node];
    res, parents, visited, q, qs := Search(adj, h, v, g + w, th, goal, parents, marked);
    minEx, wk, wq, wqs := minEx0, wk0, wq0, wqs0;
    if res.state == Found {
      StackedCons(parents, node, q);
      return;
    }
    if res.state == Exceeded && Exceeds(minEx, res.fVal.val) {
      minEx := res.fVal;
      wk, wq, wqs := i, q, qs;
    }
    Extend(adj, h, marked, node, g, th, goal, i, minEx0, res, q, qs, minEx);
  }

  /** A goal path from the child `i` of `node`, with `node` pushed, extends to
      a goal path from `node`. */
  lemma FoundStep(adj: Adj, h: seq<nat>, marked: seq<bool>, node: nat, g: nat, th: nat, goal: nat,
                  i: nat, q: seq<nat>, qs: seq<nat>)
    requires node < |adj| && node < |h| && node < |marked| && !marked[node]
    requires node != goal && g + h[node] <= th && i < |adj[node]|
    requires GoalPath(adj, h, marked[node := true], adj[node][i].0, g + adj[node][i].1, th, goal, q, qs)
    ensures GoalPath(adj, h, marked, node, g, th, goal, [node] + q, [adj[node][i].1] + qs)
  {
    var p, ws := [node] + q, [adj[node][i].1] + qs;
    assert p[1..] == q && ws[1..] == qs;
    assert (p[1], ws[0]) == adj[node][i];
  }

  /** A path from `node` that is not the single node `node` leaves it by an
      edge: that edge's index among the children. */
  lemma EdgeIndex(adj: Adj, node: nat, v: nat, w: nat) returns (k: nat)
    requires node < |adj| && (v, w) in adj[node]
    ensures k < |adj[node]| && adj[node][k] == (v, w)
  {
    var j :| 0 <= j < |adj[node]| && adj[node][j] == (v, w);
    k := j;
  }

  /** A goal path from a node other than the goal leaves it along one of its
      edges, and the rest is a goal path from that child with the node pushed. */
  lemma GoalTail(adj: Adj, h: seq<nat>, marked: seq<bool>, node: nat, g: nat, th: nat, goal: nat,
                 p: seq<nat>, ws: seq<nat>) returns (k: nat)
    requires GoalPath(adj, h, marked, node, g, th, goal, p, ws) && node != goal
    ensures k < |adj[node]| && adj[node][k] == (p[1], ws[0])
    ensures GoalPath(adj, h, marked[node := true], adj[node][k].0, g + adj[node][k].1, th, goal, p[1..], ws[1..])
  {
    k := EdgeIndex(adj, node, p[1], ws[0]);
  }

  /** A frontier path from a node within the threshold leaves it along one of
      its edges, and the rest is a frontier path from that child with the node
      pushed, ending at the same f-value. */
  lemma FrontierTail(adj: Adj, h: seq<nat>, marked: seq<bool>, node: nat, g: nat, th: nat, goal: nat,
                     p: seq<nat>, ws: seq<nat>) returns (k: nat)
    requires FrontierPath(adj, h, marked, node, g, th, goal, p, ws) && g + h[node] <= th
    ensures k < |adj[node]| && adj[node][k] == (p[1], ws[0])
    ensures FrontierPath(adj, h, marked[node := true], adj[node][k].0, g + adj[node][k].1, th, goal, p[1..], ws[1..])
    ensures EndF(h, g, p, ws) == EndF(h, g + adj[node][k].1, p[1..], ws[1..])
  {
    k := EdgeIndex(adj, node, p[1], ws[0]);
  }

  /** When no child starts a goal path, neither does `node`. */
  lemma NoGoalHere(adj: Adj, h: seq<nat>, marked: seq<bool>, node: nat, g: nat, th: nat, goal: nat)
    requires node < |adj| && node < |marked| && node != goal
    requires NoGoalBelow(adj, h, marked[node := true], node, g, th, goal, |adj[node]|)
    ensures forall q, qs :: !GoalPath(adj, h, marked, node, g, th, goal, q, qs)
  {
    forall q, qs | GoalPath(adj, h, marked, node, g, th, goal, q, qs) ensures false {
      var k := GoalTail(adj, h, marked, node, g, th, goal, q, qs);
    }
  }

  /** The least end f-value over the children's frontier paths is the least
      over the frontier paths from `node`, and it is attained. */
  lemma MinHere(adj: Adj, h: seq<nat>, marked: seq<bool>, node: nat, g: nat, th: nat, goal: nat,
                m: Cost, k: nat, q: seq<nat>, qs: seq<nat>)
    requires ValidAdj(adj) && |adj| <= |h| && node < |adj| && node < |marked| && !marked[node]
    requires node != goal && g + h[node] <= th && m.Fin?
    requires MinBelow(adj, h, marked[node := true], node, g, th, goal, |adj[node]|, m)
    requires Attained(adj, h, marked[node := true], node, g, th, goal, |adj[node]|, m, k, q, qs)
    ensures k < |adj[node]|
    ensures FrontierPath(adj, h, marked, node, g, th, goal, [node] + q, [adj[node][k].1] + qs)
    ensures m.val == EndF(h, g, [node] + q, [adj[node][k].1] + qs)
    ensures forall p, ws :: FrontierPath(adj, h, marked, node, g, th, goal, p, ws) ==> m.val <= EndF(h, g, p, ws)
  {
    var p, ws := [node] + q, [adj[node][k].1] + qs;
    assert p[1..] == q && ws[1..] == qs;
    assert (p[1], ws[0]) == adj[node][k];
    forall p', ws' | FrontierPath(adj, h, marked, node, g, th, goal, p', ws') ensures m.val <= EndF(h, g, p', ws') {
      var j := FrontierTail(adj, h, marked, node, g, th, goal, p', ws');
    }
  }

  /** When no child starts a frontier path, neither does `node`. */
  lemma NoneHere(adj: Adj, h: seq<nat>, marked: seq<bool>, node: nat, g: nat, th: nat, goal: nat)
    requires ValidAdj(adj) && |adj| <= |h| && node < |adj| && node < |marked| && g + h[node] <= th
    requires MinBelow(adj, h, marked[node := true], node, g, th, goal, |adj[node]|, Inf)
    ensures forall p, ws :: !FrontierPath(adj, h, marked, node, g, th, goal, p, ws)
  {
    forall p, ws | FrontierPath(adj, h, marked, node, g, th, goal, p, ws) ensures false {
      var j := FrontierTail(adj, h, marked, node, g, th, goal, p, ws);
    }
  }

  /** A bound that is at most a valid lower bound is still one: a finite
      bound below `m`, or anything when `m` is `Inf` (no frontier paths). */
  lemma BelowMono(adj: Adj, h: seq<nat>, marked: seq<bool>, v: nat, g: nat, th: nat, goal: nat, m: Cost, m': Cost)
    requires BelowFrom(adj, h, marked, v, g, th, goal, m)
    requires m.Fin? ==> m'.Fin? && m'.val <= m.val
    ensures BelowFrom(adj, h, marked, v, g, th, goal, m')
  {
  }

  /** A child that is on the stack starts no path at all, so the loop's facts
      extend over it unchanged. */
  lemma Skip(adj: Adj, h: seq<nat>, marked: seq<bool>, node: nat, g: nat, th: nat, goal: nat, i: nat, m: Cost)
    requires node < |adj| && i < |adj[node]| && adj[node][i].0 < |marked| && marked[adj[node][i].0]
    requires NoGoalBelow(adj, h, marked, node, g, th, goal, i) && MinBelow(adj, h, marked, node, g, th, goal, i, m)
    ensures NoGoalBelow(adj, h, marked, node, g, th, goal, i + 1) && MinBelow(adj, h, marked, node, g, th, goal, i + 1, m)
  {
  }

  /** After a child's probe that did not find the goal, the loop's facts cover
      that child too, with the bound lowered to the child's f-value when that
      is smaller. */
  lemma Extend(adj: Adj, h: seq<nat>, marked: seq<bool>, node: nat, g: nat, th: nat, goal: nat, i: nat,
               m0: Cost, res: SearchVal, q: seq<nat>, qs: seq<nat>, m: Cost)
    requires node < |adj| && i < |adj[node]| && res.state != Found
    requires NoGoalBelow(adj, h, marked, node, g, th, goal, i) && MinBelow(adj, h, marked, node, g, th, goal, i, m0)
    requires Reported(adj, h, marked, adj[node][i].0, g + adj[node][i].1, th, goal, res, q, qs)
    requires m == if res.state == Exceeded && Exceeds(m0, res.fVal.val) then res.fVal else m0
    ensures NoGoalBelow(adj, h, marked, node, g, th, goal, i + 1) && MinBelow(adj, h, marked, node, g, th, goal, i + 1, m)
  {
    var (v, gv) := (adj[node][i].0, g + adj[node][i].1);
    BelowMono(adj, h, marked, v, gv, th, goal, res.fVal, m);
    forall k | 0 <= k < i ensures BelowFrom(adj, h, marked, adj[node][k].0, g + adj[node][k].1, th, goal, m) {
      BelowMono(adj, h, marked, adj[node][k].0, g + adj[node][k].1, th, goal, m0, m);
    }
  }

  /** Prepending the parent of a stacked path's first node keeps it stacked. */
  lemma StackedCons(parents: seq<int>, node: nat, q: seq<nat>)
    requires |q| >= 1 && Stacked(parents, q) && q[0] < |parents| && parents[q[0]] == node
    ensures Stacked(parents, [node] + q)
  {
  }

  /** Prepending an edge into a walk's first node gives a walk. */
  lemma WalkCons(adj: Adj, node: nat, w: nat, q: seq<nat>, qs: seq<nat>)
    requires IsWalk(adj, q, qs) && node < |adj| && (q[0], w) in adj[node]
    ensures IsWalk(adj, [node] + q, [w] + qs)
  {
    WalkJoin(adj, [node, q[0]], [w], q, qs);
    assert [node, q[0]] + q[1..] == [node] + q;
  }

  /** A path off the stack with `node` marked, preceded by the unmarked
      `node`, is a path off the stack. */
  lemma OffStackCons(marked: seq<bool>, node: nat, q: seq<nat>)
    requires node < |marked| && !marked[node] && NoDup(q)
    requires forall j :: 0 <= j < |q| ==> q[j] < |marked[node := true]| && !marked[node := true][q[j]]
    ensures NoDup([node] + q)
    ensures forall j :: 0 <= j < |[node] + q| ==> ([node] + q)[j] < |marked| && !marked[([node] + q)[j]]
  {
    var p := [node] + q;
    forall j | 0 < j < |p| ensures p[j] == q[j - 1] && p[j] != node {
      assert !marked[node := true][q[j - 1]];
    }
  }

  /** A goal path is a repetition-free walk to the goal over nodes off the
      stack, and its whole cost plus the goal's heuristic is within the threshold. */
  lemma {:induction false} GoalWalk(adj: Adj, h: seq<nat>, marked: seq<bool>, node: nat, g: nat, th: nat, goal: nat,
                                    p: seq<nat>, ws: seq<nat>)
    requires |adj| <= |h| && GoalPath(adj, h, marked, node, g, th, goal, p, ws)
    ensures WalkFromTo(adj, p, ws, node, goal) && NoDup(p)
    ensures forall j :: 0 <= j < |p| ==> p[j] < |marked| && !marked[p[j]]
    ensures g + Sum(ws) + h[goal] <= th
    decreases |p|
  {
    if node != goal {
      var q, qs := p[1..], ws[1..];
      GoalWalk(adj, h, marked[node := true], p[1], g + ws[0], th, goal, q, qs);
      assert p == [node] + q && ws == [ws[0]] + qs;
      GoalStep(adj, h, marked, node, g, th, goal, ws[0], q, qs);
    }
  }

  /** A frontier path is a repetition-free walk over nodes off the stack,
      and its end f-value is its cost plus the last node's heuristic, which
      exceeds the threshold. */
  lemma {:induction false} FrontierWalk(adj: Adj, h: seq<nat>, marked: seq<bool>, node: nat, g: nat, th: nat, goal: nat,
                                        p: seq<nat>, ws: seq<nat>)
    requires FrontierPath(adj, h, marked, node, g, th, goal, p, ws)
    ensures IsWalk(adj, p, ws) && p[0] == node && NoDup(p)
    ensures forall j :: 0 <= j < |p| ==> p[j] < |marked| && !marked[p[j]]
    ensures EndF(h, g, p, ws) == g + Sum(ws) + h[p[|p| - 1]] && EndF(h, g, p, ws) > th
    decreases |p|
  {
    if g + h[node] <= th {
      var q, qs := p[1..], ws[1..];
      FrontierWalk(adj, h, marked[node := true], p[1], g + ws[0], th, goal, q, qs);
      assert p == [node] + q && ws == [ws[0]] + qs;
      FrontierStep(adj, h, marked, node, g, th, ws[0], q, qs);
    }
  }

  /** A goal path's walk extends backwards by one edge from an unmarked node. */
  lemma GoalStep(adj: Adj, h: seq<nat>, marked: seq<bool>, node: nat, g: nat, th: nat, goal: nat,
                 w: nat, q: seq<nat>, qs: seq<nat>)
    requires node < |adj| && node < |marked| && !marked[node] && goal < |h|
    requires |q| >= 1 && WalkFromTo(adj, q, qs, q[0], goal) && NoDup(q) && (q[0], w) in adj[node]
    requires forall j :: 0 <= j < |q| ==> q[j] < |marked[node := true]| && !marked[node := true][q[j]]
    requires g + w + Sum(qs) + h[goal] <= th
    ensures WalkFromTo(adj, [node] + q, [w] + qs, node, goal) && NoDup([node] + q)
    ensures forall j :: 0 <= j < |[node] + q| ==> ([node] + q)[j] < |marked| && !marked[([node] + q)[j]]
    ensures g + Sum([w] + qs) + h[goal] <= th
  {
    WalkCons(adj, node, w, q, qs);
    SumConcat([w], qs);
    OffStackCons(marked, node, q);
  }

  /** A frontier path's walk extends backwards by one edge from an unmarked
      node within the threshold. */
  lemma FrontierStep(adj: Adj, h: seq<nat>, marked: seq<bool>, node: nat, g: nat, th: nat,
                     w: nat, q: seq<nat>, qs: seq<nat>)
    requires node < |adj| && node < |marked| && !marked[node]
    requires IsWalk(adj, q, qs) && NoDup(q) && (q[0], w) in adj[node] && q[|q| - 1] < |h|
    requires forall j :: 0 <= j < |q| ==> q[j] < |marked[node := true]| && !marked[node := true][q[j]]
    requires EndF(h, g + w, q, qs) == g + w + Sum(qs) + h[q[|q| - 1]] && EndF(h, g + w, q, qs) > th
    ensures IsWalk(adj, [node] + q, [w] + qs) && NoDup([node] + q)
    ensures forall j :: 0 <= j < |[node] + q| ==> ([node] + q)[j] < |marked| && !marked[([node] + q)[j]]
    ensures EndF(h, g, [node] + q, [w] + qs) == g + Sum([w] + qs) + h[q[|q| - 1]] && EndF(h, g, [node] + q, [w] + qs) > th
  {
    WalkCons(adj, node, w, q, qs);
    SumConcat([w], qs);
    OffStackCons(marked, node, q);
    assert ([node] + q)[1..] == q && ([w] + qs)[1..] == qs;
  }

  /** The largest entry of `s`, and 0 for the empty sequence. */
  function MaxOf(s: seq<nat>): (m: nat)
    ensures forall i :: 0 <= i < |s| ==> s[i] <= m
  {
    if |s| == 0 then 0 else var r := MaxOf(s[..|s| - 1]); if s[|s| - 1] > r then s[|s| - 1] else r
  }

  /** The largest weight in one adjacency list. */
  function RowMax(row: seq<(nat, nat)>): (m: nat)
    ensures forall i :: 0 <= i < |row| ==> row[i].1 <= m
  {
    if |row| == 0 then 0
    else
      var r := RowMax(row[1..]);
      assert forall i :: 1 <= i < |row| ==> row[i] == row[1..][i - 1];
      if row[0].1 > r then row[0].1 else r
  }

  /** The largest edge weight of the graph. */
  function MaxWeight(adj: Adj): (m: nat)
    ensures forall u, i :: 0 <= u < |adj| && 0 <= i < |adj[u]| ==> adj[u][i].1 <= m
  {
    if |adj| == 0 then 0
    else
      var r := MaxWeight(adj[1..]);
      var l := RowMax(adj[0]);
      assert forall u :: 1 <= u < |adj| ==> adj[u] == adj[1..][u - 1];
      if l > r then l else r
  }

  /** Every end f-value is bounded by the entry cost plus one heaviest edge
      `w` per node still off the stack and the largest heuristic value `hm`:
      there are only finitely many thresholds the driver can move to. */
  lemma {:induction false} FrontierBound(adj: Adj, h: seq<nat>, marked: seq<bool>, node: nat, g: nat, th: nat, goal: nat,
                                         p: seq<nat>, ws: seq<nat>, w: nat, hm: nat)
    requires forall u, i :: 0 <= u < |adj| && 0 <= i < |adj[u]| ==> adj[u][i].1 <= w
    requires forall v :: 0 <= v < |h| ==> h[v] <= hm
    requires FrontierPath(adj, h, marked, node, g, th, goal, p, ws)
    ensures EndF(h, g, p, ws) <= g + CountFalse(marked) * w + hm
    decreases |p|
  {
    if g + h[node] <= th {
      var i := EdgeIndex(adj, node, p[1], ws[0]);
      FrontierBound(adj, h, marked[node := true], p[1], g + ws[0], th, goal, p[1..], ws[1..], w, hm);
      CountFalseSet(marked, node);
      MulStep(CountFalse(marked), w);
    }
  }

  lemma MulStep(c: nat, w: nat)
    requires c >= 1
    ensures (c - 1) * w + w == c * w
  {
  }

  /** The heuristic never overestimates: from every node, every walk to the
      goal costs at least the node's heuristic value. */
  ghost predicate Admissible(adj: Adj, h: seq<nat>, goal: nat) {
    && |adj| <= |h|
    && forall v: nat, p, ws :: WalkFromTo(adj, p, ws, v, goal) ==> h[v] <= Sum(ws)
  }

  /** Every repetition-free walk to the goal over nodes off the stack starts,
      as a prefix, a goal path or a frontier path; with an admissible
      heuristic the frontier path's end f-value is at most the walk's cost. */
  lemma {:induction false} Classify(adj: Adj, h: seq<nat>, marked: seq<bool>, node: nat, g: nat, th: nat, goal: nat,
                                    p: seq<nat>, ws: seq<nat>) returns (q: seq<nat>, qs: seq<nat>)
    requires ValidAdj(adj) && |adj| <= |h| && WalkFromTo(adj, p, ws, node, goal) && NoDup(p)
    requires forall j :: 0 <= j < |p| ==> p[j] < |marked| && !marked[p[j]]
    ensures GoalPath(adj, h, marked, node, g, th, goal, q, qs) || FrontierPath(adj, h, marked, node, g, th, goal, q, qs)
    ensures Admissible(adj, h, goal) && FrontierPath(adj, h, marked, node, g, th, goal, q, qs) ==>
      EndF(h, g, q, qs) <= g + Sum(ws)
    decreases |p|
  {
    if g + h[node] > th || node == goal {
      q, qs := [node], [];
      assert node == goal ==> |p| == 1;
    } else {
      assert |p| >= 2;
      WalkSuffix(adj, p, ws, 1);
      var v, w := p[1], ws[0];
      var q', qs' := Classify(adj, h, marked[node := true], v, g + w, th, goal, p[1..], ws[1..]);
      assert ws == [w] + ws[1..];
      SumConcat([w], ws[1..]);
      if GoalPath(adj, h, marked[node := true], v, g + w, th, goal, q', qs') {
        q, qs := GoalExtend(adj, h, marked, node, g, th, goal, v, w, q', qs');
      } else {
        q, qs := FrontierExtend(adj, h, marked, node, g, th, goal, v, w, q', qs');
      }
    }
  }

  /** A goal path from the neighbour `v` of `node`, entered over an edge of
      weight `w`, extends by `node`. */
  lemma GoalExtend(adj: Adj, h: seq<nat>, marked: seq<bool>, node: nat, g: nat, th: nat, goal: nat,
                 v: nat, w: nat, q': seq<nat>, qs': seq<nat>) returns (q: seq<nat>, qs: seq<nat>)
    requires node < |adj| && node < |h| && node < |marked| && !marked[node]
    requires g + h[node] <= th && node != goal && (v, w) in adj[node]
    requires GoalPath(adj, h, marked[node := true], v, g + w, th, goal, q', qs')
    ensures GoalPath(adj, h, marked, node, g, th, goal, q, qs)
    ensures FrontierPath(adj, h, marked, node, g, th, goal, q, qs) ==>
      FrontierPath(adj, h, marked[node := true], v, g + w, th, goal, q', qs') && EndF(h, g, q, qs) == EndF(h, g + w, q', qs')
  {
    q, qs := [node] + q', [w] + qs';
    assert q[1..] == q' && qs[1..] == qs';
  }

  /** A frontier path from the neighbour `v` of `node`, entered over an edge
      of weight `w`, extends by `node` and keeps its end f-value. */
  lemma FrontierExtend(adj: Adj, h: seq<nat>, marked: seq<bool>, node: nat, g: nat, th: nat, goal: nat,
                     v: nat, w: nat, q': seq<nat>, qs': seq<nat>) returns (q: seq<nat>, qs: seq<nat>)
    requires node < |adj| && node < |h| && node < |marked| && !marked[node]
    requires g + h[node] <= th && node != goal && (v, w) in adj[node]
    requires FrontierPath(adj, h, marked[node := true], v, g + w, th, goal, q', qs')
    ensures FrontierPath(adj, h, marked, node, g, th, goal, q, qs)
    ensures EndF(h, g, q, qs) == EndF(h, g + w, q', qs')
  {
    q, qs := [node] + q', [w] + qs';
    assert q[1..] == q' && qs[1..] == qs';
  }

  /** A probe that finds no goal path from the root with nothing on the
      stack leaves no walk to the goal whose cost is below the least end
      f-value it reports, under an admissible heuristic. */
  lemma Raise(adj: Adj, h: seq<nat>, root: nat, th: nat, goal: nat, m: Cost)
    requires ValidAdj(adj) && |adj| <= |h| && root < |adj|
    requires NoGoalFrom(adj, h, Falses(|adj|), root, 0, th, goal)
    requires BelowFrom(adj, h, Falses(|adj|), root, 0, th, goal, m)
    ensures m.Inf? ==> Unreachable(adj, root, goal)
    ensures Admissible(adj, h, goal) ==>
      forall p, ws :: WalkFromTo(adj, p, ws, root, goal) ==> m.Fin? && m.val <= Sum(ws)
  {
    forall p, ws | WalkFromTo(adj, p, ws, root, goal)
      ensures m.Fin? && (Admissible(adj, h, goal) ==> m.val <= Sum(ws))
    {
      var p', ws' := SimpleWalk(adj, p, ws, root, goal);
      var q, qs := Classify(adj, h, Falses(|adj|), root, 0, th, goal, p', ws');
    }
  }

  /** What the probe from the root at cost 0, with nothing on the stack,
      reports at threshold `th`, without the path it took: `Found` exactly
      when a goal path within `th` exists, with `th` as its value; `Exceeded`
      with the least end f-value of the frontier paths, which one of them
      attains; `NotFound`, with the infinite value, when there is no
      frontier path at all. */
  ghost predicate Probed(adj: Adj, h: seq<nat>, root: nat, goal: nat, th: nat, r: SearchVal)
    requires |adj| <= |h|
  {
    var none := Falses(|adj|);
    && (r.state == Found <==> !NoGoalFrom(adj, h, none, root, 0, th, goal))
    && (r.state == Found ==> r.fVal == Fin(th))
    && (r.state == Exceeded ==>
          && r.fVal.Fin? && BelowFrom(adj, h, none, root, 0, th, goal, r.fVal)
          && exists q, qs :: FrontierPath(adj, h, none, root, 0, th, goal, q, qs) && EndF(h, 0, q, qs) == r.fVal.val)
    && (r.state == NotFound ==> r.fVal == Inf && BelowFrom(adj, h, none, root, 0, th, goal, Inf))
  }

  /** A threshold determines what the probe reports: the outcome and the
      value are functions of the graph, the heuristic and the threshold, so
      the thresholds the driver tries are determined by `h(root)`. */
  lemma ProbeUnique(adj: Adj, h: seq<nat>, root: nat, goal: nat, th: nat, r: SearchVal, r': SearchVal)
    requires |adj| <= |h|
    requires Probed(adj, h, root, goal, th, r) && Probed(adj, h, root, goal, th, r')
    ensures r == r'
  {
    var none := Falses(|adj|);
    if r.state == Exceeded && r'.state == Exceeded {
      var q, qs :| FrontierPath(adj, h, none, root, 0, th, goal, q, qs) && EndF(h, 0, q, qs) == r.fVal.val;
      var q', qs' :| FrontierPath(adj, h, none, root, 0, th, goal, q', qs') && EndF(h, 0, q', qs') == r'.fVal.val;
    }
  }

  /** `probes` holds what the probe reported at each threshold of `ths`, but
      perhaps the last, each `Exceeded` probe's value being the next, and
      greater, threshold. */
  ghost predicate Tried(adj: Adj, h: seq<nat>, root: nat, goal: nat, ths: seq<nat>, probes: seq<SearchVal>)
    requires |adj| <= |h|
  {
    && |ths| >= 1 && |ths| - 1 <= |probes| <= |ths|
    && (forall i :: 0 <= i < |probes| ==> Probed(adj, h, root, goal, ths[i], probes[i]))
    && (forall i :: 0 <= i < |ths| - 1 ==>
          probes[i].state == Exceeded && probes[i].fVal == Fin(ths[i + 1]) && ths[i] < ths[i + 1])
  }

  /** `th` is at most the cost of every walk from the root to the goal. */
  ghost predicate Underestimates(adj: Adj, root: nat, goal: nat, th: nat) {
    forall q, qs :: WalkFromTo(adj, q, qs, root, goal) ==> th <= Sum(qs)
  }

  /** Recording the probe at the last threshold keeps `Tried`, and so does
      then trying its value as the next threshold when it is `Exceeded`. */
  lemma TriedSnoc(adj: Adj, h: seq<nat>, root: nat, goal: nat, ths: seq<nat>, probes: seq<SearchVal>, r: SearchVal)
    requires |adj| <= |h| && Tried(adj, h, root, goal, ths, probes) && |probes| == |ths| - 1
    requires Probed(adj, h, root, goal, ths[|ths| - 1], r)
    requires r.state == Exceeded ==> r.fVal.Fin? && ths[|ths| - 1] < r.fVal.val
    ensures Tried(adj, h, root, goal, ths, probes + [r])
    ensures r.state == Exceeded ==> Tried(adj, h, root, goal, ths + [r.fVal.val], probes + [r])
  {
    var probes' := probes + [r];
    assert forall i :: 0 <= i < |probes| ==> probes'[i] == probes[i];
    if r.state == Exceeded {
      var ths' := ths + [r.fVal.val];
      assert forall i :: 0 <= i < |ths| ==> ths'[i] == ths[i];
    }
  }

  /** One pass of the threshold loop: the probe from the root at cost 0 with
      nothing on the stack, read as what the driver needs. `Exceeded` raises
      the threshold strictly, to at most `bound`; `NotFound`, the only
      outcome with an infinite value, means the goal is unreachable; and under
      an admissible heuristic an `Exceeded` value is at most the cost of every
      walk to the goal. */
  method Pass(adj: Adj, h: seq<nat>, root: nat, goal: nat, th: nat, parents0: seq<int>)
    returns (res: SearchVal, parents: seq<int>, visited: seq<bool>, ghost p: seq<nat>, ghost ws: seq<nat>)
    requires ValidAdj(adj) && |adj| <= |h| && root < |adj| && |parents0| == |adj| && parents0[root] == -1
    ensures |parents| == |adj| && parents[root] == -1
    ensures res.state != Found ==> visited == Falses(|adj|)
    ensures res.state == Found ==>
      res.fVal == Fin(th) && GoalPath(adj, h, Falses(|adj|), root, 0, th, goal, p, ws) && Stacked(parents, p)
    ensures res.fVal.Inf? <==> res.state == NotFound
    ensures res.state == NotFound ==> Unreachable(adj, root, goal)
    ensures res.state == Exceeded ==>
      th < res.fVal.val <= |adj| * MaxWeight(adj) + MaxOf(h)
    ensures res.state == Exceeded && Admissible(adj, h, goal) ==>
      forall q, qs :: WalkFromTo(adj, q, qs, root, goal) ==> res.fVal.val <= Sum(qs)
    ensures Probed(adj, h, root, goal, th, res)
  {
    res, parents, visited, p, ws := Search(adj, h, root, 0, th, goal, parents0, Falses(|adj|));
    if res.state != Found {
      Raise(adj, h, root, th, goal, res.fVal);
    }
    if res.state == Exceeded {
      FrontierWalk(adj, h, Falses(|adj|), root, 0, th, goal, p, ws);
      FrontierBound(adj, h, Falses(|adj|), root, 0, th, goal, p, ws, MaxWeight(adj), MaxOf(h));
      CountFalses(|adj|);
    }
  }

    /** The threshold loop of the driver: probe from the root with threshold
      `h[root]`; after each `Exceeded` probe retry with the returned value;
      stop on `Found`, or when the returned value is infinite. `Tried` records
      every probe, and the one that ended the loop is the last. */
  method Thresholds(adj: Adj, h: seq<nat>, root: nat, goal: nat)
    returns (status: Outcome, th: nat, parents: seq<int>, ghost p: seq<nat>, ghost ws: seq<nat>,
             ghost ths: seq<nat>, ghost probes: seq<SearchVal>)
    requires ValidAdj(adj) && |adj| <= |h| && root < |adj|
    ensures |parents| == |adj| && parents[root] == -1
    ensures Tried(adj, h, root, goal, ths, probes) && |probes| == |ths|
    ensures ths[0] == h[root] && ths[|ths| - 1] == th
    ensures status != Exceeded && probes[|probes| - 1].state == status
    ensures status == Found ==> GoalPath(adj, h, Falses(|adj|), root, 0, th, goal, p, ws) && Stacked(parents, p)
    ensures status == NotFound ==> Unreachable(adj, root, goal)
    ensures Admissible(adj, h, goal) ==> Underestimates(adj, root, goal, th)
  {
    var n := |adj|;
    parents := Fill(n, -1);
    var visited := Falses(n);
    th := h[root];
    status := Exceeded;
    p, ws, ths, probes := [], [], [th], [];
    ghost var bound := n * MaxWeight(adj) + MaxOf(h);
    while status == Exceeded
      invariant |parents| == n && parents[root] == -1
      invariant |ths| >= 1 && ths[0] == h[root] && ths[|ths| - 1] == th
      invariant Tried(adj, h, root, goal, ths, probes)
      invariant |probes| == if status == Exceeded then |ths| - 1 else |ths|
      invariant probes != [] ==> probes[|probes| - 1].state == status
      invariant status == Exceeded ==> th <= bound
      invariant status == Found ==> GoalPath(adj, h, Falses(n), root, 0, th, goal, p, ws) && Stacked(parents, p)
      invariant status == NotFound ==> Unreachable(adj, root, goal)
      invariant Admissible(adj, h, goal) ==> Underestimates(adj, root, goal, th)
      decreases if status == Exceeded then bound + 1 - th else 0
    {
      var res: SearchVal;
      res, parents, visited, p, ws := Pass(adj, h, root, goal, th, parents);
      status := res.state;
      TriedSnoc(adj, h, root, goal, ths, probes, res);
      probes := probes + [res];
      if res.fVal == Inf {
        break;
      }
      if status == Exceeded {
        ths := ths + [res.fVal.val];
      }
      th := res.fVal.val;
    }
  }

  /** The driver: the threshold loop, then the reconstruction on node
      indices, following parent links back from the goal on `Found`.

      The thresholds tried start at `h[root]` and strictly increase; `probes`
      holds what the probe reported at each of them. Every probe but the last
      is `Exceeded`, so no goal path lies within its threshold, and its value,
      the least end f-value of the paths it cut, is the next threshold. The
      last probe is the one that ended the loop: `Found`, exactly when a route
      is returned, or `NotFound`. The route, when there is one, is a
      repetition-free walk from the root to the goal, and it is empty exactly
      when the goal is unreachable. With an admissible heuristic every
      threshold is at most the cost of every walk to the goal, so the route is
      a least-cost one. */
  method Deepen(adj: Adj, h: seq<nat>, root: nat, goal: nat)
    returns (path: seq<nat>, ghost ws: seq<nat>, ghost ths: seq<nat>, ghost probes: seq<SearchVal>)
    requires ValidAdj(adj) && |adj| <= |h| && root < |adj| && goal < |adj|
    ensures |ths| >= 1 && ths[0] == h[root] && |probes| == |ths|
    ensures forall i :: 0 <= i < |ths| - 1 ==> ths[i] < ths[i + 1]
    ensures forall i :: 0 <= i < |ths| ==> Probed(adj, h, root, goal, ths[i], probes[i])
    ensures forall i :: 0 <= i < |ths| - 1 ==> probes[i].state == Exceeded && probes[i].fVal == Fin(ths[i + 1])
    ensures probes[|ths| - 1].state != Exceeded
    ensures path != [] <==> probes[|ths| - 1].state == Found
    ensures path != [] ==> WalkFromTo(adj, path, ws, root, goal) && NoDup(path)
    ensures path == [] <==> Unreachable(adj, root, goal)
    ensures path != [] && Admissible(adj, h, goal) ==>
      forall p, ws' :: WalkFromTo(adj, p, ws', root, goal) ==> Sum(ws) <= Sum(ws')
  {
    var status, th, parents;
    ghost var p;
    status, th, parents, p, ws, ths, probes := Thresholds(adj, h, root, goal);
    if status == Found {
      GoalWalk(adj, h, Falses(|adj|), root, 0, th, goal, p, ws);
      path := TracePath(parents, root, goal, p);
    } else {
      path := [];
    }
  }
}
