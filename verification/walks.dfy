/** Weighted directed graphs over dense node indices `0..n-1` and the walks in
    them. `adj[u]` lists the edges leaving `u` as (neighbour, weight) pairs, in
    the order the adjacency vector holds them; parallel edges are allowed. */
module Walks {

  type Adj = seq<seq<(nat, nat)>>

  /** Every neighbour index names a node of the graph. */
  predicate ValidAdj(adj: Adj) {
    forall u, i :: 0 <= u < |adj| && 0 <= i < |adj[u]| ==> adj[u][i].0 < |adj|
  }

  function Sum(ws: seq<nat>): nat {
    if |ws| == 0 then 0 else Sum(ws[..|ws| - 1]) + ws[|ws| - 1]
  }

  lemma {:induction false} SumConcat(a: seq<nat>, b: seq<nat>)
    ensures Sum(a + b) == Sum(a) + Sum(b)
  {
    if |b| > 0 {
      assert (a + b)[..|a + b| - 1] == a + b[..|b| - 1];
      SumConcat(a, b[..|b| - 1]);
    } else {
      assert a + b == a;
    }
  }

  /** `p` is a walk whose i-th step uses an edge `(p[i+1], ws[i])` of `adj[p[i]]`. */
  ghost predicate IsWalk(adj: Adj, p: seq<nat>, ws: seq<nat>) {
    && |p| >= 1
    && |ws| == |p| - 1
    && (forall i :: 0 <= i < |p| ==> p[i] < |adj|)
    && (forall i :: 0 <= i < |ws| ==> (p[i + 1], ws[i]) in adj[p[i]])
  }

  /** A walk from `s` to `t`. */
  ghost predicate WalkFromTo(adj: Adj, p: seq<nat>, ws: seq<nat>, s: nat, t: nat) {
    IsWalk(adj, p, ws) && p[0] == s && p[|p| - 1] == t
  }

  /** No walk from `s` to `t` exists. */
  ghost predicate Unreachable(adj: Adj, s: nat, t: nat) {
    forall p, ws :: WalkFromTo(adj, p, ws, s, t) ==> false
  }

  /** `c` is the least cost of a walk from `s` to `t`: some walk costs `c` and none costs less. */
  ghost predicate IsShortest(adj: Adj, s: nat, t: nat, c: nat) {
    && (exists p, ws :: WalkFromTo(adj, p, ws, s, t) && Sum(ws) == c)
    && (forall p, ws :: WalkFromTo(adj, p, ws, s, t) ==> c <= Sum(ws))
  }

  lemma WalkPrefix(adj: Adj, p: seq<nat>, ws: seq<nat>, k: nat)
    requires IsWalk(adj, p, ws) && 1 <= k <= |p|
    ensures IsWalk(adj, p[..k], ws[..k - 1])
  {
  }

  /** A walk extends by any edge out of its last node. */
  lemma WalkExtend(adj: Adj, p: seq<nat>, ws: seq<nat>, v: nat, w: nat)
    requires IsWalk(adj, p, ws) && v < |adj| && (v, w) in adj[p[|p| - 1]]
    ensures IsWalk(adj, p + [v], ws + [w])
  {
    var q, qs := p + [v], ws + [w];
    forall i | 0 <= i < |qs| ensures (q[i + 1], qs[i]) in adj[q[i]] {
      if i < |ws| {
        assert q[i + 1] == p[i + 1] && q[i] == p[i] && qs[i] == ws[i];
      }
    }
  }

  lemma WalkSuffix(adj: Adj, p: seq<nat>, ws: seq<nat>, k: nat)
    requires IsWalk(adj, p, ws) && k < |p|
    ensures IsWalk(adj, p[k..], ws[k..])
  {
    forall i | 0 <= i < |ws[k..]|
      ensures (p[k..][i + 1], ws[k..][i]) in adj[p[k..][i]]
    {
      assert p[k..][i + 1] == p[k + i + 1] && p[k..][i] == p[k + i];
    }
  }

  /** Two walks that meet join into one: the second continues from the first's last node. */
  lemma WalkJoin(adj: Adj, p1: seq<nat>, ws1: seq<nat>, p2: seq<nat>, ws2: seq<nat>)
    requires IsWalk(adj, p1, ws1) && IsWalk(adj, p2, ws2) && p1[|p1| - 1] == p2[0]
    ensures IsWalk(adj, p1 + p2[1..], ws1 + ws2)
  {
    var p, ws := p1 + p2[1..], ws1 + ws2;
    forall i | 0 <= i < |ws| ensures (p[i + 1], ws[i]) in adj[p[i]] {
      if i < |ws1| {
        assert p[i] == p1[i] && ws[i] == ws1[i];
        assert p[i + 1] == p1[i + 1] by {
          if i + 1 == |p1| - 1 {
            assert p[i + 1] == p1[|p1| - 1];
          }
        }
      } else {
        var k := i - |ws1|;
        assert ws[i] == ws2[k] && p[i + 1] == p2[k + 1];
        assert p[i] == p2[k] by {
          if k == 0 {
            assert p[i] == p1[|p1| - 1];
          }
        }
      }
    }
  }

  /** Cutting out the cycle between two visits of the same node leaves a
      shorter walk between the same nodes that costs no more. */
  lemma CutCycle(adj: Adj, p: seq<nat>, ws: seq<nat>, i: nat, j: nat) returns (q: seq<nat>, qs: seq<nat>)
    requires IsWalk(adj, p, ws) && i < j < |p| && p[i] == p[j]
    ensures IsWalk(adj, q, qs) && q[0] == p[0] && q[|q| - 1] == p[|p| - 1]
    ensures |q| < |p| && Sum(qs) <= Sum(ws)
  {
    WalkPrefix(adj, p, ws, i + 1);
    WalkSuffix(adj, p, ws, j);
    WalkJoin(adj, p[..i + 1], ws[..i], p[j..], ws[j..]);
    q, qs := p[..i + 1] + p[j..][1..], ws[..i] + ws[j..];
    assert ws == ws[..i] + ws[i..j] + ws[j..];
    SumConcat(ws[..i] + ws[i..j], ws[j..]);
    SumConcat(ws[..i], ws[i..j]);
    SumConcat(ws[..i], ws[j..]);
    assert q[|q| - 1] == p[|p| - 1] by {
      if j == |p| - 1 {
        assert q[|q| - 1] == p[i];
      }
    }
  }

  /** Cutting out all cycles of a walk leaves a repetition-free walk between
      the same nodes that costs no more. */
  lemma SimpleWalk(adj: Adj, p: seq<nat>, ws: seq<nat>, s: nat, t: nat) returns (q: seq<nat>, qs: seq<nat>)
    requires WalkFromTo(adj, p, ws, s, t)
    ensures WalkFromTo(adj, q, qs, s, t) && Sum(qs) <= Sum(ws)
    ensures forall i, j :: 0 <= i < j < |q| ==> q[i] != q[j]
    decreases |p|
  {
    if i, j :| 0 <= i < j < |p| && p[i] == p[j] {
      var p', ws' := CutCycle(adj, p, ws, i, j);
      q, qs := SimpleWalk(adj, p', ws', s, t);
    } else {
      q, qs := p, ws;
    }
  }

  /** A heuristic table `h` is consistent when no edge lets it drop by more than the edge weight. */
  ghost predicate Consistent(adj: Adj, h: seq<nat>) {
    && |adj| <= |h|
    && forall u, i :: 0 <= u < |adj| && 0 <= i < |adj[u]| && adj[u][i].0 < |adj| ==>
         h[u] <= adj[u][i].1 + h[adj[u][i].0]
  }

  /** Along a walk, a consistent heuristic drops by at most the walk's cost. */
  lemma {:induction false} ConsistentAlongWalk(adj: Adj, h: seq<nat>, p: seq<nat>, ws: seq<nat>)
    requires Consistent(adj, h) && IsWalk(adj, p, ws)
    ensures h[p[0]] <= Sum(ws) + h[p[|p| - 1]]
  {
    if |p| > 1 {
      var k := |p| - 1;
      WalkPrefix(adj, p, ws, k);
      ConsistentAlongWalk(adj, h, p[..k], ws[..k - 1]);
      assert ws[..k - 1] == ws[..|ws| - 1];
      var i :| 0 <= i < |adj[p[k - 1]]| && adj[p[k - 1]][i] == (p[k], ws[k - 1]);
      assert h[p[k - 1]] <= ws[k - 1] + h[p[k]];
    }
  }

  /** The zero heuristic (uniform-cost search) is consistent. */
  lemma ZeroConsistent(adj: Adj, h: seq<nat>)
    requires |adj| <= |h| && forall i :: 0 <= i < |h| ==> h[i] == 0
    ensures Consistent(adj, h)
  {
  }
}
