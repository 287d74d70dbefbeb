/** Path reconstruction from a parent vector: `parents[v]` is the node from
    which `v` was reached, `-1` when there is none. Following parents from the
    target back to the source and reversing gives the route. A rank that
    strictly drops from a node to its parent makes the walk back terminate. */
module Chains {

  /** Every recorded parent is a node of lower rank that is itself the source
      or has a parent; the source has none. */
  ghost predicate Linked(parents: seq<int>, rank: seq<nat>, s: nat) {
    && |rank| == |parents|
    && s < |parents|
    && parents[s] == -1
    && forall v :: 0 <= v < |parents| && parents[v] != -1 ==>
         && 0 <= parents[v] < |parents|
         && rank[parents[v]] < rank[v]
         && (parents[v] == s || parents[parents[v]] != -1)
  }

  /** `p` is the chain the reconstruction loops walk: it runs from `s` to `t`,
      and every later node is distinct from `s` and has the node before it as
      its parent. Walking back from `t` therefore reaches `s` after exactly
      `|p| - 1` steps. */
  ghost predicate IsChain(parents: seq<int>, p: seq<nat>, s: nat, t: nat) {
    && |p| >= 1 && p[0] == s && p[|p| - 1] == t
    && (forall j :: 0 <= j < |p| ==> p[j] < |parents|)
    && (forall j :: 0 < j < |p| ==> p[j] != s && parents[p[j]] == p[j - 1])
  }

  /** The nodes from `s` to `v` along parent links, in route order. */
  ghost function PathTo(parents: seq<int>, rank: seq<nat>, s: nat, v: nat): seq<nat>
    requires Linked(parents, rank, s)
    requires v < |parents| && (v == s || parents[v] != -1)
    decreases rank[v]
  {
    if v == s then [s] else PathTo(parents, rank, s, parents[v] as nat) + [v]
  }

  /** The reconstructed route starts at the source, ends at `v`, links each node to its
      predecessor through `parents`, visits the source only at its head and never repeats a node. */
  lemma {:induction false} PathToProps(parents: seq<int>, rank: seq<nat>, s: nat, v: nat)
    requires Linked(parents, rank, s)
    requires v < |parents| && (v == s || parents[v] != -1)
    ensures var r := PathTo(parents, rank, s, v);
      && |r| >= 1 && r[0] == s && r[|r| - 1] == v
      && (forall j :: 0 <= j < |r| ==> r[j] < |parents|)
      && (forall j :: 0 < j < |r| ==> r[j] != s && parents[r[j]] == r[j - 1])
      && (forall i, j :: 0 <= i < j < |r| ==> rank[r[i]] < rank[r[j]])
    decreases rank[v]
  {
    if v != s {
      var u := parents[v] as nat;
      PathToProps(parents, rank, s, u);
      var r' := PathTo(parents, rank, s, u);
      var r := r' + [v];
      assert r == PathTo(parents, rank, s, v);
      forall i, j | 0 <= i < j < |r| ensures rank[r[i]] < rank[r[j]] {
        if j == |r| - 1 {
          assert rank[r[i]] <= rank[r'[|r'| - 1]] by {
            if i < |r'| - 1 { assert rank[r'[i]] < rank[r'[|r'| - 1]]; }
          }
        }
      }
    }
  }

  /** A strictly rank-increasing sequence has no repeated node. */
  lemma RankedNoDup(r: seq<nat>, rank: seq<nat>)
    requires forall j :: 0 <= j < |r| ==> r[j] < |rank|
    requires forall i, j :: 0 <= i < j < |r| ==> rank[r[i]] < rank[r[j]]
    ensures forall i, j :: 0 <= i < j < |r| ==> r[i] != r[j]
  {
  }

  /** The reconstruction loop the searches share: follow parent links from
      the target `t`, pushing each node, until the `-1` of the source `s`, then
      reverse the collected nodes. */
  method TracePath(parents: seq<int>, s: nat, t: nat, ghost p: seq<nat>) returns (path: seq<nat>)
    requires IsChain(parents, p, s, t) && parents[s] == -1
    ensures path == p
  {
    var back: seq<nat> := [];
    var curr: int := t;
    ghost var m: int := |p| - 1;
    while curr != -1
      invariant -1 <= m < |p| && curr == (if m >= 0 then p[m] else -1)
      invariant |back| == |p| - 1 - m && forall i :: 0 <= i < |back| ==> back[i] == p[|p| - 1 - i]
      decreases m
    {
      back := back + [curr as nat];
      if m > 0 {
        assert parents[p[m]] == p[m - 1];
      }
      curr := parents[curr];
      m := m - 1;
    }
    path := Reverse(back);
  }

  /** `std::reverse` on the collected nodes. */
  function Reverse(s: seq<nat>): (r: seq<nat>)
    ensures |r| == |s| && forall i :: 0 <= i < |s| ==> r[i] == s[|s| - 1 - i]
  {
    if |s| == 0 then [] else Reverse(s[1..]) + [s[0]]
  }
}
